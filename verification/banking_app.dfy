/**
 The rules of the banking window's Deposit and Withdraw buttons, once the
 amount field has been parsed. The parse itself (`Double.parseDouble`) is not
 modelled: the handler receives `Some(amount)` or `None` for text that is not
 a number.
 */
module BankingApp {
  import opened Wrappers
  import opened Text
  import opened Ledger

  const InvalidNumberMessage := "Please enter a valid number."
  const InsufficientBalanceMessage := "Insufficient balance."

  /** How Java prints amounts: `amountText` is the `double` concatenated into
      a string, `money` is `String.format("%.2f", …)`. */
  datatype Formats = Formats(amountText: real -> string, money: real -> string)

  /** What the window shows after a button press: a message dialog, or the
      refreshed history area and balance label of `updateUI`. */
  datatype Reaction =
    | Dialog(message: string)
    | Refresh(historyArea: string, balanceLabel: string)

  function BalanceLabel(balance: real, f: Formats): string {
    "Balance: $" + f.money(balance)
  }

  /** `updateUI`: the history area shows `getTransactionHistory` of `a` (the
      placeholder exactly when nothing was recorded), and the label shows
      "Balance: $" and the two-decimal balance. */
  function Refreshed(a: Account, f: Formats): (r: Reaction)
    ensures r.Refresh?
    ensures r.historyArea == HistoryText(a.history, f.amountText)
    ensures r.historyArea == NoTransactionsText <==> a.history == []
    ensures |r.balanceLabel| >= 10 && r.balanceLabel[..10] == "Balance: $"
    ensures r.balanceLabel[10..] == f.money(a.balance)
  {
    Refresh(HistoryText(a.history, f.amountText), BalanceLabel(a.balance, f))
  }

  /** `depositAction`: a parsed amount always goes to `deposit` and the view is
      refreshed; an unparsable one only shows a dialog. */
  function DepositAction(a: Account, parsed: Option<real>, f: Formats): (r: (Account, Reaction))
    ensures parsed.None? ==> r.0 == a && r.1 == Dialog(InvalidNumberMessage)
    ensures parsed.Some? ==> r.0 == Deposit(a, parsed.value) && r.1 == Refreshed(r.0, f)
  {
    match parsed
    case None => (a, Dialog(InvalidNumberMessage))
    case Some(amount) =>
      var b := Deposit(a, amount);
      (b, Refreshed(b, f))
  }

  /** `withdrawAction`: the handler's own check turns away an amount above the
      balance with a dialog before `withdraw` is reached; any other parsed
      amount goes to `withdraw` and the view is refreshed. */
  function WithdrawAction(a: Account, parsed: Option<real>, f: Formats): (r: (Account, Reaction))
    ensures parsed.None? ==> r.0 == a && r.1 == Dialog(InvalidNumberMessage)
    ensures parsed.Some? && parsed.value > a.balance ==>
      r.0 == a && r.1 == Dialog(InsufficientBalanceMessage)
    ensures parsed.Some? && parsed.value <= a.balance ==>
      r.0 == Withdraw(a, parsed.value) && r.1 == Refreshed(r.0, f)
  {
    match parsed
    case None => (a, Dialog(InvalidNumberMessage))
    case Some(amount) =>
      if amount > a.balance then (a, Dialog(InsufficientBalanceMessage))
      else
        var b := Withdraw(a, amount);
        (b, Refreshed(b, f))
  }

  /** A non-positive amount passes the handler's check, reaches `withdraw`,
      and changes nothing there; the view is still refreshed. */
  lemma NonPositiveWithdrawIsNoOp(a: Account, amount: real, f: Formats)
    requires Valid(a)
    requires amount <= 0.0
    ensures WithdrawAction(a, Some(amount), f) == (a, Refreshed(a, f))
  {
  }

  /** The handler's pre-check and the model's own guard agree on the state:
      the account after the button press is exactly what `withdraw` alone
      would leave. Only the feedback differs. */
  lemma WithdrawCheckIsRedundant(a: Account, parsed: Option<real>, f: Formats)
    ensures parsed.Some? ==> WithdrawAction(a, parsed, f).0 == Withdraw(a, parsed.value)
    ensures parsed.None? ==> WithdrawAction(a, parsed, f).0 == a
  {
  }

  /** Each button press keeps the account invariant. */
  lemma ActionsKeepValid(a: Account, parsed: Option<real>, f: Formats)
    requires Valid(a)
    ensures Valid(DepositAction(a, parsed, f).0)
    ensures Valid(WithdrawAction(a, parsed, f).0)
  {
    if parsed.Some? {
      DepositKeepsValid(a, parsed.value);
      WithdrawKeepsValid(a, parsed.value);
    }
  }

  /** A button press on the banking window. */
  datatype Press = DepositPress(parsed: Option<real>) | WithdrawPress(parsed: Option<real>)

  function Handle(a: Account, p: Press, f: Formats): (Account, Reaction) {
    match p
    case DepositPress(x) => DepositAction(a, x, f)
    case WithdrawPress(x) => WithdrawAction(a, x, f)
  }

  /** The account after a series of button presses. */
  function Session(a: Account, ps: seq<Press>, f: Formats): Account
    decreases |ps|
  {
    if ps == [] then a else Session(Handle(a, ps[0], f).0, ps[1..], f)
  }

  /** The calls a series of button presses makes into the account model. */
  function CallsOf(a: Account, ps: seq<Press>, f: Formats): seq<Request>
    decreases |ps|
  {
    if ps == [] then []
    else
      var rest := CallsOf(Handle(a, ps[0], f).0, ps[1..], f);
      match ps[0]
      case DepositPress(Some(x)) => [DepositRequest(x)] + rest
      case WithdrawPress(Some(x)) =>
        if x > a.balance then rest else [WithdrawRequest(x)] + rest
      case _ => rest
  }

  /** Driving the window is the same as calling the model with the calls the
      handlers let through, so every invariant of the model carries over. */
  lemma {:induction false} SessionIsRun(a: Account, ps: seq<Press>, f: Formats)
    ensures Session(a, ps, f) == Run(a, CallsOf(a, ps, f))
    decreases |ps|
  {
    if ps != [] {
      var b := Handle(a, ps[0], f).0;
      SessionIsRun(b, ps[1..], f);
      var rest := CallsOf(b, ps[1..], f);
      match ps[0]
      case DepositPress(Some(x)) =>
        assert ([DepositRequest(x)] + rest)[1..] == rest;
      case WithdrawPress(Some(x)) =>
        assert ([WithdrawRequest(x)] + rest)[1..] == rest;
      case _ =>
    }
  }

  /** From a valid account, any series of presses keeps the invariant. */
  lemma {:induction false} SessionKeepsValid(a: Account, ps: seq<Press>, f: Formats)
    requires Valid(a)
    ensures Valid(Session(a, ps, f))
  {
    SessionIsRun(a, ps, f);
    RunKeepsValid(a, CallsOf(a, ps, f));
  }

  /** The worked example: deposit 100, withdraw 30, try to withdraw 1000. */
  lemma ExampleSession(f: Formats)
    ensures var a := Session(NewAccount,
        [DepositPress(Some(100.0)), WithdrawPress(Some(30.0)), WithdrawPress(Some(1000.0))], f);
      && a.balance == 70.0
      && a.totalDeposits == 100.0
      && a.totalWithdrawals == 30.0
      && a.history == [Transaction(DepositTx, 100.0), Transaction(WithdrawalTx, 30.0)]
  {
    var a1 := DepositAction(NewAccount, Some(100.0), f).0;
    var a2 := WithdrawAction(a1, Some(30.0), f).0;
    var a3 := WithdrawAction(a2, Some(1000.0), f).0;
    assert a3 == a2;
  }
}
