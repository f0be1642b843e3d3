/**
 The account ledger of the banking application: a balance, running totals
 of deposits and withdrawals, and the ordered transaction history.

 The source keeps every amount in a binary `double`; this model uses `real`,
 an idealisation in which addition and subtraction are exact.
 */
module Ledger {
  import opened Text

  /** The `type` string of a transaction: "Deposit" or "Withdrawal". */
  datatype TxType = DepositTx | WithdrawalTx {
    function Name(): (s: string)
      ensures s == "Deposit" || s == "Withdrawal"
      ensures (s == "Deposit") <==> this == DepositTx
    {
      match this
      case DepositTx => "Deposit"
      case WithdrawalTx => "Withdrawal"
    }
  }

  datatype Transaction = Transaction(txType: TxType, amount: real)

  datatype Account = Account(
    balance: real,
    totalDeposits: real,
    totalWithdrawals: real,
    history: seq<Transaction>)

  /** The state the `Account` constructor creates. */
  const NewAccount := Account(0.0, 0.0, 0.0, [])

  /** Sum of the amounts of the transactions of one type. */
  function TypeTotal(h: seq<Transaction>, t: TxType): real
  {
    if h == [] then 0.0
    else (if h[0].txType == t then h[0].amount else 0.0) + TypeTotal(h[1..], t)
  }

  /** The account invariant: every recorded amount is positive, each total is
      the sum of its transactions, the balance is their difference and never
      negative. */
  predicate Valid(a: Account) {
    && (forall i :: 0 <= i < |a.history| ==> a.history[i].amount > 0.0)
    && a.totalDeposits == TypeTotal(a.history, DepositTx)
    && a.totalWithdrawals == TypeTotal(a.history, WithdrawalTx)
    && a.balance == a.totalDeposits - a.totalWithdrawals
    && a.balance >= 0.0
  }

  /** `Account.deposit`: a positive amount is added to the balance and the
      deposit total and recorded once; any other amount is ignored. */
  function Deposit(a: Account, amount: real): (r: Account)
    ensures amount > 0.0 ==>
      && r.balance == a.balance + amount
      && r.totalDeposits == a.totalDeposits + amount
      && r.totalWithdrawals == a.totalWithdrawals
      && r.history == a.history + [Transaction(DepositTx, amount)]
    ensures amount <= 0.0 ==> r == a
  {
    if amount > 0.0 then
      Account(a.balance + amount, a.totalDeposits + amount, a.totalWithdrawals,
              a.history + [Transaction(DepositTx, amount)])
    else a
  }

  /** `Account.withdraw`: an amount in (0, balance] is taken from the balance,
      added to the withdrawal total and recorded once; any other amount is
      ignored. */
  function Withdraw(a: Account, amount: real): (r: Account)
    ensures 0.0 < amount <= a.balance ==>
      && r.balance == a.balance - amount
      && r.totalDeposits == a.totalDeposits
      && r.totalWithdrawals == a.totalWithdrawals + amount
      && r.history == a.history + [Transaction(WithdrawalTx, amount)]
    ensures !(0.0 < amount <= a.balance) ==> r == a
  {
    if amount > 0.0 && amount <= a.balance then
      Account(a.balance - amount, a.totalDeposits, a.totalWithdrawals + amount,
              a.history + [Transaction(WithdrawalTx, amount)])
    else a
  }

  lemma {:induction false} TypeTotalAppend(h: seq<Transaction>, x: Transaction, t: TxType)
    ensures TypeTotal(h + [x], t) == TypeTotal(h, t) + (if x.txType == t then x.amount else 0.0)
  {
    if h != [] {
      assert (h + [x])[0] == h[0];
      assert (h + [x])[1..] == h[1..] + [x];
      TypeTotalAppend(h[1..], x, t);
    } else {
      assert [x][1..] == [];
    }
  }

  lemma {:induction false} TypeTotalNonNegative(h: seq<Transaction>, t: TxType)
    requires forall i :: 0 <= i < |h| ==> h[i].amount > 0.0
    ensures TypeTotal(h, t) >= 0.0
  {
    if h != [] {
      TypeTotalNonNegative(h[1..], t);
    }
  }

  /** The invariant implies both totals are non-negative. */
  lemma ValidTotals(a: Account)
    requires Valid(a)
    ensures a.totalDeposits >= 0.0 && a.totalWithdrawals >= 0.0
    ensures a.balance == a.totalDeposits - a.totalWithdrawals && a.balance >= 0.0
  {
    TypeTotalNonNegative(a.history, DepositTx);
    TypeTotalNonNegative(a.history, WithdrawalTx);
  }

  lemma NewAccountValid()
    ensures Valid(NewAccount) && NewAccount.history == []
  {
  }

  lemma DepositKeepsValid(a: Account, amount: real)
    requires Valid(a)
    ensures Valid(Deposit(a, amount))
  {
    if amount > 0.0 {
      var x := Transaction(DepositTx, amount);
      TypeTotalAppend(a.history, x, DepositTx);
      TypeTotalAppend(a.history, x, WithdrawalTx);
    }
  }

  lemma WithdrawKeepsValid(a: Account, amount: real)
    requires Valid(a)
    ensures Valid(Withdraw(a, amount))
  {
    if 0.0 < amount <= a.balance {
      var x := Transaction(WithdrawalTx, amount);
      TypeTotalAppend(a.history, x, DepositTx);
      TypeTotalAppend(a.history, x, WithdrawalTx);
    }
  }

  // ---------------------------------------------------------------------
  // Sequences of calls

  /** One call into the model: `deposit(amount)` or `withdraw(amount)`. */
  datatype Request = DepositRequest(amount: real) | WithdrawRequest(amount: real)

  /** Whether the model's own guard lets the call through in state `a`. */
  predicate Accepts(a: Account, q: Request) {
    match q
    case DepositRequest(x) => x > 0.0
    case WithdrawRequest(x) => 0.0 < x <= a.balance
  }

  /** The transaction an accepted call records. */
  function RecordOf(q: Request): Transaction {
    match q
    case DepositRequest(x) => Transaction(DepositTx, x)
    case WithdrawRequest(x) => Transaction(WithdrawalTx, x)
  }

  function Step(a: Account, q: Request): (r: Account)
    ensures Accepts(a, q) ==> r.history == a.history + [RecordOf(q)]
    ensures !Accepts(a, q) ==> r == a
  {
    match q
    case DepositRequest(x) => Deposit(a, x)
    case WithdrawRequest(x) => Withdraw(a, x)
  }

  function Run(a: Account, qs: seq<Request>): Account
    decreases |qs|
  {
    if qs == [] then a else Run(Step(a, qs[0]), qs[1..])
  }

  /** How many calls of `qs`, made in order from `a`, pass their guard. */
  function AcceptedCount(a: Account, qs: seq<Request>): nat
    decreases |qs|
  {
    if qs == [] then 0
    else (if Accepts(a, qs[0]) then 1 else 0) + AcceptedCount(Step(a, qs[0]), qs[1..])
  }

  /** The records of the calls of `qs` that pass their guard, in call order. */
  function AcceptedRecords(a: Account, qs: seq<Request>): seq<Transaction>
    decreases |qs|
  {
    if qs == [] then []
    else
      (if Accepts(a, qs[0]) then [RecordOf(qs[0])] else []) + AcceptedRecords(Step(a, qs[0]), qs[1..])
  }

  /** One record per accepted call. */
  lemma {:induction false} AcceptedRecordsCount(a: Account, qs: seq<Request>)
    ensures |AcceptedRecords(a, qs)| == AcceptedCount(a, qs)
    decreases |qs|
  {
    if qs != [] {
      AcceptedRecordsCount(Step(a, qs[0]), qs[1..]);
    }
  }

  /** Every call that passes its guard records a positive amount. */
  lemma {:induction false} AcceptedRecordsPositive(a: Account, qs: seq<Request>)
    ensures forall i :: 0 <= i < |AcceptedRecords(a, qs)| ==> AcceptedRecords(a, qs)[i].amount > 0.0
    decreases |qs|
  {
    if qs != [] {
      var head := if Accepts(a, qs[0]) then [RecordOf(qs[0])] else [];
      var tail := AcceptedRecords(Step(a, qs[0]), qs[1..]);
      AcceptedRecordsPositive(Step(a, qs[0]), qs[1..]);
      var ts := AcceptedRecords(a, qs);
      assert ts == head + tail;
      forall i | 0 <= i < |ts|
        ensures ts[i].amount > 0.0
      {
        if Accepts(a, qs[0]) && i == 0 {
          assert ts[i] == RecordOf(qs[0]);
        } else {
          assert ts[i] == tail[i - |head|];
        }
      }
    }
  }

  /** Every sequence of calls keeps the account invariant. */
  lemma {:induction false} RunKeepsValid(a: Account, qs: seq<Request>)
    requires Valid(a)
    ensures Valid(Run(a, qs))
    decreases |qs|
  {
    if qs != [] {
      match qs[0] {
        case DepositRequest(x) => DepositKeepsValid(a, x);
        case WithdrawRequest(x) => WithdrawKeepsValid(a, x);
      }
      RunKeepsValid(Step(a, qs[0]), qs[1..]);
    }
  }

  /** From any valid state, any sequence of calls leaves
      balance == deposits - withdrawals, a non-negative balance and
      non-negative totals. */
  lemma RunTotals(a: Account, qs: seq<Request>)
    requires Valid(a)
    ensures var b := Run(a, qs);
      && b.balance == b.totalDeposits - b.totalWithdrawals
      && b.balance >= 0.0
      && b.totalDeposits >= 0.0 && b.totalWithdrawals >= 0.0
  {
    RunKeepsValid(a, qs);
    ValidTotals(Run(a, qs));
  }

  /** In particular this holds from the constructor state. */
  lemma FromNewAccount(qs: seq<Request>)
    ensures var a := Run(NewAccount, qs);
      && a.balance == a.totalDeposits - a.totalWithdrawals
      && a.balance >= 0.0
      && a.totalDeposits >= 0.0 && a.totalWithdrawals >= 0.0
  {
    NewAccountValid();
    RunTotals(NewAccount, qs);
  }

  /** The history only grows, and what is added is exactly the records of the
      accepted calls, in call order: one entry per accepted call, none for a
      rejected one. */
  lemma {:induction false} RunHistory(a: Account, qs: seq<Request>)
    ensures Run(a, qs).history == a.history + AcceptedRecords(a, qs)
    ensures |Run(a, qs).history| == |a.history| + AcceptedCount(a, qs)
    decreases |qs|
  {
    AcceptedRecordsCount(a, qs);
    if qs != [] {
      RunHistory(Step(a, qs[0]), qs[1..]);
    }
  }

  /** Starting from a state with no history, the history is exactly the
      accepted calls' records, in call order, each with a positive amount. */
  lemma CleanRunHistory(a: Account, qs: seq<Request>)
    requires a.history == []
    ensures var h := Run(a, qs).history;
      && h == AcceptedRecords(a, qs)
      && |h| == AcceptedCount(a, qs)
      && forall i :: 0 <= i < |h| ==> h[i].amount > 0.0
  {
    RunHistory(a, qs);
    AcceptedRecordsPositive(a, qs);
    assert a.history + AcceptedRecords(a, qs) == AcceptedRecords(a, qs);
  }

  /** In particular this holds from the constructor state. */
  lemma FromNewAccountHistory(qs: seq<Request>)
    ensures var h := Run(NewAccount, qs).history;
      && h == AcceptedRecords(NewAccount, qs)
      && |h| == AcceptedCount(NewAccount, qs)
      && forall i :: 0 <= i < |h| ==> h[i].amount > 0.0
  {
    CleanRunHistory(NewAccount, qs);
  }

  // ---------------------------------------------------------------------
  // Rendering

  const NoTransactionsText := "No transactions yet."

  /** `Transaction.toString`: the type, ": $", and the amount as Java prints a
      `double`. That text is given by `amountText`. */
  function RenderTransaction(x: Transaction, amountText: real -> string): (s: string)
    ensures |s| >= |x.txType.Name()| + 3
    ensures s[..|x.txType.Name()| + 3] == x.txType.Name() + ": $"
  {
    x.txType.Name() + ": $" + amountText(x.amount)
  }

  function RenderAll(h: seq<Transaction>, amountText: real -> string): (lines: seq<string>)
    ensures |lines| == |h|
    ensures forall i :: 0 <= i < |h| ==> lines[i] == RenderTransaction(h[i], amountText)
  {
    seq(|h|, i requires 0 <= i < |h| => RenderTransaction(h[i], amountText))
  }

  /** `Account.getTransactionHistory`. The placeholder is returned exactly
      when the history is empty; otherwise each transaction's text followed
      by "\n", in order. */
  function HistoryText(h: seq<Transaction>, amountText: real -> string): (r: string)
    ensures r == NoTransactionsText <==> h == []
    ensures h != [] ==> r == Terminated(RenderAll(h, amountText))
  {
    if h == [] then NoTransactionsText
    else
      var r := Terminated(RenderAll(h, amountText));
      assert r[|r| - 1] != NoTransactionsText[|NoTransactionsText| - 1];
      r
  }

  /** The `StringBuilder` loop of `getTransactionHistory`. */
  method BuildHistory(h: seq<Transaction>, amountText: real -> string) returns (text: string)
    ensures text == HistoryText(h, amountText)
  {
    if h == [] {
      return NoTransactionsText;
    }
    text := AppendLines(RenderAll(h, amountText));
  }

  ghost predicate NoNewlineAmounts(amountText: real -> string) {
    forall x :: HasNoNewline(amountText(x))
  }

  /** When amounts print on one line, the history text splits back into one
      line per transaction, each starting with its type. */
  lemma HistoryLines(h: seq<Transaction>, amountText: real -> string)
    requires h != []
    requires NoNewlineAmounts(amountText)
    ensures var lines := SplitLines(HistoryText(h, amountText));
      && |lines| == |h|
      && forall i :: 0 <= i < |h| ==> lines[i] == RenderTransaction(h[i], amountText)
  {
    var lines := RenderAll(h, amountText);
    forall j | 0 <= j < |lines|
      ensures HasNoNewline(lines[j])
    {
      var n := h[j].txType.Name();
      assert HasNoNewline(amountText(h[j].amount));
      assert lines[j] == n + ": $" + amountText(h[j].amount);
    }
    SplitTerminated(lines);
  }

  /** `Account.getTransactionSummary`; the two-decimal rendering of `%.2f` is
      given by `money`. */
  function SummaryText(a: Account, money: real -> string): string
  {
    "Total Deposits: $" + money(a.totalDeposits) + "\n" +
    "Total Withdrawals: $" + money(a.totalWithdrawals) + "\n" +
    "Final Balance: $" + money(a.balance)
  }

  /** The summary is three lines: deposits, withdrawals, balance. */
  lemma SummaryLines(a: Account, money: real -> string)
    requires NoNewlineAmounts(money)
    ensures SplitLines(SummaryText(a, money)) == [
      "Total Deposits: $" + money(a.totalDeposits),
      "Total Withdrawals: $" + money(a.totalWithdrawals),
      "Final Balance: $" + money(a.balance)]
  {
    var l1 := "Total Deposits: $" + money(a.totalDeposits);
    var l2 := "Total Withdrawals: $" + money(a.totalWithdrawals);
    var l3 := "Final Balance: $" + money(a.balance);
    assert HasNoNewline(money(a.totalDeposits));
    assert HasNoNewline(money(a.totalWithdrawals));
    assert HasNoNewline(money(a.balance));
    assert HasNoNewline(l1) && HasNoNewline(l2) && HasNoNewline(l3);
    assert SummaryText(a, money) == l1 + "\n" + (l2 + "\n" + l3);
    SplitLinesCons(l1, l2 + "\n" + l3);
    SplitLinesCons(l2, l3);
    SplitLinesSingle(l3);
  }
}
