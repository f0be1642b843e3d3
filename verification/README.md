# Banking ledger and job-portal registry, in Dafny

This project models the logic of two small desktop programs. The window code
around that logic is left out.

* **Banking application** (`BankingAppGUI.java`). An `Account` holds a balance,
  a running total of deposits, a running total of withdrawals, and an ordered
  list of `Transaction` records. `deposit` and `withdraw` are guarded updates.
  `getTransactionHistory` and `getTransactionSummary` render the state as text.
  The Deposit and Withdraw buttons forward an already-parsed amount into the
  account. The Withdraw button first applies its own "Insufficient balance"
  check.
* **Job portal** (`JobPortalAWT.java`). The state is two ordered string lists:
  job titles and application records. Each of the five buttons (Post Job,
  View Jobs, Apply for Job, View Applications, Clear Output) is a pure
  transition. It returns the new registry and the lines it appends to the
  output area. Clear Output empties that area instead.

Files:

* `text.dfy` (module `Text`): Java's `String.trim`, which strips characters
  at or below U+0020 from both ends. It also holds the "append each line and a
  `\n`" text used by the `StringBuilder` and the `TextArea`, a line splitter
  that inverts it, and the decimal rendering of the `int` in the job listing.
* `wrappers.dfy` (module `Wrappers`): `Option`, the result of parsing the
  amount field.
* `ledger.dfy` (module `Ledger`): `Transaction`, `Account`, `deposit`,
  `withdraw`, and the history and summary texts. It also states the account
  invariant and proves it over any sequence of calls.
* `banking_app.dfy` (module `BankingApp`): the `depositAction` /
  `withdrawAction` rules, `updateUI`, and series of button presses.
* `job_portal.dfy` (module `JobPortal`): the registry, the five button rules,
  the output area, and the registry invariant.

Amounts are Dafny `real`. This is an idealisation of Java's binary `double`:
the model's additions and subtractions are exact. Two texts that Java produces
from a `double` are not modelled. These are the amount inside
`Transaction.toString` and `String.format("%.2f", …)`. Each one is a function
parameter (`amountText`, `money`), and the proofs hold for every such function.

## Model

| member | source | states |
|---|---|---|
| Text.Trim | JobPortalAWT.java:81 | `trim` leaves no removable character (<= U+0020) at either end, and it is empty exactly when every character of the field is removable |
| Text.TrimPadded | JobPortalAWT.java:105-106 | a non-empty trimmed text surrounded by removable characters trims back to itself |
| Text.TrimIdempotent | JobPortalAWT.java:81 | trimming an already trimmed title changes nothing |
| Text.AppendLines | BankingAppGUI.java:77-81 | the append loop yields every line followed by "\n", in order |
| Text.TerminatedAppend | JobPortalAWT.java:97-99 | appending one block of lines after another is the same as appending the joined block |
| Text.SplitTerminated | BankingAppGUI.java:78-79 | splitting the appended text at "\n" gives back exactly the lines that were appended, if none of them contains a line break |
| Text.TerminatedSplit | BankingAppGUI.java:78-79 | conversely, a text ending in "\n" is rebuilt exactly from its split lines |
| Text.NatToDecimal | JobPortalAWT.java:98 | the number `i + 1` prints as a non-empty run of digits with no leading zero |
| Text.DecimalRoundTrip | JobPortalAWT.java:98 | reading the printed number back gives the number |
| Text.NatToDecimalInjective | JobPortalAWT.java:98 | different postings get different printed numbers |
| Ledger.Deposit | BankingAppGUI.java:45-51 | a positive amount raises the balance and the deposit total by that amount, keeps the withdrawal total, and appends one "Deposit" record with that amount; any other amount changes nothing |
| Ledger.Withdraw | BankingAppGUI.java:53-59 | an amount in (0, balance] lowers the balance, raises the withdrawal total, keeps the deposit total, and appends one "Withdrawal" record; any other amount changes nothing |
| Ledger.NewAccountValid | BankingAppGUI.java:38-43 | the constructor state satisfies the account invariant and has an empty history |
| Ledger.ValidTotals | BankingAppGUI.java:33-35 | under the invariant both totals are non-negative, the balance is their difference, and it is non-negative |
| Ledger.DepositKeepsValid | BankingAppGUI.java:45-51 | `deposit` keeps the invariant: positive amounts, totals equal to the per-type sums of the history, balance = deposits − withdrawals >= 0 |
| Ledger.WithdrawKeepsValid | BankingAppGUI.java:53-59 | `withdraw` keeps the same invariant |
| Ledger.Step | BankingAppGUI.java:45-58 | an accepted call appends exactly its own record to the history; a rejected call leaves the whole account unchanged |
| Ledger.RunKeepsValid | BankingAppGUI.java:45-59 | any sequence of deposit/withdraw calls keeps the invariant |
| Ledger.RunTotals | BankingAppGUI.java:45-59 | after any sequence of calls from a valid state, balance == deposits − withdrawals, the balance is >= 0 and both totals are >= 0 |
| Ledger.FromNewAccount | BankingAppGUI.java:38-59 | the same holds for every sequence of calls made from the constructor state |
| Ledger.AcceptedRecordsCount | BankingAppGUI.java:45-58 | the accepted calls of a sequence leave exactly one record each |
| Ledger.AcceptedRecordsPositive | BankingAppGUI.java:46-57 | every record an accepted call leaves has an amount > 0, because both guards demand a positive amount |
| Ledger.RunHistory | BankingAppGUI.java:49-57 | after any sequence of calls the history is the old history followed by exactly the records of the accepted calls, in call order. A rejected call leaves no record. The history grows by the number of accepted calls |
| Ledger.CleanRunHistory | BankingAppGUI.java:45-58 | from an account with no history, the history is exactly the accepted calls' records in call order, one per accepted call, each with a positive amount |
| Ledger.FromNewAccountHistory | BankingAppGUI.java:38-58 | the same holds from the constructor state |
| Ledger.RenderTransaction | BankingAppGUI.java:26-28 | a transaction renders as its type name followed by ": $" and then its amount |
| Ledger.HistoryText | BankingAppGUI.java:73-82 | the text is "No transactions yet." exactly when the history is empty; otherwise it is each transaction's text followed by "\n", in order |
| Ledger.BuildHistory | BankingAppGUI.java:73-82 | the `StringBuilder` loop computes that same text |
| Ledger.HistoryLines | BankingAppGUI.java:77-81 | the history text splits into one line per transaction, in history order |
| Ledger.SummaryLines | BankingAppGUI.java:84-88 | the summary is three lines: total deposits, total withdrawals, final balance |
| BankingApp.Refreshed | BankingAppGUI.java:198-201 | the history area shows `getTransactionHistory` of the account, which is the placeholder exactly when the history is empty. The balance label is "Balance: $" followed by the two-decimal balance |
| BankingApp.DepositAction | BankingAppGUI.java:166-174 | a parsed amount always reaches `deposit`, and the view is then refreshed from the account after the deposit. An unparsable amount only shows the "valid number" dialog |
| BankingApp.WithdrawAction | BankingAppGUI.java:177-189 | an amount above the balance never reaches `withdraw`: it shows "Insufficient balance." and leaves the account unchanged. Any other parsed amount reaches `withdraw`, and the view is then refreshed from the account after the call |
| BankingApp.NonPositiveWithdrawIsNoOp | BankingAppGUI.java:180-184 | on a valid account a non-positive amount passes the handler check, is a no-op in `withdraw`, and the view is refreshed |
| BankingApp.WithdrawCheckIsRedundant | BankingAppGUI.java:180-183 | the handler's pre-check never changes the resulting account; it only changes the feedback |
| BankingApp.ActionsKeepValid | BankingAppGUI.java:166-189 | both button handlers keep the account invariant |
| BankingApp.SessionIsRun | BankingAppGUI.java:166-189 | a series of button presses leaves the account that the direct model calls it makes would leave |
| BankingApp.SessionKeepsValid | BankingAppGUI.java:166-189 | any series of Deposit/Withdraw presses keeps the invariant |
| BankingApp.ExampleSession | BankingAppGUI.java:45-59 | deposit 100, withdraw 30, withdraw 1000 leaves balance 70, deposits 100, withdrawals 30, and two history records |
| JobPortal.PostJob | JobPortalAWT.java:80-89 | a non-empty trimmed title is appended once with a success line. An empty one leaves the registry unchanged (if and only if) and writes the error line. Applications never change |
| JobPortal.PostTwiceKeepsBoth | JobPortalAWT.java:82-83 | posting the same title twice stores two equal entries |
| JobPortal.ApplyForJob | JobPortalAWT.java:104-120 | with both trimmed fields non-empty and the title posted, exactly one record `name + " applied for: " + title` is appended. Otherwise the registry is unchanged, with the missing-field or not-found error line. Postings never change |
| JobPortal.NumberedLine | JobPortalAWT.java:98 | the listing line of posting `i` is the number `i + 1`, then ". ", then the title |
| JobPortal.NumberedListing | JobPortalAWT.java:97-99 | the listing loop produces one line per posting, numbered from 1, in insertion order |
| JobPortal.JobsView | JobPortalAWT.java:92-101 | View Jobs writes a blank line and the heading. Then it writes the "No jobs available at the moment." placeholder exactly when there are no postings, and otherwise one numbered line per posting in insertion order |
| JobPortal.ApplicationsView | JobPortalAWT.java:123-131 | View Applications writes a blank line and the heading, then the placeholder when there are no applications and otherwise every record in insertion order |
| JobPortal.JobsViewInjective | JobPortalAWT.java:92-101 | the job listing determines the posting list: equal listings mean equal lists |
| JobPortal.JobsTextLines | JobPortalAWT.java:93-99 | the text View Jobs appends splits back into exactly the listing's lines |
| JobPortal.ApplicationsTextLines | JobPortalAWT.java:123-131 | when no record contains a line break, the text View Applications appends splits back into exactly the heading lines and the records |
| JobPortal.Handle | JobPortalAWT.java:78-132 | only Post Job changes the postings, only Apply changes the applications, and the two views change nothing |
| JobPortal.Press | JobPortalAWT.java:78-138 | Clear Output empties the output and keeps the registry; every other button only appends to the output. Each list either stays the same or grows by one entry at the end |
| JobPortal.PostJobKeepsWellFormed | JobPortalAWT.java:80-88 | posting keeps the registry invariant: titles are non-empty and trimmed, and every application names a posted title |
| JobPortal.ApplyKeepsWellFormed | JobPortalAWT.java:104-113 | applying keeps the registry invariant |
| JobPortal.PressKeepsWellFormed | JobPortalAWT.java:78-138 | every button press keeps the registry invariant |
| JobPortal.SessionKeepsWellFormed | JobPortalAWT.java:78-138 | over any series of presses the invariant holds, and both lists are append-only |
| JobPortal.EmptyRegistryWellFormed | JobPortalAWT.java:8-9 | the two empty lists the window starts with satisfy the registry invariant |
| JobPortal.FromEmptyRegistry | JobPortalAWT.java:8-138 | from the starting window, the registry invariant holds after any series of presses |
| JobPortal.PostThenApply | JobPortalAWT.java:80-120 | a blank title is refused. A posted title accepts one application, `name applied for: title`. An application for a title never posted is refused |

## Left out

- All Swing/AWT code: frames, layouts, listener registration, `JOptionPane`, window listeners, `main` / `invokeLater`. A dialog is modelled only as the message it would show.
- `Double.parseDouble` and its `NumberFormatException`. The handlers take an `Option<real>` instead: `None` stands for text that does not parse.
- Ledger.Deposit: amounts are exact `real`s, so `double` rounding, NaN and infinities are not modelled. For example, a parsed "NaN" fails every comparison in the source and is a no-op. A parsed "Infinity" would be accepted by `deposit`.
- Ledger.Withdraw: the same idealisation of `double` arithmetic as for `Deposit`.
- Ledger.RenderTransaction: Java's text for a `double` is the parameter `amountText`. The contract fixes only the "Type: $" prefix.
- Ledger.SummaryLines: `String.format("%.2f", …)` is the parameter `money`. The lemma assumes its output has no line break.
- BankingApp.Refreshed: the digits of the balance label come from the `money` parameter, which stands for `String.format("%.2f", …)`. The contract fixes the label as "Balance: $" followed by that text.
- `showTransactionSummary` only shows `getTransactionSummary` in a dialog. It changes no state, so `SummaryText` stands for it.
- Clearing the text fields after a successful Deposit, Withdraw, Post Job or Apply is not modelled. The fields are inputs to each press.
- Dafny `char` is a Unicode scalar value and Java `char` is a UTF-16 unit. `trim` depends only on characters at or below U+0020, so the difference does not matter here.

## Notes on the code's behaviour

- The balance label is refreshed only when a handler has called the model. After the "Insufficient balance." dialog and after the "Please enter a valid number." dialog, the code does not call `updateUI` (BankingAppGUI.java:180-187). In those cases `WithdrawAction` and `DepositAction` return only the dialog.
- Apply for Job compares the trimmed fields. A field of spaces therefore counts as empty, and the title it looks up is the trimmed one (JobPortalAWT.java:105-109).
