# Log analyser aggregation core, in Dafny

This project models the core of a Java transaction-log analyser. The
analyser reads log files whose lines look like

    [2025-01-15 10:00:00] alice withdrew 50
    [2025-01-15 10:05:00] alice balance inquiry 100
    [2025-01-15 10:10:00] alice transferred 20 to bob

It turns every line the log pattern matches into a `Transaction`, or ends
the whole run with an error when the matched line's timestamp, amount or
recipient is rejected. It folds those transactions, in file order and line
order, into a registry of user accounts. Each account has a balance and a
history ordered by timestamp. It then builds one output file per account:
the history, one line per transaction, followed by a final-balance line.

The modules follow the Java classes:

- `Text`, `Decimals`, `Timestamps`: the value formats the program relies on.
  - `Text`: digit strings and `trim().isEmpty()`.
  - `Decimals`: `BigDecimal` as an unscaled integer and a scale, with
    `stripTrailingZeros().toPlainString()` and `new BigDecimal(String)`.
  - `Timestamps`: `LocalDateTime` with the `yyyy-MM-dd HH:mm:ss` pattern.
- `Transactions`: the `Transaction` value object.
  - Its validating constructor.
  - `toString`.
  - `equals`, which compares amounts numerically.
  - `compareTo`, which compares timestamps only.
- `LineParser`: `parseLine` and the grammar of its regular expression.
  - `LineMatches` and `Selected` define the grammar and which match the
    lazy groups pick.
  - `Split` is a deterministic splitter, proved to find exactly the
    selected match.
- `Ledger`: the `User` account.
  - Balance operations.
  - The `TreeSet` history as a strictly sorted sequence.
  - `getTransactionLogs`.
- `Hashing`: `Transaction.hashCode`, as written and corrected.
- `Aggregation`: `UserLogsAggregator`.
  - `processTransaction` and its three handlers, over a
    `map<string, Account>` registry.
  - `processFile`'s parse, filter and fold over lines.
  - The fold over a stream of files.
- `Writer`: the pure part of `LogWriter`.
  - The file name of each account.
  - The user name recovered from it.
  - The lines written into it.
  - The argument checks of `initialize`.

Amounts are exact. A transaction's amount is a `Decimal`. A balance is the
`real` number its operations produce, because `BigDecimal` addition and
subtraction are exact.

The aggregator's handlers catch an `IllegalStateException` that the account
class shown never throws. A stricter account class, which is not part of
this model, may throw it when a withdrawal or transfer is refused. `Ledger.Rules`
says which refusals apply (overdraft, transfer to oneself), and every
aggregation function takes the rules as a parameter. `Ledger.Permissive`
is the account class shown, which refuses nothing.

## Model

| member | source | states |
|---|---|---|
| Transactions.New | src/main/java/org/webbee/model/Transaction.java:56-75 | Construction fails exactly when the amount is not positive, or the operation is a transfer whose recipient is null or blank after trimming. The amount check comes first. A constructed inquiry or withdrawal stores no recipient, whatever was passed. |
| Transactions.ValidIsConstructible | src/main/java/org/webbee/model/Transaction.java:61-74 | Every transaction that satisfies the constructor's invariant is exactly what the constructor builds from its own fields. |
| Transactions.EqualIffSameCanonical | src/main/java/org/webbee/model/Transaction.java:132-136 | `equals` holds exactly when the two transactions agree once their amounts have trailing zeros stripped. The scale is the only thing it ignores. |
| Transactions.EqualIsEquivalence | src/main/java/org/webbee/model/Transaction.java:123-137 | `equals` is reflexive, symmetric and transitive. |
| Transactions.EqualIgnoresScale | src/main/java/org/webbee/model/Transaction.java:132-136 | A withdrawal of 5 equals the same withdrawal of 5.00, although the two values differ. |
| Transactions.CompareTo | src/main/java/org/webbee/model/Transaction.java:147-150 | The sign of `compareTo` is the timestamp order. The result is 0 exactly when the timestamps are equal. |
| Transactions.CompareIgnoresAllButTime | src/main/java/org/webbee/model/Transaction.java:147-150 | Two transactions at the same time by different senders compare as 0, yet are not equal. The ordering is not consistent with `equals`. |
| Timestamps.Compare | src/main/java/org/webbee/model/Transaction.java:148-150 | `LocalDateTime.compareTo` is negative, zero or positive exactly as the first time is earlier than, equal to or later than the second. |
| Timestamps.BeforeIsStrictTotalOrder | src/main/java/org/webbee/model/Transaction.java:148-150 | The timestamp order is irreflexive, transitive and total. |
| Timestamps.FormatThenParse | src/main/java/org/webbee/services/LineParser.java:17-18 | A timestamp formatted with `yyyy-MM-dd HH:mm:ss` parses back to itself. |
| Timestamps.ParseThenFormat | src/main/java/org/webbee/services/LineParser.java:48 | Any text that parses is exactly the formatted form of what it parses to. |
| Decimals.NumEqIffSameStripped | src/main/java/org/webbee/model/Transaction.java:133 | Two amounts compare as 0 exactly when they strip to the same amount. |
| Decimals.NumEqIsSameValue | src/main/java/org/webbee/model/Transaction.java:133 | Two amounts compare as 0 exactly when they denote the same number. |
| Decimals.ParsePlain | src/main/java/org/webbee/model/Transaction.java:109 | The plain text of a non-negative amount is amount text the log pattern accepts. `new BigDecimal` reads it back as the stripped amount, which compares as 0 with the original. |
| LineParser.ParseLineFollowsGrammar | src/main/java/org/webbee/services/LineParser.java:31-46 | `parseLine` returns null exactly when no groups match the line. Otherwise it reads the match the lazy groups select. |
| LineParser.SplitIsSelected | src/main/java/org/webbee/services/LineParser.java:31-33 | The splitter reports the selected match (the timestamp group ends earliest, then the user group), and nothing when no match exists. |
| LineParser.SelectedUnique | src/main/java/org/webbee/services/LineParser.java:31-33 | A line has at most one selected match. |
| LineParser.MatchedLineOutcome | src/main/java/org/webbee/services/LineParser.java:48-61 | On a matched line, a timestamp that does not parse throws. Otherwise a zero amount, or a transfer without `to <name>`, throws. Otherwise the line yields a transaction, and the recipient is dropped unless the verb is `transferred`. |
| LineParser.ParsedIsValid | src/main/java/org/webbee/services/LineParser.java:53-61 | Every transaction `parseLine` yields satisfies the constructor's invariant. |
| LineParser.UnbracketedIsSkipped | src/main/java/org/webbee/services/LineParser.java:43-46 | A line that does not open with `[` yields no transaction and no exception. |
| LineParser.RenderThenParse | src/main/java/org/webbee/model/Transaction.java:103-117 | Parsing `toString` of a valid transaction whose sender is non-empty and free of spaces and line terminators, and whose recipient has no line terminator, gives back a transaction equal to it: the same one with its amount stripped. |
| Ledger.NewAccount | src/main/java/org/Webbee/model/User.java:13-16 | A new account carries its name, a zero balance and an empty history, which is trivially sorted. |
| Ledger.InsertSorted | src/main/java/org/Webbee/model/User.java:43-45 | Adding to a strictly time-sorted history keeps it strictly sorted. |
| Ledger.InsertContents | src/main/java/org/Webbee/model/User.java:43-45 | Adding never removes an entry. The new transaction is added exactly when its timestamp is new. |
| Ledger.InsertSameTime | src/main/java/org/Webbee/model/User.java:43-45 | Adding a transaction whose timestamp is already in the history leaves the history unchanged, however much the two differ. |
| Ledger.InsertIsSortedUnion | src/main/java/org/Webbee/model/User.java:11 | When the timestamp is new, the history after adding is the only sorted listing of the old entries plus the new one. |
| Ledger.LogsCopiesHistory | src/main/java/org/Webbee/model/User.java:26-28 | The copy `getTransactionLogs` returns lists the history in the same order. |
| Ledger.InquiryOverwrites | src/main/java/org/Webbee/model/User.java:30-32 | After an inquiry the balance is the reported amount, and the earlier balance has no effect. |
| Ledger.Withdraw | src/main/java/org/Webbee/model/User.java:39-41 | A withdrawal lowers the balance by exactly the amount. It is refused only when the rules forbid an overdraft and the amount exceeds the balance. |
| Ledger.WithdrawHasNoFloor | src/main/java/org/Webbee/model/User.java:39-41 | Under the account class shown, a new account that withdraws 1 ends at -1. |
| Ledger.Transfer | src/main/java/org/Webbee/model/User.java:34-37 | A transfer is refused exactly when the rules forbid it. When it goes through, it touches only the two accounts and changes no name or history. |
| Ledger.TransferConserves | src/main/java/org/Webbee/model/User.java:34-37 | Between two distinct accounts, the sender loses the amount, the recipient gains it, and their sum is unchanged. |
| Ledger.SelfTransferIsNoOp | src/main/java/org/Webbee/model/User.java:34-37 | A transfer to oneself leaves the registry as it was. |
| Ledger.Record | src/main/java/org/Webbee/model/User.java:43-45 | Adding a transaction changes neither the name nor the balance, and keeps the history sorted. |
| Aggregation.Ensure | src/main/java/org/webbee/services/UserLogsAggregator.java:78 | `putIfAbsent` adds the name to the keys and leaves every existing account untouched. |
| Aggregation.Process | src/main/java/org/webbee/services/UserLogsAggregator.java:73-95 | After a transaction the keys are the old keys plus the sender, plus the recipient for a transfer. The recipient is added even when the transfer is refused. |
| Aggregation.ProcessHistories | src/main/java/org/webbee/services/UserLogsAggregator.java:104-145 | Accounts the transaction does not name are unchanged. Only the sender's history changes. The transaction is added to it only when the operation went through, and never to the recipient's. |
| Aggregation.ProcessBalances | src/main/java/org/webbee/services/UserLogsAggregator.java:104-145 | A refused operation changes no balance. A withdrawal subtracts the amount. An inquiry sets the balance. A transfer moves the amount from sender to recipient, and a self-transfer changes nothing. A sender seen for the first time starts at 0. |
| Aggregation.ProcessConsistent | src/main/java/org/webbee/services/UserLogsAggregator.java:73-145 | Each account stays filed under its own name, with a sorted history that holds only transactions it sent. |
| Aggregation.ProcessAllKeys | src/main/java/org/webbee/services/UserLogsAggregator.java:73-95 | After any sequence of transactions, the registry holds exactly the names those transactions reference, refused or not. |
| Aggregation.ProcessAllConsistent | src/main/java/org/webbee/services/UserLogsAggregator.java:73-145 | The account invariant holds after any sequence of transactions. |
| Aggregation.WithdrawalsSum | src/main/java/org/webbee/services/UserLogsAggregator.java:104-112 | With the account class shown, any run of withdrawals by one user lowers that user's balance by exactly the sum of the amounts. From a fresh account the final balance is `0 - (w1 + ... + wn)`. |
| Aggregation.WithdrawalSwap | src/main/java/org/Webbee/model/User.java:39-41 | Swapping two adjacent withdrawals by the same user leaves that user's final balance unchanged. |
| Aggregation.Collect | src/main/java/org/webbee/services/UserLogsAggregator.java:60-61 | The transactions collected from the lines all satisfy the constructor's invariant. |
| Aggregation.ProcessLinesIsFilterThenFold | src/main/java/org/webbee/services/UserLogsAggregator.java:58-63 | Processing lines one at a time is the same as parsing and filtering them all, then folding the transactions. The first exception ends the run. |
| Aggregation.GarbageIgnored | src/main/java/org/webbee/services/UserLogsAggregator.java:60-62 | Processing lines gives the same result as processing only the lines the pattern matches. |
| Aggregation.GarbageLineIgnored | src/main/java/org/webbee/services/UserLogsAggregator.java:60-62 | Inserting a non-matching line anywhere changes nothing. |
| Aggregation.ProcessLinesAppend | src/main/java/org/webbee/services/UserLogsAggregator.java:58-63 | Processing two runs of lines back to back is processing the first, then the second from where the first ended. |
| Aggregation.StreamOrder | src/main/java/org/webbee/services/UserLogsAggregator.java:41-50 | Aggregating a stream of files is processing all their lines as one stream: files in order, lines in order within each file. |
| Aggregation.AggregateOutcome | src/main/java/org/webbee/services/UserLogsAggregator.java:30-63 | Aggregation fails exactly when some matching line is rejected. Otherwise the accounts are exactly the names referenced, and every account is consistent. |
| Aggregation.RenderedLogReadsBack | src/main/java/org/webbee/services/UserLogsAggregator.java:58-63 | Processing the `toString` lines of reproducible transactions is processing the transactions themselves. |
| Aggregation.RenderedLogReadsBackStripped | src/main/java/org/webbee/services/UserLogsAggregator.java:58-63 | For any transactions whose senders are non-empty and free of spaces and line terminators, and whose recipients have no line terminator, processing their `toString` lines gives `Success` with the fold over the same transactions with their amounts' trailing zeros stripped. The amounts may have any scale. |
| Aggregation.AliceScenario | src/main/java/org/webbee/services/UserLogsAggregator.java:73-145 | alice withdraws 50, reports 100, then transfers 20 to bob. alice ends at 80 with the three transactions in order; bob ends at 20 with no history. |
| Aggregation.AliceScenarioFromLog | src/main/java/org/webbee/services/UserLogsAggregator.java:58-63 | The same day read from one log file, with a non-matching line in it, gives the same registry. |
| Aggregation.LineOrderNotTimeOrder | src/main/java/org/webbee/services/UserLogsAggregator.java:41-63 | Balances follow line order, not timestamp order. An inquiry of 100 read before an earlier withdrawal of 40 leaves 60; read in the other order it leaves 100. The history is time-sorted either way. |
| Writer.LastIndexOf | src/main/java/org/webbee/services/LogWriter.java:105 | `lastIndexOf` gives the position of the last occurrence, or -1 when there is none. |
| Writer.UserNameOf | src/main/java/org/webbee/services/LogWriter.java:105 | The user name is the prefix before the last point. A file name without a point makes `substring` throw. |
| Writer.FileNameRoundTrip | src/main/java/org/webbee/services/LogWriter.java:77 | The user name recovered from `key + ".log"` is the key itself, even when the key contains points. |
| Hashing.HashOfFive | src/main/java/org/webbee/model/Transaction.java:141 | `Objects.hash` of five fields is the polynomial in 31 with 31^5 as its constant term, reduced once to a Java `int`. Reducing after every step, as the `int` arithmetic does, gives the same value. |
| Hashing.SmallDecimalHash | src/main/java/org/webbee/model/Transaction.java:141 | The `BigDecimal` hash the amount contributes is `31 * unscaled + scale` for small amounts. So it depends on the scale: 155 for 5 and 15502 for 5.00. |
| Hashing.HashAsWrittenSplitsEqual | src/main/java/org/webbee/model/Transaction.java:132-142 | As written, a withdrawal of 5 and the same withdrawal of 5.00 are equal, yet their hash codes differ. This holds whatever hash codes the enum constant, the strings and the timestamp have. |
| Hashing.HashAgreesWithEqual | src/main/java/org/webbee/model/Transaction.java:132-142 | The corrected hash, taken over the amount with trailing zeros stripped, is the same for any two equal transactions, whatever the fields' own hash codes. |
| Writer.FileNameInjective | src/main/java/org/webbee/services/LogWriter.java:77 | Two accounts share a file name exactly when they are the same account. |
| Writer.UserLogLines | src/main/java/org/webbee/services/LogWriter.java:102-120 | A file holds one `toString` line per log entry, in order, then the `final balance` line with the recovered user name. There are as many lines as entries plus one, and nothing is written when the name cannot be recovered. |
| Writer.AccountFileContents | src/main/java/org/webbee/services/LogWriter.java:109-119 | An account's file lists its history in ascending timestamp order, then one balance line naming the key. |
| Writer.AccountFileReadsBack | src/main/java/org/webbee/services/LogWriter.java:109-112 | For a history whose senders are non-empty and free of spaces and line terminators, and whose recipients have no line terminator, reading a written file's history lines back through the aggregator replays the account's transactions with their amounts' trailing zeros stripped. An entry of `50.00` comes back as `50`, which `equals` the original. A history whose amounts are already stripped is replayed exactly. |
| Writer.OutputsPerAccount | src/main/java/org/webbee/services/LogWriter.java:74-84 | `writeUsers` writes one file per account. No two accounts share a file name, and each file name holds its own account's lines. |
| Writer.Initialize | src/main/java/org/webbee/services/LogWriter.java:41-46 | `initialize` fails on a null or blank destination. Otherwise it fails on a null or blank directory. Only when both are present does it go on, with both paths. |

## Left out

- File I/O and how the files are found: `Files.lines`, the directory walk, the `Main` entry points, the writes and `createDirectories`. The aggregator takes each file as its sequence of lines. The writer produces each file as its sequence of lines. Wrapping an `IOException` in a `RuntimeException` is I/O and is not modelled.
- The thread pool and `CompletableFuture` fan-out in `writeUsers`. Distinct accounts get distinct file names (`Writer.FileNameInjective`). The model treats distinct names as distinct files, so the order of the writes is not observable in it. `Writer.Outputs` gives the files as a map.
- `LocalDateTime.now()` in the balance line. It is a parameter: one timestamp per file.
- The `%f` rendering of the final balance. Java's `Formatter` rounds to six places using the default locale's decimal separator. It is a parameter function from the balance to its text.
- Timestamps.Parse: calendar resolution by `DateTimeFormatter`'s default (smart) resolver is not modelled, and the model differs from it in both directions. First, Java accepts hour 24 when the minutes and seconds are zero: `2024-01-01 24:00:00` reads as 2024-01-02 00:00:00. The model only accepts hours 0 to 23, so such a line is `Malformed(BadTimestamp)` and the aggregation fails where Java succeeds. Second, Java clamps a day past the end of its month to the last day: `2024-02-30` reads as 2024-02-29. It can then collide in the history with a 29 February entry at the same time, and `toString` prints 02-29. The model keeps day 30, keeps the entry, and prints 02-30. A timestamp is six fields within their fixed ranges, and `Parse` checks only the textual shape and those ranges. So `Timestamps.ParseThenFormat` and `LineParser.MatchedLineOutcome` state the model's behaviour, not Java's, on these two kinds of input.
- Writer.OutputsPerAccount: the model treats distinct file names as distinct files. `LogWriter` resolves `key + ".log"` against the output directory without normalising it, and a key is whatever the user group captures. So keys such as `x` and `./x` name the same file. On a case-insensitive file system, so do `Bob` and `bob`. A key such as `../x` names a file outside the directory. In those cases the parallel writes race and the last one wins. Path resolution and case folding are not modelled.
- The Java regular-expression engine. The pattern is modelled as a grammar plus the rule the lazy groups follow to pick a match.
- `Ledger.Rules`: the account class the aggregator is compiled against, the one that throws `IllegalStateException`, is not part of this model. Which refusals it makes is a parameter. The model assumes it throws before changing anything, since the handlers record nothing in that case.
- `getUsers` returns an unmodifiable view of the registry. With immutable values, the view is the registry itself.
- `getTransactionLogs` returns a copy, so later changes to the copy do not reach the account. With immutable values that holds trivially. What the model states is that the copy has the same entries in the same order (`Ledger.LogsCopiesHistory`).
- Hashing.HashAsWritten: the hash of an amount whose unscaled value does not fit in a `long` is taken from the `BigInteger`, and that case is not modelled. Such amounts are kept out by the precondition. The hash codes of the enum constant, the strings and the timestamp are parameters. No collection in the program hashes a `Transaction`, so the finding below has no effect on its output.
- The older copies of the classes under `org/Webbee` (`Transaction`, `LineParser`, `UserLogsAggregator`, `LogWriter`, `DirectoryReader`, `Main`) are not modelled. They use `Double.parseDouble`, an `equals` that ignores the sender, `isBlank` instead of `trim().isEmpty()`, and `%.2f`. The `User` of that package is modelled: it is the only account class shown. It holds that package's `Transaction`, whose `compareTo` is the same timestamp order, so its history behaves as modelled.
- The exception classes and the messages they carry. Errors are datatype constructors (`InvalidTransaction`, `LineError`, `InitError`).
- Timestamps.Parse: the year is limited to four digits (1 to 9999), the years `yyyy` prints without a sign. Java's `yyyy` also reads a signed year of more than four digits, such as `+12345-01-01 10:00:00`. The model rejects it as `BadTimestamp`, so the aggregation fails where Java succeeds.
- Writer.Initialize: the resolution of the two paths and the creation of the directory come after the checks and are file-system work, so they are not modelled.

## Findings

| source | as written | input that shows it | evidently intended | confidence | as-written member | corrected member |
|---|---|---|---|---|---|---|
| src/main/java/org/webbee/model/Transaction.java:132-142 | `equals` compares the amounts with `compareTo`, but `hashCode` passes the `BigDecimal` itself to `Objects.hash`, and its hash depends on the scale | two withdrawals by the same sender at the same time, of `5` and of `5.00` | equal transactions have equal hash codes, as `Object.hashCode` requires; hash the amount with its trailing zeros stripped, in the spirit of `amount.stripTrailingZeros()` (the model stops stripping at scale 0, so its hash of 100 is not bit-for-bit the library's `1E+2`) | high; the proof covers every hash of the other fields; not executed | Hashing.HashAsWrittenSplitsEqual | Hashing.HashAgreesWithEqual |
