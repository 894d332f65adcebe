/**
 * The aggregator: every line of every file, in order, is parsed; lines the
 * pattern does not match are skipped, and each transaction is applied to
 * the registry of accounts, which grows as names are first mentioned.
 */
module Aggregation {
  import opened Results
  import opened Text
  import opened Decimals
  import opened Timestamps
  import opened Transactions
  import opened LineParser
  import opened Ledger

  /** `users.putIfAbsent(name, new User(name))`. */
  function Ensure(reg: Registry, name: string): (r: Registry)
    ensures r.Keys == reg.Keys + {name}
    ensures forall k :: k in reg ==> r[k] == reg[k]
  {
    if name in reg then reg else reg[name := NewAccount(name)]
  }

  /** The account a name has in the registry, or the fresh one it would be given. */
  function Prior(reg: Registry, name: string): Account {
    if name in reg then reg[name] else NewAccount(name)
  }

  /** The names a transaction makes the aggregator look up: the sender, and a transfer's recipient. */
  function Referenced(t: Transaction): set<string>
    requires Valid(t)
  {
    if t.kind == Transferred then {t.sender, t.recipient.value} else {t.sender}
  }

  /**
   * Whether the account operation goes through, or is refused with the
   * `IllegalStateException` the handlers catch; an inquiry is never refused.
   */
  predicate Succeeds(reg: Registry, t: Transaction, rules: Rules)
    requires Valid(t)
  {
    var overdraft := rules.rejectOverdraft && Value(t.amount) > Prior(reg, t.sender).balance;
    match t.kind
    case BalanceInquiry => true
    case Withdrew => !overdraft
    case Transferred => !(rules.rejectSelfTransfer && t.recipient.value == t.sender) && !overdraft
  }

  /**
   * `processTransaction`: the sender is looked up (and created), then the
   * handler for the operation runs. A handler records the transaction in
   * the sender's history only once the account operation has gone
   * through; a transfer looks up (and creates) the recipient first, so
   * even a refused transfer leaves the recipient in the registry.
   */
  function Process(reg: Registry, t: Transaction, rules: Rules): (r: Registry)
    requires Valid(t)
    ensures r.Keys == reg.Keys + Referenced(t)
  {
    var s := t.sender;
    var withSender := Ensure(reg, s);
    var amount := Value(t.amount);
    match t.kind
    case Withdrew =>
      (match Withdraw(withSender[s], amount, rules)
       case Failure(_) => withSender
       case Success(a) => withSender[s := Record(a, t)])
    case BalanceInquiry =>
      withSender[s := Record(Inquiry(withSender[s], amount), t)]
    case Transferred =>
      var to := t.recipient.value;
      var both := Ensure(withSender, to);
      match Transfer(both, s, to, amount, rules)
      case Failure(_) => both
      case Success(after) => after[s := Record(after[s], t)]
  }

  /**
   * Accounts the transaction does not name are untouched, and only the
   * sender's history changes, by the insertion of the transaction, and
   * only when the operation went through.
   */
  lemma ProcessHistories(reg: Registry, t: Transaction, rules: Rules)
    requires Valid(t)
    ensures var r := Process(reg, t, rules);
      && (forall k :: k in reg && k !in Referenced(t) ==> r[k] == reg[k])
      && (forall k :: k in r && k != t.sender ==> r[k].history == Prior(reg, k).history)
      && r[t.sender].history ==
         if Succeeds(reg, t, rules) then Insert(Prior(reg, t.sender).history, t)
         else Prior(reg, t.sender).history
  {
    var withSender := Ensure(reg, t.sender);
    assert withSender[t.sender] == Prior(reg, t.sender);
    match t.kind
    case Withdrew =>
    case BalanceInquiry =>
    case Transferred =>
      var both := Ensure(withSender, t.recipient.value);
      assert forall k :: k in both ==> both[k] == Prior(reg, k);
  }

  /** What happens to the balances: the effect of each handler, or nothing when refused. */
  lemma ProcessBalances(reg: Registry, t: Transaction, rules: Rules)
    requires Valid(t)
    ensures var r := Process(reg, t, rules);
      var s, amount := t.sender, Value(t.amount);
      && (!Succeeds(reg, t, rules) ==> forall k :: k in r ==> r[k].balance == Prior(reg, k).balance)
      && (Succeeds(reg, t, rules) && t.kind == Withdrew ==>
            r[s].balance == Prior(reg, s).balance - amount)
      && (t.kind == BalanceInquiry ==> r[s].balance == amount)
      && (Succeeds(reg, t, rules) && t.kind == Transferred && t.recipient.value != s ==>
            && r[s].balance == Prior(reg, s).balance - amount
            && r[t.recipient.value].balance == Prior(reg, t.recipient.value).balance + amount)
      && (t.kind == Transferred && t.recipient.value == s ==>
            r[s].balance == Prior(reg, s).balance)
  {
    var s := t.sender;
    assert Ensure(reg, s)[s] == Prior(reg, s);
    if t.kind == Transferred && Succeeds(reg, t, rules) {
      var both := Ensure(Ensure(reg, s), t.recipient.value);
      if t.recipient.value == s {
        SelfTransferIsNoOp(both, s, Value(t.amount), rules);
      } else {
        TransferConserves(both, s, t.recipient.value, Value(t.amount), rules);
      }
    }
  }

  /** The account shown never refuses an operation. */
  lemma PermissiveSucceeds(reg: Registry, t: Transaction)
    requires Valid(t)
    ensures Succeeds(reg, t, Permissive)
  {
  }

  /**
   * The registry's invariant: every account is filed under its own name,
   * keeps its history sorted, and holds only transactions it sent.
   */
  predicate Consistent(reg: Registry) {
    forall k :: k in reg ==>
      && reg[k].name == k
      && WellKept(reg[k])
      && forall i :: 0 <= i < |reg[k].history| ==> reg[k].history[i].sender == k
  }

  /** Every transaction is kept in its sender's history and in no other. */
  lemma ProcessConsistent(reg: Registry, t: Transaction, rules: Rules)
    requires Valid(t) && Consistent(reg)
    ensures Consistent(Process(reg, t, rules))
  {
    var r := Process(reg, t, rules);
    ProcessHistories(reg, t, rules);
    ProcessNames(reg, t, rules);
    forall k | k in r
      ensures WellKept(r[k])
      ensures forall i :: 0 <= i < |r[k].history| ==> r[k].history[i].sender == k
    {
      var h := Prior(reg, k).history;
      if k == t.sender && Succeeds(reg, t, rules) {
        InsertSorted(h, t);
        forall i | 0 <= i < |r[k].history|
          ensures r[k].history[i].sender == k
        {
          InsertMembers(h, t, r[k].history[i]);
          if r[k].history[i] != t {
            var j :| 0 <= j < |h| && h[j] == r[k].history[i];
          }
        }
      }
    }
  }

  /** Every account keeps the name it is filed under. */
  lemma ProcessNames(reg: Registry, t: Transaction, rules: Rules)
    requires Valid(t) && Consistent(reg)
    ensures var r := Process(reg, t, rules); forall k :: k in r ==> r[k].name == k
  {
  }

  /** An insertion holds nothing but the old entries and the new one. */
  lemma {:induction false} InsertMembers(h: seq<Transaction>, t: Transaction, x: Transaction)
    requires x in Insert(h, t)
    ensures x in h || x == t
  {
    if h != [] && !Before(t.timestamp, h[0].timestamp) && t.timestamp != h[0].timestamp {
      if x != h[0] {
        InsertMembers(h[1..], t, x);
      }
    }
  }

  predicate AllValid(ts: seq<Transaction>) {
    forall i :: 0 <= i < |ts| ==> Valid(ts[i])
  }

  /** `forEach(this::processTransaction)` over transactions already parsed. */
  function ProcessAll(reg: Registry, ts: seq<Transaction>, rules: Rules): Registry
    requires AllValid(ts)
    decreases |ts|
  {
    if ts == [] then reg else ProcessAll(Process(reg, ts[0], rules), ts[1..], rules)
  }

  /** Every name any of the transactions references. */
  function Names(ts: seq<Transaction>): set<string>
    requires AllValid(ts)
    decreases |ts|
  {
    if ts == [] then {} else Referenced(ts[0]) + Names(ts[1..])
  }

  /** The registry holds exactly the names seen, whatever was refused. */
  lemma {:induction false} ProcessAllKeys(reg: Registry, ts: seq<Transaction>, rules: Rules)
    requires AllValid(ts)
    ensures ProcessAll(reg, ts, rules).Keys == reg.Keys + Names(ts)
    decreases |ts|
  {
    if ts != [] {
      ProcessAllKeys(Process(reg, ts[0], rules), ts[1..], rules);
    }
  }

  /** The invariant holds after any sequence of transactions. */
  lemma {:induction false} ProcessAllConsistent(reg: Registry, ts: seq<Transaction>, rules: Rules)
    requires AllValid(ts) && Consistent(reg)
    ensures Consistent(ProcessAll(reg, ts, rules))
    decreases |ts|
  {
    if ts != [] {
      ProcessConsistent(reg, ts[0], rules);
      ProcessAllConsistent(Process(reg, ts[0], rules), ts[1..], rules);
    }
  }

  /** Every transaction is a withdrawal by `s`. */
  predicate WithdrawalsBy(s: string, ts: seq<Transaction>) {
    forall i :: 0 <= i < |ts| ==> ts[i].kind == Withdrew && ts[i].sender == s
  }

  /** The total of the amounts, as numbers. */
  function Withdrawn(ts: seq<Transaction>): real
    decreases |ts|
  {
    if ts == [] then 0.0 else Value(ts[0].amount) + Withdrawn(ts[1..])
  }

  lemma {:induction false} WithdrawnAppend(a: seq<Transaction>, b: seq<Transaction>)
    ensures Withdrawn(a + b) == Withdrawn(a) + Withdrawn(b)
    decreases |a|
  {
    if a == [] {
      assert a + b == b;
    } else {
      assert (a + b)[0] == a[0] && (a + b)[1..] == a[1..] + b;
      WithdrawnAppend(a[1..], b);
    }
  }

  /**
   * With the account class shown, a run of withdrawals by one user leaves
   * that user's balance lowered by exactly their total: from a fresh
   * account, `0 - (w1 + ... + wn)`.
   */
  lemma {:induction false} WithdrawalsSum(reg: Registry, s: string, ts: seq<Transaction>)
    requires AllValid(ts) && WithdrawalsBy(s, ts)
    ensures Prior(ProcessAll(reg, ts, Permissive), s).balance == Prior(reg, s).balance - Withdrawn(ts)
    decreases |ts|
  {
    if ts != [] {
      var next := Process(reg, ts[0], Permissive);
      PermissiveSucceeds(reg, ts[0]);
      ProcessBalances(reg, ts[0], Permissive);
      ProcessAllKeys(reg, [ts[0]], Permissive);
      assert s in next;
      assert AllValid(ts[1..]) && WithdrawalsBy(s, ts[1..]);
      WithdrawalsSum(next, s, ts[1..]);
    }
  }

  /** Swapping two adjacent withdrawals by the same user leaves their final balance unchanged. */
  lemma WithdrawalSwap(reg: Registry, s: string, ts: seq<Transaction>, i: nat)
    requires AllValid(ts) && WithdrawalsBy(s, ts) && i + 1 < |ts|
    ensures var swapped := ts[..i] + [ts[i + 1], ts[i]] + ts[i + 2..];
      && AllValid(swapped)
      && Prior(ProcessAll(reg, swapped, Permissive), s).balance == Prior(ProcessAll(reg, ts, Permissive), s).balance
  {
    var swapped := ts[..i] + [ts[i + 1], ts[i]] + ts[i + 2..];
    assert ts == ts[..i] + [ts[i], ts[i + 1]] + ts[i + 2..];
    assert forall k :: 0 <= k < |swapped| ==> swapped[k] in ts;
    WithdrawnAppend(ts[..i] + [ts[i + 1], ts[i]], ts[i + 2..]);
    WithdrawnAppend(ts[..i], [ts[i + 1], ts[i]]);
    WithdrawnAppend(ts[..i] + [ts[i], ts[i + 1]], ts[i + 2..]);
    WithdrawnAppend(ts[..i], [ts[i], ts[i + 1]]);
    assert Withdrawn([ts[i + 1], ts[i]]) == Withdrawn([ts[i], ts[i + 1]]) by {
      assert [ts[i + 1], ts[i]][1..] == [ts[i]];
      assert [ts[i], ts[i + 1]][1..] == [ts[i + 1]];
    }
    WithdrawalsSum(reg, s, ts);
    WithdrawalsSum(reg, s, swapped);
  }

  // ---------------------------------------------------------------------
  // Lines and files

  /**
   * `processFile`: the lines are parsed and processed one at a time, in
   * order; a line the pattern does not match is dropped, and a matching
   * line that `parseLine` rejects throws, which ends the whole run.
   */
  function ProcessLines(reg: Registry, lines: seq<string>, rules: Rules): Result<Registry, LineError>
    decreases |lines|
  {
    if lines == [] then Success(reg)
    else
      match ParseLine(lines[0])
      case NoMatch => ProcessLines(reg, lines[1..], rules)
      case Malformed(e) => Failure(e)
      case Parsed(t) =>
        ParsedIsValid(lines[0]);
        ProcessLines(Process(reg, t, rules), lines[1..], rules)
  }

  /** `map(LineParser::parseLine).filter(Objects::nonNull)`, to the first exception. */
  function Collect(lines: seq<string>): (r: Result<seq<Transaction>, LineError>)
    ensures r.Success? ==> AllValid(r.value)
    decreases |lines|
  {
    if lines == [] then Success([])
    else
      match ParseLine(lines[0])
      case NoMatch => Collect(lines[1..])
      case Malformed(e) => Failure(e)
      case Parsed(t) =>
        ParsedIsValid(lines[0]);
        match Collect(lines[1..])
        case Failure(e) => Failure(e)
        case Success(ts) =>
          AllValidCons(t, ts);
          Success([t] + ts)
  }

  lemma AllValidCons(t: Transaction, ts: seq<Transaction>)
    requires Valid(t) && AllValid(ts)
    ensures AllValid([t] + ts)
  {
    var r := [t] + ts;
    forall i | 0 <= i < |r| ensures Valid(r[i]) {
      if i > 0 {
        assert r[i] == ts[i - 1];
      }
    }
  }

  /** Processing lines one by one is filtering them and then folding the transactions. */
  lemma {:induction false} ProcessLinesIsFilterThenFold(reg: Registry, lines: seq<string>, rules: Rules)
    ensures ProcessLines(reg, lines, rules) ==
      match Collect(lines)
      case Failure(e) => Failure(e)
      case Success(ts) => Success(ProcessAll(reg, ts, rules))
    decreases |lines|
  {
    if lines != [] {
      match ParseLine(lines[0])
      case NoMatch =>
        ProcessLinesIsFilterThenFold(reg, lines[1..], rules);
      case Malformed(e) =>
      case Parsed(t) =>
        ParsedIsValid(lines[0]);
        ProcessLinesIsFilterThenFold(Process(reg, t, rules), lines[1..], rules);
    }
  }

  /** The lines the pattern matches. */
  function Matching(lines: seq<string>): (r: seq<string>)
    ensures forall i :: 0 <= i < |r| ==> !ParseLine(r[i]).NoMatch?
    decreases |lines|
  {
    if lines == [] then []
    else if ParseLine(lines[0]).NoMatch? then Matching(lines[1..])
    else [lines[0]] + Matching(lines[1..])
  }

  /** Lines the pattern does not match have no effect at all. */
  lemma {:induction false} GarbageIgnored(reg: Registry, lines: seq<string>, rules: Rules)
    ensures ProcessLines(reg, lines, rules) == ProcessLines(reg, Matching(lines), rules)
    decreases |lines|
  {
    if lines != [] {
      var rest := Matching(lines[1..]);
      match ParseLine(lines[0])
      case NoMatch =>
        GarbageIgnored(reg, lines[1..], rules);
      case Malformed(e) =>
        assert Matching(lines) == [lines[0]] + rest;
      case Parsed(t) =>
        assert Matching(lines) == [lines[0]] + rest;
        assert ([lines[0]] + rest)[1..] == rest;
        ParsedIsValid(lines[0]);
        GarbageIgnored(Process(reg, t, rules), lines[1..], rules);
    }
  }

  /** One garbage line inserted anywhere changes nothing. */
  lemma GarbageLineIgnored(reg: Registry, before: seq<string>, garbage: string,
                           after: seq<string>, rules: Rules)
    requires ParseLine(garbage).NoMatch?
    ensures ProcessLines(reg, before + [garbage] + after, rules) ==
            ProcessLines(reg, before + after, rules)
  {
    var rest := [garbage] + after;
    Associate(before, garbage, after);
    MatchingAppend(before, rest);
    MatchingAppend(before, after);
    MatchingSkips(garbage, after);
    GarbageIgnored(reg, before + rest, rules);
    GarbageIgnored(reg, before + after, rules);
  }

  lemma Associate<T>(a: seq<T>, x: T, b: seq<T>)
    ensures a + [x] + b == a + ([x] + b)
  {
  }

  lemma MatchingSkips(garbage: string, after: seq<string>)
    requires ParseLine(garbage).NoMatch?
    ensures Matching([garbage] + after) == Matching(after)
  {
    var lines := [garbage] + after;
    assert lines[0] == garbage;
    assert lines[1..] == after;
  }

  lemma {:induction false} MatchingAppend(a: seq<string>, b: seq<string>)
    ensures Matching(a + b) == Matching(a) + Matching(b)
    decreases |a|
  {
    if a != [] {
      assert (a + b)[1..] == a[1..] + b;
      MatchingAppend(a[1..], b);
    } else {
      assert a + b == b;
    }
  }

  /** Processing two runs of lines back to back. */
  lemma {:induction false} ProcessLinesAppend(reg: Registry, a: seq<string>, b: seq<string>, rules: Rules)
    ensures ProcessLines(reg, a + b, rules) ==
      match ProcessLines(reg, a, rules)
      case Failure(e) => Failure(e)
      case Success(r) => ProcessLines(r, b, rules)
    decreases |a|
  {
    if a == [] {
      assert a + b == b;
    } else {
      assert (a + b)[0] == a[0];
      assert (a + b)[1..] == a[1..] + b;
      match ParseLine(a[0])
      case NoMatch =>
        ProcessLinesAppend(reg, a[1..], b, rules);
      case Malformed(e) =>
      case Parsed(t) =>
        ParsedIsValid(a[0]);
        ProcessLinesAppend(Process(reg, t, rules), a[1..], b, rules);
    }
  }

  /**
   * The constructor: the files in stream order, each processed to the end
   * before the next; an exception from any line fails the whole run.
   */
  function AggregateFrom(reg: Registry, files: seq<seq<string>>, rules: Rules): Result<Registry, LineError>
    decreases |files|
  {
    if files == [] then Success(reg)
    else
      match ProcessLines(reg, files[0], rules)
      case Failure(e) => Failure(e)
      case Success(r) => AggregateFrom(r, files[1..], rules)
  }

  /** `new UserLogsAggregator(paths).getUsers()`, the files given by their lines. */
  function Aggregate(files: seq<seq<string>>, rules: Rules): Result<Registry, LineError> {
    AggregateFrom(map[], files, rules)
  }

  /** All lines of all files, in stream order. */
  function Concat(files: seq<seq<string>>): seq<string>
    decreases |files|
  {
    if files == [] then [] else files[0] + Concat(files[1..])
  }

  /** Files are processed as one stream: the files in order, the lines of each in order. */
  lemma {:induction false} StreamOrder(reg: Registry, files: seq<seq<string>>, rules: Rules)
    ensures AggregateFrom(reg, files, rules) == ProcessLines(reg, Concat(files), rules)
    decreases |files|
  {
    if files != [] {
      ProcessLinesAppend(reg, files[0], Concat(files[1..]), rules);
      match ProcessLines(reg, files[0], rules)
      case Failure(e) =>
      case Success(r) =>
        StreamOrder(r, files[1..], rules);
    }
  }

  /**
   * What an aggregation yields: it fails exactly when some matching line is
   * rejected, and otherwise its registry holds exactly the names the
   * parsed transactions reference, consistently kept.
   */
  lemma AggregateOutcome(files: seq<seq<string>>, rules: Rules)
    ensures Aggregate(files, rules).Failure? <==> Collect(Concat(files)).Failure?
    ensures Aggregate(files, rules).Success? ==>
      && Aggregate(files, rules).value.Keys == Names(Collect(Concat(files)).value)
      && Consistent(Aggregate(files, rules).value)
  {
    StreamOrder(map[], files, rules);
    ProcessLinesIsFilterThenFold(map[], Concat(files), rules);
    if Collect(Concat(files)).Success? {
      var ts := Collect(Concat(files)).value;
      ProcessAllKeys(map[], ts, rules);
      ProcessAllConsistent(map[], ts, rules);
    }
  }

  // ---------------------------------------------------------------------
  // Reading rendered transactions back

  /** The lines `toString` gives for a sequence of transactions. */
  function RenderAll(ts: seq<Transaction>): (lines: seq<string>)
    ensures |lines| == |ts|
    ensures forall i :: 0 <= i < |ts| ==> lines[i] == Render(ts[i])
    decreases |ts|
  {
    if ts == [] then [] else [Render(ts[0])] + RenderAll(ts[1..])
  }

  /** Transactions that read back as themselves: renderable, with their amounts stripped. */
  predicate Reproducible(ts: seq<Transaction>) {
    forall i :: 0 <= i < |ts| ==> ReadsBackAsItself(ts[i])
  }

  predicate ReadsBackAsItself(t: Transaction) {
    Renderable(t) && Canonical(t) == t
  }

  /** Processing the renderings of transactions is processing the transactions. */
  lemma {:induction false} RenderedLogReadsBack(reg: Registry, ts: seq<Transaction>, rules: Rules)
    requires Reproducible(ts)
    ensures AllValid(ts)
    ensures ProcessLines(reg, RenderAll(ts), rules) == Success(ProcessAll(reg, ts, rules))
    decreases |ts|
  {
    if ts != [] {
      ReadsBackHead(reg, ts, rules);
      RenderedLogReadsBack(Process(reg, ts[0], rules), ts[1..], rules);
    }
  }

  /** The first rendered line reads back as the first transaction. */
  lemma ReadsBackHead(reg: Registry, ts: seq<Transaction>, rules: Rules)
    requires Reproducible(ts) && ts != []
    ensures Valid(ts[0]) && Reproducible(ts[1..])
    ensures ProcessLines(reg, RenderAll(ts), rules) ==
            ProcessLines(Process(reg, ts[0], rules), RenderAll(ts[1..]), rules)
  {
    var t, lines := ts[0], RenderAll(ts);
    ReproducibleTail(ts);
    RenderThenParse(t);
    ParsedHead(reg, lines, t, rules);
    assert lines[1..] == RenderAll(ts[1..]);
  }

  lemma ReproducibleTail(ts: seq<Transaction>)
    requires Reproducible(ts) && ts != []
    ensures ReadsBackAsItself(ts[0]) && Reproducible(ts[1..])
  {
    var rest := ts[1..];
    forall i | 0 <= i < |rest| ensures ReadsBackAsItself(rest[i]) {
      assert rest[i] == ts[i + 1];
    }
  }

  predicate AllRenderable(ts: seq<Transaction>) {
    forall i :: 0 <= i < |ts| ==> Renderable(ts[i])
  }

  /** Each transaction with its amount's trailing zeros stripped. */
  function CanonicalAll(ts: seq<Transaction>): (cs: seq<Transaction>)
    ensures |cs| == |ts|
    ensures forall i :: 0 <= i < |ts| ==> cs[i] == Canonical(ts[i])
    decreases |ts|
  {
    if ts == [] then [] else [Canonical(ts[0])] + CanonicalAll(ts[1..])
  }

  /**
   * Processing the renderings of any renderable transactions, whatever the
   * scales of their amounts, is processing the same transactions with
   * their amounts stripped: `toString` prints the stripped amount.
   */
  lemma {:induction false} RenderedLogReadsBackStripped(reg: Registry, ts: seq<Transaction>, rules: Rules)
    requires AllRenderable(ts)
    ensures AllValid(CanonicalAll(ts))
    ensures ProcessLines(reg, RenderAll(ts), rules) == Success(ProcessAll(reg, CanonicalAll(ts), rules))
    decreases |ts|
  {
    if ts == [] {
      assert RenderAll(ts) == [] && CanonicalAll(ts) == [];
    } else {
      var c := Canonical(ts[0]);
      StrippedHead(reg, ts, rules);
      RenderedLogReadsBackStripped(Process(reg, c, rules), ts[1..], rules);
      CanonicalAllCons(ts);
    }
  }

  /** The first rendered line reads back as the first transaction, stripped. */
  lemma StrippedHead(reg: Registry, ts: seq<Transaction>, rules: Rules)
    requires AllRenderable(ts) && ts != []
    ensures Valid(Canonical(ts[0])) && AllRenderable(ts[1..])
    ensures ProcessLines(reg, RenderAll(ts), rules) ==
            ProcessLines(Process(reg, Canonical(ts[0]), rules), RenderAll(ts[1..]), rules)
  {
    var t, lines := ts[0], RenderAll(ts);
    assert Renderable(t);
    RenderThenParse(t);
    ParsedHead(reg, lines, Canonical(t), rules);
    assert lines[1..] == RenderAll(ts[1..]);
    forall i | 0 <= i < |ts| - 1 ensures Renderable(ts[1..][i]) {
      assert ts[1..][i] == ts[i + 1];
    }
  }

  /** The stripped sequence unfolds by its head, and all its entries are valid. */
  lemma CanonicalAllCons(ts: seq<Transaction>)
    requires ts != [] && Valid(Canonical(ts[0])) && AllValid(CanonicalAll(ts[1..]))
    ensures CanonicalAll(ts)[1..] == CanonicalAll(ts[1..])
    ensures AllValid(CanonicalAll(ts))
  {
    var cs := CanonicalAll(ts);
    assert cs[1..] == CanonicalAll(ts[1..]);
    forall i | 0 <= i < |cs| ensures Valid(cs[i]) {
      if i > 0 {
        assert cs[i] == cs[1..][i - 1];
      }
    }
  }

  /** Transactions that read back as themselves are their own stripped forms. */
  lemma ReproducibleIsStripped(ts: seq<Transaction>)
    requires Reproducible(ts)
    ensures AllRenderable(ts) && CanonicalAll(ts) == ts
  {
    assert forall i :: 0 <= i < |ts| ==> ReadsBackAsItself(ts[i]);
  }

  /** A first line that parses is processed, and the rest follow from there. */
  lemma ParsedHead(reg: Registry, lines: seq<string>, t: Transaction, rules: Rules)
    requires lines != [] && ParseLine(lines[0]) == Parsed(t)
    ensures Valid(t)
    ensures ProcessLines(reg, lines, rules) == ProcessLines(Process(reg, t, rules), lines[1..], rules)
  {
    ParsedIsValid(lines[0]);
  }

  // ---------------------------------------------------------------------
  // Worked examples

  /** Lower-case names, which contain no space, no line terminator and are not blank. */
  predicate LowerCase(s: string) {
    s == [] || ('a' <= s[0] <= 'z' && LowerCase(s[1..]))
  }

  lemma {:induction false} LowerCaseIsPlain(s: string)
    requires LowerCase(s)
    ensures NoSpaces(s) && NoTerminators(s)
    ensures s != [] ==> !IsBlank(s)
  {
    if s != [] {
      LowerCaseIsPlain(s[1..]);
      forall k | 0 < k < |s|
        ensures s[k] != ' ' && !IsTerminator(s[k])
      {
        assert s[k] == s[1..][k - 1];
      }
    }
  }

  function At(minute: Minute): Timestamp {
    Timestamp(2025, 1, 15, 10, minute, 0)
  }

  lemma EarlierMinute(m: Minute, n: Minute)
    requires m < n
    ensures Before(At(m), At(n))
  {
  }

  /** alice withdraws 50, then reports a balance of 100, then transfers 20 to bob. */
  function AliceDay(): seq<Transaction> {
    [ Transaction(Withdrew, At(0), "alice", Decimal(50, 0), None),
      Transaction(BalanceInquiry, At(5), "alice", Decimal(100, 0), None),
      Transaction(Transferred, At(10), "alice", Decimal(20, 0), Some("bob")) ]
  }

  lemma AliceDayReproducible()
    ensures AllValid(AliceDay()) && Reproducible(AliceDay())
  {
    var ts := AliceDay();
    LowerCaseIsPlain("alice");
    LowerCaseIsPlain("bob");
    WholeValue(50);
    WholeValue(100);
    WholeValue(20);
    forall i | 0 <= i < |ts|
      ensures ReadsBackAsItself(ts[i])
    {
    }
  }

  /**
   * alice ends at 80 and bob at 20; the three transactions are in alice's
   * history in order, and bob, who only received, has none.
   */
  lemma AliceScenario()
    ensures AllValid(AliceDay())
    ensures var r := ProcessAll(map[], AliceDay(), Permissive);
      && r.Keys == {"alice", "bob"}
      && r["alice"].balance == 80.0 && r["bob"].balance == 20.0
      && r["alice"].history == AliceDay() && r["bob"].history == []
  {
    AliceAfterTransfer();
    ProcessAllThree(map[], AliceDay(), Permissive);
  }

  /** The transfer moves 20 from alice to bob, who is created by it. */
  lemma AliceAfterTransfer()
    ensures AllValid(AliceDay())
    ensures var ts := AliceDay();
      var r := Process(Process(Process(map[], ts[0], Permissive), ts[1], Permissive), ts[2], Permissive);
      && r.Keys == {"alice", "bob"}
      && r["alice"].balance == 80.0 && r["bob"].balance == 20.0
      && r["alice"].history == ts && r["bob"].history == []
  {
    var ts := AliceDay();
    AliceAfterInquiry();
    var r2 := Process(Process(map[], ts[0], Permissive), ts[1], Permissive);
    WholeValue(20);
    var r3 := PermissiveStep(r2, ts[2]);
    EarlierMinute(0, 10);
    EarlierMinute(5, 10);
    InsertLatest([ts[0], ts[1]], ts[2]);
    assert [ts[0], ts[1]] + [ts[2]] == ts;
  }

  /** After the withdrawal alice, the only account, is 50 below zero. */
  lemma AliceAfterWithdrawal()
    ensures AllValid(AliceDay())
    ensures var r := Process(map[], AliceDay()[0], Permissive);
      r.Keys == {"alice"} && r["alice"].balance == -50.0 && r["alice"].history == AliceDay()[..1]
  {
    var ts := AliceDay();
    AliceDayReproducible();
    WholeValue(50);
    var r := PermissiveStep(map[], ts[0]);
    assert [ts[0]] == ts[..1];
  }

  /** The inquiry overwrites the balance with the amount it reports. */
  lemma AliceAfterInquiry()
    ensures AllValid(AliceDay())
    ensures var r := Process(Process(map[], AliceDay()[0], Permissive), AliceDay()[1], Permissive);
      r.Keys == {"alice"} && r["alice"].balance == 100.0 && r["alice"].history == [AliceDay()[0], AliceDay()[1]]
  {
    var ts := AliceDay();
    AliceAfterWithdrawal();
    WholeValue(100);
    var r1 := Process(map[], ts[0], Permissive);
    var r2 := PermissiveStep(r1, ts[1]);
    EarlierMinute(0, 5);
    InsertLatest(ts[..1], ts[1]);
    assert ts[..1] + [ts[1]] == [ts[0], ts[1]];
  }

  /** One step under the account class shown, with what it does spelled out. */
  lemma PermissiveStep(reg: Registry, t: Transaction) returns (r: Registry)
    requires Valid(t)
    ensures r == Process(reg, t, Permissive)
    ensures r.Keys == reg.Keys + Referenced(t)
    ensures forall k :: k in r && k != t.sender ==> r[k].history == Prior(reg, k).history
    ensures r[t.sender].history == Insert(Prior(reg, t.sender).history, t)
    ensures t.kind == Withdrew ==> r[t.sender].balance == Prior(reg, t.sender).balance - Value(t.amount)
    ensures t.kind == BalanceInquiry ==> r[t.sender].balance == Value(t.amount)
    ensures t.kind == Transferred && t.recipient.value != t.sender ==>
      && r[t.sender].balance == Prior(reg, t.sender).balance - Value(t.amount)
      && r[t.recipient.value].balance == Prior(reg, t.recipient.value).balance + Value(t.amount)
  {
    r := Process(reg, t, Permissive);
    PermissiveSucceeds(reg, t);
    ProcessHistories(reg, t, Permissive);
    ProcessBalances(reg, t, Permissive);
  }

  lemma ProcessAllThree(reg: Registry, ts: seq<Transaction>, rules: Rules)
    requires |ts| == 3 && AllValid(ts)
    ensures ProcessAll(reg, ts, rules) ==
      Process(Process(Process(reg, ts[0], rules), ts[1], rules), ts[2], rules)
  {
    var r1 := Process(reg, ts[0], rules);
    assert ProcessAll(reg, ts, rules) == ProcessAll(r1, ts[1..], rules);
    ProcessAllTwo(r1, ts[1..], rules);
  }

  /** The same day read from a log file, with a line that is not a transaction in the middle. */
  lemma AliceScenarioFromLog()
    ensures AllValid(AliceDay())
    ensures var ts := AliceDay();
      var log := [Render(ts[0]), "-- end of shift --", Render(ts[1]), Render(ts[2])];
      Aggregate([log], Permissive) == Success(ProcessAll(map[], ts, Permissive))
  {
    AliceDayReproducible();
    UnbracketedIsSkipped("-- end of shift --");
    NoisyLog(AliceDay(), "-- end of shift --", Permissive);
  }

  lemma Regroup<T>(a: T, n: T, b: T, c: T)
    ensures [a, n, b, c] == [a] + [n] + [b, c]
    ensures [a, b, c] == [a] + [b, c]
  {
  }

  lemma RenderAllThree(ts: seq<Transaction>)
    requires |ts| == 3
    ensures RenderAll(ts) == [Render(ts[0]), Render(ts[1]), Render(ts[2])]
  {
  }

  lemma ConcatSingle(lines: seq<string>)
    ensures Concat([lines]) == lines
  {
    assert Concat([lines][1..]) == [];
    assert lines + [] == lines;
  }

  /** A file of three rendered transactions with a skipped line after the first. */
  lemma NoisyLog(ts: seq<Transaction>, noise: string, rules: Rules)
    requires |ts| == 3 && Reproducible(ts) && ParseLine(noise).NoMatch?
    ensures AllValid(ts)
    ensures var log := [Render(ts[0]), noise, Render(ts[1]), Render(ts[2])];
      Aggregate([log], rules) == Success(ProcessAll(map[], ts, rules))
  {
    RenderedLogReadsBack(map[], ts, rules);
    var a, b, c := Render(ts[0]), Render(ts[1]), Render(ts[2]);
    var log := [a, noise, b, c];
    Regroup(a, noise, b, c);
    RenderAllThree(ts);
    GarbageLineIgnored(map[], [a], noise, [b, c], rules);
    ConcatSingle(log);
    StreamOrder(map[], [log], rules);
  }

  /**
   * Balances follow the order of the lines, not the order of the
   * timestamps: an inquiry read first and a withdrawal read after it leave
   * the withdrawal applied, even though the history lists it first.
   */
  lemma LineOrderNotTimeOrder()
    ensures var late := Transaction(BalanceInquiry, At(30), "carol", Decimal(100, 0), None);
      var early := Transaction(Withdrew, At(0), "carol", Decimal(40, 0), None);
      && AllValid([late, early])
      && "carol" in ProcessAll(map[], [late, early], Permissive)
      && ProcessAll(map[], [late, early], Permissive)["carol"].balance == 60.0
      && ProcessAll(map[], [late, early], Permissive)["carol"].history == [early, late]
      && "carol" in ProcessAll(map[], [early, late], Permissive)
      && ProcessAll(map[], [early, late], Permissive)["carol"].balance == 100.0
      && ProcessAll(map[], [early, late], Permissive)["carol"].history == [early, late]
  {
    var late := Transaction(BalanceInquiry, At(30), "carol", Decimal(100, 0), None);
    var early := Transaction(Withdrew, At(0), "carol", Decimal(40, 0), None);
    WholeValue(100);
    WholeValue(40);
    assert Before(early.timestamp, late.timestamp);
    var a1 := PermissiveStep(map[], late);
    var a2 := PermissiveStep(a1, early);
    ProcessAllTwo(map[], [late, early], Permissive);
    var b1 := PermissiveStep(map[], early);
    var b2 := PermissiveStep(b1, late);
    InsertLatest([early], late);
    ProcessAllTwo(map[], [early, late], Permissive);
  }

  lemma ProcessAllTwo(reg: Registry, ts: seq<Transaction>, rules: Rules)
    requires |ts| == 2 && AllValid(ts)
    ensures ProcessAll(reg, ts, rules) == Process(Process(reg, ts[0], rules), ts[1], rules)
  {
    var r1 := Process(reg, ts[0], rules);
    assert ProcessAll(reg, ts, rules) == ProcessAll(r1, ts[1..], rules);
    var r2 := Process(r1, ts[1], rules);
    assert ProcessAll(r1, ts[1..], rules) == ProcessAll(r2, ts[1..][1..], rules);
    assert ts[1..][1..] == [];
  }
}
