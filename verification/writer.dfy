/**
 * The pure part of the log writer: where each account's file goes, the
 * lines written into it, and the checks `initialize` makes on its
 * arguments before it touches the file system.
 */
module Writer {
  import opened Results
  import opened Text
  import opened Timestamps
  import opened Transactions
  import opened Ledger
  import opened Aggregation

  // ---------------------------------------------------------------------
  // File names

  /** The file an account is written to: its key with `.log` appended. */
  function FileName(key: string): string {
    key + ".log"
  }

  /**
   * `s.lastIndexOf(c)`: the position of the last occurrence of `c`, or -1
   * when there is none.
   */
  function LastIndexOf(s: string, c: char): (k: int)
    ensures -1 <= k < |s|
    ensures k >= 0 ==> s[k] == c
    ensures forall i :: k < i < |s| ==> s[i] != c
    decreases |s|
  {
    if s == [] then -1
    else if s[|s| - 1] == c then |s| - 1
    else LastIndexOf(s[..|s| - 1], c)
  }

  /**
   * `filename.substring(0, filename.lastIndexOf('.'))`; a name without a
   * point makes `substring` throw, which is `None` here.
   */
  function UserNameOf(filename: string): (r: Option<string>)
    ensures r.None? <==> forall i :: 0 <= i < |filename| ==> filename[i] != '.'
    ensures r.Some? ==> |r.value| < |filename| && filename[..|r.value|] == r.value
    ensures r.Some? ==>
      && filename[|r.value|] == '.'
      && forall i :: |r.value| < i < |filename| ==> filename[i] != '.'
  {
    var k := LastIndexOf(filename, '.');
    if k < 0 then None else Some(filename[..k])
  }

  /** The name written into a file is the key it was named after, even when the key has points. */
  lemma FileNameRoundTrip(key: string)
    ensures UserNameOf(FileName(key)) == Some(key)
  {
    var f := FileName(key);
    assert f[|key|] == '.' && f[|key| + 1..] == "log";
    var k := LastIndexOf(f, '.');
    assert k == |key|;
    assert f[..|key|] == key;
  }

  /** Distinct accounts are written to distinct files. */
  lemma FileNameInjective(a: string, b: string)
    ensures FileName(a) == FileName(b) <==> a == b
  {
    if FileName(a) == FileName(b) {
      FileNameRoundTrip(a);
      FileNameRoundTrip(b);
    }
  }

  // ---------------------------------------------------------------------
  // File contents

  /**
   * The last line of a file: `String.format("[%s] %s final balance %f",
   * timestamp, userName, finalBalance)`. The timestamp is the moment of
   * writing and the rendering of the balance by `%f` is given.
   */
  function BalanceLine(now: Timestamp, name: string, balance: real, fixed: real -> string): string {
    "[" + Format(now) + "] " + name + " final balance " + fixed(balance)
  }

  /**
   * `writeUserLogs(filename, logs, finalBalance)`: the user name is taken
   * from the file name before the file is opened; then one line per log
   * entry, in the order of the set, and the balance line last.
   */
  function UserLogLines(filename: string, logs: seq<Transaction>, balance: real,
                        now: Timestamp, fixed: real -> string): (r: Option<seq<string>>)
    ensures r.None? <==> UserNameOf(filename).None?
    ensures r.Some? ==>
      && |r.value| == |logs| + 1
      && (forall i :: 0 <= i < |logs| ==> r.value[i] == Render(logs[i]))
      && r.value[|logs|] == BalanceLine(now, UserNameOf(filename).value, balance, fixed)
  {
    match UserNameOf(filename)
    case None => None
    case Some(name) => Some(RenderAll(logs) + [BalanceLine(now, name, balance, fixed)])
  }

  /**
   * One entry of `writeUsers`: the file named after the key, holding the
   * copy of the history and the balance of the account.
   */
  function AccountFile(key: string, a: Account, now: Timestamp, fixed: real -> string): (lines: seq<string>)
  {
    FileNameRoundTrip(key);
    UserLogLines(FileName(key), Logs(a), a.balance, now, fixed).value
  }

  /**
   * The file of a kept account lists its history in ascending timestamp
   * order, one rendered transaction per line, and ends with one line
   * stating the key and the balance.
   */
  lemma AccountFileContents(key: string, a: Account, now: Timestamp, fixed: real -> string)
    requires WellKept(a)
    ensures var lines := AccountFile(key, a, now, fixed);
      && |lines| == |a.history| + 1
      && lines[..|a.history|] == RenderAll(a.history)
      && (forall i, j :: 0 <= i < j < |a.history| ==>
            lines[i] == Render(a.history[i]) && lines[j] == Render(a.history[j]) &&
            Before(a.history[i].timestamp, a.history[j].timestamp))
      && lines[|a.history|] == BalanceLine(now, key, a.balance, fixed)
  {
    LogsCopiesHistory(a);
    FileNameRoundTrip(key);
    var lines := AccountFile(key, a, now, fixed);
    assert lines == RenderAll(a.history) + [BalanceLine(now, key, a.balance, fixed)];
    assert lines[..|a.history|] == RenderAll(a.history);
  }

  /**
   * Reading the history lines of a written file back through the
   * aggregator replays the account's transactions, each with its amount's
   * trailing zeros stripped, since that is how `toString` prints it; a
   * history already stripped is replayed exactly.
   */
  lemma AccountFileReadsBack(key: string, a: Account, now: Timestamp, fixed: real -> string,
                             reg: Registry, rules: Rules)
    requires WellKept(a) && AllRenderable(a.history)
    ensures AllValid(CanonicalAll(a.history))
    ensures var lines := AccountFile(key, a, now, fixed);
      && |lines| == |a.history| + 1
      && ProcessLines(reg, lines[..|a.history|], rules) == Success(ProcessAll(reg, CanonicalAll(a.history), rules))
    ensures Reproducible(a.history) ==> CanonicalAll(a.history) == a.history
  {
    AccountFileContents(key, a, now, fixed);
    RenderedLogReadsBackStripped(reg, a.history, rules);
    if Reproducible(a.history) {
      ReproducibleIsStripped(a.history);
    }
  }

  /**
   * `writeUsers`: one file per account, named after its key; `clock`
   * gives the moment each file is written.
   */
  function Outputs(reg: Registry, clock: string -> Timestamp, fixed: real -> string): (out: map<string, seq<string>>)
    ensures forall k :: k in reg <==> FileName(k) in out
  {
    FileNamesInjective();
    map k | k in reg :: FileName(k) := AccountFile(k, reg[k], clock(k), fixed)
  }

  lemma FileNamesInjective()
    ensures forall a, b :: FileName(a) == FileName(b) ==> a == b
  {
    forall a, b | FileName(a) == FileName(b) ensures a == b {
      FileNameInjective(a, b);
    }
  }

  /** Every file written holds its account's lines, and no two accounts share a file name. */
  lemma OutputsPerAccount(reg: Registry, clock: string -> Timestamp, fixed: real -> string)
    ensures var out := Outputs(reg, clock, fixed);
      && |out| == |reg|
      && forall k :: k in reg ==> out[FileName(k)] == AccountFile(k, reg[k], clock(k), fixed)
  {
    var out := Outputs(reg, clock, fixed);
    FileNamesInjective();
    assert out.Keys == set k | k in reg :: FileName(k);
    SizeOfImage(reg.Keys);
  }

  lemma SizeOfImage(keys: set<string>)
    ensures |set k | k in keys :: FileName(k)| == |keys|
  {
    FileNamesInjective();
    if keys != {} {
      var x :| x in keys;
      var rest := keys - {x};
      SizeOfImage(rest);
      assert (set k | k in keys :: FileName(k)) == (set k | k in rest :: FileName(k)) + {FileName(x)};
    }
  }

  // ---------------------------------------------------------------------
  // Initialisation

  datatype InitError = BlankDestination | BlankDirectory

  /** A `null` or blank (`trim().isEmpty()`) path argument. */
  predicate Missing(path: Option<string>) {
    path.None? || IsBlank(path.value)
  }

  /**
   * The argument checks of `initialize(destinationPath, pathOfDir)`: the
   * destination is checked first, then the directory; only when both are
   * present does it go on to the file system, with the two paths. The
   * contract is the whole specification of these checks: which error, in
   * which order, and what passes through.
   */
  function Initialize(destination: Option<string>, directory: Option<string>): (r: Result<(string, string), InitError>)
    ensures r == Failure(BlankDestination) <==> Missing(destination)
    ensures r == Failure(BlankDirectory) <==> !Missing(destination) && Missing(directory)
    ensures r.Success? ==> r.value == (destination.value, directory.value)
  {
    if Missing(destination) then Failure(BlankDestination)
    else if Missing(directory) then Failure(BlankDirectory)
    else Success((destination.value, directory.value))
  }
}
