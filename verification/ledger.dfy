/**
 * Accounts: a balance that starts at zero and a history of transactions
 * kept the way a `TreeSet` ordered by `compareTo` keeps them (ascending
 * timestamps, at most one transaction per timestamp).
 */
module Ledger {
  import opened Results
  import opened Timestamps
  import opened Transactions

  /**
   * A user account. Balances are exact numbers: `BigDecimal` addition and
   * subtraction never round, so the real number an amount denotes is all a
   * balance needs.
   */
  datatype Account = Account(name: string, balance: real, history: seq<Transaction>)

  /** Strictly increasing timestamps: the iteration order of the history set. */
  predicate Sorted(h: seq<Transaction>) {
    forall a, b :: 0 <= a < b < |h| ==> Before(h[a].timestamp, h[b].timestamp)
  }

  /** Some entry of `h` has timestamp `ts`, so `compareTo` finds it equal to any transaction at `ts`. */
  predicate HasTime(h: seq<Transaction>, ts: Timestamp) {
    exists k :: 0 <= k < |h| && h[k].timestamp == ts
  }

  /** An account as every operation leaves it. */
  predicate WellKept(a: Account) {
    Sorted(a.history)
  }

  /** `new User(name)`. */
  function NewAccount(name: string): (a: Account)
    ensures a.name == name && a.balance == 0.0 && a.history == []
    ensures WellKept(a)
  {
    Account(name, 0.0, [])
  }

  // ---------------------------------------------------------------------
  // The history set

  /**
   * `TreeSet.add`: the transaction goes in before the first later entry,
   * unless an entry with the same timestamp is already there, in which
   * case the set is left as it is (`compareTo` reports the two as equal).
   */
  function Insert(h: seq<Transaction>, t: Transaction): (r: seq<Transaction>)
    ensures |r| <= |h| + 1
  {
    if h == [] then [t]
    else if Before(t.timestamp, h[0].timestamp) then [t] + h
    else if t.timestamp == h[0].timestamp then h
    else [h[0]] + Insert(h[1..], t)
  }

  /** Adding never removes: the entries after an insertion are the old ones plus `t` when its time is new. */
  lemma {:induction false} InsertContents(h: seq<Transaction>, t: Transaction)
    requires Sorted(h)
    ensures multiset(Insert(h, t)) ==
      if HasTime(h, t.timestamp) then multiset(h) else multiset(h) + multiset{t}
  {
    if h == [] {
    } else if Before(t.timestamp, h[0].timestamp) {
      EarlierThanHead(h, t.timestamp);
    } else if t.timestamp == h[0].timestamp {
      assert HasTime(h, t.timestamp) by {
        assert h[0].timestamp == t.timestamp;
      }
    } else {
      SortedTail(h);
      InsertContents(h[1..], t);
      assert h == [h[0]] + h[1..];
      HasTimeCons(h, t.timestamp);
    }
  }

  /** `h` has a time exactly when its head or its tail has it. */
  lemma HasTimeCons(h: seq<Transaction>, ts: Timestamp)
    requires h != []
    ensures HasTime(h, ts) <==> h[0].timestamp == ts || HasTime(h[1..], ts)
  {
    if HasTime(h, ts) && h[0].timestamp != ts {
      var k :| 0 <= k < |h| && h[k].timestamp == ts;
      assert h[1..][k - 1].timestamp == ts;
    }
    if HasTime(h[1..], ts) {
      var k :| 0 <= k < |h| - 1 && h[1..][k].timestamp == ts;
      assert h[k + 1].timestamp == ts;
    }
  }

  /** A time earlier than the head of a sorted history is not in it. */
  lemma EarlierThanHead(h: seq<Transaction>, ts: Timestamp)
    requires Sorted(h) && h != [] && Before(ts, h[0].timestamp)
    ensures !HasTime(h, ts)
  {
    forall k | 0 <= k < |h|
      ensures h[k].timestamp != ts
    {
      BeforeIsStrictTotalOrder(ts, h[0].timestamp, h[k].timestamp);
      BeforeIsStrictTotalOrder(ts, ts, ts);
    }
  }

  /** The history stays strictly sorted by timestamp. */
  lemma {:induction false} InsertSorted(h: seq<Transaction>, t: Transaction)
    ensures Sorted(h) ==> Sorted(Insert(h, t))
  {
    if !Sorted(h) || h == [] {
    } else if Before(t.timestamp, h[0].timestamp) {
      var r := [t] + h;
      forall a, b | 0 <= a < b < |r|
        ensures Before(r[a].timestamp, r[b].timestamp)
      {
        if a == 0 && b > 1 {
          BeforeIsStrictTotalOrder(t.timestamp, h[0].timestamp, h[b - 1].timestamp);
        }
      }
    } else if t.timestamp == h[0].timestamp {
    } else {
      var rest := Insert(h[1..], t);
      SortedTail(h);
      InsertSorted(h[1..], t);
      BeforeIsStrictTotalOrder(h[0].timestamp, t.timestamp, t.timestamp);
      InsertAfter(h[1..], t, h[0].timestamp);
      ConsSorted(h[0], rest);
    }
  }

  /** Every entry of an insertion comes after `ts` when `t` and all of `h` do. */
  lemma {:induction false} InsertAfter(h: seq<Transaction>, t: Transaction, ts: Timestamp)
    requires Before(ts, t.timestamp)
    requires forall k :: 0 <= k < |h| ==> Before(ts, h[k].timestamp)
    ensures forall k :: 0 <= k < |Insert(h, t)| ==> Before(ts, Insert(h, t)[k].timestamp)
  {
    if h != [] && !Before(t.timestamp, h[0].timestamp) && t.timestamp != h[0].timestamp {
      InsertAfter(h[1..], t, ts);
    }
  }

  lemma ConsSorted(x: Transaction, h: seq<Transaction>)
    requires Sorted(h)
    requires forall k :: 0 <= k < |h| ==> Before(x.timestamp, h[k].timestamp)
    ensures Sorted([x] + h)
  {
    var r := [x] + h;
    forall a, b | 0 <= a < b < |r|
      ensures Before(r[a].timestamp, r[b].timestamp)
    {
      if a > 0 {
        assert r[a] == h[a - 1] && r[b] == h[b - 1];
      } else {
        assert r[b] == h[b - 1];
      }
    }
  }

  /**
   * Deduplication goes through `compareTo`, not `equals`: a transaction
   * whose timestamp is already in the history is dropped, however much it
   * differs from the entry that is there.
   */
  lemma {:induction false} InsertSameTime(h: seq<Transaction>, t: Transaction)
    requires Sorted(h) && HasTime(h, t.timestamp)
    ensures Insert(h, t) == h
  {
    HasTimeCons(h, t.timestamp);
    if h[0].timestamp != t.timestamp {
      var k :| 0 <= k < |h| && h[k].timestamp == t.timestamp;
      assert k > 0;
      assert Before(h[0].timestamp, h[k].timestamp);
      BeforeIsStrictTotalOrder(t.timestamp, h[0].timestamp, t.timestamp);
      SortedTail(h);
      InsertSameTime(h[1..], t);
      assert h == [h[0]] + h[1..];
    }
  }

  lemma SortedTail(h: seq<Transaction>)
    requires Sorted(h) && h != []
    ensures Sorted(h[1..])
  {
    forall a, b | 0 <= a < b < |h| - 1
      ensures Before(h[1..][a].timestamp, h[1..][b].timestamp)
    {
      assert h[1..][a] == h[a + 1] && h[1..][b] == h[b + 1];
    }
  }

  /**
   * Sorted histories are determined by their entries: a history listing
   * its set in ascending timestamp order is the only one.
   */
  lemma {:induction false} SortedUnique(a: seq<Transaction>, b: seq<Transaction>)
    requires Sorted(a) && Sorted(b)
    requires forall x :: x in a <==> x in b
    ensures a == b
  {
    SameMembersEmpty(a, b);
    if a != [] {
      SortedHeadLeast(a, b[0]);
      SortedHeadLeast(b, a[0]);
      if a[0] != b[0] {
        BeforeIsStrictTotalOrder(a[0].timestamp, b[0].timestamp, a[0].timestamp);
      }
      SortedTail(a);
      SortedTail(b);
      forall x
        ensures x in a[1..] <==> x in b[1..]
      {
        SortedHeadNotInTail(a);
        SortedHeadNotInTail(b);
        ConsMembers(a, x);
        ConsMembers(b, x);
      }
      SortedUnique(a[1..], b[1..]);
      assert a == [a[0]] + a[1..] && b == [b[0]] + b[1..];
    }
  }

  /** Histories with the same entries are both empty or both not. */
  lemma SameMembersEmpty(a: seq<Transaction>, b: seq<Transaction>)
    requires forall x :: x in a <==> x in b
    ensures a == [] <==> b == []
  {
    if a != [] {
      assert a[0] in b;
    }
    if b != [] {
      assert b[0] in a;
    }
  }

  /** The head of a sorted history is no later than any of its entries. */
  lemma SortedHeadLeast(h: seq<Transaction>, x: Transaction)
    requires Sorted(h) && x in h
    ensures h[0] == x || Before(h[0].timestamp, x.timestamp)
  {
    var k :| 0 <= k < |h| && h[k] == x;
  }

  lemma SortedHeadNotInTail(h: seq<Transaction>)
    requires Sorted(h) && h != []
    ensures h[0] !in h[1..]
  {
    forall k | 0 <= k < |h| - 1
      ensures h[1..][k] != h[0]
    {
      assert Before(h[0].timestamp, h[k + 1].timestamp);
      BeforeIsStrictTotalOrder(h[0].timestamp, h[0].timestamp, h[0].timestamp);
    }
  }

  lemma ConsMembers(h: seq<Transaction>, x: Transaction)
    requires h != []
    ensures x in h <==> x == h[0] || x in h[1..]
  {
    assert h == [h[0]] + h[1..];
  }

  /**
   * Insertion is characterised without reference to how it searches: when
   * `t`'s time is new, the result is the sorted listing of the old entries
   * and `t`.
   */
  lemma InsertIsSortedUnion(h: seq<Transaction>, t: Transaction, r: seq<Transaction>)
    requires Sorted(h) && !HasTime(h, t.timestamp)
    requires Sorted(r) && forall x :: x in r <==> x in h || x == t
    ensures r == Insert(h, t)
  {
    InsertSorted(h, t);
    InsertContents(h, t);
    forall x
      ensures x in Insert(h, t) <==> x in h || x == t
    {
      assert x in Insert(h, t) <==> x in multiset(Insert(h, t));
      assert x in h <==> x in multiset(h);
    }
    SortedUnique(r, Insert(h, t));
  }

  /** A transaction later than everything in the history is appended at the end. */
  lemma {:induction false} InsertLatest(h: seq<Transaction>, t: Transaction)
    requires forall k :: 0 <= k < |h| ==> Before(h[k].timestamp, t.timestamp)
    ensures Insert(h, t) == h + [t]
  {
    if h != [] {
      BeforeIsStrictTotalOrder(h[0].timestamp, t.timestamp, h[0].timestamp);
      InsertLatest(h[1..], t);
      assert h == [h[0]] + h[1..];
    }
  }

  /** `addAll`: every entry of `h`, in order, added to `acc`. */
  function AddAll(acc: seq<Transaction>, h: seq<Transaction>): seq<Transaction>
    decreases |h|
  {
    if h == [] then acc else AddAll(Insert(acc, h[0]), h[1..])
  }

  /**
   * `getTransactionLogs`: `new TreeSet<>(transactions)`, a fresh set
   * holding the entries of the sorted history in the same order. It is
   * written here as adding them one by one, which gives the same listing.
   */
  function Logs(a: Account): seq<Transaction> {
    AddAll([], a.history)
  }

  /** The copy lists exactly the account's history, in the same order. */
  lemma LogsCopiesHistory(a: Account)
    requires WellKept(a)
    ensures Logs(a) == a.history
  {
    assert [] + a.history == a.history;
    AddAllSorted([], a.history);
  }

  /** Copying a sorted history into a fresh set gives the same sequence back. */
  lemma {:induction false} AddAllSorted(acc: seq<Transaction>, h: seq<Transaction>)
    requires Sorted(acc + h)
    ensures AddAll(acc, h) == acc + h
    decreases |h|
  {
    if h != [] {
      var s := acc + h;
      forall k | 0 <= k < |acc|
        ensures Before(acc[k].timestamp, h[0].timestamp)
      {
        assert s[k] == acc[k] && s[|acc|] == h[0];
      }
      InsertLatest(acc, h[0]);
      assert acc + [h[0]] + h[1..] == s;
      AddAllSorted(acc + [h[0]], h[1..]);
    }
  }

  /** `addTransaction`. */
  function Record(a: Account, t: Transaction): (r: Account)
    ensures r.name == a.name && r.balance == a.balance
    ensures WellKept(a) ==> WellKept(r)
  {
    InsertSorted(a.history, t);
    a.(history := Insert(a.history, t))
  }

  // ---------------------------------------------------------------------
  // Balance operations

  /**
   * The account class the aggregator is compiled against may refuse a
   * withdrawal or a transfer with an `IllegalStateException`, which the
   * aggregator catches; that class is not part of this model. `Rules`
   * says which refusals apply. The account class shown never refuses:
   * that is `Permissive`.
   */
  datatype Rules = Rules(rejectOverdraft: bool, rejectSelfTransfer: bool)

  const Permissive := Rules(false, false)

  /** Why an operation was refused. */
  datatype Refusal = Overdraft | SelfTransfer

  /** `balanceInquiry`: the balance becomes the reported amount. */
  function Inquiry(a: Account, amount: real): (r: Account)
    ensures r.name == a.name && r.history == a.history
    ensures WellKept(a) ==> WellKept(r)
  {
    a.(balance := amount)
  }

  /** The inquiry overwrites: whatever the balance was, it no longer matters. */
  lemma InquiryOverwrites(a: Account, b: Account, amount: real)
    requires a.name == b.name && a.history == b.history
    ensures Inquiry(a, amount) == Inquiry(b, amount)
    ensures Inquiry(a, amount).balance == amount
  {
  }

  /** `withdraw`: the amount is taken off the balance, with no floor unless the rules forbid an overdraft. */
  function Withdraw(a: Account, amount: real, rules: Rules): (r: Result<Account, Refusal>)
    ensures r.Failure? <==> rules.rejectOverdraft && amount > a.balance
    ensures r.Success? ==> r.value.name == a.name && r.value.history == a.history
    ensures r.Success? ==> r.value.balance + amount == a.balance
  {
    if rules.rejectOverdraft && amount > a.balance then Failure(Overdraft)
    else Success(a.(balance := a.balance - amount))
  }

  /** The account shown lets the balance go below zero. */
  lemma WithdrawHasNoFloor(name: string)
    ensures Withdraw(NewAccount(name), 1.0, Permissive) == Success(Account(name, -1.0, []))
  {
  }

  /** The registry of accounts by name. */
  type Registry = map<string, Account>

  /**
   * `sender.transfer(amount, recipient)`: first the sender's balance is
   * lowered, then the recipient's raised. When both are the same account
   * the second step sees the first.
   */
  function Transfer(reg: Registry, from: string, to: string, amount: real, rules: Rules)
    : (r: Result<Registry, Refusal>)
    requires from in reg && to in reg
    ensures r.Failure? <==>
      (rules.rejectSelfTransfer && from == to) || (rules.rejectOverdraft && amount > reg[from].balance)
    ensures r.Success? ==> r.value.Keys == reg.Keys
    ensures r.Success? ==> forall k :: k in reg && k != from && k != to ==> r.value[k] == reg[k]
    ensures r.Success? ==> forall k :: k in reg ==>
      r.value[k].name == reg[k].name && r.value[k].history == reg[k].history
  {
    if rules.rejectSelfTransfer && from == to then Failure(SelfTransfer)
    else if rules.rejectOverdraft && amount > reg[from].balance then Failure(Overdraft)
    else
      var debited := reg[from := reg[from].(balance := reg[from].balance - amount)];
      Success(debited[to := debited[to].(balance := debited[to].balance + amount)])
  }

  /** A transfer between two accounts keeps their total balance. */
  lemma TransferConserves(reg: Registry, from: string, to: string, amount: real, rules: Rules)
    requires from in reg && to in reg && from != to
    requires Transfer(reg, from, to, amount, rules).Success?
    ensures var after := Transfer(reg, from, to, amount, rules).value;
      && after[from].balance == reg[from].balance - amount
      && after[to].balance == reg[to].balance + amount
      && after[from].balance + after[to].balance == reg[from].balance + reg[to].balance
  {
  }

  /** A transfer to oneself changes nothing. */
  lemma SelfTransferIsNoOp(reg: Registry, name: string, amount: real, rules: Rules)
    requires name in reg
    requires Transfer(reg, name, name, amount, rules).Success?
    ensures Transfer(reg, name, name, amount, rules).value == reg
  {
    var after := Transfer(reg, name, name, amount, rules).value;
    assert after[name] == reg[name];
  }
}
