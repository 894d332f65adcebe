/**
 * The log-line parser. It recognises the single pattern
 *
 *   ^\[(.+?)] (.+?) (balance inquiry|transferred|withdrew) (\d+\.?\d*) ?(?:to (.+))?$
 *
 * and turns the captured groups into a transaction. The pattern is given
 * here twice: as a grammar (`LineMatches`, which says which group values
 * a match may have) and as a deterministic splitter (`Split`, which finds
 * the match a backtracking engine reports: the lazy groups as short as
 * possible, the timestamp group first).
 */
module LineParser {
  import opened Results
  import opened Text
  import opened Decimals
  import opened Timestamps
  import opened Transactions

  /** The five capture groups of a match; `to` is the optional group 5. */
  datatype Groups = Groups(stamp: string, user: string, kind: OperationType,
                           amount: string, to: Option<string>)

  /** What may follow the amount: an optional space, then an optional `to X`. */
  function Suffix(spaced: bool, to: Option<string>): string {
    (if spaced then " " else "") + (match to case Some(x) => "to " + x case None => "")
  }

  /** What follows the verb: the amount and its suffix. */
  function Tail(amount: string, spaced: bool, to: Option<string>): string {
    amount + Suffix(spaced, to)
  }

  /** The text a match spans, for given groups and choice of the optional space. */
  function Layout(g: Groups, spaced: bool): string {
    "[" + g.stamp + "] " + g.user + " " + Verb(g.kind) + " " + Tail(g.amount, spaced, g.to)
  }

  /** Group values each sub-pattern accepts: `.+` is non-empty and has no line terminator. */
  predicate WellFormed(g: Groups) {
    && |g.stamp| >= 1 && NoTerminators(g.stamp)
    && |g.user| >= 1 && NoTerminators(g.user)
    && IsAmountText(g.amount)
    && (g.to.Some? ==> |g.to.value| >= 1 && NoTerminators(g.to.value))
  }

  /** `body`, anchored at both ends, is a match of the pattern with groups `g`. */
  predicate Derives(body: string, g: Groups) {
    WellFormed(g) && (body == Layout(g, false) || body == Layout(g, true))
  }

  /**
   * `matcher.find()` succeeds with groups `g`: `$` matches at the very end,
   * or before one final line terminator, or before a final "\r\n".
   */
  predicate LineMatches(line: string, g: Groups) {
    || Derives(line, g)
    || (|line| >= 1 && IsTerminator(line[|line| - 1]) && Derives(line[..|line| - 1], g))
    || (|line| >= 2 && line[|line| - 2..] == "\r\n" && Derives(line[..|line| - 2], g))
  }

  /** `g` ends its lazy groups no later than `h` does (timestamp group first). */
  predicate NoLater(g: Groups, h: Groups) {
    |g.stamp| < |h.stamp| || (|g.stamp| == |h.stamp| && |g.user| <= |h.user|)
  }

  /** The match the engine reports: the earliest-ending lazy groups among all matches. */
  ghost predicate Selected(line: string, g: Groups) {
    LineMatches(line, g) && forall h :: LineMatches(line, h) ==> NoLater(g, h)
  }

  // ---------------------------------------------------------------------
  // The deterministic splitter

  /** The part of the line that must match before `$`. */
  function Body(line: string): string {
    if |line| >= 2 && line[|line| - 2..] == "\r\n" then line[..|line| - 2]
    else if |line| >= 1 && IsTerminator(line[|line| - 1]) then line[..|line| - 1]
    else line
  }

  /** `s` begins with `prefix`, compared character by character. */
  predicate StartsWith(s: string, prefix: string) {
    |prefix| <= |s| && (prefix == [] || (s[0] == prefix[0] && StartsWith(s[1..], prefix[1..])))
  }

  lemma {:induction false} StartsWithIsPrefix(s: string, prefix: string)
    ensures StartsWith(s, prefix) <==> |prefix| <= |s| && s[..|prefix|] == prefix
  {
    if prefix != [] && |prefix| <= |s| {
      StartsWithIsPrefix(s[1..], prefix[1..]);
      assert s[..|prefix|] == [s[0]] + s[1..][..|prefix| - 1];
      assert prefix == [prefix[0]] + prefix[1..];
    }
  }

  /** The operation whose verb, followed by a space, starts `s`. */
  function VerbAt(s: string): (r: Option<OperationType>)
    ensures r.Some? ==> StartsWith(s, Verb(r.value) + " ")
  {
    if StartsWith(s, Verb(BalanceInquiry) + " ") then Some(BalanceInquiry)
    else if StartsWith(s, Verb(Transferred) + " ") then Some(Transferred)
    else if StartsWith(s, Verb(Withdrew) + " ") then Some(Withdrew)
    else None
  }

  predicate AmountChar(c: char) {
    IsDigit(c) || c == '.'
  }

  /** Length of the longest prefix of digits and points. */
  function AmountSpan(s: string): (n: nat)
    ensures n <= |s|
    ensures forall k :: 0 <= k < n ==> AmountChar(s[k])
    ensures n < |s| ==> !AmountChar(s[n])
  {
    if s == [] || !AmountChar(s[0]) then 0 else 1 + AmountSpan(s[1..])
  }

  /** The parts of a tail: the amount, whether the optional space is there, the recipient. */
  datatype TailParts = TailParts(amount: string, spaced: bool, to: Option<string>)

  /**
   * Reads `\d+\.?\d* ?(?:to (.+))?` to the end of `tail`. No backtracking
   * choice exists here: the amount must stop where the digits and points
   * stop, because what may follow it starts with a space or `t`.
   */
  function DecodeTail(tail: string): (r: Option<TailParts>)
    ensures r.Some? ==> IsAmountText(r.value.amount)
  {
    var n := AmountSpan(tail);
    var amount := tail[..n];
    if !IsAmountText(amount) then None
    else match DecodeSuffix(tail[n..])
      case None => None
      case Some(p) => Some(TailParts(amount, p.0, p.1))
  }

  /** Reads ` ?(?:to (.+))?` to the end of `rest`: the optional space and recipient. */
  function DecodeSuffix(rest: string): Option<(bool, Option<string>)> {
    if |rest| == 0 then Some((false, None))
    else if |rest| == 1 && rest[0] == ' ' then Some((true, None))
    else if |rest| > 4 && StartsWith(rest, " to ") then Some((true, Some(rest[4..])))
    else if |rest| > 3 && StartsWith(rest, "to ") then Some((false, Some(rest[3..])))
    else None
  }

  /** The match whose timestamp group ends before index `i` and whose user group ends before `j`. */
  function SplitAt(body: string, i: nat, j: nat): (r: Option<Groups>)
  {
    if !(2 <= i && i + 3 <= j < |body|) then None
    else if body[0] != '[' || body[i] != ']' || body[i + 1] != ' ' || body[j] != ' ' then None
    else
      match VerbAt(body[j + 1..])
      case None => None
      case Some(kind) =>
        match DecodeTail(body[j + 2 + |Verb(kind)|..])
        case None => None
        case Some(p) => Some(Groups(body[1..i], body[i + 2..j], kind, p.amount, p.to))
  }

  /** Where the groups of a split end, and that its amount is amount text. */
  lemma SplitAtShape(body: string, i: nat, j: nat)
    requires SplitAt(body, i, j).Some?
    ensures var g := SplitAt(body, i, j).value;
      && 2 <= i && i + 3 <= j < |body|
      && |g.stamp| == i - 1 && |g.user| == j - i - 2
      && IsAmountText(g.amount)
  {
  }

  /** The least `n` in `[lo, hi)` at which `f` yields a value. */
  function FirstHit<T>(f: nat -> Option<T>, lo: nat, hi: nat): (r: Option<nat>)
    ensures r.Some? ==> lo <= r.value < hi && f(r.value).Some?
    ensures r.Some? ==> forall n :: lo <= n < r.value ==> f(n).None?
    ensures r.None? ==> forall n :: lo <= n < hi ==> f(n).None?
    decreases hi - lo
  {
    if lo >= hi then None
    else if f(lo).Some? then Some(lo)
    else FirstHit(f, lo + 1, hi)
  }

  /** The matches with the timestamp group ending before `i`, by where the user group ends. */
  function UserEnds(body: string, i: nat): nat -> Option<Groups> {
    (j: nat) => SplitAt(body, i, j)
  }

  /**
   * Lazy `(.+?)` for the user: for each end `i` of the timestamp group, the
   * first end of the user group that completes a match.
   */
  function StampEnds(body: string): nat -> Option<nat> {
    (i: nat) => FirstHit(UserEnds(body, i), i + 3, |body|)
  }

  /**
   * The groups `matcher.find()` reports, or `None` when the line does not
   * match: lazy `(.+?)` for the timestamp takes the first end for which
   * some user end works.
   */
  function Split(line: string): (r: Option<Groups>)
    ensures r.Some? ==> IsAmountText(r.value.amount)
  {
    var body := Body(line);
    if !NoTerminators(body) then None
    else match FirstHit(StampEnds(body), 2, |body|)
      case None => None
      case Some(i) =>
        var j := StampEnds(body)(i).value;
        UserEndsApply(body, i, j);
        SplitAtShape(body, i, j);
        SplitAt(body, i, j)
  }

  /**
   * Whenever some pair of group ends completes a match, the search finds
   * a pair no later in the order (timestamp end first, then user end).
   */
  lemma SearchFindsFirst(body: string, i: nat, j: nat)
    requires SplitAt(body, i, j).Some?
    ensures var r := FirstHit(StampEnds(body), 2, |body|);
      && r.Some? && StampEnds(body)(r.value).Some?
      && (r.value < i || (r.value == i && StampEnds(body)(i).value <= j))
  {
    SplitAtShape(body, i, j);
    UserSearchFinds(body, i, j);
    FirstHitNoLater(StampEnds(body), 2, |body|, i);
  }

  /** For a fixed timestamp end, the user search finds an end no later than any that works. */
  lemma UserSearchFinds(body: string, i: nat, j: nat)
    requires SplitAt(body, i, j).Some? && i + 3 <= j < |body|
    ensures StampEnds(body)(i).Some? && StampEnds(body)(i).value <= j
  {
    UserEndsApply(body, i, j);
    FirstHitNoLater(UserEnds(body, i), i + 3, |body|, j);
    StampEndsApply(body, i);
  }

  lemma UserEndsApply(body: string, i: nat, j: nat)
    ensures UserEnds(body, i)(j) == SplitAt(body, i, j)
  {
  }

  lemma StampEndsApply(body: string, i: nat)
    ensures StampEnds(body)(i) == FirstHit(UserEnds(body, i), i + 3, |body|)
  {
  }

  /** The first hit is no later than any hit. */
  lemma FirstHitNoLater<T>(f: nat -> Option<T>, lo: nat, hi: nat, n: nat)
    requires lo <= n < hi && f(n).Some?
    ensures FirstHit(f, lo, hi).Some? && FirstHit(f, lo, hi).value <= n
  {
  }

  // ---------------------------------------------------------------------
  // The splitter agrees with the grammar

  lemma AmountTextChars(s: string)
    requires IsAmountText(s)
    ensures |s| >= 1 && IsDigit(s[0])
    ensures forall k :: 0 <= k < |s| ==> AmountChar(s[k])
  {
    var k := IndexOf(s, '.');
    assert IsDigit(s[..k][0]);
    forall m | 0 <= m < |s|
      ensures AmountChar(s[m])
    {
      if m < k {
        assert s[m] == s[..k][m];
      } else if m > k {
        assert s[m] == s[k + 1..][m - k - 1];
      }
    }
  }

  /** The amount span stops exactly where the digits and points stop. */
  lemma {:induction false} SpanOfPrefix(amount: string, suffix: string)
    requires forall k :: 0 <= k < |amount| ==> AmountChar(amount[k])
    requires suffix == [] || !AmountChar(suffix[0])
    ensures AmountSpan(amount + suffix) == |amount|
  {
    if amount != [] {
      assert (amount + suffix)[1..] == amount[1..] + suffix;
      SpanOfPrefix(amount[1..], suffix);
    }
  }

  /** Every suffix the grammar allows is read back by `DecodeSuffix`. */
  lemma DecodeSuffixComplete(spaced: bool, to: Option<string>)
    requires to.Some? ==> |to.value| >= 1
    ensures DecodeSuffix(Suffix(spaced, to)) == Some((spaced, to))
  {
    var rest := Suffix(spaced, to);
    match to
    case None =>
      if spaced {
        assert rest == " ";
      }
    case Some(x) =>
      if spaced {
        assert rest == " to " + x;
        StartsWithIsPrefix(rest, " to ");
        assert rest[..4] == " to ";
        assert rest[4..] == x;
      } else {
        assert rest == "to " + x;
        StartsWithIsPrefix(rest, "to ");
        assert rest[..3] == "to ";
        assert rest[3..] == x;
      }
  }

  /** Whatever `DecodeSuffix` reads is a suffix the grammar allows. */
  lemma DecodeSuffixSound(rest: string)
    requires DecodeSuffix(rest).Some?
    ensures var p := DecodeSuffix(rest).value;
      && (p.1.Some? ==> |p.1.value| >= 1)
      && rest == Suffix(p.0, p.1)
  {
    if |rest| == 0 {
    } else if |rest| == 1 && rest[0] == ' ' {
      assert rest == " ";
    } else if |rest| > 4 && StartsWith(rest, " to ") {
      StartsWithIsPrefix(rest, " to ");
      assert rest == " " + ("to " + rest[4..]);
    } else {
      StartsWithIsPrefix(rest, "to ");
      assert rest == "to " + rest[3..];
    }
  }

  /** Every tail shape the grammar allows is read back by `DecodeTail`. */
  lemma DecodeTailComplete(amount: string, spaced: bool, to: Option<string>)
    requires IsAmountText(amount)
    requires to.Some? ==> |to.value| >= 1
    ensures DecodeTail(Tail(amount, spaced, to)) == Some(TailParts(amount, spaced, to))
  {
    var tail := Tail(amount, spaced, to);
    var suffix := Suffix(spaced, to);
    AmountTextChars(amount);
    SuffixStart(spaced, to);
    SpanOfPrefix(amount, suffix);
    assert tail[..|amount|] == amount;
    assert tail[|amount|..] == suffix;
    DecodeSuffixComplete(spaced, to);
  }

  /** A suffix starts with a space or `t`, neither of which can continue an amount. */
  lemma SuffixStart(spaced: bool, to: Option<string>)
    ensures Suffix(spaced, to) == [] || !AmountChar(Suffix(spaced, to)[0])
  {
  }

  /** Whatever `DecodeTail` reads is one of the tail shapes the grammar allows. */
  lemma DecodeTailSound(tail: string)
    requires DecodeTail(tail).Some?
    ensures var p := DecodeTail(tail).value;
      && IsAmountText(p.amount)
      && (p.to.Some? ==> |p.to.value| >= 1)
      && tail == Tail(p.amount, p.spaced, p.to)
  {
    var n := AmountSpan(tail);
    assert tail == tail[..n] + tail[n..];
    DecodeSuffixSound(tail[n..]);
  }

  lemma VerbAtVerb(kind: OperationType, rest: string)
    ensures VerbAt(Verb(kind) + " " + rest) == Some(kind)
  {
    var s := Verb(kind) + " " + rest;
    assert s[..|Verb(kind) + " "|] == Verb(kind) + " ";
    StartsWithIsPrefix(s, Verb(kind) + " ");
    match kind
    case BalanceInquiry =>
    case Transferred =>
      assert s[0] == 't';
    case Withdrew =>
      assert s[0] == 'w';
  }

  /** Where the literal parts of a layout sit. */
  lemma LayoutMarks(g: Groups, spaced: bool, i: nat, j: nat)
    requires i == 1 + |g.stamp| && j == 3 + |g.stamp| + |g.user|
    ensures var s := Layout(g, spaced);
      && j < |s|
      && s[0] == '[' && s[1..i] == g.stamp && s[i] == ']' && s[i + 1] == ' '
      && s[i + 2..j] == g.user && s[j] == ' '
      && s[j + 1..] == Verb(g.kind) + " " + Tail(g.amount, spaced, g.to)
  {
    var s := Layout(g, spaced);
    var rest := Verb(g.kind) + " " + Tail(g.amount, spaced, g.to);
    assert s == "[" + g.stamp + "] " + g.user + " " + rest;
  }

  /** Every match is found by splitting where its timestamp and user groups end. */
  lemma SplitAtComplete(body: string, g: Groups, i: nat, j: nat)
    requires Derives(body, g)
    requires i == 1 + |g.stamp| && j == 3 + |g.stamp| + |g.user|
    ensures SplitAt(body, i, j) == Some(g)
  {
    var spaced := body == Layout(g, true);
    LayoutMarks(g, spaced, i, j);
    var tail := Tail(g.amount, spaced, g.to);
    var k := j + 2 + |Verb(g.kind)|;
    VerbAtVerb(g.kind, tail);
    assert body[j + 1..][|Verb(g.kind)| + 1..] == tail;
    assert body[k..] == tail;
    DecodeTailComplete(g.amount, spaced, g.to);
  }

  /** Every split is a match of the pattern. */
  lemma SplitAtSound(body: string, i: nat, j: nat)
    requires NoTerminators(body)
    requires SplitAt(body, i, j).Some?
    ensures Derives(body, SplitAt(body, i, j).value)
  {
    SplitAtLayout(body, i, j);
    SplitAtWellFormed(body, i, j);
  }

  lemma SplitAtLayout(body: string, i: nat, j: nat)
    requires SplitAt(body, i, j).Some?
    ensures var g := SplitAt(body, i, j).value;
      body == Layout(g, false) || body == Layout(g, true)
  {
    var kind, k, p := SplitAtParts(body, i, j);
    SplitAtTail(body, j, kind);
    var tail := body[k..];
    DecodeTailSound(tail);
    Reassemble(body, i, j);
    LayoutOf(Groups(body[1..i], body[i + 2..j], kind, p.amount, p.to), p.spaced, body, tail);
  }

  /** The pieces a successful split is made of. */
  lemma SplitAtParts(body: string, i: nat, j: nat) returns (kind: OperationType, k: nat, p: TailParts)
    requires SplitAt(body, i, j).Some?
    ensures 2 <= i && i + 3 <= j < |body|
    ensures body[0] == '[' && body[i] == ']' && body[i + 1] == ' ' && body[j] == ' '
    ensures StartsWith(body[j + 1..], Verb(kind) + " ")
    ensures k == j + 2 + |Verb(kind)| && k <= |body|
    ensures DecodeTail(body[k..]) == Some(p)
    ensures SplitAt(body, i, j) == Some(Groups(body[1..i], body[i + 2..j], kind, p.amount, p.to))
  {
    kind := VerbAt(body[j + 1..]).value;
    StartsWithIsPrefix(body[j + 1..], Verb(kind) + " ");
    k := j + 2 + |Verb(kind)|;
    p := DecodeTail(body[k..]).value;
  }

  lemma LayoutOf(g: Groups, spaced: bool, body: string, tail: string)
    requires tail == Tail(g.amount, spaced, g.to)
    requires body == "[" + g.stamp + "] " + g.user + " " + (Verb(g.kind) + " " + tail)
    ensures body == Layout(g, spaced)
  {
  }

  lemma SplitAtWellFormed(body: string, i: nat, j: nat)
    requires NoTerminators(body)
    requires SplitAt(body, i, j).Some?
    ensures WellFormed(SplitAt(body, i, j).value)
  {
    var kind, k, p := SplitAtParts(body, i, j);
    HeadHasNoTerminators(body, i, j);
    RecipientHasNoTerminators(body, k, p);
    GroupsWellFormed(Groups(body[1..i], body[i + 2..j], kind, p.amount, p.to));
  }

  lemma HeadHasNoTerminators(body: string, i: nat, j: nat)
    requires NoTerminators(body) && 1 <= i && i + 2 <= j <= |body|
    ensures NoTerminators(body[1..i]) && NoTerminators(body[i + 2..j])
  {
    NoTerminatorsSlice(body, 1, i);
    NoTerminatorsSlice(body, i + 2, j);
  }

  lemma RecipientHasNoTerminators(body: string, k: nat, p: TailParts)
    requires NoTerminators(body) && k <= |body| && DecodeTail(body[k..]) == Some(p)
    ensures p.to.Some? ==> |p.to.value| >= 1 && NoTerminators(p.to.value)
  {
    if p.to.Some? {
      NoTerminatorsSuffix(body, k);
      DecodeTailTo(body[k..], p);
    }
  }

  lemma GroupsWellFormed(g: Groups)
    requires |g.stamp| >= 1
    requires NoTerminators(g.stamp)
    requires |g.user| >= 1
    requires NoTerminators(g.user)
    requires IsAmountText(g.amount)
    requires g.to.Some? ==> |g.to.value| >= 1
    requires g.to.Some? ==> NoTerminators(g.to.value)
    ensures WellFormed(g)
  {
  }

  /** The recipient a tail yields is a non-empty suffix of it. */
  lemma DecodeTailTo(tail: string, p: TailParts)
    requires NoTerminators(tail)
    requires DecodeTail(tail) == Some(p) && p.to.Some?
    ensures |p.to.value| >= 1 && NoTerminators(p.to.value)
  {
    var n := AmountSpan(tail);
    NoTerminatorsSuffix(tail, n);
    DecodeSuffixTo(tail[n..], p.spaced, p.to);
  }

  lemma DecodeSuffixTo(rest: string, spaced: bool, to: Option<string>)
    requires NoTerminators(rest)
    requires DecodeSuffix(rest) == Some((spaced, to)) && to.Some?
    ensures |to.value| >= 1 && NoTerminators(to.value)
  {
    if |rest| > 4 && StartsWith(rest, " to ") {
      NoTerminatorsSuffix(rest, 4);
    } else {
      NoTerminatorsSuffix(rest, 3);
    }
  }

  /** After the verb the split finds, the rest of the body is the tail it decodes. */
  lemma SplitAtTail(body: string, j: nat, kind: OperationType)
    requires j < |body| && StartsWith(body[j + 1..], Verb(kind) + " ")
    ensures j + 2 + |Verb(kind)| <= |body|
    ensures body[j + 1..] == Verb(kind) + " " + body[j + 2 + |Verb(kind)|..]
  {
    var after := body[j + 1..];
    var n := |Verb(kind) + " "|;
    StartsWithIsPrefix(after, Verb(kind) + " ");
    assert after == after[..n] + after[n..];
  }

  lemma Reassemble(body: string, i: nat, j: nat)
    requires 2 <= i && i + 3 <= j < |body|
    requires body[0] == '[' && body[i] == ']' && body[i + 1] == ' ' && body[j] == ' '
    ensures body == "[" + body[1..i] + "] " + body[i + 2..j] + " " + body[j + 1..]
  {
    assert body[i..i + 2] == "] ";
  }

  lemma NoTerminatorsSlice(s: string, a: nat, b: nat)
    requires NoTerminators(s) && a <= b <= |s|
    ensures NoTerminators(s[a..b])
  {
    forall k | 0 <= k < b - a
      ensures !IsTerminator(s[a..b][k])
    {
      assert s[a..b][k] == s[a + k];
    }
  }

  lemma NoTerminatorsSuffix(s: string, a: nat)
    requires NoTerminators(s) && a <= |s|
    ensures NoTerminators(s[a..])
  {
    forall k | 0 <= k < |s| - a
      ensures !IsTerminator(s[a..][k])
    {
      assert s[a..][k] == s[a + k];
    }
  }

  lemma DerivesHasNoTerminators(body: string, g: Groups)
    requires Derives(body, g)
    ensures NoTerminators(body)
  {
    var spaced := body == Layout(g, true);
    var suffix := Suffix(spaced, g.to);
    AmountTextChars(g.amount);
    NoTerminatorsConcat(g.amount, suffix);
    var tail := g.amount + suffix;
    var head := "[" + g.stamp + "] " + g.user + " " + Verb(g.kind) + " ";
    NoTerminatorsConcat("[", g.stamp);
    NoTerminatorsConcat("[" + g.stamp, "] ");
    NoTerminatorsConcat("[" + g.stamp + "] ", g.user);
    NoTerminatorsConcat("[" + g.stamp + "] " + g.user, " ");
    VerbHasNoTerminators(g.kind);
    NoTerminatorsConcat("[" + g.stamp + "] " + g.user + " ", Verb(g.kind));
    NoTerminatorsConcat("[" + g.stamp + "] " + g.user + " " + Verb(g.kind), " ");
    NoTerminatorsConcat(head, tail);
  }

  lemma VerbHasNoTerminators(kind: OperationType)
    ensures NoTerminators(Verb(kind))
  {
    match kind
    case BalanceInquiry => assert NoTerminators("balance inquiry");
    case Transferred => assert NoTerminators("transferred");
    case Withdrew => assert NoTerminators("withdrew");
  }

  lemma NoTerminatorsConcat(a: string, b: string)
    requires NoTerminators(a) && NoTerminators(b)
    ensures NoTerminators(a + b)
  {
    forall k | 0 <= k < |a + b|
      ensures !IsTerminator((a + b)[k])
    {
      if k >= |a| {
        assert (a + b)[k] == b[k - |a|];
      }
    }
  }

  /** A line without line terminators is its own body. */
  lemma CleanBody(line: string)
    requires NoTerminators(line)
    ensures Body(line) == line
  {
    var n := |line|;
    if n >= 1 {
      assert !IsTerminator(line[n - 1]);
    }
    if n >= 2 {
      assert line[n - 2..][1] == line[n - 1];
    }
  }

  /** A line matches with groups `g` exactly when its body derives `g`. */
  lemma BodyMatches(line: string, g: Groups)
    ensures LineMatches(line, g) <==> Derives(Body(line), g)
  {
    var n := |line|;
    if Derives(line, g) {
      DerivesHasNoTerminators(line, g);
      if n >= 1 {
        assert !IsTerminator(line[n - 1]);
      }
    }
    if n >= 1 && IsTerminator(line[n - 1]) && Derives(line[..n - 1], g) {
      DerivesHasNoTerminators(line[..n - 1], g);
      if n >= 2 {
        assert line[n - 2] == line[..n - 1][n - 2];
        assert line[n - 2..][0] == line[n - 2];
      }
    }
  }

  /** The groups the splitter reports come from one split of the body. */
  lemma SplitFound(line: string) returns (i: nat, j: nat)
    requires Split(line).Some?
    ensures var g := Split(line).value;
      && NoTerminators(Body(line))
      && SplitAt(Body(line), i, j) == Some(g)
      && i == 1 + |g.stamp| && j == 3 + |g.stamp| + |g.user|
  {
    var body := Body(line);
    i := FirstHit(StampEnds(body), 2, |body|).value;
    j := StampEnds(body)(i).value;
    UserEndsApply(body, i, j);
    SplitAtShape(body, i, j);
  }

  /** No split of the body ends its groups earlier than the reported one. */
  lemma SplitIsFirst(line: string, i: nat, j: nat)
    requires Split(line).Some? && SplitAt(Body(line), i, j).Some?
    ensures var g := Split(line).value;
      1 + |g.stamp| < i || (1 + |g.stamp| == i && 3 + |g.stamp| + |g.user| <= j)
  {
    var body := Body(line);
    SearchFindsFirst(body, i, j);
    var i0 := FirstHit(StampEnds(body), 2, |body|).value;
    var j0 := StampEnds(body)(i0).value;
    UserEndsApply(body, i0, j0);
    SplitAtShape(body, i0, j0);
  }

  /** A line the pattern matches in any way is one the splitter splits. */
  lemma MatchIsSplit(line: string, h: Groups)
    ensures LineMatches(line, h) ==> Split(line).Some?
  {
    var body := Body(line);
    BodyMatches(line, h);
    if Derives(body, h) {
      DerivesHasNoTerminators(body, h);
      var i, j := 1 + |h.stamp|, 3 + |h.stamp| + |h.user|;
      SplitAtComplete(body, h, i, j);
      SearchFindsFirst(body, i, j);
    }
  }

  /** The groups the splitter reports are those of a match. */
  lemma SplitMatches(line: string)
    requires Split(line).Some?
    ensures LineMatches(line, Split(line).value)
  {
    var i, j := SplitFound(line);
    SplitAtSound(Body(line), i, j);
    BodyMatches(line, Split(line).value);
  }

  /** The groups the splitter reports end no later than those of any match. */
  lemma SplitBeforeMatch(line: string, h: Groups)
    requires Split(line).Some? && LineMatches(line, h)
    ensures NoLater(Split(line).value, h)
  {
    BodyMatches(line, h);
    var i, j := 1 + |h.stamp|, 3 + |h.stamp| + |h.user|;
    SplitAtComplete(Body(line), h, i, j);
    SplitIsFirst(line, i, j);
  }

  /** The splitter reports the selected match, and nothing when there is no match. */
  lemma SplitIsSelected(line: string)
    ensures Split(line).Some? ==> Selected(line, Split(line).value)
    ensures Split(line).None? ==> forall h :: !LineMatches(line, h)
  {
    if Split(line).Some? {
      SplitMatches(line);
      forall h | LineMatches(line, h)
        ensures NoLater(Split(line).value, h)
      {
        SplitBeforeMatch(line, h);
      }
    } else {
      forall h
        ensures !LineMatches(line, h)
      {
        MatchIsSplit(line, h);
      }
    }
  }

  /** Two matches of one body whose groups end at the same places are the same match. */
  lemma SameEndsSameGroups(body: string, g: Groups, h: Groups)
    requires Derives(body, g) && Derives(body, h)
    requires |g.stamp| == |h.stamp| && |g.user| == |h.user|
    ensures g == h
  {
    var i, j := 1 + |g.stamp|, 3 + |g.stamp| + |g.user|;
    SplitAtComplete(body, g, i, j);
    SplitAtComplete(body, h, i, j);
  }

  /** At most one match is the selected one. */
  lemma SelectedUnique(line: string, g: Groups, h: Groups)
    requires Selected(line, g) && Selected(line, h)
    ensures g == h
  {
    assert NoLater(g, h) && NoLater(h, g);
    BodyMatches(line, g);
    BodyMatches(line, h);
    SameEndsSameGroups(Body(line), g, h);
  }

  // ---------------------------------------------------------------------
  // parseLine

  /** The exception a matched line raises instead of yielding a transaction. */
  datatype LineError = BadTimestamp | Rejected(reason: InvalidTransaction)

  /** `parseLine`: no match (`null`), a transaction, or a thrown exception. */
  datatype ParseResult = NoMatch | Parsed(value: Transaction) | Malformed(error: LineError)

  /** What `parseLine` does with the groups of a match. */
  function Interpret(g: Groups): (r: ParseResult)
    requires IsAmountText(g.amount)
    ensures !r.NoMatch?
  {
    match Timestamps.Parse(g.stamp)
    case None => Malformed(BadTimestamp)
    case Some(ts) =>
      var amount := ParseAmount(g.amount);
      match New(g.kind, ts, g.user, amount, if g.kind == Transferred then g.to else None)
      case Failure(e) => Malformed(Rejected(e))
      case Success(t) => Parsed(t)
  }

  function ParseLine(line: string): ParseResult {
    match Split(line)
    case None => NoMatch
    case Some(g) => Interpret(g)
  }

  /**
   * A line yields no transaction exactly when the pattern does not match
   * it; a matching line is read through its selected groups.
   */
  lemma ParseLineFollowsGrammar(line: string)
    ensures ParseLine(line).NoMatch? <==> forall h :: !LineMatches(line, h)
    ensures forall g :: Selected(line, g) ==> ParseLine(line) == Interpret(g)
  {
    SplitIsSelected(line);
    forall g | Selected(line, g)
      ensures ParseLine(line) == Interpret(g)
    {
      SelectedUnique(line, g, Split(line).value);
    }
  }

  /**
   * The outcomes of a matched line, in the order the code checks them: a
   * timestamp that does not parse, a zero amount, a transfer without a
   * recipient, and otherwise a transaction, whose recipient is dropped
   * unless it is a transfer.
   */
  lemma MatchedLineOutcome(line: string, g: Groups)
    requires Selected(line, g)
    ensures Timestamps.Parse(g.stamp).None? ==> ParseLine(line) == Malformed(BadTimestamp)
    ensures Timestamps.Parse(g.stamp).Some? && Value(ParseAmount(g.amount)) <= 0.0 ==>
      ParseLine(line) == Malformed(Rejected(NonPositiveAmount))
    ensures (Timestamps.Parse(g.stamp).Some? && Value(ParseAmount(g.amount)) > 0.0
             && g.kind == Transferred && MissingName(g.to)) ==>
      ParseLine(line) == Malformed(Rejected(MissingRecipient))
    ensures (Timestamps.Parse(g.stamp).Some? && Value(ParseAmount(g.amount)) > 0.0
             && !(g.kind == Transferred && MissingName(g.to))) ==>
      ParseLine(line) == Parsed(Transactions.Transaction(
        g.kind, Timestamps.Parse(g.stamp).value, g.user, ParseAmount(g.amount),
        if g.kind == Transferred then g.to else None))
  {
    ParseLineFollowsGrammar(line);
  }

  /** Every transaction `parseLine` yields is one the constructor accepts. */
  lemma ParsedIsValid(line: string)
    requires ParseLine(line).Parsed?
    ensures Valid(ParseLine(line).value)
  {
    var g := Split(line).value;
    var ts := Timestamps.Parse(g.stamp).value;
    NewYieldsValid(g.kind, ts, g.user, ParseAmount(g.amount),
                   if g.kind == Transferred then g.to else None);
  }

  /** A line that does not open with `[` yields no transaction. */
  lemma UnbracketedIsSkipped(line: string)
    requires line == [] || line[0] != '['
    ensures ParseLine(line) == NoMatch
  {
    SplitOpensWithBracket(line);
  }

  lemma SplitOpensWithBracket(line: string)
    ensures Split(line).Some? ==> |line| > 0 && line[0] == '['
  {
    if Split(line).Some? {
      var body := Body(line);
      var i, j := SplitFound(line);
      var kind, k, p := SplitAtParts(body, i, j);
      assert body == line[..|body|];
      assert body[0] == line[0];
    }
  }

  // ---------------------------------------------------------------------
  // Rendering then parsing

  /** Transactions whose rendering the pattern reads back unambiguously. */
  predicate Renderable(t: Transaction) {
    && Valid(t)
    && |t.sender| >= 1 && NoSpaces(t.sender) && NoTerminators(t.sender)
    && (t.recipient.Some? ==> NoTerminators(t.recipient.value))
  }

  /** The groups a rendered transaction is matched with. */
  function RenderedGroups(t: Transaction): Groups {
    Groups(Format(t.timestamp), t.sender, t.kind, PlainString(t.amount), t.recipient)
  }

  lemma RenderedLayout(t: Transaction)
    requires Renderable(t)
    ensures Render(t) == Layout(RenderedGroups(t), t.kind == Transferred)
    ensures Derives(Render(t), RenderedGroups(t))
  {
    var g := RenderedGroups(t);
    RenderIsLayout(t);
    PositiveValue(t.amount);
    ParsePlain(t.amount);
    FormatChars(t.timestamp);
    assert NoTerminators(g.stamp);
    if t.kind == Transferred {
      assert |t.recipient.value| >= 1;
    }
  }

  /** `toString` lays out the groups with the optional space taken exactly for transfers. */
  lemma RenderIsLayout(t: Transaction)
    requires Valid(t)
    ensures Render(t) == Layout(RenderedGroups(t), t.kind == Transferred)
  {
    var g := RenderedGroups(t);
    var prefix := "[" + g.stamp + "] " + g.user + " " + Verb(g.kind) + " ";
    var suffix := Suffix(t.kind == Transferred, t.recipient);
    assert Layout(g, t.kind == Transferred) == prefix + (g.amount + suffix);
    assert prefix + (g.amount + suffix) == (prefix + g.amount) + suffix;
    if t.kind == Transferred {
      assert suffix == " to " + t.recipient.value;
    } else {
      assert suffix == [];
    }
  }

  /**
   * In a rendered line no `]` occurs inside the timestamp and no space
   * inside the sender's name.
   */
  lemma RenderedMarks(t: Transaction)
    requires Renderable(t)
    ensures var line := Render(t);
      && 22 + |t.sender| < |line|
      && (forall p :: 1 <= p < 20 ==> line[p] != ']')
      && (forall p :: 22 <= p < 22 + |t.sender| ==> line[p] != ' ')
  {
    var line := Render(t);
    var g := RenderedGroups(t);
    RenderedLayout(t);
    LayoutMarks(g, t.kind == Transferred, 20, 22 + |t.sender|);
    FormatChars(t.timestamp);
    forall p | 1 <= p < 20
      ensures line[p] != ']'
    {
      assert line[p] == line[1..20][p - 1];
    }
    forall p | 22 <= p < 22 + |t.sender|
      ensures line[p] != ' '
    {
      assert line[p] == line[22..22 + |t.sender|][p - 22];
    }
  }

  /** A rendered transaction's selected match is the one it was rendered from. */
  lemma RenderedSelected(t: Transaction)
    requires Renderable(t)
    ensures Selected(Render(t), RenderedGroups(t))
  {
    var line := Render(t);
    var g := RenderedGroups(t);
    RenderedLayout(t);
    DerivesHasNoTerminators(line, g);
    CleanBody(line);
    BodyMatches(line, g);
    forall h | LineMatches(line, h)
      ensures NoLater(g, h)
    {
      BodyMatches(line, h);
      RenderedMatchNoEarlier(t, h);
    }
  }

  /** No match of a rendered line ends its groups before the rendered ones. */
  lemma RenderedMatchNoEarlier(t: Transaction, h: Groups)
    requires Renderable(t) && Derives(Render(t), h)
    ensures NoLater(RenderedGroups(t), h)
  {
    var line := Render(t);
    var spaced := line == Layout(h, true);
    var i, j := 1 + |h.stamp|, 3 + |h.stamp| + |h.user|;
    LayoutMarks(h, spaced, i, j);
    RenderedMarks(t);
    assert line[i] == ']';
    assert i >= 20;
    if i == 20 {
      assert line[j] == ' ';
      assert j >= 22 + |t.sender|;
    }
  }

  /**
   * Round trip: parsing the rendering of a transaction gives back an equal
   * transaction (its amount with the trailing zeros stripped).
   */
  lemma RenderThenParse(t: Transaction)
    requires Renderable(t)
    ensures ParseLine(Render(t)) == Parsed(Canonical(t))
    ensures Equal(ParseLine(Render(t)).value, t)
  {
    RenderedSplit(t);
    InterpretRendered(t);
    EqualIffSameCanonical(Canonical(t), t);
    StripZerosTwice(t.amount);
  }

  /** The rendered line is split into the groups it was rendered from. */
  lemma RenderedSplit(t: Transaction)
    requires Renderable(t)
    ensures Split(Render(t)) == Some(RenderedGroups(t))
  {
    var line := Render(t);
    RenderedSelected(t);
    SplitIsSelected(line);
    SelectedUnique(line, RenderedGroups(t), Split(line).value);
  }

  lemma InterpretRendered(t: Transaction)
    requires Renderable(t)
    ensures IsAmountText(RenderedGroups(t).amount)
    ensures Interpret(RenderedGroups(t)) == Parsed(Canonical(t))
  {
    var g, c := RenderedGroups(t), Canonical(t);
    FormatThenParse(t.timestamp);
    PositiveValue(t.amount);
    ParsePlain(t.amount);
    CanonicalIsValid(t);
    ValidIsConstructible(c);
    assert (if g.kind == Transferred then g.to else None) == c.recipient;
    InterpretSteps(g, t.timestamp, c.amount);
  }

  /** `Interpret` once the timestamp and the amount have been read. */
  lemma InterpretSteps(g: Groups, ts: Timestamp, amount: Decimal)
    requires IsAmountText(g.amount)
    requires Timestamps.Parse(g.stamp) == Some(ts) && ParseAmount(g.amount) == amount
    ensures Interpret(g) ==
      match New(g.kind, ts, g.user, amount, if g.kind == Transferred then g.to else None)
      case Failure(e) => Malformed(Rejected(e))
      case Success(t) => Parsed(t)
  {
  }

  lemma CanonicalIsValid(t: Transaction)
    requires Valid(t)
    ensures Valid(Canonical(t))
  {
    NumEqIsSameValue(StripZeros(t.amount), t.amount);
    StripZerosNumEq(t.amount);
  }

  lemma StripZerosTwice(d: Decimal)
    ensures StripZeros(StripZeros(d)) == StripZeros(d)
  {
  }
}
