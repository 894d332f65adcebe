/**
 * Character classes and decimal digit strings shared by the timestamp
 * format, the amount format and the log-line grammar.
 */
module Text {

  /** Decimal digit as matched by the regex class `\d` (ASCII only). */
  predicate IsDigit(c: char) {
    '0' <= c <= '9'
  }

  predicate AllDigits(s: string) {
    forall k :: 0 <= k < |s| ==> IsDigit(s[k])
  }

  function DigitValue(c: char): (d: nat)
    requires IsDigit(c)
    ensures d < 10
  {
    c as int - '0' as int
  }

  function DigitChar(d: nat): (c: char)
    requires d < 10
    ensures IsDigit(c) && DigitValue(c) == d
  {
    ('0' as int + d) as char
  }

  /**
   * The characters a Java regex `.` does not match and before which `$`
   * may match: line feed, carriage return, next line, line separator and
   * paragraph separator.
   */
  predicate IsTerminator(c: char) {
    c == '\n' || c == '\r' || c == '\U{0085}' || c == '\U{2028}' || c == '\U{2029}'
  }

  predicate NoTerminators(s: string) {
    forall k :: 0 <= k < |s| ==> !IsTerminator(s[k])
  }

  predicate NoSpaces(s: string) {
    forall k :: 0 <= k < |s| ==> s[k] != ' '
  }

  /**
   * `s.trim().isEmpty()` in Java: trim removes every leading and trailing
   * character whose code is at most U+0020, so the result is empty exactly
   * when every character is such a character.
   */
  predicate IsBlank(s: string) {
    forall k :: 0 <= k < |s| ==> s[k] <= ' '
  }

  function Pow10(n: nat): (p: nat)
    ensures p >= 1
  {
    if n == 0 then 1 else 10 * Pow10(n - 1)
  }

  /** The number a string of decimal digits denotes (leading zeros allowed). */
  function StringToNat(s: string): nat
    requires AllDigits(s)
  {
    if s == [] then 0 else StringToNat(s[..|s| - 1]) * 10 + DigitValue(s[|s| - 1])
  }

  /** Shortest decimal rendering of `n`, as Java prints a non-negative integer. */
  function NatToString(n: nat): (s: string)
    ensures |s| >= 1 && AllDigits(s)
  {
    if n < 10 then [DigitChar(n)] else NatToString(n / 10) + [DigitChar(n % 10)]
  }

  /** The last `w` decimal digits of `n`, zero-padded on the left. */
  function FixedDigits(n: nat, w: nat): (s: string)
    ensures |s| == w && AllDigits(s)
  {
    if w == 0 then [] else FixedDigits(n / 10, w - 1) + [DigitChar(n % 10)]
  }

  /** Index of the first occurrence of `c` in `s`, or `|s|` when there is none. */
  function IndexOf(s: string, c: char): (k: nat)
    ensures k <= |s|
    ensures forall i :: 0 <= i < k ==> s[i] != c
    ensures k < |s| ==> s[k] == c
  {
    if s == [] then 0 else if s[0] == c then 0 else 1 + IndexOf(s[1..], c)
  }

  lemma {:induction false} NatToStringRoundTrip(n: nat)
    ensures StringToNat(NatToString(n)) == n
  {
    if n >= 10 {
      var s := NatToString(n);
      assert s[..|s| - 1] == NatToString(n / 10);
      NatToStringRoundTrip(n / 10);
    }
  }

  lemma {:induction false} StringToNatAppend(a: string, b: string)
    requires AllDigits(a) && AllDigits(b)
    ensures StringToNat(a + b) == StringToNat(a) * Pow10(|b|) + StringToNat(b)
  {
    if b == [] {
      assert a + b == a;
    } else {
      var b' := b[..|b| - 1];
      var ab := a + b;
      assert ab[..|ab| - 1] == a + b';
      assert ab[|ab| - 1] == b[|b| - 1];
      StringToNatAppend(a, b');
      var d := DigitValue(b[|b| - 1]);
      assert StringToNat(ab) == StringToNat(a + b') * 10 + d;
      assert StringToNat(b) == StringToNat(b') * 10 + d;
      ShiftDigit(StringToNat(a), Pow10(|b'|), StringToNat(b'), d);
    }
  }

  /** Appending one more digit multiplies what came before by ten. */
  lemma ShiftDigit(x: int, p: int, y: int, d: int)
    ensures (x * p + y) * 10 + d == x * (10 * p) + (y * 10 + d)
  {
  }

  /** `n / p` for a positive divisor, which is a natural number. */
  function Quotient(n: nat, p: nat): nat
    requires p >= 1
  {
    n / p
  }

  lemma QuotientRemainder(n: nat, p: nat)
    requires p >= 1
    ensures n == Quotient(n, p) * p + n % p && n % p < p
  {
  }

  lemma DivModUnique(n: int, m: int, q: int, r: int)
    requires m > 0 && 0 <= r < m && n == q * m + r
    ensures n / m == q && n % m == r
  {
    var d := q - n / m;
    assert n == (n / m) * m + n % m;
    assert d * m == n % m - r;
    if d > 0 {
      MulAtLeast(d, m);
      assert false;
    } else if d < 0 {
      MulAtLeast(-d, m);
      assert false;
    }
  }

  lemma MulAtLeast(d: int, m: int)
    requires d >= 1 && m > 0
    ensures d * m >= m
  {
  }

  lemma {:induction false} FixedDigitsValue(n: nat, w: nat)
    ensures StringToNat(FixedDigits(n, w)) == n % Pow10(w)
  {
    if w > 0 {
      var s := FixedDigits(n, w);
      assert s[..|s| - 1] == FixedDigits(n / 10, w - 1);
      FixedDigitsValue(n / 10, w - 1);
      var p := Pow10(w - 1);
      NestedDivMod(n, p);
      DivModUnique(n, 10 * p, (n / 10) / p, (n / 10) % p * 10 + n % 10);
    }
  }

  /** Dividing by ten and then by `p` is dividing by `10 * p`, with the remainders combined. */
  lemma NestedDivMod(n: nat, p: nat)
    requires p >= 1
    ensures n == (n / 10) / p * (10 * p) + ((n / 10) % p * 10 + n % 10)
    ensures 0 <= (n / 10) % p * 10 + n % 10 < 10 * p
  {
    var a, d := n / 10, n % 10;
    var q, c := a / p, a % p;
    assert n == 10 * a + d;
    assert a == q * p + c;
    assert q * (10 * p) == 10 * (q * p);
  }

  lemma {:induction false} FixedDigitsOfValue(s: string)
    requires AllDigits(s)
    ensures FixedDigits(StringToNat(s), |s|) == s
  {
    if s != [] {
      var s' := s[..|s| - 1];
      var d := DigitValue(s[|s| - 1]);
      var n := StringToNat(s);
      assert n == StringToNat(s') * 10 + d;
      DivModUnique(n, 10, StringToNat(s'), d);
      FixedDigitsOfValue(s');
      assert DigitChar(d) == s[|s| - 1];
      assert s == s' + [s[|s| - 1]];
    }
  }

  lemma {:induction false} NatToStringFits(n: nat, w: nat)
    requires w >= 1 && n < Pow10(w)
    ensures |NatToString(n)| <= w
  {
    if n >= 10 {
      assert w >= 2;
      NatToStringFits(n / 10, w - 1);
    }
  }
}
