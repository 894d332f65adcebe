/**
 * Exact decimal amounts, as `java.math.BigDecimal` holds them: an unscaled
 * integer and a scale, denoting `unscaled * 10^-scale`. Two amounts with
 * different scales may denote the same number (5 and 5.00); the
 * transaction's equality compares them numerically.
 */
module Decimals {
  import opened Text

  datatype Decimal = Decimal(unscaled: int, scale: nat)

  /** The number an amount denotes; balances are kept as such numbers. */
  function Value(d: Decimal): real {
    (d.unscaled as real) / (Pow10(d.scale) as real)
  }

  /** `a.compareTo(b) == 0`: the two amounts denote the same number. */
  predicate NumEq(a: Decimal, b: Decimal) {
    a.unscaled * Pow10(b.scale) == b.unscaled * Pow10(a.scale)
  }

  /** No trailing zero digit is left after the decimal point. */
  predicate Stripped(d: Decimal) {
    d.scale == 0 || d.unscaled % 10 != 0
  }

  /**
   * `stripTrailingZeros()`, as far as `toPlainString()` can observe it:
   * trailing zero digits after the decimal point are removed. (The library
   * also moves to a negative scale for integers such as 100, but the plain
   * text is the same.)
   */
  function StripZeros(d: Decimal): (r: Decimal)
    ensures Stripped(r)
    ensures r.scale <= d.scale
    ensures d.unscaled == r.unscaled * Pow10(d.scale - r.scale)
    decreases d.scale
  {
    if d.scale > 0 && d.unscaled % 10 == 0 then
      StripZeros(Decimal(d.unscaled / 10, d.scale - 1))
    else
      d
  }

  lemma {:induction false} Pow10Add(m: nat, n: nat)
    ensures Pow10(m + n) == Pow10(m) * Pow10(n)
  {
    if n > 0 {
      Pow10Add(m, n - 1);
      assert Pow10(m + n) == 10 * Pow10(m + n - 1);
    }
  }

  lemma MulCancel(x: int, y: int, p: int)
    requires p > 0 && x * p == y * p
    ensures x == y
  {
    assert (x - y) * p == 0;
  }

  lemma CrossMultiply(x: real, y: real, p: real, q: real)
    requires p > 0.0 && q > 0.0
    ensures x / p == y / q <==> x * q == y * p
  {
    if x / p == y / q {
      calc {
        x * q;
        (x / p) * p * q;
        (y / q) * q * p;
        y * p;
      }
    }
    if x * q == y * p {
      calc {
        x / p;
        (x * q) / (p * q);
        (y * p) / (p * q);
        y / q;
      }
    }
  }

  /** Numeric equality of amounts is equality of the numbers they denote. */
  lemma NumEqIsSameValue(a: Decimal, b: Decimal)
    ensures NumEq(a, b) <==> Value(a) == Value(b)
  {
    var pa, pb := Pow10(a.scale), Pow10(b.scale);
    CrossMultiply(a.unscaled as real, b.unscaled as real, pa as real, pb as real);
    assert (a.unscaled * pb) as real == (a.unscaled as real) * (pb as real);
    assert (b.unscaled * pa) as real == (b.unscaled as real) * (pa as real);
  }

  /** An amount with no fraction digits denotes its unscaled value. */
  lemma WholeValue(n: int)
    ensures Value(Decimal(n, 0)) == n as real
  {
    assert Pow10(0) == 1;
  }

  /** An amount is positive exactly when its unscaled digits are. */
  lemma PositiveValue(d: Decimal)
    ensures Value(d) > 0.0 <==> d.unscaled > 0
  {
    var p := Pow10(d.scale) as real;
    assert p > 0.0;
    assert Value(d) * p == d.unscaled as real;
  }

  lemma StripZerosNumEq(d: Decimal)
    ensures NumEq(StripZeros(d), d)
  {
    var r := StripZeros(d);
    var k := d.scale - r.scale;
    Pow10Add(r.scale, k);
    assert Pow10(d.scale) == Pow10(r.scale) * Pow10(k);
    MulRearrange(r.unscaled, Pow10(r.scale), Pow10(k));
  }

  lemma MulRearrange(x: int, y: int, z: int)
    ensures x * (y * z) == (x * z) * y
  {
  }

  /** Two stripped amounts that are numerically equal are the same amount. */
  lemma StrippedUnique(a: Decimal, b: Decimal)
    requires Stripped(a) && Stripped(b) && NumEq(a, b)
    ensures a == b
  {
    if a.scale <= b.scale {
      StrippedUniqueOrdered(a, b);
    } else {
      StrippedUniqueOrdered(b, a);
    }
  }

  lemma StrippedUniqueOrdered(a: Decimal, b: Decimal)
    requires Stripped(a) && Stripped(b) && NumEq(a, b) && a.scale <= b.scale
    ensures a == b
  {
    var k := b.scale - a.scale;
    var pa, pk := Pow10(a.scale), Pow10(k);
    Pow10Add(a.scale, k);
    assert Pow10(b.scale) == pa * pk;
    MulRearrange(a.unscaled, pa, pk);
    assert (a.unscaled * pk) * pa == b.unscaled * pa;
    MulCancel(a.unscaled * pk, b.unscaled, pa);
    if k > 0 {
      TrailingZero(a.unscaled, k);
      assert false;
    }
  }

  lemma TrailingZero(x: int, k: nat)
    requires k > 0
    ensures (x * Pow10(k)) % 10 == 0
  {
    var y := x * Pow10(k - 1);
    assert x * Pow10(k) == y * 10;
    DivModUnique(y * 10, 10, y, 0);
  }

  /**
   * Numeric equality is an equivalence: two amounts are numerically equal
   * exactly when they strip to the same amount.
   */
  lemma NumEqIffSameStripped(a: Decimal, b: Decimal)
    ensures NumEq(a, b) <==> StripZeros(a) == StripZeros(b)
  {
    var sa, sb := StripZeros(a), StripZeros(b);
    StripZerosNumEq(a);
    StripZerosNumEq(b);
    NumEqIsSameValue(sa, a);
    NumEqIsSameValue(sb, b);
    NumEqIsSameValue(a, b);
    if NumEq(a, b) {
      NumEqIsSameValue(sa, sb);
      StrippedUnique(sa, sb);
    }
  }

  /** The regex group `\d+\.?\d*`: digits, then at most one point and more digits. */
  predicate IsAmountText(s: string) {
    var k := IndexOf(s, '.');
    k >= 1 && AllDigits(s[..k]) && (k == |s| || AllDigits(s[k + 1..]))
  }

  /**
   * `new BigDecimal(s)` for an amount text: every digit goes into the
   * unscaled value and the number of digits after the point is the scale.
   */
  function ParseAmount(s: string): (d: Decimal)
    requires IsAmountText(s)
  {
    var k := IndexOf(s, '.');
    if k == |s| then Decimal(StringToNat(s), 0)
    else Decimal(StringToNat(s[..k] + s[k + 1..]), |s| - k - 1)
  }

  /** Plain rendering of a non-negative unscaled value at a given scale. */
  function Magnitude(u: nat, scale: nat): string {
    if scale == 0 then NatToString(u)
    else
      var p := Pow10(scale);
      var whole, fraction := Quotient(u, p), u % p;
      NatToString(whole) + "." + FixedDigits(fraction, scale)
  }

  /** `stripTrailingZeros().toPlainString()`. */
  function PlainString(d: Decimal): string {
    var s := StripZeros(d);
    if s.unscaled < 0 then "-" + Magnitude(-s.unscaled, s.scale)
    else Magnitude(s.unscaled, s.scale)
  }

  lemma IndexOfAfterDigits(q: string, rest: string)
    requires AllDigits(q) && |rest| >= 1 && rest[0] == '.'
    ensures IndexOf(q + rest, '.') == |q|
  {
    var s := q + rest;
    var k := IndexOf(s, '.');
    assert s[|q|] == '.';
  }

  /** Reading back the plain text of `unscaled` at `scale` gives that very amount. */
  lemma ParseMagnitude(u: nat, scale: nat)
    ensures IsAmountText(Magnitude(u, scale))
    ensures ParseAmount(Magnitude(u, scale)) == Decimal(u, scale)
  {
    if scale == 0 {
      ParseWhole(u);
    } else {
      ParseFraction(u, scale);
    }
  }

  lemma ParseWhole(u: nat)
    ensures IsAmountText(Magnitude(u, 0))
    ensures ParseAmount(Magnitude(u, 0)) == Decimal(u, 0)
  {
    var text := NatToString(u);
    var k := IndexOf(text, '.');
    if k < |text| {
      assert false;
    }
    assert text[..|text|] == text;
    NatToStringRoundTrip(u);
  }

  /** An amount text with a point: digits before it, digits after it. */
  lemma ParseDotted(q: string, f: string)
    requires |q| >= 1 && AllDigits(q) && AllDigits(f)
    ensures IsAmountText(q + "." + f)
    ensures ParseAmount(q + "." + f) == Decimal(StringToNat(q) * Pow10(|f|) + StringToNat(f), |f|)
  {
    var text := q + "." + f;
    assert text == q + ("." + f);
    IndexOfAfterDigits(q, "." + f);
    assert text[..|q|] == q;
    assert text[|q| + 1..] == f;
    StringToNatAppend(q, f);
  }

  lemma ParseFraction(u: nat, scale: nat)
    requires scale > 0
    ensures IsAmountText(Magnitude(u, scale))
    ensures ParseAmount(Magnitude(u, scale)) == Decimal(u, scale)
  {
    var p := Pow10(scale);
    var q, r := Quotient(u, p), u % p;
    var whole, f := NatToString(q), FixedDigits(r, scale);
    assert Magnitude(u, scale) == whole + "." + f;
    ParseDotted(whole, f);
    NatToStringRoundTrip(q);
    FixedDigitsValue(r, scale);
    DivModUnique(r, p, 0, r);
    QuotientRemainder(u, p);
  }

  /**
   * Rendering a non-negative amount and reading the text back gives the
   * stripped amount, which is numerically equal to the original.
   */
  lemma ParsePlain(d: Decimal)
    requires d.unscaled >= 0
    ensures IsAmountText(PlainString(d))
    ensures ParseAmount(PlainString(d)) == StripZeros(d)
    ensures NumEq(ParseAmount(PlainString(d)), d)
  {
    var s := StripZeros(d);
    NonNegativeFactor(s.unscaled, Pow10(d.scale - s.scale));
    assert PlainString(d) == Magnitude(s.unscaled, s.scale);
    ParseMagnitude(s.unscaled, s.scale);
    StripZerosNumEq(d);
  }

  lemma NonNegativeFactor(x: int, p: int)
    requires p >= 1 && x * p >= 0
    ensures x >= 0
  {
    if x < 0 {
      MulAtLeast(-x, p);
      assert false;
    }
  }
}
