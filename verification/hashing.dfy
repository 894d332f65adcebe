/**
 * `Transaction.hashCode`, which `Objects.hash` computes from the same fields
 * `equals` compares, but hashes the amount as a `BigDecimal`, whose hash
 * depends on the scale. The hash codes of the enum constant, the strings
 * and the timestamp are parameters: the enum's is the identity hash of the
 * constant and differs from run to run.
 */
module Hashing {
  import opened Results
  import opened Text
  import opened Decimals
  import opened Timestamps
  import opened Transactions

  const TwoTo32: int := 0x1_0000_0000
  const TwoTo63: int := 0x8000_0000_0000_0000

  /** A Java `int` result: the value reduced into [-2^31, 2^31) modulo 2^32. */
  function Int32(x: int): (r: int)
    ensures -0x8000_0000 <= r < 0x8000_0000
    ensures (x - r) % TwoTo32 == 0
  {
    (x + 0x8000_0000) % TwoTo32 - 0x8000_0000
  }

  /** The hash codes a `Transaction`'s fields contribute that are not computed here. */
  datatype FieldHashes = FieldHashes(
    kind: OperationType -> int,
    text: string -> int,
    time: Timestamp -> int)

  /**
   * `BigDecimal.hashCode` of an amount whose unscaled value fits in a
   * `long`: the two 32-bit halves of the magnitude are folded with 31, the
   * sign restored, and then `31 * that + scale`.
   */
  function DecimalHash(d: Decimal): int
    requires -TwoTo63 < d.unscaled < TwoTo63
  {
    var magnitude := if d.unscaled < 0 then -d.unscaled else d.unscaled;
    var temp := Int32(Int32(magnitude / TwoTo32 * 31) + magnitude % TwoTo32);
    Int32(31 * (if d.unscaled < 0 then -temp else temp) + d.scale)
  }

  /** `Arrays.hashCode`, which `Objects.hash` applies to its arguments. */
  function ArrayHash(hs: seq<int>): int {
    HashFrom(1, hs)
  }

  function HashFrom(acc: int, hs: seq<int>): int
    decreases |hs|
  {
    if hs == [] then acc else HashFrom(Int32(31 * acc + hs[0]), hs[1..])
  }

  /** The hash a field's value contributes; `null` contributes 0. */
  function NameHash(name: Option<string>, h: FieldHashes): int {
    match name
    case None => 0
    case Some(n) => h.text(n)
  }

  /** `Objects.hash(operationType, amount, recipient, timestamp, sender)`, as written. */
  function HashAsWritten(t: Transaction, h: FieldHashes): int
    requires -TwoTo63 < t.amount.unscaled < TwoTo63
  {
    ArrayHash([h.kind(t.kind), DecimalHash(t.amount), NameHash(t.recipient, h),
               h.time(t.timestamp), h.text(t.sender)])
  }

  /**
   * The hash that agrees with `equals`: the same fields, with the amount
   * stripped of trailing zeros first, as `equals` in effect does by
   * comparing numerically. This is in the spirit of hashing
   * `amount.stripTrailingZeros()` but not bit-for-bit the same: the
   * stripping here stops at scale 0, so 100 hashes as `31 * 100 + 0`,
   * where the library's `1E+2` would hash as `31 * 1 - 2`. Either way
   * equal amounts hash alike.
   */
  function Hash(t: Transaction, h: FieldHashes): int
    requires -TwoTo63 < t.amount.unscaled < TwoTo63
  {
    StrippedIsSmaller(t.amount);
    HashAsWritten(Canonical(t), h)
  }

  /** Equal transactions have equal hash codes, whatever the fields' own hashes. */
  lemma HashAgreesWithEqual(a: Transaction, b: Transaction, h: FieldHashes)
    requires -TwoTo63 < a.amount.unscaled < TwoTo63
    requires -TwoTo63 < b.amount.unscaled < TwoTo63
    requires Equal(a, b)
    ensures Hash(a, h) == Hash(b, h)
  {
    EqualIffSameCanonical(a, b);
  }

  /** Stripping trailing zeros never makes the unscaled value larger. */
  lemma StrippedIsSmaller(d: Decimal)
    ensures var s := StripZeros(d);
      (d.unscaled >= 0 ==> 0 <= s.unscaled <= d.unscaled) &&
      (d.unscaled < 0 ==> d.unscaled <= s.unscaled < 0)
  {
    var s := StripZeros(d);
    var p := Pow10(d.scale - s.scale);
    assert d.unscaled == s.unscaled * p;
    if s.unscaled > 0 {
      MulAtLeast(p, s.unscaled);
      assert s.unscaled * p >= s.unscaled;
    } else if s.unscaled < 0 {
      MulAtLeast(p, -s.unscaled);
      assert (-s.unscaled) * p >= -s.unscaled;
    }
  }

  /**
   * As written, the hash breaks the `hashCode` contract: a withdrawal of 5
   * and the same withdrawal of 5.00 are equal, yet their hash codes differ,
   * whatever hash codes the enum constant, the strings and the time have.
   */
  lemma HashAsWrittenSplitsEqual(ts: Timestamp, sender: string, h: FieldHashes)
    ensures var five := Transaction(Withdrew, ts, sender, Decimal(5, 0), None);
            var fivePointZeroZero := Transaction(Withdrew, ts, sender, Decimal(500, 2), None);
            Equal(five, fivePointZeroZero) &&
            HashAsWritten(five, h) != HashAsWritten(fivePointZeroZero, h)
  {
    var five := Transaction(Withdrew, ts, sender, Decimal(5, 0), None);
    var other := Transaction(Withdrew, ts, sender, Decimal(500, 2), None);
    EqualIgnoresScale(ts, sender);
    assert DecimalHash(Decimal(5, 0)) == 155 by { SmallDecimalHash(5, 0); }
    assert DecimalHash(Decimal(500, 2)) == 15502 by { SmallDecimalHash(500, 2); }
    var a, c, d, e := h.kind(Withdrew), 0, h.time(ts), h.text(sender);
    HashOfFive(a, 155, c, d, e);
    HashOfFive(a, 15502, c, d, e);
    var k := 31 * 31 * 31 * 31 * 31 + 31 * 31 * 31 * 31 * a + 31 * 31 * c + 31 * d + e;
    Int32Distinct(k + 29791 * 155, k + 29791 * 15502);
  }

  /** The hash of a small non-negative amount: `31 * unscaled + scale`. */
  lemma SmallDecimalHash(u: int, scale: nat)
    requires 0 <= u < 0x100_0000 && scale < 0x100
    ensures DecimalHash(Decimal(u, scale)) == 31 * u + scale
  {
    assert u / TwoTo32 == 0 && u % TwoTo32 == u;
    Int32Small(0);
    Int32Small(u);
    Int32Small(31 * u + scale);
  }

  lemma Int32Small(x: int)
    requires -0x8000_0000 <= x < 0x8000_0000
    ensures Int32(x) == x
  {
    DivModUnique(x + 0x8000_0000, TwoTo32, 0, x + 0x8000_0000);
  }

  /** Reducing before multiplying and adding gives the same `int` as reducing after. */
  lemma Int32Absorb(x: int, y: int)
    ensures Int32(31 * Int32(x) + y) == Int32(31 * x + y)
  {
    var r := Int32(x);
    var q := (x - r) / TwoTo32;
    assert x - r == q * TwoTo32;
    assert 31 * x + y == (31 * r + y) + (31 * q) * TwoTo32;
    Int32Shift(31 * r + y, 31 * q);
  }

  lemma Int32Shift(x: int, q: int)
    ensures Int32(x + q * TwoTo32) == Int32(x)
  {
    var m := x + 0x8000_0000;
    DivModUnique(m + q * TwoTo32, TwoTo32, m / TwoTo32 + q, m % TwoTo32);
  }

  /** The `int` hash of five fields, as one polynomial in 31 reduced once. */
  lemma HashOfFive(a: int, b: int, c: int, d: int, e: int)
    ensures ArrayHash([a, b, c, d, e]) ==
      Int32(31 * 31 * 31 * 31 * 31 + 31 * 31 * 31 * 31 * a + 31 * 31 * 31 * b + 31 * 31 * c + 31 * d + e)
  {
    var s := [a, b, c, d, e];
    var h1 := 31 + a;
    var h2 := 31 * h1 + b;
    var h3 := 31 * h2 + c;
    var h4 := 31 * h3 + d;
    var h5 := 31 * h4 + e;
    assert ArrayHash(s) == HashFrom(Int32(31 + a), [b, c, d, e]) by {
      assert s[1..] == [b, c, d, e];
    }
    assert HashFrom(Int32(31 + a), [b, c, d, e]) == HashFrom(Int32(h2), [c, d, e]) by {
      Int32Absorb(h1, b);
      assert [b, c, d, e][1..] == [c, d, e];
    }
    assert HashFrom(Int32(h2), [c, d, e]) == HashFrom(Int32(h3), [d, e]) by {
      Int32Absorb(h2, c);
      assert [c, d, e][1..] == [d, e];
    }
    assert HashFrom(Int32(h3), [d, e]) == HashFrom(Int32(h4), [e]) by {
      Int32Absorb(h3, d);
      assert [d, e][1..] == [e];
    }
    assert HashFrom(Int32(h4), [e]) == Int32(h5) by {
      Int32Absorb(h4, e);
      assert [e][1..] == [];
    }
  }

  /** Two numbers whose difference is not a multiple of 2^32 give different `int`s. */
  lemma Int32Distinct(x: int, y: int)
    requires 0 < y - x < TwoTo32
    ensures Int32(x) != Int32(y)
  {
    if Int32(x) == Int32(y) {
      assert false;
    }
  }
}
