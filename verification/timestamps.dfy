/**
 * Second-precision local date-times, as `java.time.LocalDateTime` values
 * written and read with the pattern `yyyy-MM-dd HH:mm:ss`.
 */
module Timestamps {
  import opened Results
  import opened Text

  /** Field ranges that the strict `yyyy-MM-dd HH:mm:ss` text can carry. */
  type Year = y: int | 1 <= y <= 9999 witness 1
  type Month = m: int | 1 <= m <= 12 witness 1
  type Day = d: int | 1 <= d <= 31 witness 1
  type Hour = h: int | 0 <= h <= 23
  type Minute = m: int | 0 <= m <= 59
  type Second = s: int | 0 <= s <= 59

  datatype Timestamp = Timestamp(year: Year, month: Month, day: Day,
                                 hour: Hour, minute: Minute, second: Second)

  /**
   * `a` is strictly earlier than `b`: lexicographic order on
   * (year, month, day, hour, minute, second).
   */
  predicate Before(a: Timestamp, b: Timestamp) {
    || a.year < b.year
    || (a.year == b.year && a.month < b.month)
    || (a.year == b.year && a.month == b.month && a.day < b.day)
    || (a.year == b.year && a.month == b.month && a.day == b.day && a.hour < b.hour)
    || (a.year == b.year && a.month == b.month && a.day == b.day && a.hour == b.hour
        && a.minute < b.minute)
    || (a.year == b.year && a.month == b.month && a.day == b.day && a.hour == b.hour
        && a.minute == b.minute && a.second < b.second)
  }

  function IntCompare(x: int, y: int): int {
    if x < y then -1 else if x == y then 0 else 1
  }

  /**
   * `LocalDateTime.compareTo`: the date part compares by field differences,
   * the time part by `Integer.compare`; only the sign is meaningful.
   */
  function Compare(a: Timestamp, b: Timestamp): (r: int)
    ensures r < 0 <==> Before(a, b)
    ensures r == 0 <==> a == b
    ensures r > 0 <==> Before(b, a)
  {
    if a.year != b.year then a.year - b.year
    else if a.month != b.month then a.month - b.month
    else if a.day != b.day then a.day - b.day
    else if a.hour != b.hour then IntCompare(a.hour, b.hour)
    else if a.minute != b.minute then IntCompare(a.minute, b.minute)
    else IntCompare(a.second, b.second)
  }

  /** `Before` is a strict total order on timestamps. */
  lemma BeforeIsStrictTotalOrder(a: Timestamp, b: Timestamp, c: Timestamp)
    ensures !Before(a, a)
    ensures Before(a, b) && Before(b, c) ==> Before(a, c)
    ensures a == b || Before(a, b) || Before(b, a)
  {
  }

  /** `DateTimeFormatter.ofPattern("yyyy-MM-dd HH:mm:ss").format(t)`. */
  function Format(t: Timestamp): (s: string)
    ensures |s| == 19
  {
    FixedDigits(t.year, 4) + "-" + FixedDigits(t.month, 2) + "-" + FixedDigits(t.day, 2) + " "
    + FixedDigits(t.hour, 2) + ":" + FixedDigits(t.minute, 2) + ":" + FixedDigits(t.second, 2)
  }

  /** The textual layout the strict pattern accepts, before range checks. */
  predicate Shape(s: string) {
    && |s| == 19
    && s[4] == '-' && s[7] == '-' && s[10] == ' ' && s[13] == ':' && s[16] == ':'
    && AllDigits(s[0..4]) && AllDigits(s[5..7]) && AllDigits(s[8..10])
    && AllDigits(s[11..13]) && AllDigits(s[14..16]) && AllDigits(s[17..19])
  }

  /**
   * `LocalDateTime.parse(s, formatter)`: `None` stands for the
   * `DateTimeParseException` thrown for a text of the wrong shape or with a
   * field out of range.
   */
  function Parse(s: string): Option<Timestamp> {
    if !Shape(s) then None
    else
      var y, mo, d := StringToNat(s[0..4]), StringToNat(s[5..7]), StringToNat(s[8..10]);
      var h, mi, se := StringToNat(s[11..13]), StringToNat(s[14..16]), StringToNat(s[17..19]);
      if 1 <= y <= 9999 && 1 <= mo <= 12 && 1 <= d <= 31 && h <= 23 && mi <= 59 && se <= 59
      then Some(Timestamp(y, mo, d, h, mi, se))
      else None
  }

  lemma FixedDigitsExact(n: nat, w: nat)
    requires n < Pow10(w)
    ensures StringToNat(FixedDigits(n, w)) == n
  {
    FixedDigitsValue(n, w);
    DivModUnique(n, Pow10(w), 0, n);
  }

  /** Every character of a formatted timestamp is a digit, `-`, a space or `:`. */
  lemma FormatChars(t: Timestamp)
    ensures forall k :: 0 <= k < 19 ==>
      var c := Format(t)[k]; IsDigit(c) || c == '-' || c == ' ' || c == ':'
  {
  }

  /** Formatting then parsing gives the timestamp back. */
  lemma FormatThenParse(t: Timestamp)
    ensures Parse(Format(t)) == Some(t)
  {
    var s := Format(t);
    assert s[0..4] == FixedDigits(t.year, 4);
    assert s[5..7] == FixedDigits(t.month, 2);
    assert s[8..10] == FixedDigits(t.day, 2);
    assert s[11..13] == FixedDigits(t.hour, 2);
    assert s[14..16] == FixedDigits(t.minute, 2);
    assert s[17..19] == FixedDigits(t.second, 2);
    FixedDigitsExact(t.year, 4);
    FixedDigitsExact(t.month, 2);
    FixedDigitsExact(t.day, 2);
    FixedDigitsExact(t.hour, 2);
    FixedDigitsExact(t.minute, 2);
    FixedDigitsExact(t.second, 2);
  }

  /** A text that parses is exactly the formatting of what it parses to. */
  lemma ParseThenFormat(s: string, t: Timestamp)
    requires Parse(s) == Some(t)
    ensures Format(t) == s
  {
    FixedDigitsOfValue(s[0..4]);
    FixedDigitsOfValue(s[5..7]);
    FixedDigitsOfValue(s[8..10]);
    FixedDigitsOfValue(s[11..13]);
    FixedDigitsOfValue(s[14..16]);
    FixedDigitsOfValue(s[17..19]);
    assert s == s[0..4] + "-" + s[5..7] + "-" + s[8..10] + " "
      + s[11..13] + ":" + s[14..16] + ":" + s[17..19];
  }
}
