/**
 The collision resolver's timestamp: `datetime.now().strftime("%Y%m%d_%H%M%S")`.
 The clock reading is an input (an `Instant`); its rendering is modelled here,
 together with the parse that inverts it.
 */
module Timestamp {

  datatype DateTime = DateTime(year: int, month: int, day: int, hour: int, minute: int, second: int)

  predicate IsLeapYear(y: int)
  {
    y % 4 == 0 && (y % 100 != 0 || y % 400 == 0)
  }

  function DaysInMonth(y: int, m: int): int
    requires 1 <= m <= 12
  {
    if m == 2 then (if IsLeapYear(y) then 29 else 28)
    else if m == 4 || m == 6 || m == 9 || m == 11 then 30
    else 31
  }

  /** A value Python's `datetime` accepts, restricted to four-digit years. */
  predicate ValidDateTime(d: DateTime)
  {
    && 1000 <= d.year <= 9999
    && 1 <= d.month <= 12
    && 1 <= d.day <= DaysInMonth(d.year, d.month)
    && 0 <= d.hour < 24
    && 0 <= d.minute < 60
    && 0 <= d.second < 60
  }

  /** A reading of the local clock, to the second. */
  type Instant = d: DateTime | ValidDateTime(d) witness DateTime(2000, 1, 1, 0, 0, 0)

  function Pow10(n: nat): nat
  {
    if n == 0 then 1 else 10 * Pow10(n - 1)
  }

  predicate IsDigit(c: char) { '0' <= c <= '9' }

  predicate AllDigits(s: string)
  {
    forall i :: 0 <= i < |s| ==> IsDigit(s[i])
  }

  /** The decimal digits of n, zero-padded on the left to `width` characters
      (what `%Y`, `%m`, `%d`, `%H`, `%M` and `%S` produce). */
  function ZeroPad(n: nat, width: nat): (s: string)
    requires n < Pow10(width)
    ensures |s| == width && AllDigits(s)
  {
    if width == 0 then ""
    else ZeroPad(n / 10, width - 1) + [('0' as int + n % 10) as char]
  }

  /** The number a string of decimal digits denotes. */
  function DigitsValue(s: string): nat
    requires AllDigits(s)
  {
    if s == [] then 0
    else DigitsValue(s[..|s| - 1]) * 10 + (s[|s| - 1] as int - '0' as int)
  }

  lemma {:induction false} ZeroPadValue(n: nat, width: nat)
    requires n < Pow10(width)
    ensures DigitsValue(ZeroPad(n, width)) == n
  {
    if width > 0 {
      ZeroPadValue(n / 10, width - 1);
      var s := ZeroPad(n, width);
      assert s[..|s| - 1] == ZeroPad(n / 10, width - 1);
    }
  }

  /** The shape of a `%Y%m%d_%H%M%S` token: fifteen characters, eight digits,
      an underscore, six digits. */
  predicate IsToken(s: string)
  {
    |s| == 15 && s[8] == '_' && AllDigits(s[..8]) && AllDigits(s[9..])
  }

  /** `strftime("%Y%m%d_%H%M%S")`. */
  function Format(d: Instant): (s: string)
  {
    ZeroPad(d.year, 4) + ZeroPad(d.month, 2) + ZeroPad(d.day, 2) + "_"
      + ZeroPad(d.hour, 2) + ZeroPad(d.minute, 2) + ZeroPad(d.second, 2)
  }

  /** Reads the six fields back out of a token. */
  function Parse(s: string): DateTime
    requires IsToken(s)
  {
    DateTime(DigitsValue(s[0..4]), DigitsValue(s[4..6]), DigitsValue(s[6..8]),
             DigitsValue(s[9..11]), DigitsValue(s[11..13]), DigitsValue(s[13..15]))
  }

  /** Every clock reading renders as a fifteen-character token. */
  lemma FormatIsToken(d: Instant)
    ensures IsToken(Format(d))
  {
    var s := Format(d);
    assert s[..8] == ZeroPad(d.year, 4) + ZeroPad(d.month, 2) + ZeroPad(d.day, 2);
    assert s[9..] == ZeroPad(d.hour, 2) + ZeroPad(d.minute, 2) + ZeroPad(d.second, 2);
  }

  /** The token names the instant it was made from. */
  lemma ParseFormat(d: Instant)
    ensures IsToken(Format(d)) && Parse(Format(d)) == d
  {
    FormatIsToken(d);
    var s := Format(d);
    var date := ZeroPad(d.year, 4) + ZeroPad(d.month, 2) + ZeroPad(d.day, 2);
    var time := ZeroPad(d.hour, 2) + ZeroPad(d.minute, 2) + ZeroPad(d.second, 2);
    assert s == date + "_" + time;
    assert s[..8] == date && s[9..] == time;
    assert s[0..4] == date[0..4] == ZeroPad(d.year, 4);
    assert s[4..6] == date[4..6] == ZeroPad(d.month, 2);
    assert s[6..8] == date[6..8] == ZeroPad(d.day, 2);
    assert s[9..11] == time[0..2] == ZeroPad(d.hour, 2);
    assert s[11..13] == time[2..4] == ZeroPad(d.minute, 2);
    assert s[13..15] == time[4..6] == ZeroPad(d.second, 2);
    ZeroPadValue(d.year, 4);
    ZeroPadValue(d.month, 2);
    ZeroPadValue(d.day, 2);
    ZeroPadValue(d.hour, 2);
    ZeroPadValue(d.minute, 2);
    ZeroPadValue(d.second, 2);
  }

  /** Two readings give the same token only when they are the same second. */
  lemma FormatInjective(a: Instant, b: Instant)
    ensures Format(a) == Format(b) <==> a == b
  {
    if Format(a) == Format(b) {
      ParseFormat(a);
      ParseFormat(b);
    }
  }
}
