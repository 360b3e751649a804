/**
 The day key of the calendar: a date written as `YYYY-MM-DD` from its local
 year, month and day, and the comparison of two dates by those three fields.
 */
module IsoDate {
  import opened Gregorian

  predicate IsDigit(c: char) {
    '0' <= c <= '9'
  }

  function DigitChar(k: int): (c: char)
    requires 0 <= k < 10
    ensures IsDigit(c)
  {
    (48 + k) as char
  }

  function DigitValue(c: char): (k: int)
    requires IsDigit(c)
    ensures 0 <= k < 10
  {
    c as int - 48
  }

  function Pow10(n: nat): nat {
    if n == 0 then 1 else 10 * Pow10(n - 1)
  }

  /** The decimal digits of `n`, left-padded with zeros to at least `width` characters. */
  function PadDigits(n: nat, width: nat): (s: string)
    ensures 1 <= |s| && width <= |s|
    ensures forall i :: 0 <= i < |s| ==> IsDigit(s[i])
    decreases n + width
  {
    var prefix := if n < 10 && width <= 1 then [] else PadDigits(n / 10, if width == 0 then 0 else width - 1);
    prefix + [DigitChar(n % 10)]
  }

  /** Reads a string of decimal digits back as a number. */
  function ParseDigits(s: string): nat
    requires forall i :: 0 <= i < |s| ==> IsDigit(s[i])
  {
    if s == [] then 0 else ParseDigits(s[..|s| - 1]) * 10 + DigitValue(s[|s| - 1])
  }

  /** A number below `10^width` takes exactly `width` digits. */
  lemma {:induction false} PadDigitsLength(n: nat, width: nat)
    requires 1 <= width && n < Pow10(width)
    ensures |PadDigits(n, width)| == width
    decreases width
  {
    if !(n < 10 && width <= 1) {
      assert 2 <= width;
      PadDigitsLength(n / 10, width - 1);
    }
  }

  /** Padding loses nothing: the digits read back as the number. */
  lemma {:induction false} ParsePadDigits(n: nat, width: nat)
    ensures ParseDigits(PadDigits(n, width)) == n
    decreases n + width
  {
    var rest := if width == 0 then 0 else width - 1;
    var prefix := if n < 10 && width <= 1 then [] else PadDigits(n / 10, rest);
    assert PadDigits(n, width) == prefix + [DigitChar(n % 10)];
    ParseLastDigit(prefix, DigitChar(n % 10));
    if !(n < 10 && width <= 1) {
      ParsePadDigits(n / 10, rest);
    }
  }

  /** Appending a digit multiplies the value read so far by ten and adds the digit. */
  lemma ParseLastDigit(prefix: string, c: char)
    requires forall i :: 0 <= i < |prefix| ==> IsDigit(prefix[i])
    requires IsDigit(c)
    ensures ParseDigits(prefix + [c]) == ParseDigits(prefix) * 10 + DigitValue(c)
  {
    assert (prefix + [c])[..|prefix|] == prefix;
  }

  /** The year part of `Date.toISOString()`: four digits, or a sign and six digits outside 0..9999. */
  function YearText(year: int): string {
    if 0 <= year <= 9999 then PadDigits(year, 4)
    else (if year < 0 then "-" else "+") + PadDigits(if year < 0 then -year else year, 6)
  }

  /** `toIsoString`: the local date as `YYYY-MM-DD`. */
  function ToIsoString(d: Date): string
    requires d.Valid()
  {
    YearText(d.year) + "-" + PadDigits(d.month + 1, 2) + "-" + PadDigits(d.day, 2)
  }

  /** `isSameDate`: equal year, month and day. */
  predicate IsSameDate(d1: Date, d2: Date) {
    d1.year == d2.year && d1.month == d2.month && d1.day == d2.day
  }

  /** Reads a `YYYY-MM-DD` key back into a date; the inverse of `ToIsoString` on four-digit years. */
  function ParseIsoKey(s: string): Date
    requires |s| == 10
    requires forall i :: 0 <= i < 10 && i != 4 && i != 7 ==> IsDigit(s[i])
  {
    Date(ParseDigits(s[..4]), ParseDigits(s[5..7]) - 1, ParseDigits(s[8..]))
  }

  /** A date of a four-digit year is written in ten characters and read back unchanged. */
  lemma IsoKeyRoundTrip(d: Date)
    requires d.Valid() && 0 <= d.year <= 9999
    ensures |ToIsoString(d)| == 10
    ensures forall i :: 0 <= i < 10 && i != 4 && i != 7 ==> IsDigit(ToIsoString(d)[i])
    ensures ToIsoString(d)[4] == '-' && ToIsoString(d)[7] == '-'
    ensures ParseIsoKey(ToIsoString(d)) == d
  {
    var y, m, dd := PadDigits(d.year, 4), PadDigits(d.month + 1, 2), PadDigits(d.day, 2);
    PadDigitsLength(d.year, 4);
    PadDigitsLength(d.month + 1, 2);
    PadDigitsLength(d.day, 2);
    assert ToIsoString(d) == y + "-" + m + "-" + dd;
    KeyParts(y, m, dd);
    ParsePadDigits(d.year, 4);
    ParsePadDigits(d.month + 1, 2);
    ParsePadDigits(d.day, 2);
  }

  /** A key built from four, two and two digits is ten characters with dashes at 4 and 7, and splits back into its parts. */
  lemma KeyParts(y: string, m: string, dd: string)
    requires |y| == 4 && |m| == 2 && |dd| == 2
    requires forall i :: 0 <= i < 4 ==> IsDigit(y[i])
    requires forall i :: 0 <= i < 2 ==> IsDigit(m[i]) && IsDigit(dd[i])
    ensures var s := y + "-" + m + "-" + dd;
      |s| == 10 && s[..4] == y && s[5..7] == m && s[8..] == dd && s[4] == '-' && s[7] == '-' &&
      forall i :: 0 <= i < 10 && i != 4 && i != 7 ==> IsDigit(s[i])
  {
    var s := y + "-" + m + "-" + dd;
    forall i | 0 <= i < 10 && i != 4 && i != 7 ensures IsDigit(s[i]) {
      if i < 4 {
        assert s[i] == y[i];
      } else if i < 7 {
        assert s[i] == m[i - 5];
      } else {
        assert s[i] == dd[i - 8];
      }
    }
  }

  /** Two dates of four-digit years share a key exactly when they are the same date. */
  lemma IsoKeyInjective(a: Date, b: Date)
    requires a.Valid() && b.Valid()
    requires 0 <= a.year <= 9999 && 0 <= b.year <= 9999
    ensures ToIsoString(a) == ToIsoString(b) <==> IsSameDate(a, b)
  {
    IsoKeyRoundTrip(a);
    IsoKeyRoundTrip(b);
  }

  lemma IsoKeyExample()
    ensures ToIsoString(Date(2026, 0, 4)) == "2026-01-04"
  {
    assert PadDigits(20, 2) == "20";
    assert PadDigits(202, 3) == "202";
    assert PadDigits(2026, 4) == "2026";
  }
}
