/**
 * Calendar dates and their `YYYY-MM-DD` wire form.
 *
 * The handlers parse `pub_date` with `datetime.strptime(s, '%Y-%m-%d')`, store a
 * `date` column, compare `str(date)` with the raw request string, and serialise with
 * `strftime('%Y-%m-%d')`. This module gives the date value, its validity (the range of
 * Python's `date` type), a parser for the canonical ten-character form and the
 * formatter, and proves that they are inverse to each other.
 */
module Dates {
  import opened Wrappers

  /** A calendar date without a time of day. */
  datatype Date = Date(year: int, month: int, day: int)

  /** The Gregorian leap-year rule that Python's `date` follows. */
  predicate IsLeapYear(y: int) {
    y % 4 == 0 && (y % 100 != 0 || y % 400 == 0)
  }

  function DaysInMonth(y: int, m: int): (n: int)
    requires 1 <= m <= 12
    ensures 28 <= n <= 31
    ensures m == 2 ==> (n == 29 <==> IsLeapYear(y))
  {
    if m == 2 then (if IsLeapYear(y) then 29 else 28)
    else if m == 4 || m == 6 || m == 9 || m == 11 then 30
    else 31
  }

  /** The dates a Python `date` can hold: years 1 through 9999, real months and days. */
  predicate ValidDate(d: Date) {
    1 <= d.year <= 9999 && 1 <= d.month <= 12 && 1 <= d.day <= DaysInMonth(d.year, d.month)
  }

  predicate IsDigit(c: char) {
    '0' <= c <= '9'
  }

  predicate AllDigits(s: string) {
    forall i :: 0 <= i < |s| ==> IsDigit(s[i])
  }

  function Pow10(n: nat): (p: nat)
    ensures p >= 1
  {
    if n == 0 then 1 else 10 * Pow10(n - 1)
  }

  /** The value of a string of decimal digits, most significant digit first. */
  function Number(s: string): (n: nat)
    requires AllDigits(s)
    ensures n < Pow10(|s|)
  {
    if s == [] then 0 else Number(s[..|s| - 1]) * 10 + (s[|s| - 1] as int - '0' as int)
  }

  /** `n` written with exactly `width` decimal digits, padded with zeros on the left. */
  function Digits(n: nat, width: nat): (s: string)
    requires n < Pow10(width)
    ensures |s| == width && AllDigits(s)
    ensures Number(s) == n
  {
    if width == 0 then ""
    else
      var q, d := n / 10, n % 10;
      assert n == q * 10 + d && q < Pow10(width - 1);
      var init := Digits(q, width - 1);
      var s := init + [('0' as int + d) as char];
      assert s[..|s| - 1] == init;
      s
  }

  /** Writing the value of a digit string back with as many digits gives the string again. */
  lemma {:induction false} DigitsOfNumber(s: string)
    requires AllDigits(s)
    ensures Digits(Number(s), |s|) == s
  {
    if s != [] {
      var init, last := s[..|s| - 1], s[|s| - 1];
      var d := last as int - '0' as int;
      assert AllDigits(init);
      DigitsOfNumber(init);
      assert Number(s) / 10 == Number(init) && Number(s) % 10 == d;
      assert s == init + [last];
    }
  }

  /** `str(date)` and `strftime('%Y-%m-%d')`: four-digit year, two-digit month and day. */
  function FormatDate(d: Date): (s: string)
    requires ValidDate(d)
    ensures |s| == 10 && s[4] == '-' && s[7] == '-'
    ensures AllDigits(s[..4]) && AllDigits(s[5..7]) && AllDigits(s[8..])
  {
    var s := Digits(d.year, 4) + "-" + Digits(d.month, 2) + "-" + Digits(d.day, 2);
    assert s[..4] == Digits(d.year, 4) && s[5..7] == Digits(d.month, 2) && s[8..] == Digits(d.day, 2);
    s
  }

  /**
   * `strptime(s, '%Y-%m-%d')` restricted to the canonical form: four digits, a dash,
   * two digits, a dash, two digits, naming a real calendar date. `None` is the
   * `ValueError` the handlers turn into a 400.
   */
  function ParseDate(s: string): (r: Option<Date>)
    ensures r.Some? ==> ValidDate(r.value) && |s| == 10 && s[4] == '-' && s[7] == '-'
  {
    if |s| == 10 && s[4] == '-' && s[7] == '-'
       && AllDigits(s[..4]) && AllDigits(s[5..7]) && AllDigits(s[8..])
    then
      var d := Date(Number(s[..4]), Number(s[5..7]), Number(s[8..]));
      if ValidDate(d) then Some(d) else None
    else None
  }

  /** Formatting a valid date and parsing the result gives the date back. */
  lemma ParseFormat(d: Date)
    requires ValidDate(d)
    ensures ParseDate(FormatDate(d)) == Some(d)
  {
    var s := FormatDate(d);
    assert s[..4] == Digits(d.year, 4);
    assert s[5..7] == Digits(d.month, 2);
    assert s[8..] == Digits(d.day, 2);
  }

  /** A string the parser accepts is exactly the formatted form of the date it denotes. */
  lemma FormatParse(s: string)
    requires ParseDate(s).Some?
    ensures FormatDate(ParseDate(s).value) == s
  {
    DigitsOfNumber(s[..4]);
    DigitsOfNumber(s[5..7]);
    DigitsOfNumber(s[8..]);
    assert s == s[..4] + [s[4]] + s[5..7] + [s[7]] + s[8..];
  }

  /** Distinct valid dates have distinct string forms. */
  lemma FormatInjective(a: Date, b: Date)
    requires ValidDate(a) && ValidDate(b)
    ensures FormatDate(a) == FormatDate(b) <==> a == b
  {
    ParseFormat(a);
    ParseFormat(b);
  }
}
