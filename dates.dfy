/** Calendar days as (year, 0-based month, day) triples: Gregorian month
    lengths, the chronological (lexicographic) order the picker compares
    with, and the `YYYY-MM-DD` text form the picker stores and emits. */
module Dates {

  /** A calendar day; `month` is 0-based (January is 0), as moment.js keeps it. */
  datatype Date = Date(year: int, month: int, day: int)

  predicate IsLeapYear(y: int) {
    y % 4 == 0 && (y % 100 != 0 || y % 400 == 0)
  }

  /** Number of days of month `m` (0-based) of year `y`: the day that
      `endOf('month')` lands on. */
  function DaysInMonth(y: int, m: int): (n: int)
    requires 0 <= m < 12
    ensures 28 <= n <= 31
    ensures m == 1 ==> (n == 29 <==> IsLeapYear(y)) && (n == 28 <==> !IsLeapYear(y))
    ensures m != 1 ==> (n == 31 <==> m in {0, 2, 4, 6, 7, 9, 11})
    ensures m != 1 ==> (n == 30 <==> m in {3, 5, 8, 10})
  {
    if m == 1 then (if IsLeapYear(y) then 29 else 28)
    else if m == 3 || m == 5 || m == 8 || m == 10 then 30
    else 31
  }

  predicate IsValid(d: Date) {
    0 <= d.month < 12 && 1 <= d.day <= DaysInMonth(d.year, d.month)
  }

  /** A valid day whose year has four digits, so that it has a `YYYY-MM-DD` form. */
  predicate IsFormattable(d: Date) {
    IsValid(d) && 0 <= d.year <= 9999
  }

  /** `a` is a strictly earlier day than `b` (moment's `isBefore` at day granularity). */
  predicate IsBefore(a: Date, b: Date) {
    a.year < b.year ||
    (a.year == b.year && (a.month < b.month || (a.month == b.month && a.day < b.day)))
  }

  /** `a` is a strictly later day than `b` (moment's `isAfter` at day granularity). */
  predicate IsAfter(a: Date, b: Date) {
    IsBefore(b, a)
  }

  predicate IsSameOrBefore(a: Date, b: Date) {
    !IsBefore(b, a)
  }

  lemma BeforeIsStrictTotalOrder(a: Date, b: Date, c: Date)
    ensures !IsBefore(a, a)
    ensures IsBefore(a, b) && IsBefore(b, c) ==> IsBefore(a, c)
    ensures a == b || IsBefore(a, b) || IsBefore(b, a)
  {
  }

  // ---------------------------------------------------------------
  // The `YYYY-MM-DD` text form (moment's `format('YYYY-MM-DD')`)
  // ---------------------------------------------------------------

  predicate IsDigit(c: char) {
    '0' <= c <= '9'
  }

  function DigitChar(n: int): (c: char)
    requires 0 <= n <= 9
    ensures IsDigit(c) && DigitValue(c) == n
  {
    ('0' as int + n) as char
  }

  function DigitValue(c: char): (n: int)
    requires IsDigit(c)
    ensures 0 <= n <= 9
  {
    c as int - '0' as int
  }

  /** Two decimal digits, zero-padded. */
  function Pad2(n: int): (s: string)
    requires 0 <= n <= 99
    ensures |s| == 2 && IsDigit(s[0]) && IsDigit(s[1])
    ensures 10 * DigitValue(s[0]) + DigitValue(s[1]) == n
  {
    [DigitChar(n / 10), DigitChar(n % 10)]
  }

  /** Four decimal digits, zero-padded. */
  function Pad4(n: int): (s: string)
    requires 0 <= n <= 9999
    ensures |s| == 4 && forall i :: 0 <= i < 4 ==> IsDigit(s[i])
    ensures 1000 * DigitValue(s[0]) + 100 * DigitValue(s[1]) + 10 * DigitValue(s[2]) + DigitValue(s[3]) == n
  {
    Pad2(n / 100) + Pad2(n % 100)
  }

  /** The `YYYY-MM-DD` form of a day; the month is written 1-based. */
  function Format(d: Date): (s: string)
    requires IsFormattable(d)
    ensures |s| == 10 && s[4] == '-' && s[7] == '-'
  {
    Pad4(d.year) + "-" + Pad2(d.month + 1) + "-" + Pad2(d.day)
  }

  /** Reading two digits back gives the characters `Pad2` writes. */
  lemma Pad2OfDigits(a: char, b: char)
    requires IsDigit(a) && IsDigit(b)
    ensures Pad2(10 * DigitValue(a) + DigitValue(b)) == [a, b]
  {
    var n := 10 * DigitValue(a) + DigitValue(b);
    assert n / 10 == DigitValue(a) && n % 10 == DigitValue(b);
  }

  /** Reading four digits back gives the characters `Pad4` writes. */
  lemma Pad4OfDigits(s: string)
    requires |s| == 4 && forall i :: 0 <= i < 4 ==> IsDigit(s[i])
    ensures Pad4(1000 * DigitValue(s[0]) + 100 * DigitValue(s[1]) + 10 * DigitValue(s[2]) + DigitValue(s[3])) == s
  {
    var hi := 10 * DigitValue(s[0]) + DigitValue(s[1]);
    var lo := 10 * DigitValue(s[2]) + DigitValue(s[3]);
    var n := 100 * hi + lo;
    assert n / 100 == hi && n % 100 == lo;
    Pad2OfDigits(s[0], s[1]);
    Pad2OfDigits(s[2], s[3]);
  }
}
