/** The date utilities shared by both component files: `getDateInfo`,
    the two variants of `getInitialDate` (the JavaScript one with `||`,
    the TypeScript one with `??` and an object argument), `getYearArray`
    and the `dateProp` prop validator. */
module DateUtils {
  import opened Optional
  import opened Dates

  // ---------------------------------------------------------------
  // getDateInfo
  // ---------------------------------------------------------------

  /** The pattern `\d{4}-\d{2}-\d{2}` matches the ten characters of `s` from `i` on. */
  predicate PatternAt(s: string, i: int)
    requires 0 <= i && i + 10 <= |s|
  {
    IsDigit(s[i]) && IsDigit(s[i + 1]) && IsDigit(s[i + 2]) && IsDigit(s[i + 3]) &&
    s[i + 4] == '-' &&
    IsDigit(s[i + 5]) && IsDigit(s[i + 6]) &&
    s[i + 7] == '-' &&
    IsDigit(s[i + 8]) && IsDigit(s[i + 9])
  }

  /** `s` is exactly a `YYYY-MM-DD` shape (digits and dashes, ranges unchecked). */
  predicate IsDateShaped(s: string) {
    |s| == 10 && PatternAt(s, 0)
  }

  function Num2(s: string, i: int): (n: int)
    requires 0 <= i && i + 2 <= |s| && IsDigit(s[i]) && IsDigit(s[i + 1])
    ensures 0 <= n <= 99
  {
    10 * DigitValue(s[i]) + DigitValue(s[i + 1])
  }

  function Num4(s: string, i: int): (n: int)
    requires 0 <= i && i + 4 <= |s|
    requires IsDigit(s[i]) && IsDigit(s[i + 1]) && IsDigit(s[i + 2]) && IsDigit(s[i + 3])
    ensures 0 <= n <= 9999
  {
    1000 * DigitValue(s[i]) + 100 * DigitValue(s[i + 1]) + 10 * DigitValue(s[i + 2]) + DigitValue(s[i + 3])
  }

  /** `getDateInfo`: reads a `YYYY-MM-DD` string as year, 0-based month and
      day. `None` stands for moment's invalid date (every field NaN): a string
      of the wrong shape, or a month or day out of range. */
  function GetDateInfo(s: string): (r: Option<Date>)
    ensures r.Some? ==> IsFormattable(r.value) && IsDateShaped(s)
    ensures r.Some? ==> r.value.year == Num4(s, 0) && r.value.month == Num2(s, 5) - 1 && r.value.day == Num2(s, 8)
  {
    if IsDateShaped(s) then
      var y, m, d := Num4(s, 0), Num2(s, 5), Num2(s, 8);
      if 1 <= m <= 12 && 1 <= d <= DaysInMonth(y, m - 1) then Some(Date(y, m - 1, d)) else None
    else None
  }

  /** Formatting a day and reading it back gives that day. */
  lemma GetDateInfoOfFormat(d: Date)
    requires IsFormattable(d)
    ensures GetDateInfo(Format(d)) == Some(d)
  {
    var s := Format(d);
    assert s[..4] == Pad4(d.year) && s[5..7] == Pad2(d.month + 1) && s[8..] == Pad2(d.day);
    assert PatternAt(s, 0);
  }

  /** A string that reads as a day is exactly that day's formatted form, so
      two readable strings are equal iff they denote the same day. */
  lemma FormatOfGetDateInfo(s: string)
    requires GetDateInfo(s).Some?
    ensures Format(GetDateInfo(s).value) == s
  {
    var d := GetDateInfo(s).value;
    Pad4OfDigits(s[..4]);
    Pad2OfDigits(s[5], s[6]);
    Pad2OfDigits(s[8], s[9]);
    assert Format(d) == s[..4] + "-" + s[5..7] + "-" + s[8..];
    assert s == s[..4] + "-" + s[5..7] + "-" + s[8..];
  }

  lemma SameDayIffSameString(s: string, t: string)
    requires GetDateInfo(s).Some? && GetDateInfo(t).Some?
    ensures s == t <==> GetDateInfo(s) == GetDateInfo(t)
  {
    FormatOfGetDateInfo(s);
    FormatOfGetDateInfo(t);
  }

  // ---------------------------------------------------------------
  // getInitialDate
  // ---------------------------------------------------------------

  /** `getInitialDate` of src/func/index.js: positional arguments, `||`. */
  function GetInitialDateJs(selectedDate: string, initialDate: Option<string>, hasChanged: bool, today: Date): (r: string)
    requires IsFormattable(today)
    ensures hasChanged ==> r == selectedDate
    ensures !hasChanged && IsTruthy(initialDate) ==> r == initialDate.value
    ensures !hasChanged && !IsTruthy(initialDate) ==> r == Format(today)
  {
    if hasChanged then selectedDate
    else if IsTruthy(initialDate) then initialDate.value
    else Format(today)
  }

  /** The object argument of `getInitialDate` in src/utils/index.ts, as a
      JavaScript value: every field may be absent. */
  datatype InitialDateArgs = InitialDateArgs(selectedDate: Option<string>, initialDate: Option<string>, hasChanged: Option<bool>)

  /** `getInitialDate` of src/utils/index.ts: destructured object, `??`. */
  function GetInitialDateTs(args: InitialDateArgs, today: Date): (r: Option<string>)
    requires IsFormattable(today)
    ensures args.hasChanged == Some(true) ==> r == args.selectedDate
    ensures args.hasChanged != Some(true) && args.initialDate.Some? ==> r == args.initialDate
    ensures args.hasChanged != Some(true) && args.initialDate.None? ==> r == Some(Format(today))
  {
    if args.hasChanged == Some(true) then args.selectedDate
    else if args.initialDate.Some? then args.initialDate
    else Some(Format(today))
  }

  /** The two variants agree on every well-typed call except one: an empty
      `initialDate` before any change, which `??` keeps and `||` replaces by today. */
  lemma InitialDateVariantsAgree(selectedDate: string, initialDate: Option<string>, hasChanged: bool, today: Date)
    requires IsFormattable(today)
    ensures var ts := GetInitialDateTs(InitialDateArgs(Some(selectedDate), initialDate, Some(hasChanged)), today);
            var js := GetInitialDateJs(selectedDate, initialDate, hasChanged, today);
            ts == Some(js) <==> (hasChanged || initialDate != Some(""))
  {
  }

  /** Destructuring a string primitive as `{selectedDate, initialDate,
      hasChanged}` finds none of the three properties. */
  function ArgsOfString(s: string): InitialDateArgs {
    InitialDateArgs(None, None, None)
  }

  /** What src/index.tsx computes for the calendar's visible month: it calls
      the object-argument `getInitialDate` with three positional arguments. */
  function VisibleMonthTsx(selectedDate: string, initialViewDate: string, hasChanged: bool, today: Date): (r: string)
    requires IsFormattable(today)
    ensures GetDateInfo(r) == Some(today)
  {
    GetDateInfoOfFormat(today);
    GetInitialDateTs(ArgsOfString(selectedDate), today).value
  }

  /** The positional call ignores all three arguments: the visible month is
      today's even after the user picked another date, unlike the intended
      object call. */
  lemma PositionalCallIgnoresArguments(selectedDate: string, initialViewDate: string, hasChanged: bool, today: Date)
    requires IsFormattable(today)
    ensures VisibleMonthTsx(selectedDate, initialViewDate, hasChanged, today) == Format(today)
    ensures hasChanged && selectedDate != Format(today) ==>
      Some(VisibleMonthTsx(selectedDate, initialViewDate, hasChanged, today))
        != GetInitialDateTs(InitialDateArgs(Some(selectedDate), Some(initialViewDate), Some(hasChanged)), today)
  {
  }

  // ---------------------------------------------------------------
  // getYearArray
  // ---------------------------------------------------------------

  /** JavaScript's `a % 20`: the remainder takes the sign of the dividend
      (truncating division), unlike Dafny's Euclidean `%`. */
  function JsRemainder20(a: int): (r: int)
    ensures a >= 0 ==> r == a % 20
    ensures a < 0 ==> -20 < r <= 0 && (a - r) % 20 == 0
    ensures r == 0 <==> a % 20 == 0
  {
    if a >= 0 then a % 20 else -((-a) % 20)
  }

  /** The 20-year page `getYearArray` builds around `selectedYear`. */
  function YearArray(selectedYear: int): (w: seq<int>)
    ensures |w| == 20
    ensures forall i :: 0 <= i < 19 ==> w[i + 1] == w[i] + 1
  {
    var diff := JsRemainder20(selectedYear) - 1;
    if diff == -1 then seq(20, i => selectedYear - 20 + 1 + i)
    else seq(20, i => selectedYear - diff + i)
  }

  /** `getYearArray` on the selected date string; `None` for an unreadable
      string (moment's NaN year). For a readable date the page holds its year
      and runs from a year that is 1 modulo 20 to a multiple of 20. */
  function GetYearArray(selectedDate: string): (r: Option<seq<int>>)
    ensures r.Some? <==> GetDateInfo(selectedDate).Some?
    ensures r.Some? ==> var y := GetDateInfo(selectedDate).value.year;
      |r.value| == 20 && y in r.value && r.value[0] % 20 == 1 && r.value[19] % 20 == 0 &&
      forall i :: 0 <= i < 19 ==> r.value[i + 1] == r.value[i] + 1
  {
    match GetDateInfo(selectedDate)
    case Some(d) => YearArrayHoldsYear(d.year); Some(YearArray(d.year))
    case None => None
  }

  /** The page of years `20k+1 .. 20k+20`. */
  function Block(k: int): (w: seq<int>)
    ensures |w| == 20 && w[0] == 20 * k + 1
  {
    seq(20, i => 20 * k + 1 + i)
  }

  /** Consecutive ascending years. */
  predicate IsContiguous(w: seq<int>) {
    forall i :: 0 <= i < |w| ==> w[i] == w[0] + i
  }

  /** A sequence is one of the aligned 20-year pages. */
  predicate IsBlock(w: seq<int>) {
    |w| == 20 && w[0] % 20 == 1 && IsContiguous(w)
  }

  lemma BlockIsBlock(k: int)
    ensures IsBlock(Block(k))
  {
  }

  /** For a non-negative year the page is the aligned block holding it. */
  lemma {:induction false} YearArrayIsBlock(y: int)
    requires y >= 0
    ensures YearArray(y) == Block((y - 1) / 20)
  {
    var k := (y - 1) / 20;
    assert 20 * k + 1 <= y <= 20 * k + 20;
    if y % 20 == 0 {
      assert y - 19 == 20 * k + 1;
    } else {
      assert y - (y % 20 - 1) == 20 * k + 1;
    }
  }

  lemma YearArrayHoldsYear(y: int)
    requires y >= 0
    ensures y in YearArray(y)
    ensures YearArray(y)[0] % 20 == 1 && YearArray(y)[19] % 20 == 0
    ensures y % 20 == 0 ==> YearArray(y)[0] == y - 19 && YearArray(y)[19] == y
  {
    YearArrayIsBlock(y);
    var k := (y - 1) / 20;
    assert YearArray(y)[y - (20 * k + 1)] == y;
  }

  /** Years of the same block `[20k+1, 20k+20]` get the same page. */
  lemma SameBlockSamePage(y1: int, y2: int)
    requires y1 >= 0 && y2 >= 0 && (y1 - 1) / 20 == (y2 - 1) / 20
    ensures YearArray(y1) == YearArray(y2)
  {
    YearArrayIsBlock(y1);
    YearArrayIsBlock(y2);
  }

  /** Every non-negative year of a page maps back to that same page. */
  lemma PageIsStable(y: int, z: int)
    requires y >= 0 && z >= 0 && z in YearArray(y)
    ensures YearArray(z) == YearArray(y)
  {
    YearArrayIsBlock(y);
    YearArrayIsBlock(z);
    var k := (y - 1) / 20;
    assert 20 * k + 1 <= z <= 20 * k + 20;
    assert (z - 1) / 20 == k;
  }

  lemma YearArrayExamples()
    ensures YearArray(2022) == YearArray(2040) == Block(101)
    ensures YearArray(2022)[0] == 2021 && YearArray(2022)[19] == 2040
    ensures YearArray(2041)[0] == 2041
  {
    YearArrayIsBlock(2022);
    YearArrayIsBlock(2040);
    YearArrayIsBlock(2041);
  }

  /** With JavaScript's truncating `%`, a negative year that is not a
      multiple of 20 gets a page that starts after it and so misses it. */
  lemma NegativeYearOutsideItsPage(y: int)
    requires y < 0 && y % 20 != 0
    ensures y !in YearArray(y)
    ensures YearArray(y)[0] > y && IsBlock(YearArray(y))
  {
    var r := JsRemainder20(y);
    var w := YearArray(y);
    assert w == seq(20, i => y - (r - 1) + i);
    assert IsContiguous(w);
    var q := (y - r) / 20;
    assert y - r == 20 * q;
  }

  // ---------------------------------------------------------------
  // dateProp
  // ---------------------------------------------------------------

  /** Some substring of `s` matches `\d{4}\-\d{2}-\d{2}` (an unanchored regex test). */
  predicate HasDatePattern(s: string) {
    exists i :: 0 <= i && i + 10 <= |s| && PatternAt(s, i)
  }

  /** The regex engine's scan: a match starting at `from` or later. */
  function SearchPattern(s: string, from: nat): (found: bool)
    requires from <= |s|
    ensures found <==> exists i :: from <= i && i + 10 <= |s| && PatternAt(s, i)
    decreases |s| - from
  {
    if from + 10 > |s| then false
    else PatternAt(s, from) || SearchPattern(s, from + 1)
  }

  function ValidationMessage(propName: string, componentName: string): string {
    "Invalid prop `" + propName + "` supplied to" + " `" + componentName + "`. Validation failed."
  }

  /** `dateProp`: no error for an absent or empty prop; otherwise an error
      exactly when no substring looks like a date. */
  function DateProp(value: Option<string>, propName: string, componentName: string): (r: Option<string>)
    ensures r.Some? <==> IsTruthy(value) && !HasDatePattern(value.value)
    ensures r.Some? ==> r.value == ValidationMessage(propName, componentName)
  {
    if !IsTruthy(value) then None
    else if !SearchPattern(value.value, 0) then Some(ValidationMessage(propName, componentName))
    else None
  }

  /** The validator accepts the formatted form of every day, whatever text
      surrounds it, since the regex is not anchored. */
  lemma DatePropAcceptsEmbeddedDate(d: Date, before: string, after: string, propName: string, componentName: string)
    requires IsFormattable(d)
    ensures DateProp(Some(before + Format(d) + after), propName, componentName) == None
  {
    var s := before + Format(d) + after;
    GetDateInfoOfFormat(d);
    assert forall j :: 0 <= j < 10 ==> s[|before| + j] == Format(d)[j];
    assert PatternAt(s, |before|);
  }

  /** Every string `getDateInfo` can read passes the validator. */
  lemma ReadableDatesPassValidator(s: string, propName: string, componentName: string)
    requires GetDateInfo(s).Some?
    ensures DateProp(Some(s), propName, componentName) == None
  {
    assert PatternAt(s, 0);
  }

  /** The validator checks the shape only: it passes a month 13 that
      `getDateInfo` cannot read, and text around a date. */
  lemma ValidatorIsShapeOnly(propName: string, componentName: string)
    ensures DateProp(Some("2022-13-45"), propName, componentName) == None
    ensures GetDateInfo("2022-13-45") == None
    ensures DateProp(Some("on 2022-02-05!"), propName, componentName) == None
    ensures DateProp(Some("2022-2-5"), propName, componentName).Some?
  {
    assert PatternAt("2022-13-45", 0);
    assert PatternAt("on 2022-02-05!", 3);
    assert Num2("2022-13-45", 5) == 13;
  }
}
