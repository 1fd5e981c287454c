/** The decisions the picker component takes over explicit state: which
    month and year cells are disabled under the optional `minDate` and
    `maxDate`, the day a month or year pick lands on, how a day cell is
    classified for styling, how the 20-year page moves and when its arrows
    are disabled, and how the three view flags change. */
module SelectionPolicy {
  import opened Optional
  import opened Dates
  import opened DateUtils

  // ---------------------------------------------------------------
  // Bounds
  // ---------------------------------------------------------------

  /** `minMoment` and `maxMoment`: the inclusive bounds, each optional. */
  datatype Bounds = Bounds(min: Option<Date>, max: Option<Date>)

  /** `minDate ? moment(minDate) : null` on a bound prop. A string that does
      not read as a day gives moment's invalid date, for which every
      `isBefore` and `isAfter` is false: it acts as no bound at all. */
  function BoundOf(prop: Option<string>): (b: Option<Date>)
    ensures b.Some? ==> IsFormattable(b.value) && prop.Some? && Format(b.value) == prop.value
    ensures b.None? <==> !IsTruthy(prop) || GetDateInfo(prop.value).None?
  {
    if IsTruthy(prop) then
      var d := GetDateInfo(prop.value);
      if d.Some? then FormatOfGetDateInfo(prop.value); d else d
    else None
  }

  predicate AreFormattable(b: Bounds) {
    (b.min.Some? ==> IsFormattable(b.min.value)) && (b.max.Some? ==> IsFormattable(b.max.value))
  }

  /** When both bounds are set, `minDate` is not after `maxDate`. */
  predicate AreOrdered(b: Bounds) {
    b.min.Some? && b.max.Some? ==> IsSameOrBefore(b.min.value, b.max.value)
  }

  /** `d` lies in the inclusive range, counting only the bounds that are set. */
  predicate InBounds(d: Date, b: Bounds) {
    (b.min.Some? ==> IsSameOrBefore(b.min.value, d)) && (b.max.Some? ==> IsSameOrBefore(d, b.max.value))
  }

  // ---------------------------------------------------------------
  // Month and year cells
  // ---------------------------------------------------------------

  /** The `isDisabled` chain of the month and year grids, on the day the
      cell stands for: disabled exactly when that day is outside the bounds. */
  function IsCellDisabled(cell: Date, b: Bounds): (disabled: bool)
    ensures disabled <==> !InBounds(cell, b)
  {
    if b.max.Some? && b.min.Some? then IsAfter(cell, b.max.value) || IsBefore(cell, b.min.value)
    else if b.max.Some? then IsAfter(cell, b.max.value)
    else if b.min.Some? then IsBefore(cell, b.min.value)
    else false
  }

  /** Month cell `index` stands for day 1 of that month in the selected year. */
  function IsMonthDisabled(selected: Date, index: int, b: Bounds): (disabled: bool)
    ensures disabled <==> !InBounds(Date(selected.year, index, 1), b)
    ensures b.min.None? && b.max.None? ==> !disabled
  {
    IsCellDisabled(Date(selected.year, index, 1), b)
  }

  /** Year cell `year` stands for day 1 of the selected month in that year. */
  function IsYearDisabled(selected: Date, year: int, b: Bounds): (disabled: bool)
    ensures disabled <==> !InBounds(Date(year, selected.month, 1), b)
    ensures b.min.None? && b.max.None? ==> !disabled
  {
    IsCellDisabled(Date(year, selected.month, 1), b)
  }

  /** Comparing only day 1 disables the whole month of a `minDate` that is
      not a 1st, although `minDate` itself can be selected. */
  lemma MidMonthMinDisablesItsMonth(selected: Date, b: Bounds)
    requires b.min.Some? && IsValid(b.min.value) && b.min.value.day > 1
    requires AreOrdered(b) && selected.year == b.min.value.year
    ensures InBounds(b.min.value, b)
    ensures IsMonthDisabled(selected, b.min.value.month, b)
  {
  }

  /** The same comparison disables the year of a mid-month `minDate` while
      the selected month is the month of `minDate`. */
  lemma MidMonthMinDisablesItsYear(selected: Date, b: Bounds)
    requires b.min.Some? && IsValid(b.min.value) && b.min.value.day > 1
    requires AreOrdered(b) && selected.month == b.min.value.month
    ensures InBounds(b.min.value, b)
    ensures IsYearDisabled(selected, b.min.value.year, b)
  {
  }

  // ---------------------------------------------------------------
  // The day a month or year pick lands on
  // ---------------------------------------------------------------

  /** `moment({year, month, date: 1}).endOf('month')`, then `.date(day)` when
      `day` fits: the latest day of the target month that is not after `day`. */
  function ProjectDay(day: int, year: int, month: int): (d: Date)
    requires 0 <= month < 12 && 1 <= day
    ensures IsValid(d) && d.year == year && d.month == month
    ensures d.day <= day
    ensures d.day < day ==> d.day == DaysInMonth(year, month)
  {
    var last := DaysInMonth(year, month);
    Date(year, month, if day <= last then day else last)
  }

  lemma ProjectDayExamples()
    ensures ProjectDay(31, 2024, 1) == Date(2024, 1, 29)
    ensures ProjectDay(31, 2023, 1) == Date(2023, 1, 28)
    ensures ProjectDay(15, 2023, 1) == Date(2023, 1, 15)
  {
  }

  /** The clamp of `onSelectMonth` and `onSelectYear`: below `minDate` gives
      `minDate`, above `maxDate` gives `maxDate`, each only when set. */
  function Clamp(candidate: Date, b: Bounds): (r: Date)
    ensures r == candidate || Some(r) == b.min || Some(r) == b.max
    ensures b.min.Some? && IsBefore(candidate, b.min.value) ==> r == b.min.value
    ensures b.max.Some? && IsAfter(candidate, b.max.value) && !(b.min.Some? && IsBefore(candidate, b.min.value)) ==> r == b.max.value
    ensures InBounds(candidate, b) ==> r == candidate
    ensures AreOrdered(b) ==> InBounds(r, b)
  {
    if b.max.Some? && b.min.Some? then
      if IsBefore(candidate, b.min.value) then b.min.value
      else if IsAfter(candidate, b.max.value) then b.max.value
      else candidate
    else if b.max.Some? then
      if IsAfter(candidate, b.max.value) then b.max.value else candidate
    else if b.min.Some? then
      if IsBefore(candidate, b.min.value) then b.min.value else candidate
    else candidate
  }

  lemma {:induction false} ClampIsIdempotent(candidate: Date, b: Bounds)
    requires AreOrdered(b)
    ensures Clamp(Clamp(candidate, b), b) == Clamp(candidate, b)
  {
    var r := Clamp(candidate, b);
    assert InBounds(r, b);
  }

  /** The day `onSelectMonth(index)` emits. */
  function MonthPick(selected: Date, index: int, b: Bounds): (d: Date)
    requires IsValid(selected) && 0 <= index < 12
    ensures AreOrdered(b) ==> InBounds(d, b)
  {
    Clamp(ProjectDay(selected.day, selected.year, index), b)
  }

  /** The day `onSelectYear(year)` emits. */
  function YearPick(selected: Date, year: int, b: Bounds): (d: Date)
    requires IsValid(selected)
    ensures AreOrdered(b) ==> InBounds(d, b)
  {
    Clamp(ProjectDay(selected.day, year, selected.month), b)
  }

  /** A pick from an enabled month cell keeps the year and lands in the
      picked month: its day 1 is within the bounds, so the clamp can only
      pull it back to a `maxDate` inside that same month. */
  lemma EnabledMonthPickStaysInMonth(selected: Date, index: int, b: Bounds)
    requires IsValid(selected) && 0 <= index < 12 && !IsMonthDisabled(selected, index, b)
    ensures var d := MonthPick(selected, index, b);
      d.year == selected.year && d.month == index && d.day <= selected.day && InBounds(d, b)
  {
    var p := ProjectDay(selected.day, selected.year, index);
    var first := Date(selected.year, index, 1);
    assert IsSameOrBefore(first, p);
  }

  /** A pick from an enabled year cell lands in that year and keeps the month. */
  lemma EnabledYearPickStaysInYear(selected: Date, year: int, b: Bounds)
    requires IsValid(selected) && !IsYearDisabled(selected, year, b)
    ensures var d := YearPick(selected, year, b);
      d.year == year && d.month == selected.month && d.day <= selected.day && InBounds(d, b)
  {
    var p := ProjectDay(selected.day, year, selected.month);
    var first := Date(year, selected.month, 1);
    assert IsSameOrBefore(first, p);
  }

  // ---------------------------------------------------------------
  // Day cells
  // ---------------------------------------------------------------

  /** The state react-native-calendars hands to the day component. */
  datatype DayState = Disabled | Today | Plain

  /** Colour classes of `calendarDayTextStyle`. */
  datatype DayTextClass = SelectedText | DisabledText | TodayText | WeekendText | WeekdayText

  /** Container classes of `calendarDayContainerStyle`. */
  datatype DayBoxClass = SelectedBox | DisabledBox | WeekendBox | WeekdayBox

  /** `getDay()` numbers Sunday 0 and Saturday 6. */
  predicate IsWeekend(dayOfWeek: int) {
    dayOfWeek == 6 || dayOfWeek == 0
  }

  /** First match wins: selected, disabled, today, weekend, weekday. */
  function DayTextStyle(selectedDate: string, dateString: string, state: DayState, dayOfWeek: int): (c: DayTextClass)
    ensures c == SelectedText <==> selectedDate == dateString
    ensures c == DisabledText <==> selectedDate != dateString && state == Disabled
    ensures c == TodayText <==> selectedDate != dateString && state == Today
    ensures c == WeekendText <==> selectedDate != dateString && state.Plain? && IsWeekend(dayOfWeek)
    ensures c == WeekdayText <==> selectedDate != dateString && state.Plain? && !IsWeekend(dayOfWeek)
  {
    if selectedDate == dateString then SelectedText
    else if state == Disabled then DisabledText
    else if state == Today then TodayText
    else if IsWeekend(dayOfWeek) then WeekendText
    else WeekdayText
  }

  /** The same priority without a "today" case. */
  function DayContainerStyle(selectedDate: string, dateString: string, state: DayState, dayOfWeek: int): (c: DayBoxClass)
    ensures c == SelectedBox <==> selectedDate == dateString
    ensures c == DisabledBox <==> selectedDate != dateString && state == Disabled
    ensures c == WeekendBox <==> selectedDate != dateString && state != Disabled && IsWeekend(dayOfWeek)
    ensures c == WeekdayBox <==> selectedDate != dateString && state != Disabled && !IsWeekend(dayOfWeek)
  {
    if selectedDate == dateString then SelectedBox
    else if state == Disabled then DisabledBox
    else if IsWeekend(dayOfWeek) then WeekendBox
    else WeekdayBox
  }

  /** The container class a text class goes with: "today" falls through to
      the day of the week. */
  function BoxOfText(c: DayTextClass, dayOfWeek: int): DayBoxClass {
    match c
    case SelectedText => SelectedBox
    case DisabledText => DisabledBox
    case TodayText => if IsWeekend(dayOfWeek) then WeekendBox else WeekdayBox
    case WeekendText => WeekendBox
    case WeekdayText => WeekdayBox
  }

  /** The container and the text of one day cell always agree. */
  lemma ContainerFollowsText(selectedDate: string, dateString: string, state: DayState, dayOfWeek: int)
    ensures DayContainerStyle(selectedDate, dateString, state, dayOfWeek)
         == BoxOfText(DayTextStyle(selectedDate, dateString, state, dayOfWeek), dayOfWeek)
  {
  }

  /** A day cell can be pressed unless the calendar marks it disabled. */
  predicate CanPressDay(state: DayState) {
    state != Disabled
  }

  /** The optional colour props of the day text. */
  datatype DayColors = DayColors(
    selectedDateColor: Option<string>,
    disabledDateColor: Option<string>,
    todayDateColor: Option<string>,
    weekendDateColor: Option<string>,
    weekDateColor: Option<string>)

  /** A colour prop when it is truthy, the stylesheet's colour otherwise. */
  function ColorOr(prop: Option<string>, fallback: string): (color: string)
    ensures IsTruthy(prop) ==> color == prop.value
    ensures !IsTruthy(prop) ==> color == fallback
  {
    if IsTruthy(prop) then prop.value else fallback
  }

  /** The text colour of a day cell of class `c`. */
  function DayTextColor(c: DayTextClass, colors: DayColors): (color: string)
    ensures c == SelectedText ==> color == ColorOr(colors.selectedDateColor, "#ffffff")
    ensures c == DisabledText ==> color == ColorOr(colors.disabledDateColor, "#eeeeee")
    ensures c == TodayText ==> color == ColorOr(colors.todayDateColor, "blue")
    ensures c == WeekendText ==> color == ColorOr(colors.weekendDateColor, "red")
    ensures c == WeekdayText ==> color == ColorOr(colors.weekDateColor, "#000000")
    ensures color != ""
  {
    match c
    case SelectedText => ColorOr(colors.selectedDateColor, "#ffffff")
    case DisabledText => ColorOr(colors.disabledDateColor, "#eeeeee")
    case TodayText => ColorOr(colors.todayDateColor, "blue")
    case WeekendText => ColorOr(colors.weekendDateColor, "red")
    case WeekdayText => ColorOr(colors.weekDateColor, "#000000")
  }

  /** Without colour props, the five classes get five different colours. */
  lemma DefaultColorsTellClassesApart(c1: DayTextClass, c2: DayTextClass)
    requires c1 != c2
    ensures var none := DayColors(None, None, None, None, None);
      DayTextColor(c1, none) != DayTextColor(c2, none)
  {
  }

  // ---------------------------------------------------------------
  // The 20-year page: paging and its arrows
  // ---------------------------------------------------------------

  /** The left arrow: 20 years starting 20 before the first. */
  function PageLeft(w: seq<int>): (r: seq<int>)
    requires |w| > 0
    ensures |r| == 20 && IsContiguous(r) && r[0] == w[0] - 20
  {
    seq(20, i => w[0] - 20 + i)
  }

  /** The right arrow: 20 years starting just after the last. */
  function PageRight(w: seq<int>): (r: seq<int>)
    requires |w| > 0
    ensures |r| == 20 && IsContiguous(r) && r[0] == w[|w| - 1] + 1
  {
    seq(20, i => w[|w| - 1] + 1 + i)
  }

  /** On a page of 20 consecutive years both arrows move every year by 20. */
  lemma PagingShiftsByTwenty(w: seq<int>)
    requires |w| == 20 && IsContiguous(w)
    ensures forall i :: 0 <= i < 20 ==> PageLeft(w)[i] == w[i] - 20 && PageRight(w)[i] == w[i] + 20
  {
  }

  /** Left then right, or right then left, returns to the same page. */
  lemma {:induction false} PagingRoundTrip(w: seq<int>)
    requires |w| == 20 && IsContiguous(w)
    ensures PageRight(PageLeft(w)) == w && PageLeft(PageRight(w)) == w
  {
    PagingShiftsByTwenty(w);
    PagingShiftsByTwenty(PageLeft(w));
    PagingShiftsByTwenty(PageRight(w));
  }

  /** Paging moves between the aligned blocks of `getYearArray`. */
  lemma PagingKeepsBlocks(k: int)
    ensures PageLeft(Block(k)) == Block(k - 1)
    ensures PageRight(Block(k)) == Block(k + 1)
  {
  }

  /** Left arrow of `renderYearArrows`: disabled at a first year of 0, or
      when 31 December of the year before the page is before `minDate`. */
  function IsLeftArrowDisabled(w: seq<int>, b: Bounds): (disabled: bool)
    requires |w| > 0
    ensures w[0] == 0 ==> disabled
    ensures w[0] != 0 && b.min.None? ==> !disabled
  {
    if w[0] == 0 then true
    else if b.min.Some? then IsBefore(Date(w[0] - 1, 11, 31), b.min.value)
    else false
  }

  /** Right arrow: disabled when 1 January of the year after the page is
      after `maxDate`. */
  function IsRightArrowDisabled(w: seq<int>, b: Bounds): (disabled: bool)
    requires |w| > 0
    ensures b.max.None? ==> !disabled
  {
    if b.max.Some? then IsAfter(Date(w[|w| - 1] + 1, 0, 1), b.max.value) else false
  }

  /** With a valid `minDate`, a page not starting at 0 has its left arrow
      disabled exactly when every year of the previous page is before the
      year of `minDate`. */
  lemma LeftArrowMeaning(w: seq<int>, b: Bounds)
    requires |w| == 20 && IsContiguous(w) && w[0] != 0
    requires b.min.Some? && IsValid(b.min.value)
    ensures IsLeftArrowDisabled(w, b) <==> forall y :: y in PageLeft(w) ==> y < b.min.value.year
  {
    var p := PageLeft(w);
    assert p[19] == w[0] - 1;
    if IsLeftArrowDisabled(w, b) {
      assert w[0] - 1 < b.min.value.year;
      forall y | y in p ensures y < b.min.value.year {
        var k :| 0 <= k < 20 && p[k] == y;
      }
    } else {
      assert p[19] in p && !(p[19] < b.min.value.year);
    }
  }

  /** With a valid `maxDate`, the right arrow is disabled exactly when every
      year of the next page is after the year of `maxDate`. */
  lemma RightArrowMeaning(w: seq<int>, b: Bounds)
    requires |w| == 20 && IsContiguous(w)
    requires b.max.Some? && IsValid(b.max.value)
    ensures IsRightArrowDisabled(w, b) <==> forall y :: y in PageRight(w) ==> y > b.max.value.year
  {
    var p := PageRight(w);
    assert p[0] == w[19] + 1;
    if IsRightArrowDisabled(w, b) {
      assert w[19] + 1 > b.max.value.year;
      forall y | y in p ensures y > b.max.value.year {
        var k :| 0 <= k < 20 && p[k] == y;
      }
    } else {
      assert p[0] in p && !(p[0] > b.max.value.year);
    }
  }

  /** An aligned page starts at 20k+1, never at 0: the year-0 guard of the
      left arrow cannot fire on the pages the picker shows. */
  lemma BlocksNeverStartAtZero(w: seq<int>, b: Bounds)
    requires IsBlock(w)
    ensures w[0] != 0
    ensures IsLeftArrowDisabled(w, b) <==> b.min.Some? && IsBefore(Date(w[0] - 1, 11, 31), b.min.value)
  {
  }

  // ---------------------------------------------------------------
  // View flags
  // ---------------------------------------------------------------

  /** An animation completion callback that has not run yet. */
  datatype Completion = HideCalendar | HideMonthGrid | HideYearGrid

  /** The three view flags and the completions still to run. */
  datatype Views = Views(isCalendarView: bool, isMonthView: bool, isYearView: bool, pending: seq<Completion>)

  const InitialViews := Views(true, false, false, [])

  /** `toggleMonthView`: leaving the month grid shows the calendar at once and
      hides the grid on completion; entering it shows the grid at once and
      hides the calendar on completion. The year flag is left alone. */
  function ToggleMonthView(v: Views): (r: Views)
    ensures r.isYearView == v.isYearView
    ensures v.isMonthView ==> r.isCalendarView && r.isMonthView && r.pending == v.pending + [HideMonthGrid]
    ensures !v.isMonthView ==> r.isMonthView && r.isCalendarView == v.isCalendarView && r.pending == v.pending + [HideCalendar]
  {
    if v.isMonthView then v.(isCalendarView := true, pending := v.pending + [HideMonthGrid])
    else v.(isMonthView := true, pending := v.pending + [HideCalendar])
  }

  /** `toggleYearView`, the same with the year grid. */
  function ToggleYearView(v: Views): (r: Views)
    ensures r.isMonthView == v.isMonthView
    ensures v.isYearView ==> r.isCalendarView && r.isYearView && r.pending == v.pending + [HideYearGrid]
    ensures !v.isYearView ==> r.isYearView && r.isCalendarView == v.isCalendarView && r.pending == v.pending + [HideCalendar]
  {
    if v.isYearView then v.(isCalendarView := true, pending := v.pending + [HideYearGrid])
    else v.(isYearView := true, pending := v.pending + [HideCalendar])
  }

  /** The animation engine runs pending completion `i` (in whatever order it
      finishes them): it clears one flag and nothing else. */
  function Complete(v: Views, i: int): (r: Views)
    requires 0 <= i < |v.pending|
    ensures r.pending == v.pending[..i] + v.pending[i + 1..]
    ensures r.isCalendarView == (v.isCalendarView && v.pending[i] != HideCalendar)
    ensures r.isMonthView == (v.isMonthView && v.pending[i] != HideMonthGrid)
    ensures r.isYearView == (v.isYearView && v.pending[i] != HideYearGrid)
  {
    var rest := v.pending[..i] + v.pending[i + 1..];
    match v.pending[i]
    case HideCalendar => v.(isCalendarView := false, pending := rest)
    case HideMonthGrid => v.(isMonthView := false, pending := rest)
    case HideYearGrid => v.(isYearView := false, pending := rest)
  }

  /** No fade is running and exactly one view is mounted. */
  predicate IsSettled(v: Views) {
    v.pending == [] &&
    ((v.isCalendarView && !v.isMonthView && !v.isYearView) ||
     (!v.isCalendarView && v.isMonthView && !v.isYearView) ||
     (!v.isCalendarView && !v.isMonthView && v.isYearView))
  }

  /** Toggling the month grid from a settled calendar or month grid, and
      letting the fade finish, settles on the other one; mid-fade both are
      mounted. The year grid is never reached this way. */
  lemma MonthToggleSettles(v: Views)
    requires IsSettled(v) && !v.isYearView
    ensures var t := ToggleMonthView(v);
      t.isCalendarView && t.isMonthView && |t.pending| == 1 &&
      IsSettled(Complete(t, 0)) && Complete(t, 0).isMonthView == !v.isMonthView && !Complete(t, 0).isYearView
  {
  }

  lemma YearToggleSettles(v: Views)
    requires IsSettled(v) && !v.isMonthView
    ensures var t := ToggleYearView(v);
      t.isCalendarView && t.isYearView && |t.pending| == 1 &&
      IsSettled(Complete(t, 0)) && Complete(t, 0).isYearView == !v.isYearView && !Complete(t, 0).isMonthView
  {
  }

  /** A second tap on the month header while the first fade is running
      leaves every view flag false once both fades finish, in either order:
      the picker shows nothing. */
  lemma DoubleToggleHidesEverything()
    ensures var t := ToggleMonthView(ToggleMonthView(InitialViews));
      |t.pending| == 2 &&
      var a := Complete(Complete(t, 0), 0);
      var b := Complete(Complete(t, 1), 0);
      !a.isCalendarView && !a.isMonthView && !a.isYearView &&
      !b.isCalendarView && !b.isMonthView && !b.isYearView
  {
  }
}
