/** The state the `DatePicker` component keeps between events and the
    handlers that change it: day taps, month and year picks, the year-page
    arrows, the header toggles and the completion of a fade. */
module Picker {
  import opened Optional
  import opened Dates
  import opened DateUtils
  import opened SelectionPolicy

  datatype Direction = Left | Right

  class DatePicker {
    // Props, fixed for the component's lifetime, and the day it runs on.
    const initialViewDate: string
    const bounds: Bounds
    const today: Date

    // The component's state hooks.
    var selectedDate: string
    var isCalendarView: bool
    var isMonthView: bool
    var isYearView: bool
    var hasChanged: bool
    var yearArray: seq<int>
    // The memoised `initialDate` of src/index.js, keyed on `selectedDate` alone.
    var initialDateJs: string
    // Completion callbacks of the fades still running.
    var pending: seq<Completion>
    // The dates passed to `onChange` so far, oldest first.
    var emitted: seq<string>

    /** The selected date is readable, the page is an aligned block, and
        (for consistent bounds) every date handed to `onChange` was inside
        them; the selected date is the last one handed out. */
    ghost predicate Valid()
      reads this
    {
      IsFormattable(today) && GetDateInfo(selectedDate).Some? && AreFormattable(bounds) && IsBlock(yearArray) &&
      (emitted != [] ==> selectedDate == emitted[|emitted| - 1]) &&
      (hasChanged ==> emitted != []) &&
      (AreOrdered(bounds) ==>
         forall e :: e in emitted ==> GetDateInfo(e).Some? && InBounds(GetDateInfo(e).value, bounds))
    }

    /** The memos keyed on `selectedDate` after a render whose previous
        selected date was `previous`: unchanged when the string is the same,
        recomputed from the current state otherwise. */
    ghost predicate MemosFollow(previous: string, previousPage: seq<int>, previousInitialDate: string)
      reads this
      requires Valid()
    {
      if selectedDate == previous then
        yearArray == previousPage && initialDateJs == previousInitialDate
      else
        yearArray == YearArray(GetDateInfo(selectedDate).value.year) &&
        initialDateJs == GetInitialDateJs(selectedDate, Some(initialViewDate), hasChanged, today)
    }

    function ViewsOf(): Views
      reads this
    {
      Views(isCalendarView, isMonthView, isYearView, pending)
    }

    /** `selectedDateInfo`: the selected date as year, 0-based month and day. */
    function SelectedDateInfo(): (d: Date)
      reads this
      requires Valid()
      ensures IsFormattable(d) && Format(d) == selectedDate
    {
      FormatOfGetDateInfo(selectedDate);
      GetDateInfo(selectedDate).value
    }

    constructor (initialViewDate: string, initialSelectedDate: Option<string>,
                 minDate: Option<string>, maxDate: Option<string>, today: Date)
      requires IsFormattable(today)
      requires IsTruthy(initialSelectedDate) ==> GetDateInfo(initialSelectedDate.value).Some?
      ensures Valid()
      ensures this.initialViewDate == initialViewDate && this.today == today
      ensures bounds == Bounds(BoundOf(minDate), BoundOf(maxDate))
      ensures selectedDate == if IsTruthy(initialSelectedDate) then initialSelectedDate.value else Format(today)
      ensures yearArray == YearArray(SelectedDateInfo().year)
      ensures initialDateJs == GetInitialDateJs(selectedDate, Some(initialViewDate), false, today)
      ensures ViewsOf() == InitialViews && !hasChanged && emitted == []
    {
      this.initialViewDate := initialViewDate;
      this.today := today;
      bounds := Bounds(BoundOf(minDate), BoundOf(maxDate));
      var selected := if IsTruthy(initialSelectedDate) then initialSelectedDate.value else Format(today);
      GetDateInfoOfFormat(today);
      selectedDate := selected;
      var y := GetDateInfo(selected).value.year;
      YearArrayIsBlock(y);
      BlockIsBlock((y - 1) / 20);
      yearArray := YearArray(y);
      initialDateJs := GetInitialDateJs(selected, Some(initialViewDate), false, today);
      isCalendarView, isMonthView, isYearView := true, false, false;
      hasChanged := false;
      pending := [];
      emitted := [];
    }

    /** The month the calendar opens on in src/index.tsx, whose positional
        call to the object-argument `getInitialDate` always yields today. */
    function VisibleMonth(): (s: string)
      reads this
      requires Valid()
      ensures GetDateInfo(s) == Some(today)
    {
      VisibleMonthTsx(selectedDate, initialViewDate, hasChanged, today)
    }

    function MonthCellDisabled(index: int): bool
      reads this
      requires Valid()
    {
      IsMonthDisabled(SelectedDateInfo(), index, bounds)
    }

    function YearCellDisabled(year: int): bool
      reads this
      requires Valid()
    {
      IsYearDisabled(SelectedDateInfo(), year, bounds)
    }

    function LeftArrowDisabled(): bool
      reads this
      requires Valid()
    {
      IsLeftArrowDisabled(yearArray, bounds)
    }

    function RightArrowDisabled(): bool
      reads this
      requires Valid()
    {
      IsRightArrowDisabled(yearArray, bounds)
    }

    /** `onChangeSelectedDate`: calls `onChange` and stores the date. */
    method OnChangeSelectedDate(date: string)
      requires Valid() && GetDateInfo(date).Some?
      requires AreOrdered(bounds) ==> InBounds(GetDateInfo(date).value, bounds)
      modifies this
      ensures Valid()
      ensures emitted == old(emitted) + [date] && selectedDate == date
      ensures yearArray == old(yearArray) && initialDateJs == old(initialDateJs)
      ensures hasChanged == old(hasChanged) && ViewsOf() == old(ViewsOf())
    {
      emitted := emitted + [date];
      selectedDate := date;
    }

    /** The render that follows a handler: the memos keyed on `selectedDate`
        (`getYearArray`, and `getInitialDate` in src/index.js) run again
        exactly when the selected string differs from `previous`. */
    method Rerender(previous: string)
      requires Valid()
      modifies this
      ensures Valid()
      ensures MemosFollow(previous, old(yearArray), old(initialDateJs))
      ensures selectedDate == old(selectedDate) && emitted == old(emitted)
      ensures hasChanged == old(hasChanged) && ViewsOf() == old(ViewsOf())
    {
      if selectedDate != previous {
        var y := GetDateInfo(selectedDate).value.year;
        YearArrayIsBlock(y);
        BlockIsBlock((y - 1) / 20);
        yearArray := YearArray(y);
        initialDateJs := GetInitialDateJs(selectedDate, Some(initialViewDate), hasChanged, today);
      }
    }

    /** A tap on a day cell. The calendar marks every day outside the bounds
        disabled, and a disabled cell ignores taps; an accepted tap emits
        the day but neither sets `hasChanged` nor changes the view. */
    method PressDay(dateString: string, state: DayState)
      requires Valid() && isCalendarView && GetDateInfo(dateString).Some?
      requires !InBounds(GetDateInfo(dateString).value, bounds) ==> state == Disabled
      modifies this
      ensures Valid()
      ensures CanPressDay(state) ==> emitted == old(emitted) + [dateString] && selectedDate == dateString
      ensures !CanPressDay(state) ==> emitted == old(emitted) && selectedDate == old(selectedDate)
      ensures MemosFollow(old(selectedDate), old(yearArray), old(initialDateJs))
      ensures hasChanged == old(hasChanged) && ViewsOf() == old(ViewsOf())
    {
      var previous := selectedDate;
      if CanPressDay(state) {
        OnChangeSelectedDate(dateString);
      }
      Rerender(previous);
    }

    /** `onSelectMonth`: the selected day projected onto month `index`,
        clamped, emitted; then the month grid toggles and `hasChanged` is set. */
    method OnSelectMonth(index: int)
      requires Valid() && 0 <= index < 12
      modifies this
      ensures Valid()
      ensures var d := MonthPick(old(SelectedDateInfo()), index, bounds);
        IsFormattable(d) && emitted == old(emitted) + [Format(d)] && selectedDate == Format(d)
      ensures hasChanged && ViewsOf() == ToggleMonthView(old(ViewsOf()))
      ensures MemosFollow(old(selectedDate), old(yearArray), old(initialDateJs))
    {
      var previous := selectedDate;
      var d := MonthPick(SelectedDateInfo(), index, bounds);
      GetDateInfoOfFormat(d);
      OnChangeSelectedDate(Format(d));
      var v := ToggleMonthView(ViewsOf());
      isCalendarView, isMonthView, pending := v.isCalendarView, v.isMonthView, v.pending;
      hasChanged := true;
      Rerender(previous);
    }

    /** `onSelectYear`: the selected day moved to `year` in the same month,
        clamped, emitted; then the year grid toggles and `hasChanged` is set. */
    method OnSelectYear(year: int)
      requires Valid() && 0 <= year <= 9999
      modifies this
      ensures Valid()
      ensures var d := YearPick(old(SelectedDateInfo()), year, bounds);
        IsFormattable(d) && emitted == old(emitted) + [Format(d)] && selectedDate == Format(d)
      ensures hasChanged && ViewsOf() == ToggleYearView(old(ViewsOf()))
      ensures MemosFollow(old(selectedDate), old(yearArray), old(initialDateJs))
    {
      var previous := selectedDate;
      var d := YearPick(SelectedDateInfo(), year, bounds);
      GetDateInfoOfFormat(d);
      OnChangeSelectedDate(Format(d));
      var v := ToggleYearView(ViewsOf());
      isCalendarView, isYearView, pending := v.isCalendarView, v.isYearView, v.pending;
      hasChanged := true;
      Rerender(previous);
    }

    /** A tap on month cell `index`: ignored when the cell is disabled,
        otherwise a pick that stays in the selected year and that month. */
    method PressMonthCell(index: int)
      requires Valid() && isMonthView && 0 <= index < 12
      modifies this
      ensures Valid()
      ensures old(MonthCellDisabled(index)) ==>
        emitted == old(emitted) && selectedDate == old(selectedDate) &&
        hasChanged == old(hasChanged) && ViewsOf() == old(ViewsOf())
      ensures !old(MonthCellDisabled(index)) ==>
        var d := MonthPick(old(SelectedDateInfo()), index, bounds);
        IsFormattable(d) && emitted == old(emitted) + [Format(d)] && selectedDate == Format(d) &&
        d.year == old(SelectedDateInfo()).year && d.month == index && InBounds(d, bounds) &&
        hasChanged && ViewsOf() == ToggleMonthView(old(ViewsOf()))
      ensures MemosFollow(old(selectedDate), old(yearArray), old(initialDateJs))
    {
      if !MonthCellDisabled(index) {
        EnabledMonthPickStaysInMonth(SelectedDateInfo(), index, bounds);
        OnSelectMonth(index);
      }
    }

    /** A tap on year cell `i` of the page: ignored when the cell is
        disabled, otherwise a pick that lands in that year and keeps the month. */
    method PressYearCell(i: int)
      requires Valid() && isYearView && 0 <= i < |yearArray| && 0 <= yearArray[i] <= 9999
      modifies this
      ensures Valid()
      ensures old(YearCellDisabled(yearArray[i])) ==>
        emitted == old(emitted) && selectedDate == old(selectedDate) &&
        hasChanged == old(hasChanged) && ViewsOf() == old(ViewsOf())
      ensures !old(YearCellDisabled(yearArray[i])) ==>
        var d := YearPick(old(SelectedDateInfo()), old(yearArray[i]), bounds);
        IsFormattable(d) && emitted == old(emitted) + [Format(d)] && selectedDate == Format(d) &&
        d.year == old(yearArray[i]) && d.month == old(SelectedDateInfo()).month && InBounds(d, bounds) &&
        hasChanged && ViewsOf() == ToggleYearView(old(ViewsOf()))
      ensures MemosFollow(old(selectedDate), old(yearArray), old(initialDateJs))
    {
      var year := yearArray[i];
      if !YearCellDisabled(year) {
        EnabledYearPickStaysInYear(SelectedDateInfo(), year, bounds);
        OnSelectYear(year);
      }
    }

    /** `onPressYearArrow`: replaces the page and nothing else. */
    method OnPressYearArrow(direction: Direction)
      requires Valid()
      modifies this
      ensures Valid()
      ensures yearArray == if direction == Left then PageLeft(old(yearArray)) else PageRight(old(yearArray))
      ensures selectedDate == old(selectedDate) && emitted == old(emitted) && initialDateJs == old(initialDateJs)
      ensures hasChanged == old(hasChanged) && ViewsOf() == old(ViewsOf())
    {
      var k := (yearArray[0] - 1) / 20;
      assert yearArray == Block(k);
      PagingKeepsBlocks(k);
      BlockIsBlock(k - 1);
      BlockIsBlock(k + 1);
      if direction == Left {
        yearArray := PageLeft(yearArray);
      } else {
        yearArray := PageRight(yearArray);
      }
    }

    /** A tap on an arrow of the year grid: ignored while that arrow is
        disabled; each accepted tap moves the page by exactly 20 years. */
    method PressYearArrow(direction: Direction)
      requires Valid() && isYearView
      modifies this
      ensures Valid()
      ensures var disabled := if direction == Left then old(LeftArrowDisabled()) else old(RightArrowDisabled());
        (disabled ==> yearArray == old(yearArray)) &&
        (!disabled ==> (|yearArray| == 20 &&
           forall i :: 0 <= i < 20 ==> yearArray[i] == old(yearArray[i]) + (if direction == Left then -20 else 20)))
      ensures selectedDate == old(selectedDate) && emitted == old(emitted) && initialDateJs == old(initialDateJs)
      ensures hasChanged == old(hasChanged) && ViewsOf() == old(ViewsOf())
    {
      var disabled := if direction == Left then LeftArrowDisabled() else RightArrowDisabled();
      if !disabled {
        PagingShiftsByTwenty(yearArray);
        OnPressYearArrow(direction);
      }
    }

    /** A tap on the month name of the calendar header. */
    method ToggleMonth()
      requires Valid() && isCalendarView
      modifies this
      ensures Valid()
      ensures ViewsOf() == ToggleMonthView(old(ViewsOf()))
      ensures selectedDate == old(selectedDate) && emitted == old(emitted) && yearArray == old(yearArray)
      ensures initialDateJs == old(initialDateJs)
      ensures hasChanged == old(hasChanged)
    {
      var v := ToggleMonthView(ViewsOf());
      isCalendarView, isMonthView, pending := v.isCalendarView, v.isMonthView, v.pending;
    }

    /** A tap on the year of the calendar header. */
    method ToggleYear()
      requires Valid() && isCalendarView
      modifies this
      ensures Valid()
      ensures ViewsOf() == ToggleYearView(old(ViewsOf()))
      ensures selectedDate == old(selectedDate) && emitted == old(emitted) && yearArray == old(yearArray)
      ensures initialDateJs == old(initialDateJs)
      ensures hasChanged == old(hasChanged)
    {
      var v := ToggleYearView(ViewsOf());
      isCalendarView, isYearView, pending := v.isCalendarView, v.isYearView, v.pending;
    }

    /** The animation engine finishes fade `i` and runs its callback. */
    method CompleteAnimation(i: int)
      requires Valid() && 0 <= i < |pending|
      modifies this
      ensures Valid()
      ensures ViewsOf() == Complete(old(ViewsOf()), i)
      ensures selectedDate == old(selectedDate) && emitted == old(emitted) && yearArray == old(yearArray)
      ensures initialDateJs == old(initialDateJs)
      ensures hasChanged == old(hasChanged)
    {
      var v := Complete(ViewsOf(), i);
      isCalendarView, isMonthView, isYearView, pending := v.isCalendarView, v.isMonthView, v.isYearView, v.pending;
    }
  }

  /** Selecting a day with no bounds emits it once and shows it selected,
      without setting `hasChanged`. */
  method SelectDayScenario(today: Date) returns (emitted: seq<string>, style: DayTextClass, hasChanged: bool)
    requires IsFormattable(today)
    ensures emitted == ["2022-02-10"] && style == SelectedText && !hasChanged
  {
    assert GetDateInfo("2022-02-10") == Some(Date(2022, 1, 10));
    var p := new DatePicker("2022-02-05", None, None, None, today);
    p.PressDay("2022-02-10", Plain);
    emitted, style, hasChanged := p.emitted, DayTextStyle(p.selectedDate, "2022-02-10", Plain, 4), p.hasChanged;
  }

  /** With bounds 2022-01-01..2022-12-31 the year 2023 is disabled: tapping
      it emits nothing and the year grid stays open. */
  method DisabledYearScenario(today: Date) returns (emitted: seq<string>, isYearView: bool)
    requires IsFormattable(today)
    ensures emitted == [] && isYearView
  {
    assert GetDateInfo("2022-06-15") == Some(Date(2022, 5, 15));
    assert GetDateInfo("2022-01-01") == Some(Date(2022, 0, 1));
    assert GetDateInfo("2022-12-31") == Some(Date(2022, 11, 31));
    var p := new DatePicker("2022-06-15", Some("2022-06-15"), Some("2022-01-01"), Some("2022-12-31"), today);
    YearArrayIsBlock(2022);
    assert p.yearArray[2] == 2023;
    p.ToggleYear();
    p.CompleteAnimation(0);
    assert p.SelectedDateInfo() == Date(2022, 5, 15);
    assert p.YearCellDisabled(p.yearArray[2]);
    p.PressYearCell(2);
    emitted, isYearView := p.emitted, p.isYearView && !p.isCalendarView;
  }

  /** Two taps on the month name before the first fade finishes: once both
      fades finish, no view is mounted. */
  method DoubleTapScenario(today: Date) returns (anyViewMounted: bool)
    requires IsFormattable(today)
    ensures !anyViewMounted
  {
    var p := new DatePicker("2022-02-05", None, None, None, today);
    p.ToggleMonth();
    p.ToggleMonth();
    p.CompleteAnimation(0);
    p.CompleteAnimation(0);
    anyViewMounted := p.isCalendarView || p.isMonthView || p.isYearView;
  }

  /** In src/index.js a month pick that keeps the selected string leaves the
      memoised visible month at `initialViewDate`, although `hasChanged` is
      now set and `getInitialDate` would return the selected date. */
  method StaleMemoScenario(today: Date) returns (visible: string, hasChanged: bool, selected: string)
    requires IsFormattable(today)
    ensures hasChanged && selected == "2022-02-05" && visible == "2021-06-01"
    ensures visible != GetInitialDateJs(selected, Some("2021-06-01"), hasChanged, today)
  {
    assert GetDateInfo("2022-02-05") == Some(Date(2022, 1, 5));
    FormatOfGetDateInfo("2022-02-05");
    var p := new DatePicker("2021-06-01", Some("2022-02-05"), None, None, today);
    p.ToggleMonth();
    p.CompleteAnimation(0);
    p.PressMonthCell(1);
    visible, hasChanged, selected := p.initialDateJs, p.hasChanged, p.selectedDate;
  }
}
