# react-native-styled-datepicker: the calendar-date core in Dafny

This project models the date logic that sits underneath the React Native
`DatePicker` widget. Rendering is not modelled. What remains is:

- the date utilities of `src/func/index.js` and `src/utils/index.ts`:
  `getDateInfo`, both variants of `getInitialDate`, `getYearArray` and the
  `dateProp` prop validator;
- the selection policy inside the component bodies of `src/index.tsx` and its
  near-duplicate `src/index.js`:
  - which month and year cells are disabled under the optional inclusive
    `minDate` / `maxDate`;
  - the day `onSelectMonth` / `onSelectYear` land on and the clamp into the
    bounds;
  - how a day cell is classified for its text colour and container style;
  - how the 20-year page moves and when its arrows are disabled;
- the component state (`selectedDate`, `isCalendarView`, `isMonthView`,
  `isYearView`, `hasChanged`, `yearArray`) and the handlers that update it
  step by step.

Modules:

- `Optional` (option.dfy): `Option` and JavaScript truthiness of an optional
  string.
- `Dates` (dates.dfy):
  - a day is a `(year, 0-based month, day)` triple with Gregorian month
    lengths;
  - days are ordered chronologically, which is moment's
    `isBefore` / `isAfter` at day granularity;
  - `Format` writes the `YYYY-MM-DD` form.
- `DateUtils` (date_utils.dfy): the four utilities. `GetDateInfo` is a
  strict reader of `YYYY-MM-DD`, proved to be the inverse of `Format` in
  both directions. `YearArray` uses JavaScript's truncating `%`. `Block(k)`
  is the reference page `[20k+1 .. 20k+20]`. `SearchPattern` is the
  unanchored regex scan.
- `SelectionPolicy` (selection_policy.dfy): the pure decisions of the
  component over explicit arguments. The view flags are a `Views` value
  with a list of completion callbacks still pending, so fades can finish in
  any order.
- `Picker` (date_picker.dfy): class `DatePicker`. Its fields are:
  - the component's state hooks;
  - `initialDateJs`, the memoised `initialDate` of `src/index.js`;
  - `pending`, the fades still running;
  - `emitted`, every date passed to `onChange`.

  Its methods are the event handlers. Each handler ends with `Rerender`, the
  render that follows it. `Rerender` recomputes the memos keyed on
  `selectedDate` exactly when the selected string changed.

The invariant `Valid()` holds after every handler:

- the selected date is readable;
- the page is an aligned 20-year block;
- the selected date is the last date emitted;
- `hasChanged` implies something was emitted;
- when `minDate` is not after `maxDate`, every emitted date lies within the
  bounds.

`src/index.js` repeats the logic of `src/index.tsx`, so it is modelled once.
The rows below that cite `src/index.js` state the same rules on its copy.
The copies differ in these places:

- `src/index.js:78` leaves `hasChanged` out of the dependencies of the
  `initialDate` memo. This does change results, and the model keeps it: see
  the stale memo below.
- `src/index.js:94` assigns `onChangeSelectedDate` without a declaration.
- `src/index.js:430` shows the fixed `MONTHS` list, where
  `src/index.tsx:665` uses the locale's short month names.
- `src/index.tsx:549` guards an empty `yearArray` with `0`.

Apart from `src/index.js:78`, none of these changes a result on the states
the model reaches.

### Behaviour kept from the source and exhibited by lemmas

- The calendar opens on today. `src/index.tsx:136` calls the object-argument
  `getInitialDate` of `src/utils/index.ts:12-25` with three positional
  arguments. Every destructured field is then `undefined`, so the visible
  month is always today's, even after the user has picked a month or year:
  `DateUtils.PositionalCallIgnoresArguments`, `Picker.DatePicker.VisibleMonth`.
- The visible month of `src/index.js` can go stale. Its `initialDate` memo
  is keyed on `selectedDate` and `initialViewDate` only
  (`src/index.js:78`). Take `initialViewDate` 2021-06-01 and selected date
  2022-02-05, and pick February. The pick sets `hasChanged` but emits the
  same string, so the calendar stays on June 2021:
  `Picker.StaleMemoScenario`, `Picker.DatePicker.Rerender`.
- `||` versus `??`: the two `getInitialDate` variants disagree exactly when
  `hasChanged` is false and `initialDate` is the empty string:
  `DateUtils.InitialDateVariantsAgree`.
- A day tap emits the day but does not set `hasChanged`. Only month and year
  picks set it: `Picker.DatePicker.PressDay`,
  `Picker.DatePicker.OnSelectMonth`, `Picker.SelectDayScenario`.
- Month and year cells are judged by day 1 alone. A `minDate` that is not
  the 1st disables its own month, and its own year while that month is
  selected, although `minDate` itself is selectable:
  `SelectionPolicy.MidMonthMinDisablesItsMonth`,
  `SelectionPolicy.MidMonthMinDisablesItsYear`.
- With JavaScript's truncating `%`, a negative year that is not a multiple of
  20 gets a page that does not contain it:
  `DateUtils.NegativeYearOutsideItsPage`.
- The year-0 guard of the left arrow never fires. Every page the picker
  shows starts at `20k+1`: `SelectionPolicy.BlocksNeverStartAtZero`.
- A second tap on a header while its fade is running leaves all three view
  flags false once both fades finish, so nothing is shown:
  `SelectionPolicy.DoubleToggleHidesEverything`,
  `Picker.DoubleTapScenario`.
- The validator checks only the shape. It accepts `2022-13-45`, which
  `getDateInfo` cannot read, and text around a date:
  `DateUtils.ValidatorIsShapeOnly`.

## Model

| member | source | states |
|---|---|---|
| Dates.DaysInMonth | src/index.tsx:472-476 | the day `endOf('month')` lands on is 28 to 31. February has 29 days in leap years and 28 otherwise. The other months have 31 days exactly when they are January, March, May, July, August, October or December, and 30 days exactly when they are April, June, September or November |
| Dates.BeforeIsStrictTotalOrder | src/index.tsx:480-487 | day-granularity `isBefore` is irreflexive, transitive and total, so the clamp compares days chronologically |
| Dates.Format | src/func/index.js:16 | `format('YYYY-MM-DD')` is ten characters with dashes at positions 4 and 7 |
| DateUtils.GetDateInfo | src/func/index.js:3-10 | a string that reads as a day has the `YYYY-MM-DD` shape; the year is its first four digits, the month is MM minus 1 (0-based) and the day is DD; the result is a real calendar day |
| DateUtils.GetDateInfoOfFormat | src/utils/index.ts:3-10 | reading back the formatted form of a day gives that day |
| DateUtils.FormatOfGetDateInfo | src/utils/index.ts:4 | a readable string is exactly the formatted form of the day it reads as |
| DateUtils.SameDayIffSameString | src/index.tsx:268 | for readable strings, the string comparison the day styles use holds exactly when the two strings denote the same day |
| DateUtils.GetInitialDateJs | src/func/index.js:12-17 | returns `selectedDate` when `hasChanged`; otherwise returns `initialDate` when it is truthy, else today |
| DateUtils.GetInitialDateTs | src/utils/index.ts:12-25 | returns `selectedDate` when `hasChanged` is true; otherwise returns `initialDate` whenever it is present, including the empty string, else today |
| DateUtils.InitialDateVariantsAgree | src/utils/index.ts:24 | the `??` and `||` variants return the same date exactly when `hasChanged` is true or `initialDate` is not the empty string |
| DateUtils.VisibleMonthTsx | src/index.tsx:135-138 | the month the positional call yields always reads as today |
| DateUtils.PositionalCallIgnoresArguments | src/index.tsx:136 | the positional call yields today's string whatever its arguments; after a change to another date it differs from the intended object call |
| DateUtils.JsRemainder20 | src/func/index.js:22 | JavaScript `y % 20` equals the mathematical remainder for non-negative `y`; for negative `y` it lies in (-20, 0] and differs from `y` by a multiple of 20; it is zero exactly when 20 divides `y` |
| DateUtils.YearArray | src/func/index.js:19-27 | the page has exactly 20 years, each one more than the one before |
| DateUtils.GetYearArray | src/utils/index.ts:27-35 | a page exists exactly when the selected date is readable. It then has 20 consecutive ascending years, contains the selected year, starts at a year that is 1 modulo 20 and ends at a multiple of 20 |
| DateUtils.YearArrayIsBlock | src/func/index.js:21-26 | for a year y >= 0 the page is the block `[20k+1 .. 20k+20]` with k = (y-1) div 20 |
| DateUtils.YearArrayHoldsYear | src/func/index.js:23-26 | for y >= 0 the page contains y, its first year is 1 modulo 20 and its last a multiple of 20; when 20 divides y the page is `[y-19 .. y]` |
| DateUtils.SameBlockSamePage | src/utils/index.ts:30-34 | two non-negative years in the same block `[20k+1, 20k+20]` get the identical page |
| DateUtils.PageIsStable | src/func/index.js:26 | every non-negative year of a page maps back to that same page |
| DateUtils.YearArrayExamples | src/func/index.js:22-26 | 2022 and 2040 both give 2021..2040; 2041 starts the next page |
| DateUtils.NegativeYearOutsideItsPage | src/utils/index.ts:30 | a negative year that 20 does not divide is missing from its own page, which starts after it |
| DateUtils.SearchPattern | src/func/index.js:33 | the regex scan from position `from` succeeds exactly when four digits, a dash, two digits, a dash and two digits occur at some position `from` or later |
| DateUtils.DateProp | src/func/index.js:29-36 | no error for an absent or empty prop; otherwise an error exactly when no substring has the date shape; the error carries the prop and component names |
| DateUtils.DatePropAcceptsEmbeddedDate | src/func/index.js:33-35 | the formatted form of any day passes the validator whatever text surrounds it |
| DateUtils.ReadableDatesPassValidator | src/func/index.js:30-35 | every string `getDateInfo` can read passes the validator |
| DateUtils.ValidatorIsShapeOnly | src/func/index.js:33 | the validator accepts an unreadable `2022-13-45` and a date inside other text, and rejects `2022-2-5` |
| SelectionPolicy.BoundOf | src/index.tsx:148-149 | an empty or absent bound prop, or one that does not read as a day, is no bound; otherwise the bound is the day the prop formats as |
| SelectionPolicy.IsCellDisabled | src/index.js:237-244 | the `isDisabled` chain holds exactly when the cell's day is after `maxDate` (if set) or before `minDate` (if set) |
| SelectionPolicy.IsMonthDisabled | src/index.tsx:374-389 | month cell `index` is disabled exactly when day 1 of that month in the selected year is outside the bounds; with no bounds no month is disabled |
| SelectionPolicy.IsYearDisabled | src/index.tsx:422-438 | year cell `year` is disabled exactly when day 1 of the selected month in that year is outside the bounds; with no bounds no year is disabled |
| SelectionPolicy.MidMonthMinDisablesItsMonth | src/index.tsx:375-389 | a `minDate` after the 1st is itself in bounds, yet its month cell in its year is disabled |
| SelectionPolicy.MidMonthMinDisablesItsYear | src/index.js:258-269 | a `minDate` after the 1st is itself in bounds, yet its year cell is disabled while its month is selected |
| SelectionPolicy.ProjectDay | src/index.tsx:472-479 | the projected day is a real day of the target month and year, not after the current day, and it is the month's last day whenever it differs from the current day |
| SelectionPolicy.ProjectDayExamples | src/index.tsx:514-516 | the 31st projects to 29 February 2024 and 28 February 2023; the 15th stays the 15th |
| SelectionPolicy.Clamp | src/index.tsx:480-502 | a candidate before a set `minDate` gives `minDate`. Otherwise a candidate after a set `maxDate` gives `maxDate`. A candidate in bounds is kept. With ordered bounds the result is in bounds |
| SelectionPolicy.ClampIsIdempotent | src/index.tsx:517-539 | with ordered bounds, clamping a clamped day changes nothing |
| SelectionPolicy.MonthPick | src/index.js:283-314 | with ordered bounds the day `onSelectMonth` emits is in bounds |
| SelectionPolicy.YearPick | src/index.tsx:508-539 | with ordered bounds the day `onSelectYear` emits is in bounds |
| SelectionPolicy.EnabledMonthPickStaysInMonth | src/index.tsx:392-402 | a pick from an enabled month cell keeps the year, lands in the picked month, is not after the current day, and is in bounds |
| SelectionPolicy.EnabledYearPickStaysInYear | src/index.js:316-346 | a pick from an enabled year cell lands in that year, keeps the month, is not after the current day, and is in bounds |
| SelectionPolicy.DayTextStyle | src/index.tsx:303-331 | the text class is the first that applies of selected, disabled, today, weekend (day 6 or 0) and weekday; each class is characterised in both directions |
| SelectionPolicy.DayContainerStyle | src/index.tsx:262-301 | the container class follows the same priority without a today case; a selected day is styled as selected even when disabled |
| SelectionPolicy.ContainerFollowsText | src/index.js:163-209 | a cell's container class always matches its text class, with today falling through to the day of the week |
| SelectionPolicy.ColorOr | src/index.tsx:308-310 | a truthy colour prop wins; otherwise the stylesheet colour is used |
| SelectionPolicy.DayTextColor | src/index.js:185-209 | each text class takes its colour prop when truthy, else its stylesheet colour: selected `#ffffff`, disabled `#eeeeee`, today `blue`, weekend `red`, weekday `#000000`. The colour is never empty |
| SelectionPolicy.DefaultColorsTellClassesApart | src/index.tsx:763-777 | without colour props the five text classes get five different colours |
| SelectionPolicy.PageLeft | src/index.tsx:545-551 | the left arrow gives 20 consecutive years starting 20 before the old first year |
| SelectionPolicy.PageRight | src/index.tsx:552-559 | the right arrow gives 20 consecutive years starting just after the old last year |
| SelectionPolicy.PagingShiftsByTwenty | src/index.js:348-354 | on a page of 20 consecutive years, each arrow shifts every year by exactly 20 |
| SelectionPolicy.PagingRoundTrip | src/index.tsx:544-560 | left then right, and right then left, return the same page |
| SelectionPolicy.PagingKeepsBlocks | src/index.js:350-352 | paging moves from block k to block k-1 or k+1 |
| SelectionPolicy.IsLeftArrowDisabled | src/index.tsx:563-573 | the left arrow is disabled at a first year of 0; otherwise, without `minDate`, it is enabled |
| SelectionPolicy.IsRightArrowDisabled | src/index.tsx:575-583 | without `maxDate` the right arrow is enabled |
| SelectionPolicy.LeftArrowMeaning | src/index.js:357-363 | for a page not starting at 0 with a set `minDate`, the left arrow is disabled exactly when every year of the previous page is before the year of `minDate` |
| SelectionPolicy.RightArrowMeaning | src/index.js:365-369 | with a set `maxDate`, the right arrow is disabled exactly when every year of the next page is after the year of `maxDate` |
| SelectionPolicy.BlocksNeverStartAtZero | src/index.tsx:564-565 | an aligned page never starts at 0, so the left arrow depends on `minDate` alone |
| SelectionPolicy.ToggleMonthView | src/index.tsx:160-191 | leaving the month grid sets the calendar flag at once and queues hiding the grid; entering it sets the grid flag at once and queues hiding the calendar; the year flag is untouched |
| SelectionPolicy.ToggleYearView | src/index.tsx:193-224 | the same for the year grid; the month flag is untouched |
| SelectionPolicy.Complete | src/index.tsx:175-189 | a finished fade clears exactly the flag its callback names. Exactly that callback is removed from the pending list, and the others keep their order |
| SelectionPolicy.MonthToggleSettles | src/index.js:99-122 | from a settled calendar or month grid, a toggle shows both views during the fade and settles on the other one, never on the year grid |
| SelectionPolicy.YearToggleSettles | src/index.js:124-147 | the same for the year grid, never reaching the month grid |
| SelectionPolicy.DoubleToggleHidesEverything | src/index.tsx:229-230 | two month-header taps from the initial view leave all three flags false, in either completion order |
| Picker.DatePicker.SelectedDateInfo | src/index.tsx:130-133 | `selectedDateInfo` is the day whose formatted form is the selected date |
| Picker.DatePicker.constructor | src/index.tsx:121-142 | the selected date is `initialSelectedDate` when truthy, else today. The page is the selected year's. The JavaScript `initialDate` memo starts as `getInitialDate` with `hasChanged` false. Only the calendar is shown, and nothing has changed or been emitted |
| Picker.DatePicker.VisibleMonth | src/index.tsx:135-138 | the month the calendar opens on reads as today in every state |
| Picker.DatePicker.Rerender | src/index.js:77-81 | the memos keyed on `selectedDate` run again exactly when the selected string changed. They then hold the new year's page and `getInitialDate` of the current state. Otherwise both keep their old values |
| Picker.DatePicker.OnChangeSelectedDate | src/index.tsx:155-158 | emits the date once and stores it. Everything else is untouched until the render that follows |
| Picker.DatePicker.PressDay | src/index.tsx:341-345 | a tap on an enabled day emits it once and selects it, and the page follows the new year when the date changed. A disabled day is ignored, and the page and memo are kept. `hasChanged` and the views never change |
| Picker.DatePicker.OnSelectMonth | src/index.tsx:471-506 | emits exactly the clamped projected day and selects it. It toggles the month grid and sets `hasChanged`. The page and memo follow the new date when it changed |
| Picker.DatePicker.OnSelectYear | src/index.tsx:508-542 | emits exactly the clamped projected day and selects it. It toggles the year grid and sets `hasChanged`. The page and memo follow the new date when it changed |
| Picker.DatePicker.PressMonthCell | src/index.tsx:392-402 | a disabled month cell ignores the tap and keeps the state. An enabled one emits and selects exactly the month pick, an in-bounds day of that month in the same year. It also toggles the month grid, sets `hasChanged` and re-renders |
| Picker.DatePicker.PressYearCell | src/index.tsx:441-451 | a disabled year cell ignores the tap and keeps the state. An enabled one emits and selects exactly the year pick, an in-bounds day of that year in the same month. It also toggles the year grid, sets `hasChanged` and re-renders |
| Picker.DatePicker.OnPressYearArrow | src/index.tsx:546-558 | replaces the page by its left or right neighbour; the selection, the flags and `onChange` are untouched |
| Picker.DatePicker.PressYearArrow | src/index.tsx:587-621 | a disabled arrow ignores the tap; an enabled one shifts every year of the page by exactly 20 in its direction |
| Picker.DatePicker.ToggleMonth | src/index.tsx:229-230 | a tap on the header's month name applies `toggleMonthView` and changes nothing else |
| Picker.DatePicker.ToggleYear | src/index.tsx:244-245 | a tap on the header's year applies `toggleYearView` and changes nothing else |
| Picker.DatePicker.CompleteAnimation | src/index.tsx:222 | a fade finishing runs its callback and changes nothing else |
| Picker.SelectDayScenario | src/index.tsx:341-345 | from 2022-02-05 with no bounds, tapping 2022-02-10 emits exactly that date and styles it as selected, but `hasChanged` stays false |
| Picker.DisabledYearScenario | src/index.tsx:441-451 | with bounds 2022-01-01 to 2022-12-31, tapping 2023 on the year grid emits nothing and the year grid stays open |
| Picker.DoubleTapScenario | src/index.tsx:229-230 | two taps on the month name before the fade finishes leave no view mounted |
| Picker.StaleMemoScenario | src/index.js:78 | picking February from 2022-02-05 with `initialViewDate` 2021-06-01 sets `hasChanged`. The memoised visible month nevertheless stays 2021-06-01, not what `getInitialDate` now returns |

## Left out

- Rendering is not modelled: JSX, `StyleSheet` objects, style spreading, the
  `FlatList` and `Calendar` layout, images and arrow rotation. This includes
  the look of month and year cells (`variableStyles.monthYear`). The model
  keeps only the class a day cell falls into and its text colour.
- `Animated` opacities, durations and delays are left out. Only the flag
  flips are modelled, each completion as an explicit step. The completion
  order is left open.
- The clock is read once. `today` is a constructor parameter kept for the
  component's lifetime. The source calls `moment()` again at every render.
- The day of the week is an input. `new Date(dateString).getDay()` depends on
  the time zone.
- The `DISABLED` / `TODAY` day state is an input. react-native-calendars
  computes it, and that library is not part of this model.
- Locale month names and the `MONTHS` list are presentation and are left
  out.
- `onChange` is not called. Every date it would receive is appended to
  `emitted` instead.
- React's batching, closures and `useMemo` timing are not modelled. Each
  handler runs to completion on the current state, then one render follows.
  In that render, the memos keyed on `selectedDate` run when it changed. The
  empty `yearArray`
  before the first memo run is not modelled.
- PropTypes: only `dateProp` is modelled, on string values. Non-string prop
  values are left out.
- example/src/App.tsx is a host app and is not part of this model.
- DateUtils.GetDateInfo: reads only the strict `YYYY-MM-DD` form with years
  0..9999. moment's lenient parsing of other shapes, such as a missing
  leading zero or trailing text, is treated as an invalid date.
- SelectionPolicy.BoundOf: follows from GetDateInfo. A bound string moment
  would read leniently is treated as no bound.
- Picker.DatePicker.OnSelectYear: requires the tapped year to lie in
  0..9999, where `format('YYYY-MM-DD')` gives a string the reader reads back.
  Pages outside that range are reachable with the arrows but are not
  modelled.
- Picker.DatePicker.PressYearCell: the same 0..9999 restriction as
  OnSelectYear.
- Picker.DatePicker.PressDay: assumes react-native-calendars marks every day
  outside `minDate`..`maxDate` as `DISABLED`. That promise belongs to the
  library, not to this component.
- Picker.DatePicker.constructor: requires a truthy `initialSelectedDate` to
  be readable. The component would otherwise hold an invalid date.
- Picker.DatePicker.ToggleMonth: modelled only while the calendar is
  mounted, because the header that triggers it is part of the calendar
  view.
- Picker.DatePicker.ToggleYear: the same restriction as ToggleMonth.
- Dates.BeforeIsStrictTotalOrder: comparisons ignore time of day. Clamping to
  a bound gives that bound's day, as moment does at day granularity.
