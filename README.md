# Calendar: a verified model of the month grid, the upcoming-events list and the add form

The calendar application keeps a list of events. Each event has an id, a title, a
description, a calendar date and a category. The application has three pages, and this
project models the logic behind them:

- **Home page** (`app/page.js`). It shows a month as a grid of whole weeks. Each cell is:
  - greyed when it lies outside the month;
  - highlighted when it is the selected day or today;
  - marked with one coloured dot for its first event.

  A side panel lists the events of the selected day, or of the whole month when no day is
  selected. Events are deleted after the user confirms. Prev and Next move the month.
- **View page** (`app/view/page.jsx`). It lists the upcoming events of one year, optionally
  of one category, grouped by year and then by month.
- **Add page** (`app/add/page.jsx`). Its form edits one field per input change. On submit,
  a form without a date is rejected. Otherwise one event with a generated id is appended to
  the list, the list is written to the store, and the form is reset.

Modules:

- `Seqs` (`seqs.dfy`): the order-preserving filter that every `events.filter(...)` of the
  source is, and its facts (membership, multiplicities, subsequence, append, split).
- `Calendar` (`calendar.dfy`): proleptic Gregorian dates.
  - A day number (the ECMAScript day-from-year arithmetic) and day steps.
  - The weekday, start and end of week (weeks start on Sunday), start and end of month.
  - Date comparison, and month and year shifts with day clamping, as the date-fns functions
    the pages call behave on calendar days.
- `Events` (`events.dfy`): the event record, the events of one day, and the persistent
  store as a cell holding a sequence.
- `Home` (`home.dfy`): the grid as a function, the source's render loop as a method proved
  equal to it, cell decoration, the side panel, deletion, and month navigation.
- `ViewEvents` (`viewevents.dfy`): the filter effect, the two-level grouping (a function,
  and the reduce as a loop proved equal to it), the key bounds, the flattening, and the
  year navigation.
- `AddEvent` (`addevent.dfy`): the form record, input changes, and the submit.

Pages whose fields the source updates through React state are classes (`HomePage`,
`ViewPage`, `AddPage`), with one field per state variable. `HomePage` and `AddPage` also
hold a reference to the shared `EventStore`; `ViewPage` reads it only when it is
constructed. Inputs the pages read from the environment are parameters:
- "today" and "now";
- the answer to the confirmation dialog;
- the generated id.

## Model

| member | source | states |
|---|---|---|
| Seqs.FilterMembership | app/page.js:56 | an element is in a filtered list iff it is in the list and passes the test |
| Seqs.FilterIsSubsequence | app/view/page.jsx:32-39 | filtering keeps list order: the result is a subsequence of the input |
| Seqs.FilterCount | app/page.js:56 | filtering keeps each passing element exactly as often as it occurs, and drops every other one |
| Seqs.FilterAppend | app/view/page.jsx:71-86 | filtering a list extended by one element extends the result by that element exactly when it passes |
| Seqs.FilterSplit | app/view/page.jsx:88-94 | filtering by a disjoint union of two tests gives, as a multiset, the union of the two filters |
| Calendar.DaysInMonth | app/page.js:101 | months have 28 to 31 days, and 29 exactly for February of a leap year |
| Calendar.DaysFromCivilInjective | app/page.js:115 | two calendar days are the same day iff they have the same day number (`isSameDay`) |
| Calendar.OnOrBeforeIsDayOrder | app/page.js:110 | comparing dates with `<=` orders them as their day numbers do |
| Calendar.NextDayNumber | app/page.js:147 | `addDays(day, 1)` moves to the day with the next day number |
| Calendar.AddDaysNumber | app/page.js:147 | `AddDays` (`addDays`): adding `n` days adds `n` to the day number, for negative `n` too |
| Calendar.AddDaysAdd | app/page.js:147 | adding `a` days then `b` days is adding `a + b` days |
| Calendar.Weekday | app/page.js:102 | the weekday is a number 0 (Sunday) to 6 (Saturday) |
| Calendar.Epoch | app/page.js:102 | 1970-01-01 is day 0 and a Thursday; 2024-01-01 is a Monday |
| Calendar.WeekdayShift | app/page.js:147 | moving `n` days moves the weekday by `n` modulo 7 |
| Calendar.StartOfWeekBounds | app/page.js:102 | `StartOfWeek` (`startOfWeek`) gives a Sunday, at most six days before the date |
| Calendar.EndOfWeekBounds | app/page.js:103 | `EndOfWeek` (`endOfWeek`) gives a Saturday, at most six days after the date |
| Calendar.StartOfMonth | app/page.js:100 | `startOfMonth` is the first day of the same month |
| Calendar.EndOfMonth | app/page.js:101 | `endOfMonth` is a day of the same month whose next day is a first of the month |
| Calendar.MonthSpan | app/page.js:100-101 | start and end of month are as far apart as the month is long, and enclose the date |
| Calendar.SameMonthIffWithin | app/page.js:164-169 | a date is in the month of `d` iff it lies between `d`'s start and end of month (the panel's interval test agrees with the grid's month test) |
| Calendar.MonthAt | app/page.js:66 | every position on the month line is a valid month with that position |
| Calendar.YearMonthOf | app/view/page.jsx:74 | the month key of a date is a valid month |
| Calendar.AddMonthsShifts | app/page.js:66-75 | `AddMonths(d, n)` (`addMonths`, and `subMonths` with `-n`) moves the month by exactly `n` and keeps the day of the month, or clamps it to the last day of the target month |
| Calendar.PrevAfterNextMonth | app/page.js:66-75 | Next then Prev returns to the same month |
| Calendar.AddYearsShifts | app/view/page.jsx:49 | `AddYears(d, n)` (`addYears`, and `subYears` with `-n`) moves the year by exactly `n` and keeps the month |
| Events.EventsOnFacts | app/page.js:114-116 | `EventsOn`, the events of a day, are exactly the list's events dated that day, each as often as in the list, in list order |
| Events.EventStore.Save | app/page.js:58 | writing the store replaces its whole content with the given list |
| Events.EventStore.constructor | app/view/page.jsx:24 | the store holds the list it was created with |
| Home.CategoryColor | app/page.js:23-28 | each of the four categories has a colour; the empty category has none |
| Home.Dots | app/page.js:129-142 | a cell shows at most one dot, and exactly one when it has events, for its first event and in that event's category colour |
| Home.WeeksAround | app/page.js:102-103 | a span of whole weeks around a month of 28 to 31 days is 4 to 6 weeks long |
| Home.GridSpan | app/page.js:100-103 | the grid runs from a Sunday at most six days before the first of the month to a Saturday at most six days after its last day, 4 to 6 whole weeks |
| Home.GridRows | app/page.js:110 | the grid has 4 to 6 rows, and its rows exactly fill the days from start to end |
| Home.GridWalk | app/page.js:110 | the `day <= endDate` test holds at the start of row `k` iff `k` is a row of the grid |
| Home.Grid | app/page.js:99-157 | the grid has one row per week of the span, each of 7 cells |
| Home.GridCell | app/page.js:111-147 | cell `i` of row `r` is the cell of the day `7r + i` days after the grid start |
| Home.GridStep | app/page.js:110-155 | after row `k`, the loop's day is 7 days on, and the loop goes on iff another row is due |
| Home.RenderWeek | app/page.js:111-148 | the inner loop produces the 7 cells of the week from its day and returns the day 7 days later |
| Home.RenderCells | app/page.js:99-157 | the render loop produces exactly the grid |
| Home.GridFirstCell | app/page.js:102 | the first cell is the Sunday starting the week of the first of the month |
| Home.GridLastCell | app/page.js:103 | the last cell is the Saturday ending the week of the last of the month |
| Home.GridNextInRow | app/page.js:147 | within a row, each cell is the day after its left neighbour |
| Home.GridNextRow | app/page.js:147-154 | each row starts on the day after the previous row ends |
| Home.GridColumnWeekday | app/page.js:111 | the cells of column `i` all fall on weekday `i` |
| Home.CellOfDay | app/page.js:110-148 | every day between the grid's start and end has a cell in the grid |
| Home.CellOfDayUnique | app/page.js:110-148 | a day has at most one cell in the grid |
| Home.MonthDayInExactlyOneCell | app/page.js:110-148 | each day of the displayed month appears in exactly one cell |
| Home.CellDecoration | app/page.js:112-124 | `MakeCell`: a cell is in the month iff its day is, is selected iff it equals the selected date (never when none is selected), is today iff its day is today, and lists exactly its day's events, as often as in the list and in list order |
| Home.EventInItsCell | app/page.js:114-116 | an event dated within the grid is listed in the cell of its day |
| Home.EventOutsideGrid | app/page.js:114-116 | an event dated outside the grid is listed in no cell |
| Home.EventInAtMostOneCell | app/page.js:114-116 | no event is listed in two cells |
| Home.SelectedDateEventsContents | app/page.js:159-208 | `SelectedDateEvents`: the side panel lists exactly the events of the selected day, or of the displayed month when no day is selected, each as often as in the list and in list order |
| Home.RemoveByIdKeepsOthers | app/page.js:56 | `RemoveById`: deleting removes every event with the id and keeps every other event, as often as before and in order |
| Home.HomePage.constructor | app/page.js:31-41 | the page opens on today's month with nothing selected and the stored events loaded |
| Home.HomePage.HandleDateClick | app/page.js:43-45 | clicking a day selects it and changes nothing else |
| Home.HomePage.PrevMonth | app/page.js:66 | Prev shows the previous month |
| Home.HomePage.NextMonth | app/page.js:75 | Next shows the next month |
| Home.HomePage.HandleDeleteEvent | app/page.js:51-61 | only when confirmed, the events with the id are removed and the store is written with exactly the remaining list; otherwise nothing changes |
| ViewEvents.SelectableCategories | app/view/page.jsx:15 | the filter offers every category but `Others` |
| ViewEvents.UpcomingIsLaterDay | app/view/page.jsx:35 | an event's midnight is after now iff its day is after today |
| ViewEvents.FilterEventsContents | app/view/page.jsx:32-39 | `FilterEvents` with its test `Keep`: the list holds exactly the events of the displayed year, after today and of the selected category, as often as loaded and in loaded order |
| ViewEvents.AllCategoriesKeepsEveryCategory | app/view/page.jsx:36 | with no category selected, every category is kept |
| ViewEvents.BucketMembership | app/view/page.jsx:80-84 | a month's bucket holds exactly the events of that month |
| ViewEvents.BucketKey | app/view/page.jsx:76-82 | a month key exists iff the month has events, and then its year key exists |
| ViewEvents.MonthKeysInYear | app/view/page.jsx:76-82 | a month key lies under its own year |
| ViewEvents.KeysAppend | app/view/page.jsx:76-82 | one more event adds exactly its year and its month to the keys |
| ViewEvents.BucketAppend | app/view/page.jsx:84 | one more event is pushed onto its own month's bucket only |
| ViewEvents.MonthGroupsOtherYear | app/view/page.jsx:76-84 | one more event leaves the groups of every other year unchanged |
| ViewEvents.MonthGroupsOwnYear | app/view/page.jsx:76-84 | one more event changes only its own month's bucket within its year |
| ViewEvents.MonthGroupsOfAbsentYear | app/view/page.jsx:76-78 | a year without events has no months |
| ViewEvents.GroupedAppend | app/view/page.jsx:71-86 | `Grouped` and `Push`: grouping a list extended by one event is one reduce step (`Push`) applied to the grouping of the list |
| ViewEvents.PushSteps | app/view/page.jsx:76-85 | the three in-place updates of the reduce body perform one reduce step |
| ViewEvents.GroupByYearThenMonth | app/view/page.jsx:70-86 | the reduce loop builds exactly the year-then-month grouping of the filtered events |
| ViewEvents.GroupedPartition | app/view/page.jsx:70-86 | every filtered event is in its own month's bucket, as often as filtered, and in no other bucket |
| ViewEvents.GroupedBuckets | app/view/page.jsx:88-94 | each bucket under a year is a non-empty month of that year, holds exactly that month's events, and keeps list order (so the header count is the bucket's length) |
| ViewEvents.MonthRangeSize | app/view/page.jsx:74 | a year has exactly 12 month keys |
| ViewEvents.GroupedKeysBound | app/view/page.jsx:70-86 | the grouping has at most one year, the displayed one, and at most 12 months under it |
| ViewEvents.NothingAfterDecember | app/view/page.jsx:74 | no event falls in a month after December |
| ViewEvents.FromMonthSplit | app/view/page.jsx:91 | the events from month `m` on are those of month `m` and those from month `m + 1` on |
| ViewEvents.MissingMonthIsEmpty | app/view/page.jsx:91 | a month without a key has no events |
| ViewEvents.FlattenFrom | app/view/page.jsx:88-97 | listing the buckets from month `m` on shows each of those events exactly as often as filtered |
| ViewEvents.FlattenGrouped | app/view/page.jsx:88-97 | `Flatten`: the listed buckets together show every filtered event exactly once per occurrence, and nothing else |
| ViewEvents.ViewPage.constructor | app/view/page.jsx:18-42 | the page opens on today's year with all categories and the stored events loaded, and the filter effect's first run lists the filter of the stored events |
| ViewEvents.ViewPage.ApplyFilter | app/view/page.jsx:28-42 | the effect sets the list to the filter of the loaded events and changes nothing else |
| ViewEvents.ViewPage.HandleCategoryChange | app/view/page.jsx:44-46 | choosing a category sets it and refilters with it |
| ViewEvents.ViewPage.HandleYearChange | app/view/page.jsx:48-50 | Prev moves the year back by one and anything else forward by one, then refilters |
| ViewEvents.PrevAfterNextYear | app/view/page.jsx:49 | Next then Prev returns to the same year and month |
| ViewEvents.LeapDayRoundTrip | app/view/page.jsx:49 | from 29 February, Next then Prev lands on 28 February, not on the starting day |
| AddEvent.UpdateChangesOnlyNamedField | app/add/page.jsx:22-28 | `Update`: an input change sets the field it names and leaves every other field, the id included, as it was |
| AddEvent.AddPage.constructor | app/add/page.jsx:9-16 | the page opens on the empty form (`EmptyForm`) with the stored events loaded |
| AddEvent.AddPage.HandleInputChange | app/add/page.jsx:22-28 | an input change updates the form by that change and leaves the events alone |
| AddEvent.AddPage.HandleSubmit | app/add/page.jsx:30-46 | without a date nothing changes; otherwise exactly one event with the form's fields and the generated id is appended, the store holds the new list, and the form is `EmptyForm` again |
| AddEvent.SubmitAppendsOne | app/add/page.jsx:38-39 | `NewEvent`: the new list keeps every earlier event in place, adds exactly one at the end, and that one carries the form's title, description, date and category and the generated id |

## Left out

- Rendering is not modelled: JSX, CSS classes, formatted labels, toasts, the `Link`
  elements and the router redirect after a submit.
- Local storage and JSON are not modelled. The store is a cell holding a sequence; reading
  it on mount is the store's content, and `setItem` is `Save`. A missing or unparsable
  entry is not modelled.
- The shared events context of the home page is not modelled: `HomePage.events` is that
  state.
- `window.confirm` is the `confirmed` argument of `HandleDeleteEvent`. `new Date()` is a
  `today` or `now` argument. `Math.random` ids are the `generatedId` argument, and nothing
  is claimed about their uniqueness.
- Time zones and JavaScript date parsing are not modelled. An event's date is a calendar
  day, taken to start at midnight in the same time zone as "now". Strings that do not parse
  to a date are not modelled: the date input yields either nothing or a valid day. In the
  source, `new Date("YYYY-MM-DD")` is midnight UTC, while `isSameDay`, `isSameYear`,
  `isWithinInterval` and `format` read local time. West of UTC the grid, the side panel and
  the grouping therefore file an event under the previous day, and an event on 1 January
  under the previous year. The model files every event under its own date.
- The header's weekday labels (`renderDays`, app/page.js:83-97) are not modelled: they are
  labels only.
- The unused year start and year end (app/view/page.jsx:29-30) are not modelled.
- app/components/Navigation.jsx, app/layout.js, app/context/EventsContext.jsx,
  app/eventlist/page.jsx and the detail, update and date-prefilled add pages are not part
  of this model.
- ViewEvents.FlattenGrouped: states that the listed buckets show each event once per
  occurrence, not the order in which they appear. The page lists month labels in the order
  of `Object.keys`, which for these labels is the order the months are first met in the
  filtered list. The model walks months in calendar order. Order within a bucket is stated
  by `GroupedBuckets`.
- ViewEvents.GroupByYearThenMonth: the year and month keys are the number of the year and
  a (year, month) pair, not the strings "2025" and "March 2025". These correspond one to
  one.
- ViewEvents.ViewPage.HandleCategoryChange: requires a category the select offers. The
  select's options are the only values the browser delivers.
- ViewEvents.ViewPage.HandleYearChange: the direction is `Prev` or `Next`. The source
  treats every value other than 'prev' as next, and only ever passes 'prev' and 'next'.
- The model follows the code where a reader might expect otherwise:
  - Event ids are not unique by construction.
  - The add form accepts an event with the empty category. That event gets no dot colour
    and is listed only when the view page shows all categories.
