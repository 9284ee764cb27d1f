/** The upcoming-events page: a year at a time, the events still to come in that year,
    optionally of one category, grouped by year and then by month. */
module ViewEvents {
  import opened Calendar
  import opened Events
  import opened Seqs

  /** The categories the filter select offers after "All Categories" (the empty value). */
  const Categories: seq<Category> := [Work, Personal, Entertainment]

  /** The values the filter select can hold: the empty one or one of `Categories`. */
  predicate Selectable(c: Category) {
    c == Blank || c in Categories
  }

  /** Every category but `Others` can be chosen in the filter; "Others" events are only ever
      listed with all categories. */
  lemma SelectableCategories(c: Category)
    ensures Selectable(c) <==> c != Others
  {
  }

  // ---------------------------------------------------------------------------
  // "Now".

  const MsPerDay: int := 86400000

  /** An instant of local time: a day and the milliseconds since its midnight. */
  datatype Moment = Moment(day: Day, millis: int)

  type Instant = m: Moment | 0 <= m.millis < MsPerDay witness Moment(Date(1970, 1, 1), 0)

  /** The time value of an instant: milliseconds since 1970-01-01 00:00. */
  function TimeValue(now: Instant): int {
    DaysFromCivil(now.day) * MsPerDay + now.millis
  }

  /** An event's date denotes the midnight that starts its day. */
  function Midnight(d: Day): int {
    DaysFromCivil(d) * MsPerDay
  }

  /** date-fns isAfter(eventDate, now): the event's midnight is strictly later than now. */
  predicate IsUpcoming(d: Day, now: Instant) {
    Midnight(d) > TimeValue(now)
  }

  /** An event is still to come exactly when its day is after today: today's events have
      already started, even at the very midnight they start. */
  lemma UpcomingIsLaterDay(d: Day, now: Instant)
    ensures IsUpcoming(d, now) <==> IsAfter(d, now.day)
  {
    OnOrBeforeIsDayOrder(d, now.day);
  }

  // ---------------------------------------------------------------------------
  // The filter.

  /** Whether the filter keeps an event: in the displayed year, still to come, and of the
      selected category when one is selected (the empty category selects all). */
  predicate Keep(currentYear: Day, now: Instant, selectedCategory: Category, e: Event) {
    && SameYear(e.date, currentYear)
    && IsUpcoming(e.date, now)
    && (selectedCategory == Blank || e.category == selectedCategory)
  }

  /** The events the page lists, in list order. */
  function FilterEvents(events: seq<Event>, currentYear: Day, now: Instant, selectedCategory: Category): seq<Event> {
    Filter((e: Event) => Keep(currentYear, now, selectedCategory, e), events)
  }

  /** The page lists exactly the loaded events that are in the displayed year, after today
      and of the selected category, each as often as loaded and in loaded order. */
  lemma FilterEventsContents(events: seq<Event>, currentYear: Day, now: Instant, selectedCategory: Category)
    ensures var r := FilterEvents(events, currentYear, now, selectedCategory);
            forall e :: e in r <==>
              && e in events
              && e.date.year == currentYear.year
              && IsAfter(e.date, now.day)
              && (selectedCategory == Blank || e.category == selectedCategory)
    ensures IsSubsequence(FilterEvents(events, currentYear, now, selectedCategory), events)
    ensures var r := FilterEvents(events, currentYear, now, selectedCategory);
            forall e :: multiset(r)[e] == if Keep(currentYear, now, selectedCategory, e) then multiset(events)[e] else 0
  {
    var keep := (e: Event) => Keep(currentYear, now, selectedCategory, e);
    FilterMembership(keep, events);
    forall e: Event
      ensures IsUpcoming(e.date, now) <==> IsAfter(e.date, now.day)
    {
      UpcomingIsLaterDay(e.date, now);
    }
    forall e: Event
      ensures multiset(Filter(keep, events))[e] == if keep(e) then multiset(events)[e] else 0
    {
      FilterCount(keep, events, e);
    }
    FilterIsSubsequence(keep, events);
  }

  /** With no category selected the filter passes every category, "Others" included. */
  lemma AllCategoriesKeepsEveryCategory(events: seq<Event>, currentYear: Day, now: Instant)
    ensures var r := FilterEvents(events, currentYear, now, Blank);
            forall e :: e in r <==> e in events && e.date.year == currentYear.year && IsAfter(e.date, now.day)
  {
    FilterEventsContents(events, currentYear, now, Blank);
  }

  // ---------------------------------------------------------------------------
  // Grouping by year and then by month.

  /** The accumulator of the grouping: a year label to month labels to the events of that
      month. The labels are the year and the (year, month) they are formatted from. */
  type Groups = map<int, map<YearMonth, seq<Event>>>

  /** The events of month `ym`, in list order. */
  function Bucket(s: seq<Event>, ym: YearMonth): seq<Event> {
    Filter((e: Event) => YearMonthOf(e.date) == ym, s)
  }

  /** A month's bucket holds exactly the events of that month. */
  lemma BucketMembership(s: seq<Event>, ym: YearMonth)
    ensures forall e :: e in Bucket(s, ym) <==> e in s && YearMonthOf(e.date) == ym
  {
    FilterMembership((e: Event) => YearMonthOf(e.date) == ym, s);
  }

  /** The years of the events of `s`. */
  function YearKeys(s: seq<Event>): set<int> {
    set e | e in s :: e.date.year
  }

  /** The months of the events of `s` that fall in year `y`. */
  function MonthKeys(s: seq<Event>, y: int): set<YearMonth> {
    set e | e in s && e.date.year == y :: YearMonthOf(e.date)
  }

  /** What the grouping builds from `s`: a key for each year that has events, under it a key
      for each month that has events, and under that the month's events. */
  function Grouped(s: seq<Event>): Groups {
    map y | y in YearKeys(s) :: MonthGroups(s, y)
  }

  /** The month buckets of year `y`. */
  function MonthGroups(s: seq<Event>, y: int): map<YearMonth, seq<Event>> {
    map ym | ym in MonthKeys(s, y) :: Bucket(s, ym)
  }

  /** One step of the reduce: the event's year gets a group if it has none, the event's
      month gets a bucket if it has none, and the event is pushed onto that bucket. */
  function Push(acc: Groups, e: Event): Groups {
    var y, ym := e.date.year, YearMonthOf(e.date);
    var months := if y in acc then acc[y] else map[];
    var bucket := if ym in months then months[ym] else [];
    acc[y := months[ym := bucket + [e]]]
  }

  /** A month is a key under its year exactly when it has events, and a year is a key
      exactly when one of its months is. */
  lemma BucketKey(s: seq<Event>, ym: YearMonth)
    ensures Bucket(s, ym) != [] <==> ym in MonthKeys(s, ym.year)
    ensures ym in MonthKeys(s, ym.year) ==> ym.year in YearKeys(s)
  {
    BucketMembership(s, ym);
    if Bucket(s, ym) != [] {
      var x := Bucket(s, ym)[0];
      assert x in Bucket(s, ym);
      assert YearMonthOf(x.date) in MonthKeys(s, ym.year);
    }
    if ym in MonthKeys(s, ym.year) {
      var x :| x in s && x.date.year == ym.year && YearMonthOf(x.date) == ym;
      assert x in Bucket(s, ym);
      assert x.date.year in YearKeys(s);
    }
  }

  /** The months filed under year `y` are months of year `y`. */
  lemma MonthKeysInYear(s: seq<Event>, y: int, ym: YearMonth)
    requires ym in MonthKeys(s, y)
    ensures ym.year == y && y in YearKeys(s)
  {
    var x :| x in s && x.date.year == y && YearMonthOf(x.date) == ym;
    assert x.date.year in YearKeys(s);
  }

  lemma KeysAppend(s: seq<Event>, e: Event, y: int)
    ensures YearKeys(s + [e]) == YearKeys(s) + {e.date.year}
    ensures MonthKeys(s + [e], y) == MonthKeys(s, y) + (if e.date.year == y then {YearMonthOf(e.date)} else {})
  {
    assert forall x :: x in s + [e] <==> x in s || x == e;
  }

  /** One more event adds one more element at the end of its own month's bucket and
      changes no other bucket. */
  lemma BucketAppend(s: seq<Event>, e: Event, ym: YearMonth)
    ensures Bucket(s + [e], ym) == Bucket(s, ym) + (if YearMonthOf(e.date) == ym then [e] else [])
  {
    FilterAppend((x: Event) => YearMonthOf(x.date) == ym, s, e);
  }

  /** One more event leaves the months of every other year as they were. */
  lemma MonthGroupsOtherYear(s: seq<Event>, e: Event, y: int)
    requires y != e.date.year
    ensures MonthGroups(s + [e], y) == MonthGroups(s, y)
  {
    KeysAppend(s, e, y);
    forall ym | ym in MonthKeys(s, y)
      ensures Bucket(s + [e], ym) == Bucket(s, ym)
    {
      BucketAppend(s, e, ym);
      MonthKeysInYear(s, y, ym);
    }
  }

  /** One more event extends its own month's bucket by itself, creating the bucket when
      the month had none. */
  lemma MonthGroupsOwnYear(s: seq<Event>, e: Event)
    ensures var y, ym := e.date.year, YearMonthOf(e.date);
            MonthGroups(s + [e], y) == MonthGroups(s, y)[ym := Bucket(s, ym) + [e]]
  {
    var y, ym := e.date.year, YearMonthOf(e.date);
    KeysAppend(s, e, y);
    forall ym' | ym' in MonthKeys(s + [e], y)
      ensures Bucket(s + [e], ym') == MonthGroups(s, y)[ym := Bucket(s, ym) + [e]][ym']
    {
      BucketAppend(s, e, ym');
    }
  }

  /** A year without events has no month buckets. */
  lemma MonthGroupsOfAbsentYear(s: seq<Event>, y: int)
    requires y !in YearKeys(s)
    ensures MonthGroups(s, y) == map[]
  {
    forall ym | ym in MonthKeys(s, y)
      ensures false
    {
      MonthKeysInYear(s, y, ym);
    }
  }

  /** Pushing one more event onto the groups of `s` gives the groups of `s + [e]`. */
  lemma GroupedAppend(s: seq<Event>, e: Event)
    ensures Grouped(s + [e]) == Push(Grouped(s), e)
  {
    var y, ym := e.date.year, YearMonthOf(e.date);
    var g, g' := Grouped(s), Grouped(s + [e]);
    KeysAppend(s, e, y);
    var months := if y in g then g[y] else map[];
    if y !in g {
      MonthGroupsOfAbsentYear(s, y);
    }
    assert months == MonthGroups(s, y);
    BucketKey(s, ym);
    assert (if ym in months then months[ym] else []) == Bucket(s, ym);
    MonthGroupsOwnYear(s, e);
    forall y' | y' in g'
      ensures g'[y'] == Push(g, e)[y']
    {
      if y' != y {
        MonthGroupsOtherYear(s, e, y');
      }
    }
  }

  /** The three statements of one step of the reduce perform `Push`. */
  lemma PushSteps(before: Groups, e: Event, a1: Groups, a2: Groups, a3: Groups)
    requires var y := e.date.year;
             a1 == if y in before then before else before[y := map[]]
    requires var y, ym := e.date.year, YearMonthOf(e.date);
             a2 == if ym in a1[y] then a1 else a1[y := a1[y][ym := []]]
    requires var y, ym := e.date.year, YearMonthOf(e.date);
             a3 == a2[y := a2[y][ym := a2[y][ym] + [e]]]
    ensures a3 == Push(before, e)
  {
    var y, ym := e.date.year, YearMonthOf(e.date);
    var months := if y in before then before[y] else map[];
    var bucket := if ym in months then months[ym] else [];
    assert a2[y][ym] == bucket;
    assert a3[y] == months[ym := bucket + [e]];
  }

  /** renderEvents' reduce: walks the filtered events in order, creating a year group and a
      month bucket the first time each is met, and pushing each event onto its bucket. */
  method GroupByYearThenMonth(filtered: seq<Event>) returns (acc: Groups)
    ensures acc == Grouped(filtered)
  {
    acc := map[];
    for k := 0 to |filtered|
      invariant acc == Grouped(filtered[..k])
    {
      var e := filtered[k];
      var year, month := e.date.year, YearMonthOf(e.date);
      ghost var a0 := acc;
      if year !in acc {
        acc := acc[year := map[]];
      }
      ghost var a1 := acc;
      if month !in acc[year] {
        acc := acc[year := acc[year][month := []]];
      }
      ghost var a2 := acc;
      acc := acc[year := acc[year][month := acc[year][month] + [e]]];
      PushSteps(a0, e, a1, a2, acc);
      GroupedAppend(filtered[..k], e);
      assert filtered[..k + 1] == filtered[..k] + [e];
    }
    assert filtered[..|filtered|] == filtered;
  }

  /** Grouping is a partition: every event sits in the bucket of its own year and month,
      as often as in the list, and in no other bucket; each bucket keeps list order. */
  lemma GroupedPartition(s: seq<Event>, e: Event)
    requires e in s
    ensures var g, y, ym := Grouped(s), e.date.year, YearMonthOf(e.date);
            y in g && ym in g[y] && multiset(g[y][ym])[e] == multiset(s)[e]
    ensures forall y, ym :: y in Grouped(s) && ym in Grouped(s)[y] ==>
              (e in Grouped(s)[y][ym] <==> ym == YearMonthOf(e.date))
  {
    var y, ym := e.date.year, YearMonthOf(e.date);
    assert y in YearKeys(s);
    assert ym in MonthKeys(s, y);
    FilterCount((x: Event) => YearMonthOf(x.date) == ym, s, e);
    forall ym': YearMonth
      ensures forall x :: x in Bucket(s, ym') <==> x in s && YearMonthOf(x.date) == ym'
    {
      BucketMembership(s, ym');
    }
  }

  /** Every bucket is an order-preserving sublist of the list, filed under the year of its
      month and holding only events of that month. */
  lemma GroupedBuckets(s: seq<Event>, y: int, ym: YearMonth)
    requires var g := Grouped(s); y in g && ym in g[y]
    ensures var b := Grouped(s)[y][ym];
            && ym.year == y && b != []
            && IsSubsequence(b, s)
            && forall e :: e in b <==> e in s && YearMonthOf(e.date) == ym
  {
    var b := Bucket(s, ym);
    BucketMembership(s, ym);
    FilterIsSubsequence((x: Event) => YearMonthOf(x.date) == ym, s);
    var e :| e in s && e.date.year == y && YearMonthOf(e.date) == ym;
    assert e in b;
  }

  /** The twelve months of year `y`. */
  function MonthsOfYear(y: int): set<YearMonth> {
    set m | 1 <= m <= 12 :: YearMonth(y, m)
  }

  lemma {:induction false} MonthRangeSize(y: int, n: int)
    requires 0 <= n <= 12
    ensures |set m | 1 <= m <= n :: YearMonth(y, m)| == n
    decreases n
  {
    if n > 0 {
      MonthRangeSize(y, n - 1);
      var prev := set m | 1 <= m <= n - 1 :: YearMonth(y, m);
      assert (set m | 1 <= m <= n :: YearMonth(y, m)) == prev + {YearMonth(y, n)};
      assert YearMonth(y, n) !in prev;
    }
  }

  lemma {:induction false} SubsetSize<T>(a: set<T>, b: set<T>)
    requires a <= b
    ensures |a| <= |b|
    decreases |a|
  {
    if a != {} {
      var x :| x in a;
      SubsetSize(a - {x}, b - {x});
    }
  }

  /** The listed events all fall in the displayed year, so the grouping has at most one
      year and at most the twelve months of that year. */
  lemma GroupedKeysBound(events: seq<Event>, currentYear: Day, now: Instant, selectedCategory: Category)
    ensures var g := Grouped(FilterEvents(events, currentYear, now, selectedCategory));
            g.Keys <= {currentYear.year} && |g.Keys| <= 1
    ensures var g := Grouped(FilterEvents(events, currentYear, now, selectedCategory));
            forall y :: y in g ==> g[y].Keys <= MonthsOfYear(y) && |g[y].Keys| <= 12
  {
    var s := FilterEvents(events, currentYear, now, selectedCategory);
    var g := Grouped(s);
    FilterEventsContents(events, currentYear, now, selectedCategory);
    SubsetSize(g.Keys, {currentYear.year});
    forall y | y in g
      ensures g[y].Keys <= MonthsOfYear(y) && |g[y].Keys| <= 12
    {
      assert g[y].Keys <= MonthsOfYear(y) by {
        forall ym | ym in g[y] ensures ym in MonthsOfYear(y) {
          var e :| e in s && e.date.year == y && YearMonthOf(e.date) == ym;
        }
      }
      MonthRangeSize(y, 12);
      SubsetSize(g[y].Keys, MonthsOfYear(y));
    }
  }

  /** The buckets of year `y` from month `m` on, in month order (a month without events
      contributes nothing). */
  function Flatten(g: Groups, y: int, m: int): seq<Event>
    requires 1 <= m <= 13
    decreases 13 - m
  {
    if m == 13 then []
    else
      var ym := YearMonth(y, m);
      (if y in g && ym in g[y] then g[y][ym] else []) + Flatten(g, y, m + 1)
  }

  /** The events of year `y` from month `m` on, in list order. */
  function FromMonth(s: seq<Event>, y: int, m: int): seq<Event> {
    Filter((e: Event) => e.date.year == y && e.date.month >= m, s)
  }

  /** No event falls after December. */
  lemma NothingAfterDecember(s: seq<Event>, y: int)
    ensures FromMonth(s, y, 13) == []
  {
    FilterNone((e: Event) => e.date.year == y && e.date.month >= 13, s);
  }

  /** The events of year `y` from month `m` on are those of month `m` and those from month
      `m + 1` on. */
  lemma FromMonthSplit(s: seq<Event>, y: int, m: int)
    ensures multiset(FromMonth(s, y, m)) == multiset(Bucket(s, YearMonth(y, m))) + multiset(FromMonth(s, y, m + 1))
  {
    FilterSplit((e: Event) => YearMonthOf(e.date) == YearMonth(y, m),
                (e: Event) => e.date.year == y && e.date.month >= m + 1,
                (e: Event) => e.date.year == y && e.date.month >= m, s);
  }

  /** A month that is not a key has an empty bucket. */
  lemma MissingMonthIsEmpty(s: seq<Event>, y: int, m: int)
    requires !(y in Grouped(s) && YearMonth(y, m) in Grouped(s)[y])
    ensures Bucket(s, YearMonth(y, m)) == []
  {
    BucketKey(s, YearMonth(y, m));
  }

  lemma {:induction false} FlattenFrom(s: seq<Event>, y: int, m: int)
    requires 1 <= m <= 13
    ensures multiset(Flatten(Grouped(s), y, m)) == multiset(FromMonth(s, y, m))
    decreases 13 - m
  {
    if m == 13 {
      NothingAfterDecember(s, y);
    } else {
      FlattenFrom(s, y, m + 1);
      FromMonthSplit(s, y, m);
      if !(y in Grouped(s) && YearMonth(y, m) in Grouped(s)[y]) {
        MissingMonthIsEmpty(s, y, m);
      }
    }
  }


  /** Reading the buckets of the displayed year month by month gives back the listed events,
      each exactly as often as listed, so the month headers' counts add up to the number
      of listed events. */
  lemma FlattenGrouped(events: seq<Event>, currentYear: Day, now: Instant, selectedCategory: Category)
    ensures var s := FilterEvents(events, currentYear, now, selectedCategory);
            multiset(Flatten(Grouped(s), currentYear.year, 1)) == multiset(s)
    ensures var s := FilterEvents(events, currentYear, now, selectedCategory);
            |Flatten(Grouped(s), currentYear.year, 1)| == |s|
  {
    var s := FilterEvents(events, currentYear, now, selectedCategory);
    var y := currentYear.year;
    FlattenFrom(s, y, 1);
    FilterEventsContents(events, currentYear, now, selectedCategory);
    FilterAll((e: Event) => e.date.year == y && e.date.month >= 1, s);
    assert FromMonth(s, y, 1) == s;
    assert |multiset(Flatten(Grouped(s), y, 1))| == |multiset(s)|;
  }

  // ---------------------------------------------------------------------------
  // The page's state.

  datatype Direction = Prev | Next

  class ViewPage {
    var events: seq<Event>
    /** The filter select's value; the empty category means all categories. */
    var selectedCategory: Category
    /** A day of the displayed year; starts as today. */
    var currentYear: Day
    var filteredEvents: seq<Event>

    /** Mounting loads the stored events, with no category selected and today's year shown;
        the filter effect then runs on them. */
    constructor (today: Day, now: Instant, store: EventStore)
      ensures events == store.saved && selectedCategory == Blank && currentYear == today
      ensures filteredEvents == FilterEvents(store.saved, today, now, Blank)
    {
      events := store.saved;
      selectedCategory := Blank;
      currentYear := today;
      filteredEvents := FilterEvents(store.saved, today, now, Blank);
    }

    /** The effect that runs whenever the events, the category or the year change: it
        recomputes the listed events against `now`. */
    method ApplyFilter(now: Instant)
      modifies this
      ensures filteredEvents == FilterEvents(events, currentYear, now, selectedCategory)
      ensures events == old(events) && selectedCategory == old(selectedCategory) && currentYear == old(currentYear)
    {
      filteredEvents := FilterEvents(events, currentYear, now, selectedCategory);
    }

    /** Choosing a category in the select, followed by the filter effect. */
    method HandleCategoryChange(category: Category, now: Instant)
      requires Selectable(category)
      modifies this
      ensures selectedCategory == category
      ensures filteredEvents == FilterEvents(events, currentYear, now, category)
      ensures events == old(events) && currentYear == old(currentYear)
    {
      selectedCategory := category;
      ApplyFilter(now);
    }

    /** The Prev and Next buttons: a year earlier or later, followed by the filter effect. */
    method HandleYearChange(direction: Direction, now: Instant)
      modifies this
      ensures currentYear == AddYears(old(currentYear), if direction == Prev then -1 else 1)
      ensures currentYear.year == old(currentYear).year + (if direction == Prev then -1 else 1)
      ensures filteredEvents == FilterEvents(events, currentYear, now, selectedCategory)
      ensures events == old(events) && selectedCategory == old(selectedCategory)
    {
      var n := if direction == Prev then -1 else 1;
      AddYearsShifts(currentYear, n);
      currentYear := AddYears(currentYear, n);
      ApplyFilter(now);
    }
  }

  /** Prev after Next shows the same year again, in the same month. */
  lemma PrevAfterNextYear(d: Day)
    ensures AddYears(AddYears(d, 1), -1).year == d.year
    ensures AddYears(AddYears(d, 1), -1).month == d.month
  {
    AddYearsShifts(d, 1);
    AddYearsShifts(AddYears(d, 1), -1);
  }

  /** The day itself need not come back: from 29 February 2024, Next lands on 28 February
      2025 and Prev then stays on the 28th. */
  lemma LeapDayRoundTrip()
    ensures AddYears(Date(2024, 2, 29), 1) == Date(2025, 2, 28)
    ensures AddYears(AddYears(Date(2024, 2, 29), 1), -1) == Date(2024, 2, 28)
  {
    assert MonthAt(MonthIndex(YearMonth(2024, 2)) + 12) == YearMonth(2025, 2);
    assert MonthAt(MonthIndex(YearMonth(2025, 2)) - 12) == YearMonth(2024, 2);
  }
}
