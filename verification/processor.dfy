/**
 * `ContributionProcessor` (src/processor.rs): lays out an empty calendar of
 * 7-day weeks from a start instant up to an end instant, and folds a
 * provider's events into it, one cell per whole day since the start.
 */
module Processor {
  import opened Wrappers
  import opened Types
  import opened Time

  // ------------------------------------------------------------- events

  /** Earliest instant `OffsetDateTime::from_unix_timestamp` accepts (-9999-01-01T00:00:00Z). */
  const MIN_UNIX_TIMESTAMP: int := -377705116800
  /** Latest instant `OffsetDateTime::from_unix_timestamp` accepts (9999-12-31T23:59:59Z). */
  const MAX_UNIX_TIMESTAMP: int := 253402300799

  /** The error `from_unix_timestamp` reports, as wrapped by the Gitea and Codeberg events. */
  const TIMESTAMP_RANGE_ERROR: ProviderError :=
    DateError("Failed to parse date: timestamp must be in the range -377705116800..=253402300799")

  /**
   * The `Event` capability, as a sum over the providers' event records. The
   * GitHub and GitLab records hold what the date parser made of their text
   * (a day number for GitHub's ISO 8601 date, an instant for GitLab's RFC
   * 3339 time); Gitea and Codeberg hold a Unix timestamp.
   */
  datatype Event =
    | GitHubDay(parsedDate: Result<int, ProviderError>, contributionCount: int)
    | GitLabEvent(parsedCreatedAt: Result<int, ProviderError>)
    | GiteaEvent(timestamp: int, contributions: int)
    | CodebergEvent(timestamp: int, contributions: int)
  {
    /** `Event::timestamp`: the instant of the event, or the provider's date error. */
    function Timestamp(): (r: Result<int, ProviderError>)
      ensures GitHubDay? ==> (r.Success? <==> parsedDate.Success?)
      ensures GitHubDay? && r.Success? ==> r.value % 86400 == 0 && DayNumber(r.value) == parsedDate.value
      ensures (GiteaEvent? || CodebergEvent?) ==>
        (r.Success? <==> MIN_UNIX_TIMESTAMP <= timestamp <= MAX_UNIX_TIMESTAMP)
      ensures (GiteaEvent? || CodebergEvent?) && r.Success? ==> r.value == timestamp
      ensures GitLabEvent? ==> r == parsedCreatedAt
      ensures GitHubDay? && parsedDate.Failure? ==> r == Failure(parsedDate.error)
      ensures (GiteaEvent? || CodebergEvent?) && r.Failure? ==> r == Failure(TIMESTAMP_RANGE_ERROR)
    {
      match this
      case GitHubDay(date, _) =>
        (match date
         case Success(day) =>
           DayNumberShift(0, day);
           Success(day * 86400)
         case Failure(e) => Failure(e))
      case GitLabEvent(createdAt) => createdAt
      case GiteaEvent(t, _) =>
        if MIN_UNIX_TIMESTAMP <= t <= MAX_UNIX_TIMESTAMP then Success(t) else Failure(TIMESTAMP_RANGE_ERROR)
      case CodebergEvent(t, _) =>
        if MIN_UNIX_TIMESTAMP <= t <= MAX_UNIX_TIMESTAMP then Success(t) else Failure(TIMESTAMP_RANGE_ERROR)
    }

    /** `Event::contributions`: the weight the provider gives the event. */
    function Contributions(): (w: int)
      ensures GitLabEvent? ==> w == 1
      ensures GitHubDay? ==> w == contributionCount
      ensures (GiteaEvent? || CodebergEvent?) ==> w == contributions
    {
      match this
      case GitHubDay(_, count) => count
      case GitLabEvent(_) => 1
      case GiteaEvent(_, c) => c
      case CodebergEvent(_, c) => c
    }
  }

  /** The range constants are midnight of -9999-01-01 and the last second of 9999-12-31. */
  lemma UnixTimestampRange()
    ensures MIN_UNIX_TIMESTAMP == DaysFromCivil(CivilDate(-9999, 1, 1)) * 86400
    ensures MAX_UNIX_TIMESTAMP == (DaysFromCivil(CivilDate(9999, 12, 31)) + 1) * 86400 - 1
  {
  }

  // ----------------------------------------------------------- calendar

  /**
   * A processor for the window `[startDate, endDate)` of instants.
   * `dateText` is the "Y-MM-DD" text the calendar stores for an instant,
   * `format!("{}-{:02}-{:02}", ...)` of the year, month and day the `time`
   * crate reports; `Time.FormatDate` is its model.
   */
  datatype ContributionProcessor = ContributionProcessor(startDate: int, endDate: int, dateText: int -> string)

  /** `ContributionProcessor::new`: the window, with dates written as the `time` crate does. */
  function New(startDate: int, endDate: int): (p: ContributionProcessor)
    ensures p.startDate == startDate && p.endDate == endDate
    ensures p.dateText == FormatDate
  {
    ContributionProcessor(startDate, endDate, FormatDate)
  }

  /** The instant of day `i` of week `w`: `7 * w + i` whole days after the start. */
  function DayInstant(p: ContributionProcessor, w: int, i: int): int
  {
    p.startDate + (7 * w + i) * 86400
  }

  /** A fresh cell for the instant `t`, in week `w`: no contributions, the date as "Y-MM-DD". */
  function EmptyDay(p: ContributionProcessor, t: int, w: int): ContributionDay
  {
    ContributionDay(0, p.dateText(t), w, WeekdayFromSunday(t))
  }

  /** The number of whole weeks needed to reach the end: the ceiling of (end - start) / 7 days. */
  function WeekCount(p: ContributionProcessor): nat
  {
    if p.startDate < p.endDate then (p.endDate - p.startDate + 604800 - 1) / 604800 else 0
  }

  predicate InCalendar(calendar: Calendar, w: int, i: int)
  {
    0 <= w < |calendar| && 0 <= i < |calendar[w].1|
  }

  /** The first `k` days of week `w` of a fresh calendar. */
  function FreshDays(p: ContributionProcessor, w: int, k: nat): (days: seq<ContributionDay>)
    ensures |days| == k
  {
    if k == 0 then [] else FreshDays(p, w, k - 1) + [EmptyDay(p, DayInstant(p, w, k - 1), w)]
  }

  /** Week `w` of a fresh calendar: its number and seven empty days from day `7 * w`. */
  function FreshWeek(p: ContributionProcessor, w: int): Week
  {
    (w, FreshDays(p, w, 7))
  }

  /** Day `i` of the first `k` fresh days is the empty day at instant `DayInstant(p, w, i)`. */
  lemma {:induction false} FreshDaysAt(p: ContributionProcessor, w: int, k: nat, i: int)
    requires 0 <= i < k
    ensures FreshDays(p, w, k)[i] == EmptyDay(p, DayInstant(p, w, i), w)
  {
    if i < k - 1 {
      FreshDaysAt(p, w, k - 1, i);
    }
  }

  /** A fresh week holds week number `w` and, on day `i`, an empty day for that day's instant. */
  lemma FreshWeekDays(p: ContributionProcessor, w: int)
    ensures FreshWeek(p, w).0 == w && |FreshWeek(p, w).1| == 7
    ensures forall i :: 0 <= i < 7 ==> FreshWeek(p, w).1[i] == EmptyDay(p, DayInstant(p, w, i), w)
  {
    forall i | 0 <= i < 7
      ensures FreshWeek(p, w).1[i] == EmptyDay(p, DayInstant(p, w, i), w)
    {
      FreshDaysAt(p, w, 7, i);
    }
  }

  /** The calendar `initialize_contribution_calendar` builds. */
  ghost predicate IsFreshCalendar(p: ContributionProcessor, calendar: Calendar)
  {
    |calendar| == WeekCount(p) && forall w :: 0 <= w < |calendar| ==> calendar[w] == FreshWeek(p, w)
  }

  /**
   * `initialize_contribution_calendar`: whole weeks of seven consecutive
   * days, numbered 0, 1, 2, ..., from the start while the next week would
   * still begin before the end; the last week is not cut at the end.
   */
  method InitializeContributionCalendar(p: ContributionProcessor) returns (calendar: Calendar)
    ensures |calendar| == WeekCount(p)
    ensures forall w :: 0 <= w < |calendar| ==> calendar[w] == FreshWeek(p, w)
  {
    calendar := [];
    var currentDate := p.startDate;
    var weekNumber := 0;
    while currentDate < p.endDate
      invariant weekNumber == |calendar|
      invariant currentDate == DayInstant(p, weekNumber, 0)
      invariant weekNumber == 0 || p.startDate + (weekNumber - 1) * 604800 < p.endDate
      invariant forall w :: 0 <= w < |calendar| ==> calendar[w] == FreshWeek(p, w)
      decreases p.endDate - currentDate
    {
      var weekDays := [];
      for k := 0 to 7
        invariant weekDays == FreshDays(p, weekNumber, k)
        invariant currentDate == DayInstant(p, weekNumber, k)
      {
        weekDays := weekDays + [ContributionDay(0, p.dateText(currentDate), weekNumber, WeekdayFromSunday(currentDate))];
        currentDate := currentDate + 86400;
      }
      calendar := calendar + [(weekNumber, weekDays)];
      weekNumber := weekNumber + 1;
    }
    WeekCountIs(p, weekNumber);
  }

  /** The number of weeks the loop stops at is the closed form `WeekCount`. */
  lemma WeekCountIs(p: ContributionProcessor, n: int)
    requires n >= 0 && p.startDate + n * 604800 >= p.endDate
    requires n == 0 || p.startDate + (n - 1) * 604800 < p.endDate
    ensures n == WeekCount(p)
  {
    if p.startDate < p.endDate {
      DivIs(p.endDate - p.startDate + 604800 - 1, 604800, n);
    }
  }

  /**
   * The weeks cover the window without gaps: the first day is the start,
   * and the last day begins no earlier than one day before the end and less
   * than six days after it.
   */
  lemma CalendarCoversWindow(p: ContributionProcessor)
    requires p.startDate < p.endDate
    ensures WeekCount(p) >= 1
    ensures DayInstant(p, 0, 0) == p.startDate
    ensures p.endDate - 86400 <= DayInstant(p, WeekCount(p) - 1, 6) < p.endDate + 6 * 86400
  {
    var n := WeekCount(p);
    var d := p.endDate - p.startDate + 604800 - 1;
    assert d == 604800 * n + d % 604800;
  }

  /** Started on a Sunday, day `i` of every week falls on weekday `i`. */
  lemma SundayStartWeekdays(p: ContributionProcessor, w: int, i: int)
    requires WeekdayFromSunday(p.startDate) == 0
    requires 0 <= i < 7
    ensures EmptyDay(p, DayInstant(p, w, i), w).weekday == i
  {
    WeekdayShift(p.startDate, 7 * w + i);
    Mod7Add(7 * w, i);
    assert (7 * w) % 7 == 0;
  }

  /**
   * A processor made by `New` gives every day of its calendar its own date:
   * two different days of the grid never carry the same "Y-MM-DD" text.
   */
  lemma NewDatesDistinct(startDate: int, endDate: int, w1: int, i1: int, w2: int, i2: int)
    requires 0 <= i1 < 7 && 0 <= i2 < 7 && (w1, i1) != (w2, i2)
    ensures var p := New(startDate, endDate);
      EmptyDay(p, DayInstant(p, w1, i1), w1).date != EmptyDay(p, DayInstant(p, w2, i2), w2).date
  {
    var p := New(startDate, endDate);
    DayNumberShift(startDate, 7 * w1 + i1);
    DayNumberShift(startDate, 7 * w2 + i2);
    DistinctDayDates(DayInstant(p, w1, i1), DayInstant(p, w2, i2));
  }

  // ------------------------------------------------------------ folding

  function Max(a: int, b: int): int
  {
    if a >= b then a else b
  }

  predicate InWindow(p: ContributionProcessor, t: int)
  {
    p.startDate <= t < p.endDate
  }

  /** The week and day index of an instant: whole days since the start, split by 7. */
  function CellOf(p: ContributionProcessor, t: int): (int, int)
    requires p.startDate <= t
  {
    var days := WholeDays(t - p.startDate);
    (days / 7, days % 7)
  }

  /** An instant lands in cell `(w, i)` exactly when it lies within that cell's day. */
  lemma CellOfDay(p: ContributionProcessor, t: int, w: int, i: int)
    requires p.startDate <= t && 0 <= i < 7
    ensures CellOf(p, t) == (w, i) <==> DayInstant(p, w, i) <= t < DayInstant(p, w, i) + 86400
  {
    var days := WholeDays(t - p.startDate);
    if DayInstant(p, w, i) <= t < DayInstant(p, w, i) + 86400 {
      DivIs(t - p.startDate, 86400, 7 * w + i);
      DivIs(days, 7, w);
    }
  }

  /** Every instant of the window lands inside a fresh calendar. */
  lemma WindowFitsCalendar(p: ContributionProcessor, t: int)
    requires InWindow(p, t)
    ensures 0 <= CellOf(p, t).0 < WeekCount(p) && 0 <= CellOf(p, t).1 < 7
  {
    var days := WholeDays(t - p.startDate);
    var n := WeekCount(p);
    var d := p.endDate - p.startDate + 604800 - 1;
    assert d == 604800 * n + d % 604800;
    assert days == 7 * (days / 7) + days % 7;
  }

  /** One event with resolved instant `t` and weight `weight`, folded into `(calendar, max)`. */
  function Apply(p: ContributionProcessor, calendar: Calendar, max: int, t: int, weight: int): (Calendar, int)
  {
    if !InWindow(p, t) then (calendar, max)
    else
      var (w, i) := CellOf(p, t);
      if !InCalendar(calendar, w, i) then (calendar, max)
      else
        var day := calendar[w].1[i];
        var count := day.contributionCount + weight;
        (calendar[w := (calendar[w].0, calendar[w].1[i := day.(contributionCount := count)])], Max(max, count))
  }

  /** Events folded in order from `(calendar, max)`; the first date error ends the fold. */
  function Fold(p: ContributionProcessor, events: seq<Event>, calendar: Calendar, max: int)
    : Result<(Calendar, int), ProviderError>
  {
    if events == [] then Success((calendar, max))
    else
      match events[0].Timestamp()
      case Failure(e) => Failure(e)
      case Success(t) =>
        var (calendar', max') := Apply(p, calendar, max, t, events[0].Contributions());
        Fold(p, events[1..], calendar', max')
  }

  /**
   * `process_events`: folds the events into the calendar in order, starting
   * from a running maximum of 0.
   */
  method ProcessEvents(p: ContributionProcessor, events: seq<Event>, calendar: Calendar)
    returns (r: Result<(Calendar, int), ProviderError>)
    ensures r == Fold(p, events, calendar, 0)
  {
    var cal := calendar;
    var maxContributions := 0;
    for k := 0 to |events|
      invariant Fold(p, events[k..], cal, maxContributions) == Fold(p, events, calendar, 0)
    {
      assert events[k..][1..] == events[k + 1..];
      var event := events[k];
      var timestamp := event.Timestamp();
      if timestamp.Failure? {
        return Failure(timestamp.error);
      }
      var eventDate := timestamp.value;
      if eventDate < p.startDate || eventDate >= p.endDate {
        continue;
      }
      var daysSinceStart := WholeDays(eventDate - p.startDate);
      var weekNumber := daysSinceStart / 7;
      var dayNumber := daysSinceStart % 7;
      if weekNumber >= |cal| || dayNumber >= |cal[weekNumber].1| {
        continue;
      }
      var contribution := cal[weekNumber].1[dayNumber];
      contribution := contribution.(contributionCount := contribution.contributionCount + event.Contributions());
      cal := cal[weekNumber := (cal[weekNumber].0, cal[weekNumber].1[dayNumber := contribution])];
      maxContributions := Max(maxContributions, contribution.contributionCount);
    }
    assert events[|events|..] == [];
    return Success((cal, maxContributions));
  }

  // ------------------------------------------------------- fold properties

  /** The first event whose timestamp fails decides the error; otherwise the fold succeeds. */
  lemma {:induction false} FoldFailsAtFirstBadTimestamp(p: ContributionProcessor, events: seq<Event>, calendar: Calendar, max: int)
    ensures Fold(p, events, calendar, max).Failure? <==> exists k :: 0 <= k < |events| && events[k].Timestamp().Failure?
    ensures Fold(p, events, calendar, max).Failure? ==>
      exists k :: 0 <= k < |events| && events[k].Timestamp().Failure?
        && Fold(p, events, calendar, max).error == events[k].Timestamp().error
        && forall j :: 0 <= j < k ==> events[j].Timestamp().Success?
  {
    if events != [] {
      match events[0].Timestamp()
      case Failure(e) =>
      case Success(t) =>
        var (calendar', max') := Apply(p, calendar, max, t, events[0].Contributions());
        FoldFailsAtFirstBadTimestamp(p, events[1..], calendar', max');
        var r := Fold(p, events[1..], calendar', max');
        if r.Failure? {
          var k :| 0 <= k < |events[1..]| && events[1..][k].Timestamp().Failure? && r.error == events[1..][k].Timestamp().error
            && forall j :: 0 <= j < k ==> events[1..][j].Timestamp().Success?;
          assert events[k + 1] == events[1..][k];
          assert forall j :: 0 <= j < k + 1 ==> events[j].Timestamp().Success? by {
            forall j | 0 <= j < k + 1 ensures events[j].Timestamp().Success? {
              if j > 0 { assert events[j] == events[1..][j - 1]; }
            }
          }
        } else {
          forall k | 0 <= k < |events| ensures events[k].Timestamp().Success? {
            if k > 0 { assert events[k] == events[1..][k - 1]; }
          }
        }
    }
  }

  /** Two calendars with the same weeks, days, dates, week numbers and weekdays. */
  ghost predicate SameShape(a: Calendar, b: Calendar)
  {
    && |a| == |b|
    && (forall w :: 0 <= w < |a| ==> a[w].0 == b[w].0 && |a[w].1| == |b[w].1|)
    && (forall w, i :: InCalendar(a, w, i) ==>
          a[w].1[i].date == b[w].1[i].date && a[w].1[i].weeknumber == b[w].1[i].weeknumber
          && a[w].1[i].weekday == b[w].1[i].weekday)
  }

  /** The weight an event adds to cell `(w, i)`: its own if it lands there, 0 otherwise. */
  function WeightInto(p: ContributionProcessor, e: Event, w: int, i: int): int
  {
    match e.Timestamp()
    case Failure(_) => 0
    case Success(t) => if InWindow(p, t) && CellOf(p, t) == (w, i) then e.Contributions() else 0
  }

  /** The total weight the events add to cell `(w, i)`. */
  function TotalWeightInto(p: ContributionProcessor, events: seq<Event>, w: int, i: int): int
  {
    if events == [] then 0 else WeightInto(p, events[0], w, i) + TotalWeightInto(p, events[1..], w, i)
  }

  /** One event changes only the count of its own cell, and keeps the calendar's shape. */
  lemma ApplyEffect(p: ContributionProcessor, calendar: Calendar, max: int, t: int, weight: int)
    ensures SameShape(calendar, Apply(p, calendar, max, t, weight).0)
    ensures forall w, i :: InCalendar(calendar, w, i) ==>
      Apply(p, calendar, max, t, weight).0[w].1[i].contributionCount
        == calendar[w].1[i].contributionCount + (if InWindow(p, t) && CellOf(p, t) == (w, i) then weight else 0)
  {
  }

  /**
   * A successful fold keeps the calendar's shape and adds to each cell
   * exactly the weights of the events that land in it; events outside the
   * window, or landing outside the calendar, change nothing.
   */
  lemma {:induction false} FoldCounts(p: ContributionProcessor, events: seq<Event>, calendar: Calendar, max: int)
    requires Fold(p, events, calendar, max).Success?
    ensures SameShape(calendar, Fold(p, events, calendar, max).value.0)
    ensures forall w, i :: InCalendar(calendar, w, i) ==>
      Fold(p, events, calendar, max).value.0[w].1[i].contributionCount
        == calendar[w].1[i].contributionCount + TotalWeightInto(p, events, w, i)
  {
    if events != [] {
      var t := events[0].Timestamp().value;
      var (calendar', max') := Apply(p, calendar, max, t, events[0].Contributions());
      ApplyEffect(p, calendar, max, t, events[0].Contributions());
      FoldCounts(p, events[1..], calendar', max');
    }
  }

  /** `max` is the largest count of the calendar, or 0 when no count is positive. */
  ghost predicate IsMaxOf(max: int, calendar: Calendar)
  {
    && 0 <= max
    && (forall w, i :: InCalendar(calendar, w, i) ==> calendar[w].1[i].contributionCount <= max)
    && (max == 0 || exists w, i :: InCalendar(calendar, w, i) && calendar[w].1[i].contributionCount == max)
  }

  predicate NonNegativeWeights(events: seq<Event>)
  {
    forall k :: 0 <= k < |events| ==> events[k].Contributions() >= 0
  }

  /** The running maximum never drops below where it started. */
  lemma {:induction false} FoldMaxGrows(p: ContributionProcessor, events: seq<Event>, calendar: Calendar, max: int)
    requires Fold(p, events, calendar, max).Success?
    ensures Fold(p, events, calendar, max).value.1 >= max
  {
    if events != [] {
      var t := events[0].Timestamp().value;
      var (calendar', max') := Apply(p, calendar, max, t, events[0].Contributions());
      FoldMaxGrows(p, events[1..], calendar', max');
    }
  }

  /** With non-negative weights, the running maximum stays the largest count. */
  lemma {:induction false} FoldKeepsMax(p: ContributionProcessor, events: seq<Event>, calendar: Calendar, max: int)
    requires IsMaxOf(max, calendar) && NonNegativeWeights(events)
    requires Fold(p, events, calendar, max).Success?
    ensures IsMaxOf(Fold(p, events, calendar, max).value.1, Fold(p, events, calendar, max).value.0)
  {
    if events != [] {
      var t := events[0].Timestamp().value;
      var weight := events[0].Contributions();
      var (calendar', max') := Apply(p, calendar, max, t, weight);
      ApplyKeepsMax(p, calendar, max, t, weight);
      assert NonNegativeWeights(events[1..]) by {
        forall k | 0 <= k < |events[1..]| ensures events[1..][k].Contributions() >= 0 {
          assert events[1..][k] == events[k + 1];
        }
      }
      FoldKeepsMax(p, events[1..], calendar', max');
    }
  }

  lemma ApplyKeepsMax(p: ContributionProcessor, calendar: Calendar, max: int, t: int, weight: int)
    requires IsMaxOf(max, calendar) && weight >= 0
    ensures IsMaxOf(Apply(p, calendar, max, t, weight).1, Apply(p, calendar, max, t, weight).0)
  {
    if InWindow(p, t) {
      var (w, i) := CellOf(p, t);
      if InCalendar(calendar, w, i) {
        var (calendar', max') := Apply(p, calendar, max, t, weight);
        assert calendar'[w].1[i].contributionCount == calendar[w].1[i].contributionCount + weight;
        if max' != calendar'[w].1[i].contributionCount && max != 0 {
          var w', i' :| InCalendar(calendar, w', i') && calendar[w'].1[i'].contributionCount == max;
          assert InCalendar(calendar', w', i') && calendar'[w'].1[i'].contributionCount == max';
        }
      }
    }
  }

  /**
   * The weeks `initialize_contribution_calendar` lays out for `p`, counts
   * aside: week `w` is numbered `w` and holds seven days, day `i` dated and
   * weekdayed for the instant `DayInstant(p, w, i)`. Any prefix of such weeks
   * is such weeks too.
   */
  ghost predicate LaidOutWeeks(p: ContributionProcessor, calendar: Calendar)
  {
    && (forall w :: 0 <= w < |calendar| ==> calendar[w].0 == w && |calendar[w].1| == 7)
    && (forall w, i :: InCalendar(calendar, w, i) ==>
          calendar[w].1[i].date == p.dateText(DayInstant(p, w, i)) &&
          calendar[w].1[i].weekday == WeekdayFromSunday(DayInstant(p, w, i)))
  }

  /** A whole calendar of `p`: all its weeks, laid out, whatever the counts. */
  ghost predicate IsLaidOut(p: ContributionProcessor, calendar: Calendar)
  {
    |calendar| == WeekCount(p) && LaidOutWeeks(p, calendar)
  }

  /** A fresh calendar is laid out. */
  lemma FreshIsLaidOut(p: ContributionProcessor, calendar: Calendar)
    requires IsFreshCalendar(p, calendar)
    ensures IsLaidOut(p, calendar)
  {
    forall w, i | InCalendar(calendar, w, i)
      ensures calendar[w].1[i] == EmptyDay(p, DayInstant(p, w, i), w)
    {
      FreshDaysAt(p, w, 7, i);
    }
  }

  /** Folding events changes counts only: a laid-out calendar stays laid out. */
  lemma FoldKeepsLayout(p: ContributionProcessor, events: seq<Event>, calendar: Calendar, max: int)
    requires IsLaidOut(p, calendar)
    requires Fold(p, events, calendar, max).Success?
    ensures IsLaidOut(p, Fold(p, events, calendar, max).value.0)
  {
    FoldCounts(p, events, calendar, max);
  }

  /** Every count of the calendar is 0. */
  ghost predicate NoContributions(calendar: Calendar)
  {
    forall w, i :: InCalendar(calendar, w, i) ==> calendar[w].1[i].contributionCount == 0
  }

  /** Every count of a fresh calendar is 0. */
  lemma FreshCalendarIsEmpty(p: ContributionProcessor, calendar: Calendar)
    requires IsFreshCalendar(p, calendar)
    ensures NoContributions(calendar)
  {
    forall w, i | InCalendar(calendar, w, i)
      ensures calendar[w].1[i].contributionCount == 0
    {
      FreshDaysAt(p, w, 7, i);
    }
  }

  /**
   * Folding non-negative weights into a calendar without contributions,
   * such as a fresh one: each cell holds the total weight of the events
   * whose instant lies within that cell's day, and the returned maximum is
   * the largest count.
   */
  lemma FreshFold(p: ContributionProcessor, events: seq<Event>, calendar: Calendar, w: int, i: int)
    requires NoContributions(calendar) && NonNegativeWeights(events)
    requires Fold(p, events, calendar, 0).Success?
    requires InCalendar(calendar, w, i)
    ensures IsMaxOf(Fold(p, events, calendar, 0).value.1, Fold(p, events, calendar, 0).value.0)
    ensures InCalendar(Fold(p, events, calendar, 0).value.0, w, i)
      && Fold(p, events, calendar, 0).value.0[w].1[i].contributionCount == TotalWeightInto(p, events, w, i)
  {
    FoldKeepsMax(p, events, calendar, 0);
    FoldCounts(p, events, calendar, 0);
  }
}
