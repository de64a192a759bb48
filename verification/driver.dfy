/**
 * What src/main.rs does around the core: it reads the provider configuration
 * from the environment, derives the one-year window that ends now and starts
 * on a Sunday, merges the providers' calendars, picks the colour scheme and
 * hands the grid to the renderer.
 *
 * The environment is a map from variable names to values, the current
 * instant is a parameter (whole UTC seconds), and the providers' calendars
 * are an input.
 */
module Driver {
  import opened Wrappers
  import opened Types
  import opened Text
  import opened Time
  import Processor
  import Merger
  import Colors
  import Renderer

  // -------------------------------------------------------- configuration

  /** The server, user name and token of one provider. */
  datatype GenericConfig = GenericConfig(server: string, username: string, token: string)

  function MustBeSet(name: string): ProviderError
  {
    ConfigError(name + " must be set")
  }

  /**
   * `GenericConfig::new`: the three variables, read in order; the first one
   * missing is reported; the server loses its trailing '/'s.
   */
  function NewGenericConfig(env: map<string, string>, serverVar: string, usernameVar: string, tokenVar: string)
    : (r: Result<GenericConfig, ProviderError>)
    ensures r.Success? <==> serverVar in env && usernameVar in env && tokenVar in env
    ensures serverVar !in env ==> r == Failure(MustBeSet(serverVar))
    ensures serverVar in env && usernameVar !in env ==> r == Failure(MustBeSet(usernameVar))
    ensures serverVar in env && usernameVar in env && tokenVar !in env ==> r == Failure(MustBeSet(tokenVar))
    ensures r.Success? ==> r.value.username == env[usernameVar] && r.value.token == env[tokenVar]
  {
    if serverVar !in env then Failure(MustBeSet(serverVar))
    else if usernameVar !in env then Failure(MustBeSet(usernameVar))
    else if tokenVar !in env then Failure(MustBeSet(tokenVar))
    else Success(GenericConfig(TrimEndMatches(env[serverVar], '/'), env[usernameVar], env[tokenVar]))
  }

  /** `GenericConfig::from_env`: `SERVER`, `USERNAME` and `TOKEN`, in that order. */
  function FromEnv(env: map<string, string>): (r: Result<GenericConfig, ProviderError>)
    ensures r.Success? <==> "SERVER" in env && "USERNAME" in env && "TOKEN" in env
    ensures "SERVER" !in env ==> r == Failure(ConfigError("SERVER must be set"))
    ensures "SERVER" in env && "USERNAME" !in env ==> r == Failure(ConfigError("USERNAME must be set"))
    ensures "SERVER" in env && "USERNAME" in env && "TOKEN" !in env ==> r == Failure(ConfigError("TOKEN must be set"))
    ensures r.Success? ==> r.value.username == env["USERNAME"] && r.value.token == env["TOKEN"]
  {
    MissingMessages();
    NewGenericConfig(env, "SERVER", "USERNAME", "TOKEN")
  }

  /** The messages for the three variables of `GenericConfig::from_env`. */
  lemma MissingMessages()
    ensures MustBeSet("SERVER") == ConfigError("SERVER must be set")
    ensures MustBeSet("USERNAME") == ConfigError("USERNAME must be set")
    ensures MustBeSet("TOKEN") == ConfigError("TOKEN must be set")
  {
  }

  /**
   * The configured server is the variable's value without its trailing '/'s:
   * a prefix of it, followed in the variable by '/'s only, that does not end
   * with '/' and so is left as it is by a second trim.
   */
  lemma ConfiguredServer(env: map<string, string>, serverVar: string, usernameVar: string, tokenVar: string)
    requires NewGenericConfig(env, serverVar, usernameVar, tokenVar).Success?
    ensures var server, value := NewGenericConfig(env, serverVar, usernameVar, tokenVar).value.server, env[serverVar];
      server == value[..|server|] &&
      (forall k :: |server| <= k < |value| ==> value[k] == '/') &&
      (server == [] || server[|server| - 1] != '/') &&
      TrimEndMatches(server, '/') == server
  {
    TrimEndMatchesIs(env[serverVar], '/');
  }

  // --------------------------------------------------------------- window

  /**
   * The start of the window: 365 days before the end, then back to the
   * Sunday of that week, at the same time of day. It is the latest Sunday
   * at or before the instant a year ago.
   */
  function StartDate(endDate: int): (start: int)
    ensures WeekdayFromSunday(start) == 0
    ensures start <= endDate - 365 * 86400 < start + 7 * 86400
    ensures start % 86400 == endDate % 86400
  {
    var yearAgo := endDate - 365 * 86400;
    var back := WeekdayFromSunday(yearAgo);
    WeekdayShift(yearAgo, -back);
    TimeOfDayShift(yearAgo, -back);
    TimeOfDayShift(endDate, -365);
    yearAgo + (-back) * 86400
  }

  /** The processor the providers build for the window that ends at `endDate`. */
  function WindowProcessor(endDate: int): Processor.ContributionProcessor
  {
    Processor.New(StartDate(endDate), endDate)
  }

  /** The calendar of the window has 53 weeks, and day `i` of each week is a weekday `i`. */
  lemma WindowCalendar(endDate: int, w: int, i: int)
    requires 0 <= i < 7
    ensures Processor.WeekCount(WindowProcessor(endDate)) == 53
    ensures var p := WindowProcessor(endDate);
      Processor.EmptyDay(p, Processor.DayInstant(p, w, i), w).weekday == i
  {
    var p := WindowProcessor(endDate);
    Processor.WeekCountIs(p, 53);
    Processor.SundayStartWeekdays(p, w, i);
  }

  /**
   * Where the last week lies against the end: day `i` of week 52 starts
   * `i - today` days after the end, where `today` is the end's weekday; on a
   * Sunday the whole last week is already over, ending with the day before.
   */
  lemma LastWeekDays(endDate: int, i: int)
    requires 0 <= i < 7
    ensures var today := WeekdayFromSunday(endDate);
      Processor.DayInstant(WindowProcessor(endDate), 52, i) ==
        endDate + (i - (if today == 0 then 7 else today)) * 86400
  {
    var yearAgo := endDate - 365 * 86400;
    var back := WeekdayFromSunday(yearAgo);
    WeekdayShift(yearAgo, 365);
    assert yearAgo + 365 * 86400 == endDate;
    assert back + 365 == (back + 1) + 7 * 52;
    Mod7Add(back + 1, 7 * 52);
  }

  /** A row whose every week holds the day `i` of that week of the processor's calendar. */
  predicate CarriesCalendarDays(p: Processor.ContributionProcessor, row: Merger.Row, i: int)
  {
    |row| == Processor.WeekCount(p) &&
    forall w :: 0 <= w < |row| ==>
      row[w].Some? &&
      row[w].value.date == p.dateText(Processor.DayInstant(p, w, i)) &&
      row[w].value.weekday == WeekdayFromSunday(Processor.DayInstant(p, w, i))
  }

  /**
   * Drawing row `i` of the window's calendar: only the last week's day can
   * be cut off. On a weekday other than Sunday it is cut off exactly when it
   * starts after now. On a Sunday it is cut off for every row but the first,
   * although that day is already over.
   */
  lemma LastWeekCutoff(endDate: int, row: Merger.Row, i: int)
    requires 0 <= i < 7 && CarriesCalendarDays(WindowProcessor(endDate), row, i)
    ensures |row| == 53 && Renderer.EndsWithDay(row)
    ensures var today, day := WeekdayFromSunday(endDate), Processor.DayInstant(WindowProcessor(endDate), 52, i);
      (today != 0 ==> (Renderer.Cutoff(row, today) == 52 <==> day > endDate)) &&
      (today == 0 ==> (Renderer.Cutoff(row, today) == 52 <==> i > 0) && day + 86400 <= endDate) &&
      Renderer.Cutoff(row, today) >= 52
  {
    WindowCalendar(endDate, 52, i);
    LastWeekDays(endDate, i);
    CalendarRowDates(WindowProcessor(endDate), row, i);
    Renderer.CutoffOfDistinctDates(row, WeekdayFromSunday(endDate));
  }

  /** The days of a calendar row made by `Processor.New` have distinct dates. */
  lemma CalendarRowDates(p: Processor.ContributionProcessor, row: Merger.Row, i: int)
    requires p == Processor.New(p.startDate, p.endDate)
    requires 0 <= i < 7 && CarriesCalendarDays(p, row, i)
    ensures Renderer.DistinctDates(row)
  {
    forall j, k | 0 <= j < k < |row|
      ensures row[j].value.date != row[k].value.date
    {
      Processor.NewDatesDistinct(p.startDate, p.endDate, j, i, k, i);
    }
  }

  // ---------------------------------------------------- the merged window

  /**
   * What the providers hand to the merger: each one that answered built its
   * calendar with `ContributionProcessor::new(start_date, end_date)` of the
   * window and folded its events into it, so its weeks are laid out for the
   * window (`Processor.FreshIsLaidOut`, `Processor.FoldKeepsLayout`).
   */
  ghost predicate FromWindow(endDate: int, collections: seq<Option<ContributionCollection>>)
    ensures FromWindow(endDate, collections) ==> Merger.WellFormed(collections)
  {
    forall c :: 0 <= c < |collections| && collections[c].Some? ==>
      Processor.IsLaidOut(WindowProcessor(endDate), collections[c].value.contributions)
  }

  /** An entry of the merge that carries the date and weekday of its own cell, in one of the first `weeks` weeks. */
  ghost predicate DatedEntry(p: Processor.ContributionProcessor, e: Merger.Entry, weeks: int)
  {
    e.week < weeks &&
    e.day.date == p.dateText(Processor.DayInstant(p, e.week, e.row)) &&
    e.day.weekday == WeekdayFromSunday(Processor.DayInstant(p, e.week, e.row))
  }

  ghost predicate DatedEntries(p: Processor.ContributionProcessor, entries: seq<Merger.Entry>, weeks: int)
  {
    forall k :: 0 <= k < |entries| ==> DatedEntry(p, entries[k], weeks)
  }

  lemma DatedAppend(p: Processor.ContributionProcessor, a: seq<Merger.Entry>, b: seq<Merger.Entry>, weeks: int)
    requires DatedEntries(p, a, weeks) && DatedEntries(p, b, weeks)
    ensures DatedEntries(p, a + b, weeks)
  {
    forall k | 0 <= k < |a + b|
      ensures DatedEntry(p, (a + b)[k], weeks)
    {
      if k < |a| {
        assert (a + b)[k] == a[k];
      } else {
        assert (a + b)[k] == b[k - |a|];
      }
    }
  }

  /** The loops visit a laid-out calendar's days each at its own cell, dated for it. */
  lemma {:induction false} DatedWeeks(p: Processor.ContributionProcessor, calendar: Calendar)
    requires Processor.LaidOutWeeks(p, calendar)
    ensures Merger.WellFormedCalendar(calendar) && DatedEntries(p, Merger.WeeksEntries(calendar), |calendar|)
  {
    if calendar != [] {
      var n := |calendar| - 1;
      var init, last := calendar[..n], calendar[n];
      assert Processor.LaidOutWeeks(p, init) by {
        forall w | 0 <= w < |init|
          ensures init[w] == calendar[w]
        {
        }
      }
      DatedWeeks(p, init);
      var days := Merger.DayEntries(n, last.1);
      forall k | 0 <= k < |days|
        ensures DatedEntry(p, days[k], |calendar|)
      {
        Merger.DayEntriesAt(n, last.1, k);
        assert Processor.InCalendar(calendar, n, k);
      }
      DatedAppend(p, Merger.WeeksEntries(init), days, |calendar|);
    }
  }

  /** Every entry the merger visits for the window is dated for its cell of the 53 weeks. */
  lemma DatedFlatten(endDate: int, collections: seq<Option<ContributionCollection>>)
    requires FromWindow(endDate, collections)
    ensures DatedEntries(WindowProcessor(endDate), Merger.Flatten(collections), 53)
  {
    WindowCalendar(endDate, 0, 0);
    DatedCollections(WindowProcessor(endDate), collections, 53);
  }

  /** Every entry the merger visits in calendars of `weeks` weeks laid out for `p` is dated for its own cell. */
  lemma {:induction false} DatedCollections(p: Processor.ContributionProcessor, collections: seq<Option<ContributionCollection>>, weeks: int)
    requires Merger.WellFormed(collections)
    requires forall c :: 0 <= c < |collections| && collections[c].Some? ==>
      Processor.LaidOutWeeks(p, collections[c].value.contributions) && |collections[c].value.contributions| == weeks
    ensures DatedEntries(p, Merger.Flatten(collections), weeks)
  {
    if collections != [] {
      var n := |collections| - 1;
      var init, last := collections[..n], collections[n];
      assert Merger.WellFormed(init) &&
        forall c :: 0 <= c < |init| && init[c].Some? ==>
          Processor.LaidOutWeeks(p, init[c].value.contributions) && |init[c].value.contributions| == weeks
      by {
        forall c | 0 <= c < |init|
          ensures init[c] == collections[c]
        {
        }
      }
      DatedCollections(p, init, weeks);
      if last.Some? {
        DatedWeeks(p, last.value.contributions);
        DatedAppend(p, Merger.Flatten(init), Merger.WeeksEntries(last.value.contributions), weeks);
      } else {
        assert Merger.Flatten(collections) == Merger.Flatten(init) + [];
      }
    }
  }

  /** The day kept in a cell is dated for that cell. */
  lemma {:induction false} FirstAtDated(p: Processor.ContributionProcessor, entries: seq<Merger.Entry>, i: Merger.DayIndex, w: nat, weeks: int)
    requires DatedEntries(p, entries, weeks) && Merger.FirstAt(entries, i, w).Some?
    ensures DatedEntry(p, Merger.Entry(i, w, Merger.FirstAt(entries, i, w).value), weeks)
  {
    var init := entries[..|entries| - 1];
    assert DatedEntries(p, init, weeks) by {
      forall k | 0 <= k < |init|
        ensures init[k] == entries[k]
      {
      }
    }
    if Merger.FirstAt(init, i, w).Some? {
      FirstAtDated(p, init, i, w, weeks);
    }
  }

  /**
   * The merged grid of the window: when at least one provider answered,
   * row `i` holds, in each of the 53 weeks, a day dated and weekdayed as
   * day `i` of that week of the window's calendar; when none did, the row
   * is empty.
   */
  lemma MergedWindowRow(endDate: int, collections: seq<Option<ContributionCollection>>, i: Merger.DayIndex)
    requires FromWindow(endDate, collections)
    ensures (exists c :: 0 <= c < |collections| && collections[c].Some?) ==>
      CarriesCalendarDays(WindowProcessor(endDate), Merger.Merged(collections).rows[i], i)
    ensures (forall c :: 0 <= c < |collections| ==> collections[c].None?) ==> Merger.Merged(collections).rows[i] == []
  {
    WindowCalendar(endDate, 0, 0);
    DatedFlatten(endDate, collections);
    MergedRowCarries(WindowProcessor(endDate), collections, i);
    MergedRowEmpty(collections, i);
  }

  /** When some collection is laid out for a calendar of 53 weeks, row `i` holds day `i` of each week. */
  lemma MergedRowCarries(p: Processor.ContributionProcessor, collections: seq<Option<ContributionCollection>>, i: Merger.DayIndex)
    requires Merger.WellFormed(collections) && DatedEntries(p, Merger.Flatten(collections), 53)
    requires Processor.WeekCount(p) == 53
    requires forall c :: 0 <= c < |collections| && collections[c].Some? ==>
      Processor.IsLaidOut(p, collections[c].value.contributions)
    ensures (exists c :: 0 <= c < |collections| && collections[c].Some?) ==>
      CarriesCalendarDays(p, Merger.Merged(collections).rows[i], i)
  {
    if c :| 0 <= c < |collections| && collections[c].Some? {
      MergedCalendarRow(p, collections, c, i);
    }
  }

  /** With every collection absent, every row is empty. */
  lemma MergedRowEmpty(collections: seq<Option<ContributionCollection>>, i: Merger.DayIndex)
    requires Merger.WellFormed(collections)
    ensures (forall c :: 0 <= c < |collections| ==> collections[c].None?) ==> Merger.Merged(collections).rows[i] == []
  {
    if forall c :: 0 <= c < |collections| ==> collections[c].None? {
      Merger.AllAbsentIsEmpty(collections);
    }
  }

  /**
   * Once one collection is laid out for a calendar of 53 weeks and every
   * merged entry is dated for its cell, row `i` of the merge holds day `i`
   * of each of the 53 weeks.
   */
  lemma MergedCalendarRow(p: Processor.ContributionProcessor, collections: seq<Option<ContributionCollection>>, c: int, i: Merger.DayIndex)
    requires Merger.WellFormed(collections) && DatedEntries(p, Merger.Flatten(collections), 53)
    requires Processor.WeekCount(p) == 53
    requires 0 <= c < |collections| && collections[c].Some?
    requires Processor.IsLaidOut(p, collections[c].value.contributions)
    ensures CarriesCalendarDays(p, Merger.Merged(collections).rows[i], i)
  {
    var row := Merger.Merged(collections).rows[i];
    MergedRowShort(p, collections, i);
    forall w | 0 <= w < 53
      ensures w < |row| && row[w].Some? &&
        row[w].value.date == p.dateText(Processor.DayInstant(p, w, i)) &&
        row[w].value.weekday == WeekdayFromSunday(Processor.DayInstant(p, w, i))
    {
      MergedWindowCell(p, collections, c, i, w);
    }
    MergedWindowCell(p, collections, c, i, 52);
    assert |row| == 53;
  }

  /** A merged row of dated entries reaches no further than the 53 weeks. */
  lemma MergedRowShort(p: Processor.ContributionProcessor, collections: seq<Option<ContributionCollection>>, i: Merger.DayIndex)
    requires Merger.WellFormed(collections) && DatedEntries(p, Merger.Flatten(collections), 53)
    ensures |Merger.Merged(collections).rows[i]| <= 53
  {
    var entries := Merger.Flatten(collections);
    forall k | 0 <= k < |entries|
      ensures entries[k].week < 53
    {
      assert DatedEntry(p, entries[k], 53);
    }
    assert !Merger.ReachesWeek(entries, i, 53);
    Merger.RowLength(entries, i, 53);
  }

  /** A cell that one collection has a day for is present, dated for that cell. */
  lemma MergedWindowCell(p: Processor.ContributionProcessor, collections: seq<Option<ContributionCollection>>, c: int, i: Merger.DayIndex, w: nat)
    requires Merger.WellFormed(collections) && DatedEntries(p, Merger.Flatten(collections), 53)
    requires 0 <= c < |collections| && collections[c].Some? && w < 53
    requires Processor.LaidOutWeeks(p, collections[c].value.contributions) && w < |collections[c].value.contributions|
    ensures var row := Merger.Merged(collections).rows[i];
      w < |row| && row[w].Some? &&
      row[w].value.date == p.dateText(Processor.DayInstant(p, w, i)) &&
      row[w].value.weekday == WeekdayFromSunday(Processor.DayInstant(p, w, i))
  {
    var entries := Merger.Flatten(collections);
    var calendar := collections[c].value.contributions;
    assert calendar[w].0 == w && i < |calendar[w].1|;
    assert Merger.CalendarHasDay(calendar, i, w);
    Merger.MergedCellPresent(collections, i, w);
    Merger.MergedCell(entries, i, w);
    FirstAtDated(p, entries, i, w, 53);
  }

  /**
   * Every date of a calendar row, written by `FormatDate` from year 0 on,
   * has its three fields, and its month and day fields are the date's own.
   */
  lemma CalendarRowMonths(p: Processor.ContributionProcessor, row: Merger.Row, i: int)
    requires 0 <= i < 7 && CarriesCalendarDays(p, row, i) && p.dateText == FormatDate
    requires CivilOfInstant(p.startDate).year >= 0
    ensures forall k :: 0 <= k < |row| ==>
      var c := CivilOfInstant(Processor.DayInstant(p, k, i));
      Renderer.MonthInRange(row[k].value.date) && Renderer.HasFields(row[k].value.date) &&
      Renderer.MonthField(row[k].value.date) == c.month && Renderer.DayField(row[k].value.date) == c.day
  {
    forall k | 0 <= k < |row|
      ensures var c := CivilOfInstant(Processor.DayInstant(p, k, i));
        Renderer.MonthInRange(row[k].value.date) && Renderer.HasFields(row[k].value.date) &&
        Renderer.MonthField(row[k].value.date) == c.month && Renderer.DayField(row[k].value.date) == c.day
    {
      var t := Processor.DayInstant(p, k, i);
      DayYear(p, k, i);
      DateFields(t);
    }
  }

  /**
   * `render_months` cannot panic on the merged grid of a window that starts
   * in year 0 or later: the last row is empty or ends with a day, and every
   * date in it has a month from 1 to 12.
   */
  lemma WindowMonthsRenderable(endDate: int, collections: seq<Option<ContributionCollection>>, today: int)
    requires FromWindow(endDate, collections) && CivilOfInstant(StartDate(endDate)).year >= 0
    ensures Renderer.MonthsRenderable(Merger.Merged(collections).rows[6], today)
  {
    var row := Merger.Merged(collections).rows[6];
    var p := WindowProcessor(endDate);
    assert p.startDate == StartDate(endDate) && p.dateText == FormatDate;
    MergedWindowRow(endDate, collections, 6);
    if row != [] {
      CalendarRowMonths(p, row, 6);
    }
  }

  /**
   * Along a calendar row the days are a week apart, so a day labelled with
   * its month (before the 20th) is followed by a day of the same month:
   * two labels are never printed one right after the other.
   */
  lemma WindowRowLabels(p: Processor.ContributionProcessor, row: Merger.Row, i: int, n: nat)
    requires 0 <= i < 7 && CarriesCalendarDays(p, row, i) && p.dateText == FormatDate
    requires CivilOfInstant(p.startDate).year >= 0 && n <= |row|
    ensures forall k :: 0 <= k < n && row[k].Some? ==> Renderer.MonthInRange(row[k].value.date)
    ensures Renderer.NoAdjacentLabels(row, n)
  {
    CalendarRowMonths(p, row, i);
    LabelsApart(p, row, i, n);
  }

  /** No two labels in a row, once every date of the row is known to have a month. */
  lemma LabelsApart(p: Processor.ContributionProcessor, row: Merger.Row, i: int, n: nat)
    requires 0 <= i < 7 && CarriesCalendarDays(p, row, i) && p.dateText == FormatDate
    requires CivilOfInstant(p.startDate).year >= 0 && n <= |row|
    requires forall k :: 0 <= k < |row| ==> Renderer.MonthInRange(row[k].value.date)
    ensures Renderer.NoAdjacentLabels(row, n)
  {
    forall k | 0 < k < n
      ensures !(Renderer.MonthsUpTo(row, k).justPrinted && Renderer.MonthsUpTo(row, k + 1).justPrinted)
    {
      AdjacentCells(p, row, i, k);
    }
  }

  /** Cells `k - 1` and `k` of a calendar row are not both labelled. */
  lemma AdjacentCells(p: Processor.ContributionProcessor, row: Merger.Row, i: int, k: nat)
    requires 0 <= i < 7 && CarriesCalendarDays(p, row, i) && p.dateText == FormatDate
    requires CivilOfInstant(p.startDate).year >= 0 && 0 < k < |row|
    requires forall j :: 0 <= j < |row| ==> Renderer.MonthInRange(row[j].value.date)
    ensures !(Renderer.MonthsUpTo(row, k).justPrinted && Renderer.MonthsUpTo(row, k + 1).justPrinted)
  {
    var t := Processor.DayInstant(p, k - 1, i);
    WeekApartDays(p, row, i, k);
    DayYear(p, k - 1, i);
    DayYear(p, k, i);
    NoLabelAfterLabel(row, k, t);
  }

  /** Neighbouring cells of a calendar row hold the dates of two days a week apart. */
  lemma WeekApartDays(p: Processor.ContributionProcessor, row: Merger.Row, i: int, k: nat)
    requires CarriesCalendarDays(p, row, i) && 0 < k < |row|
    ensures var t := Processor.DayInstant(p, k - 1, i);
      row[k - 1].Some? && row[k].Some? &&
      row[k - 1].value.date == p.dateText(t) && row[k].value.date == p.dateText(t + 7 * 86400)
  {
    assert Processor.DayInstant(p, k, i) == Processor.DayInstant(p, k - 1, i) + 7 * 86400;
  }

  /** Every day of a calendar is in a year from 0 on when its first day is. */
  lemma DayYear(p: Processor.ContributionProcessor, w: nat, i: int)
    requires 0 <= i < 7 && CivilOfInstant(p.startDate).year >= 0
    ensures CivilOfInstant(Processor.DayInstant(p, w, i)).year >= 0
  {
    YearsFromZero(p.startDate, Processor.DayInstant(p, w, i));
  }

  /** A labelled day followed by the day a week later: the later one is not labelled. */
  lemma NoLabelAfterLabel(row: Merger.Row, k: nat, t: int)
    requires 0 < k < |row| && row[k - 1].Some? && row[k].Some?
    requires forall j :: 0 <= j <= k && row[j].Some? ==> Renderer.MonthInRange(row[j].value.date)
    requires row[k - 1].value.date == FormatDate(t) && row[k].value.date == FormatDate(t + 7 * 86400)
    requires CivilOfInstant(t).year >= 0 && CivilOfInstant(t + 7 * 86400).year >= 0
    ensures Renderer.MonthsUpTo(row, k).justPrinted ==> !Renderer.MonthsUpTo(row, k + 1).justPrinted
  {
    LabelThenNone(Renderer.MonthsUpTo(row, k - 1), row[k - 1].value, row[k].value, t);
  }

  /** A day that gets a label and the day a week later: the later one gets none. */
  lemma LabelThenNone(st: Renderer.MonthState, d0: ContributionDay, d1: ContributionDay, t: int)
    requires d0.date == FormatDate(t) && d1.date == FormatDate(t + 7 * 86400)
    requires CivilOfInstant(t).year >= 0 && CivilOfInstant(t + 7 * 86400).year >= 0
    ensures Renderer.MonthInRange(d0.date) && Renderer.MonthInRange(d1.date)
    ensures Renderer.MonthStep(st, Some(d0)).justPrinted ==>
      Renderer.Label(Renderer.MonthStep(st, Some(d0)), Some(d1)) == None
  {
    LabelOfDate(st, d0, t);
    var next := Renderer.MonthStep(st, Some(d0));
    LabelOfDate(next, d1, t + 7 * 86400);
    if next.justPrinted {
      var c0, c1 := CivilOfInstant(t), CivilOfInstant(t + 7 * 86400);
      assert next.previous == Renderer.MONTHS[c0.month - 1];
      WeekApartSameMonth(t);
      assert c1.month == c0.month;
    }
  }

  /** A day before the 20th and the day a week later are in the same month. */
  lemma WeekApartSameMonth(t: int)
    requires CivilOfInstant(t).day < 20
    ensures CivilOfInstant(t + 7 * 86400).month == CivilOfInstant(t).month
  {
    DayNumberShift(t, 7);
    WeekLater(DayNumber(t));
  }

  /**
   * The month line of the merged window lines up with the graph below it:
   * two columns for every cell drawn in the last row, one more when it ends
   * with a label, and the newline.
   */
  lemma WindowMonthsWidth(endDate: int, collections: seq<Option<ContributionCollection>>, today: int)
    requires FromWindow(endDate, collections) && CivilOfInstant(StartDate(endDate)).year >= 0
    ensures var rows := Merger.Merged(collections).rows;
      Renderer.MonthsRenderable(rows[6], today) &&
      var n := Renderer.Cutoff(rows[6], today);
      |Renderer.MonthLine(rows, today)| == 2 * n + (if Renderer.MonthsUpTo(rows[6], n).justPrinted then 1 else 0) + 1
  {
    var row := Merger.Merged(collections).rows[6];
    var p := WindowProcessor(endDate);
    assert p.startDate == StartDate(endDate) && p.dateText == FormatDate;
    WindowMonthsRenderable(endDate, collections, today);
    MergedWindowRow(endDate, collections, 6);
    var n := Renderer.Cutoff(row, today);
    if row != [] {
      WindowRowLabels(p, row, 6, n);
      Renderer.MonthsWidth(row, n);
    }
  }

  // --------------------------------------------------------------- scheme

  /** The scheme asked for: `COLOR_SCHEME`, or "github" when it is not set. */
  function SchemeName(env: map<string, string>): string
  {
    if "COLOR_SCHEME" in env then env["COLOR_SCHEME"] else "github"
  }

  /**
   * The scheme `main` renders with; `None` stands for the panic of
   * `expect("Color scheme not found")`.
   */
  function SelectedScheme(env: map<string, string>): (scheme: Option<Colors.ColorScheme>)
    ensures "COLOR_SCHEME" !in env ==> scheme == Some(Colors.Default())
    ensures scheme.Some? ==> scheme.value in Colors.SCHEMES && scheme.value.name == SchemeName(env)
    ensures scheme.None? <==> forall k :: 0 <= k < |Colors.SCHEMES| ==> Colors.SCHEMES[k].name != SchemeName(env)
  {
    Colors.FindByNameInverse(0);
    Colors.FindByName(SchemeName(env))
  }

  /** Every scheme of the table can be chosen by its name. */
  lemma SelectEveryScheme(env: map<string, string>, k: int)
    requires 0 <= k < |Colors.SCHEMES| && "COLOR_SCHEME" in env && env["COLOR_SCHEME"] == Colors.SCHEMES[k].name
    ensures SelectedScheme(env) == Some(Colors.SCHEMES[k])
  {
    Colors.FindByNameInverse(k);
  }

  // -------------------------------------------------------------- colours

  /** A lower-case hexadecimal digit is the digit of its value. */
  lemma LowerHexDigit(ch: char)
    requires Colors.IsLowerHexDigit(ch)
    ensures ToDigit(ch, 16).Some? && HEX_DIGITS[ToDigit(ch, 16).value] == ch
  {
    var d := ToDigit(ch, 16).value;
    if d < 10 {
      assert HEX_DIGITS[d] == '0' + d as char;
    } else {
      assert HEX_DIGITS[d] == 'a' + (d - 10) as char;
    }
  }

  /** Two lower-case hexadecimal digits parse as a byte that is written back as them. */
  lemma HexPair(a: char, b: char)
    requires Colors.IsLowerHexDigit(a) && Colors.IsLowerHexDigit(b)
    ensures var v := ParseUnsigned([a, b], 16, 255); v.Some? && HexByte(v.value) == [a, b]
  {
    LowerHexDigit(a);
    LowerHexDigit(b);
    TwoDigitsValue(a, b, 16);
    var da, db := ToDigit(a, 16).value, ToDigit(b, 16).value;
    var v := da * 16 + db;
    assert v <= 255;
    assert [a, b][0] != '+';
    assert ParseUnsigned([a, b], 16, 255) == Some(v);
    DivIs(v, 16, da);
    assert v == 16 * (v / 16) + v % 16;
    assert HexByte(v) == [HEX_DIGITS[da], HEX_DIGITS[db]];
  }

  /** A "#rrggbb" colour can be sliced by `to_rgb`. */
  lemma HexColorIsColorText(c: string)
    requires Colors.IsHexColor(c)
    ensures Renderer.IsColorText(c)
    ensures TrimStartMatches(c, '#') == c[1..]
  {
    assert c[1..][0] == c[1];
  }

  /**
   * `to_rgb` reads a "#rrggbb" colour without falling back to 0: writing
   * the three components back in hexadecimal gives the colour again.
   */
  lemma HexColorRoundTrip(c: string)
    requires Colors.IsHexColor(c)
    ensures Renderer.IsColorText(c)
    ensures var rgb := Renderer.ToRgb(c); c == "#" + HexByte(rgb.r) + HexByte(rgb.g) + HexByte(rgb.b)
  {
    var r, g, b := [c[1], c[2]], [c[3], c[4]], [c[5], c[6]];
    assert c == "#" + r + g + b;
    Renderer.ToRgbComponentwise(r, g, b);
    HexPair(c[1], c[2]);
    HexPair(c[3], c[4]);
    HexPair(c[5], c[6]);
  }

  /** Every colour of the table parses, and parses exactly. */
  lemma TableColorsRoundTrip(k: int, i: int)
    requires 0 <= k < |Colors.SCHEMES| && 0 <= i < 5
    ensures var c := Colors.SCHEMES[k].colors[i];
      Renderer.IsColorText(c) &&
      var rgb := Renderer.ToRgb(c); c == "#" + HexByte(rgb.r) + HexByte(rgb.g) + HexByte(rgb.b)
  {
    Colors.HexColors(k, i);
    HexColorRoundTrip(Colors.SCHEMES[k].colors[i]);
  }

  /**
   * A day without contributions: its shade, the scheme's light grey, is light
   * enough to be dimmed, so the square is dimmed in the terminal's default
   * colour rather than drawn in grey.
   */
  lemma EmptyCellGlyph(k: int, cell: Option<ContributionDay>, max: int)
    requires 0 <= k < |Colors.SCHEMES|
    requires Renderer.CellRenderable(Colors.SCHEMES[k].colors, cell, max)
    requires cell.None? || cell.value.contributionCount == 0
    ensures Renderer.GlyphOf(Colors.SCHEMES[k].colors, cell, max) == Renderer.Glyph(None, true, Renderer.SQUARE)
  {
    Colors.FirstColorIsBlank(k);
    BlankGlyph(Colors.SCHEMES[k].colors, cell, max);
  }

  /**
   * The busiest days of the "red" scheme take its last shade, "#ffcdd2", which
   * is light enough to be dimmed too: such a day is drawn exactly like a day
   * without contributions.
   */
  lemma BusiestRedLooksEmpty(day: ContributionDay)
    requires day.contributionCount > 0
    ensures Renderer.CellRenderable(Colors.RED.colors, Some(day), day.contributionCount)
    ensures Renderer.CellRenderable(Colors.RED.colors, None, day.contributionCount)
    ensures Renderer.GlyphOf(Colors.RED.colors, Some(day), day.contributionCount) ==
      Renderer.GlyphOf(Colors.RED.colors, None, day.contributionCount) ==
      Renderer.Glyph(None, true, Renderer.SQUARE)
  {
    var max := day.contributionCount;
    Renderer.ColorIndexOfMax(day, 5);
    assert Renderer.ColorIndex(None, max, 5) == 0;
    RedShades();
  }

  /** The first and the last shade of the "red" scheme, as `to_rgb` reads them. */
  lemma RedShades()
    ensures Renderer.IsColorText(Colors.RED.colors[0]) && Renderer.IsColorText(Colors.RED.colors[4])
    ensures Renderer.ToRgb(Colors.RED.colors[0]) == Renderer.Rgb(238, 238, 238)
    ensures Renderer.ToRgb(Colors.RED.colors[4]) == Renderer.Rgb(255, 205, 210)
  {
    assert Colors.RED.colors[0] == "#" + ['e', 'e'] + ['e', 'e'] + ['e', 'e'];
    assert Colors.RED.colors[4] == "#" + ['f', 'f'] + ['c', 'd'] + ['d', '2'];
    ParseLightGrey();
    ParsePaleRed();
  }

  /** "#eeeeee" reads as (238, 238, 238). */
  lemma ParseLightGrey()
    ensures var s := "#" + ['e', 'e'] + ['e', 'e'] + ['e', 'e'];
      Renderer.IsColorText(s) && Renderer.ToRgb(s) == Renderer.Rgb(238, 238, 238)
  {
    Renderer.ToRgbComponentwise(['e', 'e'], ['e', 'e'], ['e', 'e']);
    HexPairValue('e', 'e');
  }

  /** "#ffcdd2" reads as (255, 205, 210). */
  lemma ParsePaleRed()
    ensures var s := "#" + ['f', 'f'] + ['c', 'd'] + ['d', '2'];
      Renderer.IsColorText(s) && Renderer.ToRgb(s) == Renderer.Rgb(255, 205, 210)
  {
    Renderer.ToRgbComponentwise(['f', 'f'], ['c', 'd'], ['d', '2']);
    HexPairValue('f', 'f');
    HexPairValue('c', 'd');
    HexPairValue('d', '2');
  }

  /** The byte two lower-case hexadecimal digits stand for. */
  lemma HexPairValue(a: char, b: char)
    requires Colors.IsLowerHexDigit(a) && Colors.IsLowerHexDigit(b)
    ensures Renderer.HexComponent([a, b]) == ToDigit(a, 16).value * 16 + ToDigit(b, 16).value
  {
    LowerHexDigit(a);
    LowerHexDigit(b);
    TwoDigitsValue(a, b, 16);
    assert [a, b][0] != '+';
  }

  /** With "#eeeeee" as the first colour, a day without contributions is a dimmed square in the default colour. */
  lemma BlankGlyph(scheme: seq<string>, cell: Option<ContributionDay>, max: int)
    requires Renderer.CellRenderable(scheme, cell, max) && scheme[0] == "#eeeeee"
    requires cell.None? || cell.value.contributionCount == 0
    ensures Renderer.GlyphOf(scheme, cell, max) == Renderer.Glyph(None, true, Renderer.SQUARE)
  {
    assert Renderer.ColorIndex(cell, max, |scheme|) == 0;
    var c := scheme[0];
    assert TrimStartMatches(c, '#') == "eeeeee" by {
      assert c[1..][0] == 'e';
    }
    var hex := TrimStartMatches(c, '#');
    assert hex[0..2] == ['e', 'e'] && hex[2..4] == ['e', 'e'] && hex[4..6] == ['e', 'e'];
    TwoDigitsValue('e', 'e', 16);
    assert ParseUnsigned(['e', 'e'], 16, 255) == Some(238);
    assert Renderer.ToRgb(c) == Renderer.Rgb(238, 238, 238);
  }

  // ----------------------------------------------------------- the output

  /**
   * The merged grid can be drawn with any scheme of the table: every row
   * that holds a day ends with one, and every cell drawn has a shade inside
   * the palette whose colour parses.
   */
  lemma MergedGraphRenders(collections: seq<Option<ContributionCollection>>, k: int, today: int)
    requires Merger.WellFormed(collections) && 0 <= k < |Colors.SCHEMES|
    ensures var g := Merger.Merged(collections);
      forall r :: 0 <= r < |g.rows| ==> Renderer.RowRenderable(Colors.SCHEMES[k].colors, g.rows[r], g.max, today)
  {
    var g := Merger.Merged(collections);
    var scheme := Colors.SCHEMES[k];
    Merger.MergedMax(collections);
    forall r: Merger.DayIndex
      ensures Renderer.RowRenderable(scheme.colors, g.rows[r], g.max, today)
    {
      var row := g.rows[r];
      Merger.MergedRowEndsWithDay(Merger.Flatten(collections), r);
      forall j | 0 <= j < Renderer.Cutoff(row, today)
        ensures Renderer.CellRenderable(scheme.colors, row[j], g.max)
      {
        assert Merger.CellAt(g, r, j) == row[j];
        CellRenders(k, row[j], g.max);
      }
    }
  }

  /** A cell whose count does not pass a non-negative maximum can be drawn with any scheme of the table. */
  lemma CellRenders(k: int, cell: Option<ContributionDay>, max: int)
    requires 0 <= k < |Colors.SCHEMES| && max >= 0
    requires cell.Some? ==> cell.value.contributionCount <= max
    ensures Renderer.CellRenderable(Colors.SCHEMES[k].colors, cell, max)
  {
    Renderer.ColorIndexInPalette(cell, max, 5);
    TableColorsRoundTrip(k, Renderer.ColorIndex(cell, max, 5));
  }

  lemma SchemeIndex(scheme: Colors.ColorScheme) returns (k: int)
    requires scheme in Colors.SCHEMES
    ensures 0 <= k < |Colors.SCHEMES| && Colors.SCHEMES[k] == scheme
  {
    k :| 0 <= k < |Colors.SCHEMES| && Colors.SCHEMES[k] == scheme;
  }

  /**
   * The month line and the graph `main` writes, or `None` for the panic of
   * an unknown scheme name.
   */
  ghost function Output(env: map<string, string>, endDate: int, collections: seq<Option<ContributionCollection>>, today: int)
    : Option<(string, seq<seq<Renderer.Glyph>>)>
    requires FromWindow(endDate, collections) && CivilOfInstant(StartDate(endDate)).year >= 0
  {
    WindowMonthsRenderable(endDate, collections, today);
    match SelectedScheme(env)
    case None => None
    case Some(scheme) =>
      var g := Merger.Merged(collections);
      var k :| 0 <= k < |Colors.SCHEMES| && Colors.SCHEMES[k] == scheme;
      MergedGraphRenders(collections, k, today);
      Some((Renderer.MonthLine(g.rows, today), Renderer.Graph(scheme.colors, g.rows, g.max, today)))
  }

  /**
   * The end of `main`: merge the providers' calendars, pick the scheme, then
   * write the month line and the graph. Only an unknown scheme name fails;
   * drawing the graph cannot. The calendars are the ones every provider
   * builds for the window ending at `endDate`. The window must start in year
   * 0 or later: the month fields are proved from year 0 on only
   * (`DateFields`). For years -1 to -12 `split('-')` puts the year into the
   * month field, so "-1-12-31" is labelled "Jan"; from year -13 on
   * `MONTHS[month_idx]` panics.
   */
  method RenderContributions(env: map<string, string>, endDate: int, collections: seq<Option<ContributionCollection>>, today: int)
    returns (output: Option<(string, seq<seq<Renderer.Glyph>>)>)
    requires FromWindow(endDate, collections) && CivilOfInstant(StartDate(endDate)).year >= 0
    ensures output.None? <==> SelectedScheme(env).None?
    ensures output == Output(env, endDate, collections, today)
  {
    WindowMonthsRenderable(endDate, collections, today);
    var rows, max := Merger.ProcessContributions(collections);
    var scheme := SelectedScheme(env);
    if scheme.None? {
      return None;
    }
    ghost var k := SchemeIndex(scheme.value);
    MergedGraphRenders(collections, k, today);
    var months := Renderer.RenderMonths(rows, today);
    var lines := Renderer.RenderGraph(scheme.value.colors, rows, max, today);
    output := Some((months, lines));
  }

  // ---------------------------------------------------------------- dates

  /**
   * The month labels read the calendar's dates right: a date written for a
   * year from 0 on has the three fields, and its month and day fields are the
   * date's month and day.
   */
  lemma DateFields(t: int)
    requires CivilOfInstant(t).year >= 0
    ensures var date, c := FormatDate(t), CivilOfInstant(t);
      Renderer.HasFields(date) && Renderer.MonthInRange(date) &&
      Renderer.MonthField(date) == c.month && Renderer.DayField(date) == c.day
  {
    CivilFields(CivilOfInstant(t));
  }

  /** A calendar date from year 0 on, written as "Y-MM-DD", has the three fields, the month and day its own. */
  lemma CivilFields(c: CivilDate)
    requires c.year >= 0 && 1 <= c.month <= 12 && 1 <= c.day <= 31
    ensures var date := FormatCivil(c);
      Renderer.HasFields(date) && Renderer.MonthInRange(date) &&
      Renderer.MonthField(date) == c.month && Renderer.DayField(date) == c.day
  {
    var y, m, d := NatToDecimal(c.year), Pad2(c.month), Pad2(c.day);
    assert FormatCivil(c) == y + ['-'] + (m + ['-'] + d);
    SplitHead(y, m + ['-'] + d, '-');
    SplitHead(m, d, '-');
    SplitNoSeparator(d, '-');
    ParsePad2(c.month, Renderer.USIZE_MAX);
    ParsePad2(c.day, Renderer.U64_MAX);
  }

  /** The label a calendar day gets: its own month, when the month changes before the 20th. */
  lemma LabelOfDate(st: Renderer.MonthState, day: ContributionDay, t: int)
    requires day.date == FormatDate(t) && CivilOfInstant(t).year >= 0
    ensures Renderer.MonthInRange(day.date)
    ensures var c := CivilOfInstant(t); var month := Renderer.MONTHS[c.month - 1];
      Renderer.Label(st, Some(day)) == if month != st.previous && c.day < 20 then Some(month) else None
  {
    DateFields(t);
  }
}
