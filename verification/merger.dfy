/**
 * The cross-provider merger `process_contributions` (src/main.rs): the weekly
 * calendars of every provider that answered are laid over each other in a
 * grid of seven rows, one per day of the week, indexed by week number.
 *
 * Its specification is a fold: every present collection is flattened into
 * the sequence of `(row, week, day)` entries the nested loops visit, and the
 * entries are merged one at a time into the grid.
 */
module Merger {
  import opened Wrappers
  import opened Types
  import Processor

  /** A row of the grid: one optional cell per week number. */
  type Row = seq<Option<ContributionDay>>

  /** The index of a day inside its week, which is also its row of the grid. */
  type DayIndex = i: int | 0 <= i < 7

  /** The merger's state: `contributions_per_row` and `max_contributions`. */
  datatype Grid = Grid(rows: seq<Row>, max: int)

  /** One visit of the innermost loop: day `row` of week `week`. */
  datatype Entry = Entry(row: DayIndex, week: nat, day: ContributionDay)

  /** `vec![vec![]; 7]` with a running maximum of 0. */
  const EMPTY_GRID: Grid := Grid([[], [], [], [], [], [], []], 0)

  /**
   * What the loops need of a calendar: a negative week number would be cast
   * to a huge `usize` and padded towards forever, and an eighth day would
   * index past the seventh row.
   */
  predicate WellFormedCalendar(calendar: Calendar)
  {
    forall k :: 0 <= k < |calendar| ==> calendar[k].0 >= 0 && |calendar[k].1| <= 7
  }

  predicate WellFormed(collections: seq<Option<ContributionCollection>>)
  {
    forall k :: 0 <= k < |collections| && collections[k].Some? ==>
      WellFormedCalendar(collections[k].value.contributions)
  }

  // ------------------------------------------------------------ flattening

  /** The days of one week, enumerated. */
  function DayEntries(weeknumber: nat, days: seq<ContributionDay>): (entries: seq<Entry>)
    requires |days| <= 7
    ensures |entries| == |days|
  {
    if days == [] then []
    else DayEntries(weeknumber, days[..|days| - 1]) + [Entry(|days| - 1, weeknumber, days[|days| - 1])]
  }

  /** The days of a calendar, week by week in the calendar's order. */
  function WeeksEntries(calendar: Calendar): seq<Entry>
    requires WellFormedCalendar(calendar)
  {
    if calendar == [] then []
    else
      var last := calendar[|calendar| - 1];
      WeeksEntries(calendar[..|calendar| - 1]) + DayEntries(last.0 as nat, last.1)
  }

  /** What one element of the input list contributes: nothing when it is absent. */
  function CollectionEntries(collection: Option<ContributionCollection>): seq<Entry>
    requires collection.Some? ==> WellFormedCalendar(collection.value.contributions)
  {
    match collection
    case None => []
    case Some(c) => WeeksEntries(c.contributions)
  }

  /** Every entry the nested loops visit, in order. */
  function Flatten(collections: seq<Option<ContributionCollection>>): seq<Entry>
    requires WellFormed(collections)
  {
    if collections == [] then []
    else
      Flatten(collections[..|collections| - 1]) + CollectionEntries(collections[|collections| - 1])
  }

  // --------------------------------------------------------------- merging

  /** A row padded with `None` until it has at least `n` cells; never shortened. */
  function Pad(row: Row, n: nat): (r: Row)
    ensures |r| == if |row| >= n then |row| else n
  {
    if |row| >= n then row else row + seq(n - |row|, _ => None)
  }

  /** Padding keeps the existing cells and adds only `None`. */
  lemma PadAt(row: Row, n: nat, k: int)
    requires 0 <= k < |Pad(row, n)|
    ensures Pad(row, n)[k] == if k < |row| then row[k] else None
  {
  }

  /** An empty cell takes a clone of the day; an occupied one adds the day's count. */
  function MergeCell(cell: Option<ContributionDay>, day: ContributionDay): (merged: ContributionDay)
    ensures cell.None? ==> merged == day
    ensures cell.Some? ==> merged == cell.value.(contributionCount := merged.contributionCount)
    ensures merged.contributionCount == CellCount(cell) + day.contributionCount
  {
    match cell
    case None => day
    case Some(existing) => existing.(contributionCount := existing.contributionCount + day.contributionCount)
  }

  /** One pass of the innermost loop body. */
  function MergeEntry(g: Grid, e: Entry): (r: Grid)
    requires |g.rows| == 7
    ensures |r.rows| == 7
  {
    var row := Pad(g.rows[e.row], e.week + 1);
    var merged := MergeCell(row[e.week], e.day);
    Grid(g.rows[e.row := row[e.week := Some(merged)]], Processor.Max(g.max, merged.contributionCount))
  }

  /** The entries merged in order into `g`. */
  function MergeFrom(g: Grid, entries: seq<Entry>): (r: Grid)
    requires |g.rows| == 7
    ensures |r.rows| == 7
  {
    if entries == [] then g
    else MergeEntry(MergeFrom(g, entries[..|entries| - 1]), entries[|entries| - 1])
  }

  /** The entries merged in order into the empty grid. */
  function MergeEntries(entries: seq<Entry>): (g: Grid)
    ensures |g.rows| == 7
  {
    MergeFrom(EMPTY_GRID, entries)
  }

  /** The result `process_contributions` specifies. */
  function Merged(collections: seq<Option<ContributionCollection>>): (g: Grid)
    requires WellFormed(collections)
  {
    MergeEntries(Flatten(collections))
  }

  lemma MergeSnoc(g: Grid, entries: seq<Entry>, e: Entry)
    requires |g.rows| == 7
    ensures MergeFrom(g, entries + [e]) == MergeEntry(MergeFrom(g, entries), e)
  {
    assert (entries + [e])[..|entries|] == entries;
  }

  /** Merging two runs of entries one after the other is merging their concatenation. */
  lemma {:induction false} MergeAppend(g: Grid, a: seq<Entry>, b: seq<Entry>)
    requires |g.rows| == 7
    ensures MergeFrom(g, a + b) == MergeFrom(MergeFrom(g, a), b)
  {
    if b == [] {
      assert a + b == a;
    } else {
      var init, last := b[..|b| - 1], b[|b| - 1];
      SplitLast(a, b);
      MergeAppend(g, a, init);
      MergeSnoc(g, a + init, last);
      MergeSnoc(MergeFrom(g, a), init, last);
    }
  }

  lemma SplitLast(a: seq<Entry>, b: seq<Entry>)
    requires b != []
    ensures a + b == (a + b[..|b| - 1]) + [b[|b| - 1]]
    ensures b == b[..|b| - 1] + [b[|b| - 1]]
  {
  }

  /**
   * The innermost loop body: pad row `day` with `None` until it reaches week
   * `weeknumber`, then merge `contribution` into that cell and raise the
   * running maximum to the cell's new count.
   */
  method MergeDay(rows0: seq<Row>, max0: int, weeknumber: nat, day: DayIndex, contribution: ContributionDay)
    returns (rows: seq<Row>, max: int)
    requires |rows0| == 7
    ensures Grid(rows, max) == MergeEntry(Grid(rows0, max0), Entry(day, weeknumber, contribution))
  {
    rows, max := rows0, max0;
    ghost var row0 := rows[day];
    while |rows[day]| <= weeknumber
      invariant |rows| == 7 && rows == rows0[day := rows[day]]
      invariant |row0| <= |rows[day]| && (|rows[day]| == |row0| || |rows[day]| <= weeknumber + 1)
      invariant forall k :: 0 <= k < |rows[day]| ==> rows[day][k] == if k < |row0| then row0[k] else None
      decreases weeknumber - |rows[day]|
    {
      rows := rows[day := rows[day] + [None]];
    }
    forall k | 0 <= k < |rows[day]| ensures rows[day][k] == Pad(row0, weeknumber + 1)[k] {
      PadAt(row0, weeknumber + 1, k);
    }
    assert rows[day] == Pad(row0, weeknumber + 1);
    match rows[day][weeknumber]
    case Some(existing) =>
      var updated := existing.(contributionCount := existing.contributionCount + contribution.contributionCount);
      rows := rows[day := rows[day][weeknumber := Some(updated)]];
      max := Processor.Max(max, updated.contributionCount);
    case None =>
      rows := rows[day := rows[day][weeknumber := Some(contribution)]];
      max := Processor.Max(max, contribution.contributionCount);
  }

  /** The loop over the days of one week. */
  method MergeWeek(rows0: seq<Row>, max0: int, weeknumber: nat, days: seq<ContributionDay>)
    returns (rows: seq<Row>, max: int)
    requires |rows0| == 7 && |days| <= 7
    ensures Grid(rows, max) == MergeFrom(Grid(rows0, max0), DayEntries(weeknumber, days))
  {
    rows, max := rows0, max0;
    for day := 0 to |days|
      invariant |rows| == 7
      invariant Grid(rows, max) == MergeFrom(Grid(rows0, max0), DayEntries(weeknumber, days[..day]))
    {
      rows, max := MergeDay(rows, max, weeknumber, day, days[day]);
      DaysSnoc(weeknumber, days, day);
      MergeSnoc(Grid(rows0, max0), DayEntries(weeknumber, days[..day]), Entry(day, weeknumber, days[day]));
    }
    assert days[..|days|] == days;
  }

  /** The loop over the weeks of one provider's calendar. */
  method MergeCalendar(rows0: seq<Row>, max0: int, calendar: Calendar)
    returns (rows: seq<Row>, max: int)
    requires |rows0| == 7 && WellFormedCalendar(calendar)
    ensures Grid(rows, max) == MergeFrom(Grid(rows0, max0), WeeksEntries(calendar))
  {
    rows, max := rows0, max0;
    for j := 0 to |calendar|
      invariant |rows| == 7
      invariant Grid(rows, max) == MergeFrom(Grid(rows0, max0), WeeksEntries(calendar[..j]))
    {
      var (weeknumber, days) := calendar[j];
      rows, max := MergeWeek(rows, max, weeknumber, days);
      WeeksSnoc(calendar, j);
      MergeAppend(Grid(rows0, max0), WeeksEntries(calendar[..j]), DayEntries(weeknumber, days));
    }
    assert calendar[..|calendar|] == calendar;
  }

  /**
   * `process_contributions`: for every present collection, every week and
   * every day of the week, pad that day's row with `None` up to the week
   * number, then clone the day into an empty cell or add its count into an
   * occupied one, keeping the running maximum.
   */
  method ProcessContributions(collections: seq<Option<ContributionCollection>>)
    returns (rows: seq<Row>, max: int)
    requires WellFormed(collections)
    ensures Grid(rows, max) == Merged(collections)
  {
    rows := [[], [], [], [], [], [], []];
    max := 0;
    for c := 0 to |collections|
      invariant |rows| == 7
      invariant Grid(rows, max) == MergeFrom(EMPTY_GRID, Flatten(collections[..c]))
    {
      FlattenSnoc(collections, c);
      match collections[c]
      case None =>
      case Some(collection) =>
        rows, max := MergeCalendar(rows, max, collection.contributions);
        MergeAppend(EMPTY_GRID, Flatten(collections[..c]), WeeksEntries(collection.contributions));
    }
    assert collections[..|collections|] == collections;
  }

  lemma FlattenSnoc(collections: seq<Option<ContributionCollection>>, c: int)
    requires WellFormed(collections) && 0 <= c < |collections|
    ensures collections[c].None? ==> Flatten(collections[..c + 1]) == Flatten(collections[..c])
    ensures collections[c].Some? ==>
      Flatten(collections[..c + 1]) == Flatten(collections[..c]) + WeeksEntries(collections[c].value.contributions)
  {
    assert collections[..c + 1][..c] == collections[..c];
    assert Flatten(collections[..c]) + [] == Flatten(collections[..c]);
  }

  lemma WeeksSnoc(calendar: Calendar, j: int)
    requires WellFormedCalendar(calendar) && 0 <= j < |calendar|
    ensures WeeksEntries(calendar[..j + 1]) == WeeksEntries(calendar[..j]) + DayEntries(calendar[j].0 as nat, calendar[j].1)
  {
    assert calendar[..j + 1][..j] == calendar[..j];
  }

  lemma DaysSnoc(weeknumber: nat, days: seq<ContributionDay>, d: int)
    requires |days| <= 7 && 0 <= d < |days|
    ensures DayEntries(weeknumber, days[..d + 1]) == DayEntries(weeknumber, days[..d]) + [Entry(d, weeknumber, days[d])]
  {
    assert days[..d + 1][..d] == days[..d];
  }

  lemma DayEntriesAt(weeknumber: nat, days: seq<ContributionDay>, k: int)
    requires |days| <= 7 && 0 <= k < |days|
    ensures DayEntries(weeknumber, days)[k] == Entry(k, weeknumber, days[k])
  {
    if k < |days| - 1 {
      DayEntriesAt(weeknumber, days[..|days| - 1], k);
    }
  }

  // ----------------------------------------------------------------- shape

  /** The grid cell at row `i` and week `w`; `None` past the end of the row. */
  function CellAt(g: Grid, i: DayIndex, w: nat): Option<ContributionDay>
    requires |g.rows| == 7
  {
    if w < |g.rows[i]| then g.rows[i][w] else None
  }

  predicate IsAt(e: Entry, i: DayIndex, w: nat)
  {
    e.row == i && e.week == w
  }

  /** Some entry visits cell `(i, w)`. */
  ghost predicate Visits(entries: seq<Entry>, i: DayIndex, w: nat)
  {
    exists k :: 0 <= k < |entries| && IsAt(entries[k], i, w)
  }

  /** Some entry visits row `i` at week `w` or later. */
  ghost predicate ReachesWeek(entries: seq<Entry>, i: DayIndex, w: nat)
  {
    exists k :: 0 <= k < |entries| && entries[k].row == i && entries[k].week >= w
  }

  /** What merging one entry does to a cell: only the entry's own cell changes. */
  lemma MergeEntryCell(g: Grid, e: Entry, i: DayIndex, w: nat)
    requires |g.rows| == 7
    ensures CellAt(MergeEntry(g, e), i, w) ==
      if IsAt(e, i, w) then Some(MergeCell(CellAt(g, i, w), e.day)) else CellAt(g, i, w)
  {
    var row := Pad(g.rows[e.row], e.week + 1);
    if i == e.row && w < |row| {
      PadAt(g.rows[e.row], e.week + 1, w);
    }
  }

  /** Rows only grow, and only the entry's row, to just past the entry's week. */
  lemma MergeEntryRowLength(g: Grid, e: Entry, i: DayIndex)
    requires |g.rows| == 7
    ensures |MergeEntry(g, e).rows[i]| ==
      if i == e.row then Processor.Max(|g.rows[i]|, e.week + 1) else |g.rows[i]|
  {
  }

  lemma MergeEntriesSnoc(entries: seq<Entry>)
    requires entries != []
    ensures MergeEntries(entries) == MergeEntry(MergeEntries(entries[..|entries| - 1]), entries[|entries| - 1])
  {
  }

  /**
   * Row `i` is padded exactly as far as the furthest week any entry reached
   * in it, and never truncated.
   */
  lemma {:induction false} RowLength(entries: seq<Entry>, i: DayIndex, w: nat)
    ensures w < |MergeEntries(entries).rows[i]| <==> ReachesWeek(entries, i, w)
  {
    if entries != [] {
      var init, e := entries[..|entries| - 1], entries[|entries| - 1];
      RowLength(init, i, w);
      MergeEntriesSnoc(entries);
      MergeEntryRowLength(MergeEntries(init), e, i);
      ReachesWeekSnoc(entries, i, w);
    }
  }

  lemma ReachesWeekSnoc(entries: seq<Entry>, i: DayIndex, w: nat)
    requires entries != []
    ensures var e := entries[|entries| - 1];
      ReachesWeek(entries, i, w) <==> ReachesWeek(entries[..|entries| - 1], i, w) || (e.row == i && e.week >= w)
  {
    var init := entries[..|entries| - 1];
    if ReachesWeek(init, i, w) {
      var k :| 0 <= k < |init| && init[k].row == i && init[k].week >= w;
      assert entries[k] == init[k];
    }
    if ReachesWeek(entries, i, w) {
      var k :| 0 <= k < |entries| && entries[k].row == i && entries[k].week >= w;
      if k < |init| {
        assert init[k] == entries[k];
      }
    }
  }

  // --------------------------------------------------------------- cells

  /** The day first merged into cell `(i, w)`, if any. */
  function FirstAt(entries: seq<Entry>, i: DayIndex, w: nat): Option<ContributionDay>
  {
    if entries == [] then None
    else
      var first := FirstAt(entries[..|entries| - 1], i, w);
      var e := entries[|entries| - 1];
      if first.Some? then first else if IsAt(e, i, w) then Some(e.day) else None
  }

  /** The sum of the counts of every day merged into cell `(i, w)`. */
  function CountAt(entries: seq<Entry>, i: DayIndex, w: nat): int
  {
    if entries == [] then 0
    else
      var e := entries[|entries| - 1];
      CountAt(entries[..|entries| - 1], i, w) + if IsAt(e, i, w) then e.day.contributionCount else 0
  }

  /**
   * The cell `(i, w)` as the merge describes it: absent when no day reached
   * it, otherwise the first day to reach it carrying the sum of all counts.
   */
  function ExpectedCell(entries: seq<Entry>, i: DayIndex, w: nat): Option<ContributionDay>
  {
    match FirstAt(entries, i, w)
    case None => None
    case Some(first) => Some(first.(contributionCount := CountAt(entries, i, w)))
  }

  /** No first day means no day at all, and nothing counted. */
  lemma {:induction false} FirstAtNone(entries: seq<Entry>, i: DayIndex, w: nat)
    ensures FirstAt(entries, i, w).None? <==> !Visits(entries, i, w)
    ensures FirstAt(entries, i, w).None? ==> CountAt(entries, i, w) == 0
  {
    if entries != [] {
      var init := entries[..|entries| - 1];
      FirstAtNone(init, i, w);
      if Visits(init, i, w) {
        var k :| 0 <= k < |init| && IsAt(init[k], i, w);
        assert entries[k] == init[k];
      }
      if Visits(entries, i, w) && !IsAt(entries[|entries| - 1], i, w) {
        var k :| 0 <= k < |entries| && IsAt(entries[k], i, w);
        assert init[k] == entries[k];
      }
    }
  }

  /** The first entry to visit a cell is the day the cell was cloned from. */
  lemma {:induction false} FirstAtIsFirst(entries: seq<Entry>, i: DayIndex, w: nat, k: int)
    requires 0 <= k < |entries| && IsAt(entries[k], i, w)
    requires forall j :: 0 <= j < k ==> !IsAt(entries[j], i, w)
    ensures FirstAt(entries, i, w) == Some(entries[k].day)
  {
    var init := entries[..|entries| - 1];
    if k < |entries| - 1 {
      FirstAtIsFirst(init, i, w, k);
    } else {
      FirstAtNone(init, i, w);
      forall j | 0 <= j < |init| ensures !IsAt(init[j], i, w) {
        assert init[j] == entries[j];
      }
    }
  }

  /** Every cell of the merged grid is the one `ExpectedCell` describes. */
  lemma {:induction false} MergedCell(entries: seq<Entry>, i: DayIndex, w: nat)
    ensures CellAt(MergeEntries(entries), i, w) == ExpectedCell(entries, i, w)
  {
    if entries != [] {
      var init, e := entries[..|entries| - 1], entries[|entries| - 1];
      MergedCell(init, i, w);
      MergeEntriesSnoc(entries);
      MergeEntryCell(MergeEntries(init), e, i, w);
      FirstAtNone(init, i, w);
    }
  }

  /**
   * A row of the merged grid that holds anything ends with a day: the last
   * week a row was padded to is the week some entry filled.
   */
  lemma MergedRowEndsWithDay(entries: seq<Entry>, i: DayIndex)
    ensures var row := MergeEntries(entries).rows[i];
      row == [] || row[|row| - 1].Some?
  {
    var row := MergeEntries(entries).rows[i];
    if row != [] {
      var last := |row| - 1;
      RowLength(entries, i, last);
      RowLength(entries, i, last + 1);
      var k :| 0 <= k < |entries| && entries[k].row == i && entries[k].week >= last;
      assert IsAt(entries[k], i, last);
      FirstAtNone(entries, i, last);
      MergedCell(entries, i, last);
    }
  }

  // --------------------------------------------------------------- totals

  function CellCount(cell: Option<ContributionDay>): int
  {
    if cell.Some? then cell.value.contributionCount else 0
  }

  function RowTotal(row: Row): int
  {
    if row == [] then 0 else RowTotal(row[..|row| - 1]) + CellCount(row[|row| - 1])
  }

  /** The sum of every count in the grid. */
  function GridTotal(rows: seq<Row>): int
  {
    if rows == [] then 0 else GridTotal(rows[..|rows| - 1]) + RowTotal(rows[|rows| - 1])
  }

  function EntriesTotal(entries: seq<Entry>): int
  {
    if entries == [] then 0
    else EntriesTotal(entries[..|entries| - 1]) + entries[|entries| - 1].day.contributionCount
  }

  function DaysTotal(days: seq<ContributionDay>): int
  {
    if days == [] then 0 else DaysTotal(days[..|days| - 1]) + days[|days| - 1].contributionCount
  }

  function CalendarTotal(calendar: Calendar): int
  {
    if calendar == [] then 0
    else CalendarTotal(calendar[..|calendar| - 1]) + DaysTotal(calendar[|calendar| - 1].1)
  }

  /** The sum of every day count of every present collection. */
  function CollectionsTotal(collections: seq<Option<ContributionCollection>>): int
  {
    if collections == [] then 0
    else
      var last := collections[|collections| - 1];
      CollectionsTotal(collections[..|collections| - 1])
        + if last.Some? then CalendarTotal(last.value.contributions) else 0
  }

  lemma {:induction false} RowTotalUpdate(row: Row, k: int, cell: Option<ContributionDay>)
    requires 0 <= k < |row|
    ensures RowTotal(row[k := cell]) == RowTotal(row) - CellCount(row[k]) + CellCount(cell)
  {
    var init := row[..|row| - 1];
    if k < |row| - 1 {
      RowTotalUpdate(init, k, cell);
      assert row[k := cell][..|row| - 1] == init[k := cell];
    } else {
      assert row[k := cell][..|row| - 1] == init;
    }
  }

  lemma {:induction false} RowTotalNones(row: Row, m: nat)
    ensures RowTotal(row + seq(m, _ => None)) == RowTotal(row)
  {
    if m > 0 {
      RowTotalNones(row, m - 1);
      assert (row + seq(m, _ => None))[..|row| + m - 1] == row + seq(m - 1, _ => None);
    } else {
      assert row + seq(m, _ => None) == row;
    }
  }

  lemma {:induction false} GridTotalUpdate(rows: seq<Row>, i: int, row: Row)
    requires 0 <= i < |rows|
    ensures GridTotal(rows[i := row]) == GridTotal(rows) - RowTotal(rows[i]) + RowTotal(row)
  {
    var init := rows[..|rows| - 1];
    if i < |rows| - 1 {
      GridTotalUpdate(init, i, row);
      assert rows[i := row][..|rows| - 1] == init[i := row];
    } else {
      assert rows[i := row][..|rows| - 1] == init;
    }
  }

  /** Merging a day adds exactly its count to the grid's total. */
  lemma MergeEntryTotal(g: Grid, e: Entry)
    requires |g.rows| == 7
    ensures GridTotal(MergeEntry(g, e).rows) == GridTotal(g.rows) + e.day.contributionCount
  {
    var old_row := g.rows[e.row];
    var row := Pad(old_row, e.week + 1);
    if |old_row| < e.week + 1 {
      RowTotalNones(old_row, e.week + 1 - |old_row|);
    }
    PadAt(old_row, e.week + 1, e.week);
    RowTotalUpdate(row, e.week, Some(MergeCell(row[e.week], e.day)));
    GridTotalUpdate(g.rows, e.row, row[e.week := Some(MergeCell(row[e.week], e.day))]);
  }

  lemma {:induction false} GridTotalOfEmptyRows(rows: seq<Row>)
    requires forall k :: 0 <= k < |rows| ==> rows[k] == []
    ensures GridTotal(rows) == 0
  {
    if rows != [] {
      GridTotalOfEmptyRows(rows[..|rows| - 1]);
    }
  }

  /** Nothing is lost or counted twice: the grid holds the sum of all merged counts. */
  lemma {:induction false} MergedTotal(entries: seq<Entry>)
    ensures GridTotal(MergeEntries(entries).rows) == EntriesTotal(entries)
  {
    if entries == [] {
      GridTotalOfEmptyRows(EMPTY_GRID.rows);
    } else {
      var init := entries[..|entries| - 1];
      var e := entries[|entries| - 1];
      MergedTotal(init);
      MergeEntriesSnoc(entries);
      MergeEntryTotal(MergeEntries(init), e);
      assert GridTotal(MergeEntries(entries).rows) == GridTotal(MergeEntries(init).rows) + e.day.contributionCount;
      assert EntriesTotal(entries) == EntriesTotal(init) + e.day.contributionCount;
    }
  }

  lemma {:induction false} EntriesTotalAppend(a: seq<Entry>, b: seq<Entry>)
    ensures EntriesTotal(a + b) == EntriesTotal(a) + EntriesTotal(b)
  {
    if b == [] {
      assert a + b == a;
    } else {
      EntriesTotalAppend(a, b[..|b| - 1]);
      assert (a + b)[..|a + b| - 1] == a + b[..|b| - 1];
    }
  }

  lemma {:induction false} DayEntriesTotal(weeknumber: nat, days: seq<ContributionDay>)
    requires |days| <= 7
    ensures EntriesTotal(DayEntries(weeknumber, days)) == DaysTotal(days)
  {
    if days != [] {
      var init := days[..|days| - 1];
      DayEntriesTotal(weeknumber, init);
      var es := DayEntries(weeknumber, days);
      assert es[..|es| - 1] == DayEntries(weeknumber, init);
    }
  }

  lemma {:induction false} WeeksEntriesTotal(calendar: Calendar)
    requires WellFormedCalendar(calendar)
    ensures EntriesTotal(WeeksEntries(calendar)) == CalendarTotal(calendar)
  {
    if calendar != [] {
      var last := calendar[|calendar| - 1];
      WeeksEntriesTotal(calendar[..|calendar| - 1]);
      EntriesTotalAppend(WeeksEntries(calendar[..|calendar| - 1]), DayEntries(last.0 as nat, last.1));
      DayEntriesTotal(last.0 as nat, last.1);
    }
  }

  lemma {:induction false} FlattenTotal(collections: seq<Option<ContributionCollection>>)
    requires WellFormed(collections)
    ensures EntriesTotal(Flatten(collections)) == CollectionsTotal(collections)
  {
    if collections != [] {
      var init, last := collections[..|collections| - 1], collections[|collections| - 1];
      FlattenTotal(init);
      EntriesTotalAppend(Flatten(init), CollectionEntries(last));
      if last.Some? {
        WeeksEntriesTotal(last.value.contributions);
      }
    }
  }

  /**
   * Sum preservation: the counts in the merged grid add up to the counts of
   * every day of every present collection.
   */
  lemma MergedCollectionsTotal(collections: seq<Option<ContributionCollection>>)
    requires WellFormed(collections)
    ensures GridTotal(Merged(collections).rows) == CollectionsTotal(collections)
  {
    MergedTotal(Flatten(collections));
    FlattenTotal(collections);
  }

  // -------------------------------------------------------------- maximum

  /** The running maximum is at least 0 and at least every cell's count. */
  ghost predicate MaxBounds(g: Grid)
    requires |g.rows| == 7
  {
    g.max >= 0 &&
    forall i: DayIndex, w: nat :: CellAt(g, i, w).Some? ==> CellAt(g, i, w).value.contributionCount <= g.max
  }

  /** The running maximum is 0 or the count of some cell. */
  ghost predicate MaxAttained(g: Grid)
    requires |g.rows| == 7
  {
    g.max == 0 ||
    exists i: DayIndex, w: nat :: CellAt(g, i, w).Some? && CellAt(g, i, w).value.contributionCount == g.max
  }

  ghost predicate NonNegativeCells(g: Grid)
    requires |g.rows| == 7
  {
    forall i: DayIndex, w: nat :: CellAt(g, i, w).Some? ==> CellAt(g, i, w).value.contributionCount >= 0
  }

  predicate NonNegativeEntries(entries: seq<Entry>)
  {
    forall k :: 0 <= k < |entries| ==> entries[k].day.contributionCount >= 0
  }

  lemma {:induction false} MergedMaxBounds(entries: seq<Entry>)
    ensures MaxBounds(MergeEntries(entries))
  {
    if entries != [] {
      var init, e := entries[..|entries| - 1], entries[|entries| - 1];
      MergedMaxBounds(init);
      MergeEntriesSnoc(entries);
      var g := MergeEntries(init);
      forall i: DayIndex, w: nat | CellAt(MergeEntry(g, e), i, w).Some?
        ensures CellAt(MergeEntry(g, e), i, w).value.contributionCount <= MergeEntry(g, e).max
      {
        MergeEntryCell(g, e, i, w);
      }
    }
  }

  /** With non-negative counts, the maximum is reached by some cell unless it is 0. */
  lemma {:induction false} MergedMaxAttained(entries: seq<Entry>)
    requires NonNegativeEntries(entries)
    ensures NonNegativeCells(MergeEntries(entries)) && MaxAttained(MergeEntries(entries))
  {
    if entries != [] {
      var init, e := entries[..|entries| - 1], entries[|entries| - 1];
      forall k | 0 <= k < |init| ensures init[k].day.contributionCount >= 0 {
        assert init[k] == entries[k];
      }
      MergedMaxAttained(init);
      MergeEntriesSnoc(entries);
      var g := MergeEntries(init);
      var g' := MergeEntry(g, e);
      forall i: DayIndex, w: nat | CellAt(g', i, w).Some?
        ensures CellAt(g', i, w).value.contributionCount >= 0
      {
        MergeEntryCell(g, e, i, w);
      }
      MergeEntryCell(g, e, e.row, e.week);
      if g'.max != g.max {
        assert CellAt(g', e.row, e.week).value.contributionCount == g'.max;
      } else if g.max != 0 {
        var i: DayIndex, w: nat :| CellAt(g, i, w).Some? && CellAt(g, i, w).value.contributionCount == g.max;
        MergeEntryCell(g, e, i, w);
        assert CellAt(g', i, w).value.contributionCount == g'.max;
      }
    }
  }

  // ----------------------------------------------- in terms of the input

  /** Some week numbered `w` of the calendar has a day at index `i`. */
  ghost predicate CalendarHasDay(calendar: Calendar, i: DayIndex, w: nat)
  {
    exists j :: 0 <= j < |calendar| && calendar[j].0 == w && i < |calendar[j].1|
  }

  /** Some present collection has a week numbered `w` with a day at index `i`. */
  ghost predicate HasDay(collections: seq<Option<ContributionCollection>>, i: DayIndex, w: nat)
  {
    exists c :: 0 <= c < |collections| && collections[c].Some? && CalendarHasDay(collections[c].value.contributions, i, w)
  }

  /** Every day count of every present collection is non-negative. */
  predicate NonNegativeCounts(collections: seq<Option<ContributionCollection>>)
  {
    forall c, j, d ::
      0 <= c < |collections| && collections[c].Some? &&
      0 <= j < |collections[c].value.contributions| &&
      0 <= d < |collections[c].value.contributions[j].1| ==>
        collections[c].value.contributions[j].1[d].contributionCount >= 0
  }

  lemma VisitsAppend(a: seq<Entry>, b: seq<Entry>, i: DayIndex, w: nat)
    ensures Visits(a + b, i, w) <==> Visits(a, i, w) || Visits(b, i, w)
  {
    if Visits(a, i, w) {
      var k :| 0 <= k < |a| && IsAt(a[k], i, w);
      assert (a + b)[k] == a[k];
    }
    if Visits(b, i, w) {
      var k :| 0 <= k < |b| && IsAt(b[k], i, w);
      assert (a + b)[|a| + k] == b[k];
    }
    if Visits(a + b, i, w) {
      var k :| 0 <= k < |a + b| && IsAt((a + b)[k], i, w);
      if k >= |a| {
        assert b[k - |a|] == (a + b)[k];
      }
    }
  }

  lemma VisitsDays(weeknumber: nat, days: seq<ContributionDay>, i: DayIndex, w: nat)
    requires |days| <= 7
    ensures Visits(DayEntries(weeknumber, days), i, w) <==> weeknumber == w && i < |days|
  {
    if weeknumber == w && i < |days| {
      DayEntriesAt(weeknumber, days, i);
    }
    if Visits(DayEntries(weeknumber, days), i, w) {
      var k :| 0 <= k < |days| && IsAt(DayEntries(weeknumber, days)[k], i, w);
      DayEntriesAt(weeknumber, days, k);
    }
  }

  lemma {:induction false} VisitsWeeks(calendar: Calendar, i: DayIndex, w: nat)
    requires WellFormedCalendar(calendar)
    ensures Visits(WeeksEntries(calendar), i, w) <==> CalendarHasDay(calendar, i, w)
  {
    if calendar == [] {
    } else {
      var init, last := calendar[..|calendar| - 1], calendar[|calendar| - 1];
      VisitsWeeks(init, i, w);
      VisitsAppend(WeeksEntries(init), DayEntries(last.0 as nat, last.1), i, w);
      VisitsDays(last.0 as nat, last.1, i, w);
      if CalendarHasDay(init, i, w) {
        var j :| 0 <= j < |init| && init[j].0 == w && i < |init[j].1|;
        assert calendar[j] == init[j];
      }
      if CalendarHasDay(calendar, i, w) {
        var j :| 0 <= j < |calendar| && calendar[j].0 == w && i < |calendar[j].1|;
        if j < |init| {
          assert init[j] == calendar[j];
        }
      }
    }
  }

  lemma {:induction false} VisitsFlatten(collections: seq<Option<ContributionCollection>>, i: DayIndex, w: nat)
    requires WellFormed(collections)
    ensures Visits(Flatten(collections), i, w) <==> HasDay(collections, i, w)
  {
    if collections != [] {
      var init, last := collections[..|collections| - 1], collections[|collections| - 1];
      VisitsFlatten(init, i, w);
      VisitsAppend(Flatten(init), CollectionEntries(last), i, w);
      if last.Some? {
        VisitsWeeks(last.value.contributions, i, w);
      }
      if HasDay(init, i, w) {
        var c :| 0 <= c < |init| && init[c].Some? && CalendarHasDay(init[c].value.contributions, i, w);
        assert collections[c] == init[c];
      }
      if HasDay(collections, i, w) {
        var c :| 0 <= c < |collections| && collections[c].Some? && CalendarHasDay(collections[c].value.contributions, i, w);
        if c < |init| {
          assert init[c] == collections[c];
        }
      }
    }
  }

  /** Cell `(i, w)` of the merged grid is present exactly when some present collection has that day. */
  lemma MergedCellPresent(collections: seq<Option<ContributionCollection>>, i: DayIndex, w: nat)
    requires WellFormed(collections)
    ensures CellAt(Merged(collections), i, w).Some? <==> HasDay(collections, i, w)
  {
    MergedCell(Flatten(collections), i, w);
    FirstAtNone(Flatten(collections), i, w);
    VisitsFlatten(collections, i, w);
  }

  lemma {:induction false} WeeksNonNegative(calendar: Calendar)
    requires WellFormedCalendar(calendar)
    requires forall j, d :: 0 <= j < |calendar| && 0 <= d < |calendar[j].1| ==> calendar[j].1[d].contributionCount >= 0
    ensures NonNegativeEntries(WeeksEntries(calendar))
  {
    if calendar != [] {
      var init, last := calendar[..|calendar| - 1], calendar[|calendar| - 1];
      assert forall j, d :: 0 <= j < |init| && 0 <= d < |init[j].1| ==> init[j].1[d].contributionCount >= 0 by {
        forall j, d | 0 <= j < |init| && 0 <= d < |init[j].1| ensures init[j].1[d].contributionCount >= 0 {
          assert init[j] == calendar[j];
        }
      }
      WeeksNonNegative(init);
      var a: seq<Entry>, b: seq<Entry> := WeeksEntries(init), DayEntries(last.0 as nat, last.1);
      forall k | 0 <= k < |a + b| ensures (a + b)[k].day.contributionCount >= 0 {
        if k >= |a| {
          DayEntriesAt(last.0 as nat, last.1, k - |a|);
        }
      }
    }
  }

  lemma {:induction false} FlattenNonNegative(collections: seq<Option<ContributionCollection>>)
    requires WellFormed(collections) && NonNegativeCounts(collections)
    ensures NonNegativeEntries(Flatten(collections))
  {
    if collections != [] {
      var init, last := collections[..|collections| - 1], collections[|collections| - 1];
      assert NonNegativeCounts(init) by {
        forall c, j, d | 0 <= c < |init| && init[c].Some? && 0 <= j < |init[c].value.contributions| &&
          0 <= d < |init[c].value.contributions[j].1|
          ensures init[c].value.contributions[j].1[d].contributionCount >= 0
        {
          assert init[c] == collections[c];
        }
      }
      FlattenNonNegative(init);
      if last.Some? {
        WeeksNonNegative(last.value.contributions);
      }
      var a: seq<Entry>, b: seq<Entry> := Flatten(init), CollectionEntries(last);
      assert NonNegativeEntries(a + b) by {
        forall k | 0 <= k < |a + b| ensures (a + b)[k].day.contributionCount >= 0 {
          if k >= |a| {
            assert (a + b)[k] == b[k - |a|];
          }
        }
      }
    }
  }

  /**
   * The returned maximum is at least 0 and every cell's final count; with
   * non-negative counts it is the largest cell's count (or 0 if there is none).
   */
  lemma MergedMax(collections: seq<Option<ContributionCollection>>)
    requires WellFormed(collections)
    ensures MaxBounds(Merged(collections))
    ensures NonNegativeCounts(collections) ==> MaxAttained(Merged(collections))
  {
    MergedMaxBounds(Flatten(collections));
    if NonNegativeCounts(collections) {
      FlattenNonNegative(collections);
      MergedMaxAttained(Flatten(collections));
    }
  }

  /** With every collection absent the grid is seven empty rows and the maximum is 0. */
  lemma {:induction false} AllAbsentIsEmpty(collections: seq<Option<ContributionCollection>>)
    requires forall k :: 0 <= k < |collections| ==> collections[k].None?
    ensures WellFormed(collections) && Flatten(collections) == [] && Merged(collections) == EMPTY_GRID
  {
    if collections != [] {
      AllAbsentIsEmpty(collections[..|collections| - 1]);
      assert Flatten(collections) == [] + [];
    }
  }

  /** The present collections, in list order. */
  function Present(collections: seq<Option<ContributionCollection>>): (present: seq<Option<ContributionCollection>>)
    ensures forall k :: 0 <= k < |present| ==> present[k].Some?
    ensures forall x :: x in present ==> x in collections
  {
    if collections == [] then []
    else
      var last := collections[|collections| - 1];
      Present(collections[..|collections| - 1]) + if last.Some? then [last] else []
  }

  lemma PresentWellFormed(collections: seq<Option<ContributionCollection>>)
    requires WellFormed(collections)
    ensures WellFormed(Present(collections))
  {
    var present := Present(collections);
    forall k | 0 <= k < |present| && present[k].Some?
      ensures WellFormedCalendar(present[k].value.contributions)
    {
      assert present[k] in collections;
      var j :| 0 <= j < |collections| && collections[j] == present[k];
    }
  }

  /** Absent collections are skipped: merging only the present ones gives the same grid. */
  lemma {:induction false} SkipsAbsent(collections: seq<Option<ContributionCollection>>)
    requires WellFormed(collections)
    ensures WellFormed(Present(collections))
    ensures Flatten(Present(collections)) == Flatten(collections)
    ensures Merged(Present(collections)) == Merged(collections)
  {
    PresentWellFormed(collections);
    if collections != [] {
      var init, last := collections[..|collections| - 1], collections[|collections| - 1];
      SkipsAbsent(init);
      PresentWellFormed(init);
      var p := Present(init);
      if last.Some? {
        assert Present(collections) == p + [last];
        assert (p + [last])[..|p|] == p;
        assert Flatten(p + [last]) == Flatten(p) + CollectionEntries(last);
      } else {
        assert Present(collections) == p;
        assert Flatten(collections) == Flatten(init) + [];
      }
    }
  }
}
