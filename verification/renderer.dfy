/**
 * The terminal renderer of src/renderer.rs: the parsing of "#rrggbb" colours,
 * the shade a cell is drawn in, the cut-off of the current week, and the two
 * lines of output, the month labels and the graph itself.
 *
 * The terminal is replaced by the value each method returns: the month line
 * as the text written, the graph as one sequence of glyphs per row, each glyph
 * standing for the colour changes and the "■ " written for one cell. The
 * current weekday (`OffsetDateTime::now_utc().weekday()`) is a parameter.
 */
module Renderer {
  import opened Wrappers
  import opened Types
  import opened Text
  import Merger

  type Row = Merger.Row

  // --------------------------------------------------------------- colours

  /** A terminal colour, `(u8, u8, u8)`. */
  datatype Rgb = Rgb(r: nat, g: nat, b: nat)

  /** `u8::from_str_radix(_, 16).unwrap_or(0)`. */
  function HexComponent(s: string): (v: nat)
    ensures v < 256
  {
    match ParseUnsigned(s, 16, 255)
    case Some(x) => x
    case None => 0
  }

  /** What `to_rgb` needs to slice six characters after the leading '#'s. */
  predicate IsColorText(s: string)
  {
    |TrimStartMatches(s, '#')| >= 6
  }

  /** `to_rgb`: the three two-digit components after the leading '#'s, 0 where one does not parse. */
  function ToRgb(s: string): (rgb: Rgb)
    requires IsColorText(s)
    ensures rgb.r < 256 && rgb.g < 256 && rgb.b < 256
  {
    var hex := TrimStartMatches(s, '#');
    Rgb(HexComponent(hex[0..2]), HexComponent(hex[2..4]), HexComponent(hex[4..6]))
  }

  /** Writing a colour as "#rrggbb" and reading it back gives the colour. */
  lemma ToRgbRoundTrip(r: nat, g: nat, b: nat)
    requires r < 256 && g < 256 && b < 256
    ensures IsColorText("#" + HexByte(r) + HexByte(g) + HexByte(b))
    ensures ToRgb("#" + HexByte(r) + HexByte(g) + HexByte(b)) == Rgb(r, g, b)
  {
    var hex := HexByte(r) + HexByte(g) + HexByte(b);
    assert "#" + HexByte(r) + HexByte(g) + HexByte(b) == "#" + hex;
    assert hex[0] == HEX_DIGITS[r / 16];
    assert TrimStartMatches(("#" + hex)[1..], '#') == hex by {
      assert ("#" + hex)[1..] == hex;
    }
    assert hex[0..2] == HexByte(r) && hex[2..4] == HexByte(g) && hex[4..6] == HexByte(b);
    ParseHexByte(r);
    ParseHexByte(g);
    ParseHexByte(b);
  }

  /**
   * Each component is read from its own pair of digits: a pair that does not
   * parse turns that component to 0 and leaves the other two as they are.
   */
  lemma ToRgbComponentwise(a: string, b: string, c: string)
    requires |a| == 2 && |b| == 2 && |c| == 2 && a[0] != '#'
    ensures IsColorText("#" + a + b + c)
    ensures ToRgb("#" + a + b + c) == Rgb(HexComponent(a), HexComponent(b), HexComponent(c))
    ensures ParseUnsigned(a, 16, 255).None? ==> ToRgb("#" + a + b + c).r == 0
    ensures ParseUnsigned(b, 16, 255).None? ==> ToRgb("#" + a + b + c).g == 0
    ensures ParseUnsigned(c, 16, 255).None? ==> ToRgb("#" + a + b + c).b == 0
  {
    var hex := a + b + c;
    assert "#" + a + b + c == "#" + hex;
    assert TrimStartMatches(("#" + hex)[1..], '#') == hex by {
      assert ("#" + hex)[1..] == hex;
      assert hex[0] == a[0];
    }
    assert hex[0..2] == a && hex[2..4] == b && hex[4..6] == c;
  }

  /** Only the first six characters after the '#'s are read: anything after them is ignored. */
  lemma ToRgbIgnoresTail(s: string, t: string)
    requires IsColorText(s)
    ensures IsColorText(s + t) && ToRgb(s + t) == ToRgb(s)
  {
    TrimStartAppend(s, t, '#');
    PrefixSlices(TrimStartMatches(s, '#'), t);
  }

  lemma PrefixSlices(hex: string, t: string)
    requires |hex| >= 6
    ensures (hex + t)[0..2] == hex[0..2] && (hex + t)[2..4] == hex[2..4] && (hex + t)[4..6] == hex[4..6]
  {
  }

  /** Any number of leading '#'s is skipped. */
  lemma {:induction false} ToRgbIgnoresHashes(s: string, n: nat)
    requires IsColorText(s)
    ensures IsColorText(seq(n, _ => '#') + s)
    ensures ToRgb(seq(n, _ => '#') + s) == ToRgb(s)
  {
    if n > 0 {
      ToRgbIgnoresHashes(s, n - 1);
      var u := seq(n, _ => '#') + s;
      assert u[0] == '#';
      assert u[1..] == seq(n - 1, _ => '#') + s;
    } else {
      assert seq(n, _ => '#') + s == s;
    }
  }

  /** "Dim the color if it's light": every component above 200. */
  predicate IsDim(rgb: Rgb)
  {
    rgb.r > 200 && rgb.g > 200 && rgb.b > 200
  }

  // ----------------------------------------------------------------- shades

  /** The ratio `count / max` is positive: both have the same non-zero sign. */
  predicate SameSign(count: int, max: int)
  {
    (count > 0 && max > 0) || (count < 0 && max < 0)
  }

  function Abs(x: int): nat
  {
    if x < 0 then -x else x
  }

  /**
   * The shade of a cell: `ceil(count / max * (len - 1)) as usize`, and 0 for
   * an empty cell. A ratio of zero or less, and the NaN of 0 / 0, cast to 0;
   * a positive count over a zero maximum would be an infinite index.
   */
  function ColorIndex(cell: Option<ContributionDay>, max: int, len: nat): (i: nat)
    requires len >= 1
    requires cell.Some? && cell.value.contributionCount > 0 ==> max != 0
    ensures cell.None? || !SameSign(cell.value.contributionCount, max) ==> i == 0
  {
    if cell.None? || !SameSign(cell.value.contributionCount, max) then 0
    else CeilDiv(Product(Abs(cell.value.contributionCount), len - 1), Abs(max))
  }

  /**
   * `a * b`, by repeated addition, so that the solver meets the product only
   * in the proofs that ask for it (`ProductIs`).
   */
  function Product(a: nat, b: nat): nat
  {
    if a == 0 then 0 else Product(a - 1, b) + b
  }

  lemma {:induction false} ProductIs(a: nat, b: nat)
    ensures Product(a, b) == a * b
  {
    if a > 0 {
      ProductIs(a - 1, b);
    }
  }

  /** `ceil(a / m)`, by repeated subtraction. */
  function CeilDiv(a: nat, m: nat): nat
    requires m > 0
    decreases a
  {
    if a == 0 then 0 else if a <= m then 1 else 1 + CeilDiv(a - m, m)
  }

  /** `CeilDiv` is the ceiling: the least `q` with `a <= q * m`. */
  lemma {:induction false} CeilDivIsCeiling(a: nat, m: nat)
    requires m > 0
    ensures (CeilDiv(a, m) - 1) * m < a <= CeilDiv(a, m) * m
  {
    if a > m {
      CeilDivIsCeiling(a - m, m);
      var q := CeilDiv(a - m, m);
      assert (q + 1) * m == q * m + m && q * m == (q - 1) * m + m;
    }
  }

  /** The shade of a day is the ceiling of its share of the maximum, scaled to the palette. */
  lemma ColorIndexIsCeiling(day: ContributionDay, max: int, len: nat)
    requires len >= 1 && SameSign(day.contributionCount, max)
    ensures var i := ColorIndex(Some(day), max, len);
      (i - 1) * Abs(max) < Abs(day.contributionCount) * (len - 1) <= i * Abs(max)
  {
    ProductIs(Abs(day.contributionCount), len - 1);
    CeilDivIsCeiling(Abs(day.contributionCount) * (len - 1), Abs(max));
  }

  lemma MulMonotone(a: nat, b: nat, m: nat)
    requires a <= b
    ensures a * m <= b * m
  {
  }

  /**
   * Shades stay inside the palette when the maximum is at least 0 and at
   * least the cell's count, as the merged grid's maximum is.
   */
  lemma ColorIndexInPalette(cell: Option<ContributionDay>, max: int, len: nat)
    requires len >= 1 && max >= 0
    requires cell.Some? ==> cell.value.contributionCount <= max
    ensures cell.Some? && cell.value.contributionCount > 0 ==> max != 0
    ensures ColorIndex(cell, max, len) < len
  {
    if cell.Some? && SameSign(cell.value.contributionCount, max) {
      var q, a := ColorIndex(cell, max, len), cell.value.contributionCount;
      ColorIndexIsCeiling(cell.value, max, len);
      MulMonotone(a, max, len - 1);
      assert max * (len - 1) == (len - 1) * max;
      if q >= len {
        MulMonotone(len - 1, q - 1, max);
        assert false;
      }
    }
  }

  /** The busiest cell takes the last colour of the palette. */
  lemma ColorIndexOfMax(day: ContributionDay, len: nat)
    requires len >= 1 && day.contributionCount > 0
    ensures ColorIndex(Some(day), day.contributionCount, len) == len - 1
  {
    var m := day.contributionCount;
    var q := ColorIndex(Some(day), m, len);
    ColorIndexIsCeiling(day, m, len);
    assert (q - 1) * m < m * (len - 1) <= q * m;
    assert m * (len - 1) == (len - 1) * m;
    if q < len - 1 {
      MulMonotone(q, len - 2, m);
      assert false;
    } else if q > len - 1 {
      MulMonotone(len - 1, q - 1, m);
      assert false;
    }
  }

  /** A positive count takes a non-blank shade as soon as the palette has two colours. */
  lemma ColorIndexPositive(day: ContributionDay, max: int, len: nat)
    requires len >= 2 && day.contributionCount > 0 && max > 0
    ensures ColorIndex(Some(day), max, len) >= 1
  {
    ColorIndexIsCeiling(day, max, len);
    MulMonotone(1, day.contributionCount, len - 1);
  }

  /** More contributions never give a lower palette index. */
  lemma ColorIndexMonotone(a: ContributionDay, b: ContributionDay, max: int, len: nat)
    requires len >= 1 && max > 0
    requires 0 < a.contributionCount <= b.contributionCount
    ensures ColorIndex(Some(a), max, len) <= ColorIndex(Some(b), max, len)
  {
    var qa, qb := ColorIndex(Some(a), max, len), ColorIndex(Some(b), max, len);
    ColorIndexIsCeiling(a, max, len);
    ColorIndexIsCeiling(b, max, len);
    MulMonotone(a.contributionCount, b.contributionCount, len - 1);
    if qa > qb {
      MulMonotone(qb, qa - 1, max);
      assert false;
    }
  }

  // ----------------------------------------------------------------- cut-off

  /** `row.last().unwrap().as_ref().unwrap()` cannot panic: a row holding a day ends with one. */
  predicate EndsWithDay(row: Row)
  {
    forall k :: 0 <= k < |row| && row[k].Some? ==> row[|row| - 1].Some?
  }

  /** The loops break at a day of the row's last date whose weekday is still to come. */
  predicate Stops(row: Row, k: int, today: int)
    requires EndsWithDay(row) && 0 <= k < |row|
  {
    row[k].Some? && row[k].value.date == row[|row| - 1].value.date && row[k].value.weekday > today
  }

  /** The number of cells drawn from `k` on: up to the first cell where the loop breaks. */
  function CutoffFrom(row: Row, today: int, k: nat): (n: nat)
    requires EndsWithDay(row) && k <= |row|
    ensures k <= n <= |row|
    ensures forall j :: k <= j < n ==> !Stops(row, j, today)
    ensures n < |row| ==> Stops(row, n, today)
    decreases |row| - k
  {
    if k == |row| || Stops(row, k, today) then k else CutoffFrom(row, today, k + 1)
  }

  /** The number of cells of a row that are drawn. */
  function Cutoff(row: Row, today: int): (n: nat)
    requires EndsWithDay(row)
    ensures n <= |row|
    ensures forall j :: 0 <= j < n ==> !Stops(row, j, today)
    ensures n < |row| ==> Stops(row, n, today)
  {
    CutoffFrom(row, today, 0)
  }

  /** The dates of a row's days are pairwise distinct. */
  predicate DistinctDates(row: Row)
  {
    forall j, k :: 0 <= j < k < |row| && row[j].Some? && row[k].Some? ==> row[j].value.date != row[k].value.date
  }

  /**
   * When every date of a row is distinct, only the last cell can be cut off,
   * and it is exactly when its weekday is still to come.
   */
  lemma CutoffOfDistinctDates(row: Row, today: int)
    requires |row| > 0 && row[|row| - 1].Some? && DistinctDates(row)
    ensures EndsWithDay(row)
    ensures Cutoff(row, today) == if row[|row| - 1].value.weekday > today then |row| - 1 else |row|
  {
    var n, last := Cutoff(row, today), |row| - 1;
    if n < last {
      assert false;
    }
    if row[last].value.weekday > today {
      assert Stops(row, last, today);
    } else {
      assert !Stops(row, last, today);
    }
  }

  // ------------------------------------------------------------------ graph

  /**
   * What one cell writes: the colour spec last set on the terminal, then the
   * symbol. `foreground` is `None` when the terminal's own colour is used.
   */
  datatype Glyph = Glyph(foreground: Option<Rgb>, dimmed: bool, symbol: string)

  /** The symbol written for every cell, followed by a space. */
  const SQUARE: string := "\U{25A0} "

  /**
   * The colour spec a cell is drawn with. The first `set_color` sets the
   * shade as foreground. For a light shade a second `set_color` follows with
   * a fresh `ColorSpec` that only asks for dimming; a fresh spec also asks
   * for a reset, so the terminal drops the foreground set just before and
   * the square is dimmed in the terminal's default colour.
   */
  function Pen(rgb: Rgb): (g: Glyph)
    ensures g.symbol == SQUARE
    ensures g.dimmed <==> IsDim(rgb)
    ensures g.foreground.Some? <==> !IsDim(rgb)
    ensures g.foreground.Some? ==> g.foreground.value == rgb
  {
    if IsDim(rgb) then Glyph(None, true, SQUARE) else Glyph(Some(rgb), false, SQUARE)
  }

  /** Drawing a cell cannot panic: the shade is a colour of the palette and that colour parses. */
  predicate CellRenderable(scheme: seq<string>, cell: Option<ContributionDay>, max: int)
  {
    |scheme| >= 1 &&
    (cell.Some? && cell.value.contributionCount > 0 ==> max != 0) &&
    ColorIndex(cell, max, |scheme|) < |scheme| &&
    IsColorText(scheme[ColorIndex(cell, max, |scheme|)])
  }

  /** The glyph of a cell. */
  function GlyphOf(scheme: seq<string>, cell: Option<ContributionDay>, max: int): (g: Glyph)
    requires CellRenderable(scheme, cell, max)
  {
    Pen(ToRgb(scheme[ColorIndex(cell, max, |scheme|)]))
  }

  /** Drawing a row cannot panic. */
  predicate RowRenderable(scheme: seq<string>, row: Row, max: int, today: int)
  {
    EndsWithDay(row) &&
    forall k {:trigger CellRenderable(scheme, row[k], max)} ::
      0 <= k < Cutoff(row, today) ==> CellRenderable(scheme, row[k], max)
  }

  /** The glyphs of the first `n` cells of a row. */
  function GlyphsUpTo(scheme: seq<string>, row: Row, max: int, n: nat): (glyphs: seq<Glyph>)
    requires n <= |row|
    requires forall k :: 0 <= k < n ==> CellRenderable(scheme, row[k], max)
    ensures |glyphs| == n
  {
    if n == 0 then [] else GlyphsUpTo(scheme, row, max, n - 1) + [GlyphOf(scheme, row[n - 1], max)]
  }

  lemma {:induction false} GlyphsUpToAt(scheme: seq<string>, row: Row, max: int, n: nat)
    requires n <= |row|
    requires forall k :: 0 <= k < n ==> CellRenderable(scheme, row[k], max)
    ensures forall k :: 0 <= k < n ==> GlyphsUpTo(scheme, row, max, n)[k] == GlyphOf(scheme, row[k], max)
  {
    if n > 0 {
      GlyphsUpToAt(scheme, row, max, n - 1);
    }
  }

  /** The glyphs of a row: one per cell up to the cut-off. */
  function RowGlyphs(scheme: seq<string>, row: Row, max: int, today: int): seq<Glyph>
    requires RowRenderable(scheme, row, max, today)
  {
    GlyphsUpTo(scheme, row, max, Cutoff(row, today))
  }

  /** A row is drawn cell by cell, in order, up to the cut-off and not beyond. */
  lemma RowGlyphsContents(scheme: seq<string>, row: Row, max: int, today: int)
    requires RowRenderable(scheme, row, max, today)
    ensures |RowGlyphs(scheme, row, max, today)| == Cutoff(row, today)
    ensures forall k :: 0 <= k < Cutoff(row, today) ==> RowGlyphs(scheme, row, max, today)[k] == GlyphOf(scheme, row[k], max)
  {
    GlyphsUpToAt(scheme, row, max, Cutoff(row, today));
  }

  /**
   * The body of the inner loop of `render_graph` for a cell that is drawn:
   * its shade's colour as foreground, then, for a light colour, the dimmed
   * spec that replaces it.
   */
  method DrawCell(scheme: seq<string>, cell: Option<ContributionDay>, max: int) returns (glyph: Glyph)
    requires CellRenderable(scheme, cell, max)
    ensures glyph == GlyphOf(scheme, cell, max)
  {
    var index := ColorIndex(cell, max, |scheme|);
    var rgb := ToRgb(scheme[index]);
    glyph := Glyph(Some(rgb), false, SQUARE);
    if IsDim(rgb) {
      glyph := Glyph(None, true, SQUARE);
    }
  }

  /** The inner loop of `render_graph`: one row, up to the break. */
  method RenderRow(scheme: seq<string>, row: Row, max: int, today: int) returns (glyphs: seq<Glyph>)
    requires RowRenderable(scheme, row, max, today)
    ensures glyphs == RowGlyphs(scheme, row, max, today)
  {
    glyphs := [];
    ghost var n := Cutoff(row, today);
    var k := 0;
    while k < |row|
      invariant 0 <= k <= n
      invariant glyphs == GlyphsUpTo(scheme, row, max, k)
    {
      var cell := row[k];
      if cell.Some? {
        if cell.value.date == row[|row| - 1].value.date && cell.value.weekday > today {
          assert Stops(row, k, today);
          assert k == n;
          break;
        }
      }
      assert !Stops(row, k, today);
      assert k < n;
      assert CellRenderable(scheme, cell, max);
      var glyph := DrawCell(scheme, cell, max);
      glyphs := glyphs + [glyph];
      k := k + 1;
    }
    assert k == n;
  }

  /** The whole graph: one line of glyphs per row. */
  function Graph(scheme: seq<string>, rows: seq<Row>, max: int, today: int): (lines: seq<seq<Glyph>>)
    requires forall r :: 0 <= r < |rows| ==> RowRenderable(scheme, rows[r], max, today)
    ensures |lines| == |rows|
    ensures forall r :: 0 <= r < |rows| ==> lines[r] == RowGlyphs(scheme, rows[r], max, today)
  {
    seq(|rows|, r requires 0 <= r < |rows| => RowGlyphs(scheme, rows[r], max, today))
  }

  /** `render_graph`: every row drawn on a line of its own. */
  method RenderGraph(scheme: seq<string>, rows: seq<Row>, max: int, today: int) returns (lines: seq<seq<Glyph>>)
    requires forall r :: 0 <= r < |rows| ==> RowRenderable(scheme, rows[r], max, today)
    ensures lines == Graph(scheme, rows, max, today)
  {
    lines := [];
    for r := 0 to |rows|
      invariant |lines| == r
      invariant forall j :: 0 <= j < r ==> lines[j] == RowGlyphs(scheme, rows[j], max, today)
    {
      var glyphs := RenderRow(scheme, rows[r], max, today);
      lines := lines + [glyphs];
    }
  }

  // ----------------------------------------------------------------- months

  const MONTHS: seq<string> := ["Jan", "Feb", "Mar", "Apr", "May", "Jun", "Jul", "Aug", "Sep", "Oct", "Nov", "Dec"]

  /** The largest `usize` and `u64` of a 64-bit target. */
  const USIZE_MAX: nat := 0xFFFF_FFFF_FFFF_FFFF
  const U64_MAX: nat := 0xFFFF_FFFF_FFFF_FFFF

  /** The date has the three '-'-separated fields the label needs. */
  predicate HasFields(date: string)
  {
    |Split(date, '-')| >= 3
  }

  /** The second field as `usize`, or 1 when it does not parse. */
  function MonthField(date: string): nat
    requires HasFields(date)
  {
    match ParseUnsigned(Split(date, '-')[1], 10, USIZE_MAX)
    case Some(m) => m
    case None => 1
  }

  /** The third field as `u64`, or 0 when it does not parse. */
  function DayField(date: string): nat
    requires HasFields(date)
  {
    match ParseUnsigned(Split(date, '-')[2], 10, U64_MAX)
    case Some(d) => d
    case None => 0
  }

  /** `MONTHS[month_idx]` cannot panic: a month number of 0 underflows, one past 12 is out of bounds. */
  predicate MonthInRange(date: string)
  {
    HasFields(date) ==> 1 <= MonthField(date) <= 12
  }

  /** The loop state of `render_months`: the text written, `previous_month`, `just_printed_month`. */
  datatype MonthState = MonthState(text: string, previous: string, justPrinted: bool)

  const START: MonthState := MonthState("", "", false)

  /** The month a cell is labelled with, if the step for it prints a label in state `st`. */
  function Label(st: MonthState, cell: Option<ContributionDay>): (month: Option<string>)
    requires cell.Some? ==> MonthInRange(cell.value.date)
    ensures month.Some? ==> month.value in MONTHS && month.value != st.previous
  {
    if cell.Some? && HasFields(cell.value.date) then
      var month := MONTHS[MonthField(cell.value.date) - 1];
      if month != st.previous && DayField(cell.value.date) < 20 then Some(month) else None
    else None
  }

  /** One turn of the loop: a label, or the gap of one cell (one space right after a label). */
  function MonthStep(st: MonthState, cell: Option<ContributionDay>): (next: MonthState)
    requires cell.Some? ==> MonthInRange(cell.value.date)
  {
    match Label(st, cell)
    case Some(month) => MonthState(st.text + month, month, true)
    case None => MonthState(st.text + (if st.justPrinted then " " else "  "), st.previous, false)
  }

  /** The loop state of `render_months` after its first `n` turns. */
  function MonthsUpTo(row: Row, n: nat): MonthState
    requires n <= |row|
    requires forall k :: 0 <= k < n && row[k].Some? ==> MonthInRange(row[k].value.date)
  {
    if n == 0 then START else MonthStep(MonthsUpTo(row, n - 1), row[n - 1])
  }

  /** Labelling the last row cannot panic. */
  predicate MonthsRenderable(row: Row, today: int)
  {
    EndsWithDay(row) &&
    forall k :: 0 <= k < Cutoff(row, today) && row[k].Some? ==> MonthInRange(row[k].value.date)
  }

  /** The month line: labels over the last row's cells, or nothing when there are no rows. */
  function MonthLine(rows: seq<Row>, today: int): (line: string)
    requires |rows| > 0 ==> MonthsRenderable(rows[|rows| - 1], today)
    ensures |rows| == 0 <==> line == ""
    ensures |rows| > 0 ==> line[|line| - 1] == '\n'
  {
    if |rows| == 0 then ""
    else
      var row := rows[|rows| - 1];
      MonthsUpTo(row, Cutoff(row, today)).text + "\n"
  }

  /**
   * The labelling step of `render_months` for one day: split the date on
   * '-', read the month and the day, and label a month other than the
   * previous one before the 20th.
   */
  method ReadLabel(previous: string, day: ContributionDay, ghost st: MonthState) returns (name: Option<string>)
    requires MonthInRange(day.date) && st.previous == previous
    ensures name == Label(st, Some(day))
  {
    name := None;
    var parts := Split(day.date, '-');
    if |parts| >= 3 {
      var monthNumber := match ParseUnsigned(parts[1], 10, USIZE_MAX) case Some(m) => m case None => 1;
      var dayNumber := match ParseUnsigned(parts[2], 10, U64_MAX) case Some(d) => d case None => 0;
      var month := MONTHS[monthNumber - 1];
      if month != previous && dayNumber < 20 {
        name := Some(month);
      }
    }
  }

  /** `render_months`. */
  method RenderMonths(rows: seq<Row>, today: int) returns (text: string)
    requires |rows| > 0 ==> MonthsRenderable(rows[|rows| - 1], today)
    ensures text == MonthLine(rows, today)
  {
    text := "";
    if |rows| == 0 {
      return;
    }
    var row := rows[|rows| - 1];
    var previous := "";
    var justPrinted := false;
    ghost var n := Cutoff(row, today);
    var k := 0;
    while k < |row|
      invariant 0 <= k <= n
      invariant MonthState(text, previous, justPrinted) == MonthsUpTo(row, k)
    {
      var cell := row[k];
      ghost var st := MonthState(text, previous, justPrinted);
      if cell.Some? {
        var day := cell.value;
        if day.date == row[|row| - 1].value.date && day.weekday > today {
          assert Stops(row, k, today);
          break;
        }
        assert !Stops(row, k, today);
        var name := ReadLabel(previous, day, st);
        if name.Some? {
          text := text + name.value;
          previous := name.value;
          justPrinted := true;
          k := k + 1;
          continue;
        }
      }
      assert !Stops(row, k, today);
      assert Label(st, cell) == None;
      text := text + (if justPrinted then " " else "  ");
      justPrinted := false;
      k := k + 1;
    }
    assert k == n;
    assert text == MonthsUpTo(row, n).text;
    text := text + "\n";
  }

  /** No two turns in a row print a label. */
  predicate NoAdjacentLabels(row: Row, n: nat)
    requires n <= |row|
    requires forall k :: 0 <= k < n && row[k].Some? ==> MonthInRange(row[k].value.date)
  {
    forall k :: 0 < k < n ==> !(MonthsUpTo(row, k).justPrinted && MonthsUpTo(row, k + 1).justPrinted)
  }

  /**
   * The labels line up with the graph's two-column cells: a three-letter label
   * and the single space after it take the place of two cells.
   */
  lemma {:induction false} MonthsWidth(row: Row, n: nat)
    requires n <= |row|
    requires forall k :: 0 <= k < n && row[k].Some? ==> MonthInRange(row[k].value.date)
    requires NoAdjacentLabels(row, n)
    ensures |MonthsUpTo(row, n).text| == 2 * n + (if MonthsUpTo(row, n).justPrinted then 1 else 0)
  {
    if n > 0 {
      assert NoAdjacentLabels(row, n - 1) by {
        forall k | 0 < k < n - 1
          ensures !(MonthsUpTo(row, k).justPrinted && MonthsUpTo(row, k + 1).justPrinted)
        {
        }
      }
      MonthsWidth(row, n - 1);
    }
  }

  /** The label printed last stays the previous month until another label replaces it. */
  lemma {:induction false} MonthsPrevious(row: Row, n: nat)
    requires n <= |row|
    requires forall k :: 0 <= k < n && row[k].Some? ==> MonthInRange(row[k].value.date)
    ensures MonthsUpTo(row, n).previous == "" || MonthsUpTo(row, n).previous in MONTHS
    ensures MonthsUpTo(row, n).justPrinted ==>
      n > 0 && MonthsUpTo(row, n).text == MonthsUpTo(row, n - 1).text + MonthsUpTo(row, n).previous &&
      MonthsUpTo(row, n - 1).previous != MonthsUpTo(row, n).previous
  {
    if n > 0 {
      MonthsPrevious(row, n - 1);
    }
  }
}
