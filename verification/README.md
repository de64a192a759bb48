# multi-git-graph in Dafny

multi-git-graph draws one contribution graph in the terminal for a user's
activity across several Git hosts: GitHub, GitLab, Gitea and Codeberg. It works
in four steps:

- It takes a window of a little over one year that ends now and starts on a
  Sunday.
- Each provider folds its events into a calendar of 7-day weeks.
- The calendars are laid over each other in a grid of seven rows, one per
  weekday, indexed by week number.
- The grid is printed in two parts. The first is a line of month labels. The
  second is one line of coloured squares per row, shaded from a five-colour
  scheme by each day's share of the busiest day.

This project models that core and proves properties of the model:

- `Processor` is `ContributionProcessor`, from `src/processor.rs`:
  - the empty calendar, built with a `while` loop;
  - the event fold, built with a `for` loop;
  - the `Event` capability, as a sum over the four providers' event records.
- `Merger` is `process_contributions`, from `src/main.rs`. It is written as
  nested loops, one method per loop level. Each method is proved against a
  fold over the flattened `(row, week, day)` entries.
- `Renderer` covers `src/renderer.rs`:
  - `to_rgb` and the shade index;
  - the cut-off of the current week;
  - `render_months` and `render_graph`, as methods that return what they would
    write.
- `Colors` is the scheme table of `src/colors.rs` and its lookups.
- `Driver` covers the rest of `src/main.rs`:
  - `GenericConfig::new`;
  - the start-date derivation;
  - the choice of scheme;
  - the composition that ends `main`.
- `Text`, `Time`, `Types` and `Wrappers` support the others:
  - the pieces of Rust's string library that are used;
  - the `time` crate's day arithmetic, weekdays and proleptic Gregorian dates;
  - the records of `src/types.rs` and `src/errors.rs`.

Instants are whole UTC seconds since the Unix epoch. The environment is a map
from variable names to values. The current instant and today's weekday are
parameters.

A property of the program as written is proved in `Driver.LastWeekCutoff`. The
window ends at the current instant. Say that instant falls on a Sunday:

- every day of the 53rd week is already over;
- the renderer still hides the last week's day in rows 1 to 6, because that
  day's weekday number is greater than Sunday's 0.

So on Sundays the graph stops one whole past day short in six of its seven
rows. On other days it hides exactly the days that have not started yet.

The colouring also has a property of its own. A light shade, with every
component above 200, gets a second `set_color`. That call passes a fresh
`ColorSpec`, which resets the terminal, so the foreground just set is dropped
and the square is dimmed in the terminal's default colour. The first colour of
every scheme is such a shade. So is the last colour of "red" ("#ffcdd2"), "grey"
and "bluegrey". `Driver.BusiestRedLooksEmpty` proves that in the "red" scheme
the busiest days are drawn exactly like days without contributions.

## Model

| member | source | states |
|---|---|---|
| Processor.Event.Timestamp | src/processor.rs:79-82 | the event's instant, as each provider's `timestamp` gives it: GitHub's date is midnight UTC of that day, GitLab's is the parsed RFC 3339 time, and Gitea and Codeberg accept exactly the `from_unix_timestamp` range, with the range error otherwise |
| Processor.Event.Contributions | src/processor.rs:79-82 | the event's weight, as each provider's `contributions` gives it: 1 for a GitLab event, the record's count otherwise |
| Processor.UnixTimestampRange | src/gitea_contributions.rs:38-41 | the accepted range runs from midnight of -9999-01-01 to the last second of 9999-12-31 |
| Processor.FreshWeekDays | src/processor.rs:23-42 | a fresh week has number `w` and seven empty days, day `i` dated and weekdayed for the instant `7w + i` days after the start |
| Processor.New | src/processor.rs:10-15 | the processor keeps the window's start and end, and writes dates as `Time.FormatDate` does |
| Processor.InitializeContributionCalendar | src/processor.rs:17-47 | the calendar has `WeekCount` weeks, and week `w` is the fresh week `w` |
| Processor.WeekCountIs | src/processor.rs:22-44 | the loop stops after `n` weeks exactly when `n` weeks reach the end and `n - 1` do not; that `n` is `WeekCount` |
| Processor.CalendarCoversWindow | src/processor.rs:17-47 | the first day is the start, and the last day begins between one day before the end and six days after it |
| Processor.SundayStartWeekdays | src/processor.rs:35 | when the start is a Sunday, day `i` of every week has weekday `i` |
| Processor.NewDatesDistinct | src/processor.rs:29-34 | two different days of a calendar of `New` never carry the same date text |
| Processor.CellOfDay | src/processor.rs:62-64 | an instant lands in cell `(w, i)` exactly when it lies within that cell's day |
| Processor.WindowFitsCalendar | src/processor.rs:58-66 | every instant of the window lands inside the fresh calendar |
| Processor.ProcessEvents | src/processor.rs:49-76 | the result is the fold of the events from a running maximum of 0 |
| Processor.FoldFailsAtFirstBadTimestamp | src/processor.rs:56-57 | the fold fails exactly when some event's timestamp fails, and then with the first such event's error |
| Processor.ApplyEffect | src/processor.rs:58-72 | one event changes only its own cell's count, by its weight, and only when it lies in the window |
| Processor.FoldCounts | src/processor.rs:49-76 | a successful fold keeps the calendar's shape and adds to every cell the total weight of the events landing in it |
| Processor.FoldMaxGrows | src/processor.rs:72 | the returned maximum is at least the starting one |
| Processor.FoldKeepsMax | src/processor.rs:54-75 | with non-negative weights, the running maximum stays the largest count (or 0) |
| Processor.ApplyKeepsMax | src/processor.rs:70-72 | one non-negative event keeps the maximum the largest count |
| Processor.FreshCalendarIsEmpty | src/processor.rs:27 | every count of a fresh calendar is 0 |
| Processor.FreshFold | src/processor.rs:49-76 | folded into an empty calendar, each cell holds the total weight of its day's events, and the maximum is the largest count |
| Processor.FreshIsLaidOut | src/processor.rs:17-47 | a fresh calendar is laid out: `WeekCount` weeks, week `w` numbered `w`, with seven days dated and weekdayed for their instants |
| Processor.FoldKeepsLayout | src/processor.rs:49-76 | a successful fold changes counts only, so a laid-out calendar stays laid out |
| Merger.MergeCell | src/main.rs:84-93 | an empty cell takes the day; an occupied one keeps its day and adds the new count |
| Merger.MergeDay | src/main.rs:79-93 | the loop body pads the row with `None` and merges the day into its cell, as `MergeEntry` does |
| Merger.MergeWeek | src/main.rs:78-94 | the loop over a week's days merges that week's entries in order |
| Merger.MergeCalendar | src/main.rs:77-95 | the loop over a calendar's weeks merges its entries in order |
| Merger.ProcessContributions | src/main.rs:65-99 | the rows and maximum are the merge of every present collection's entries, in order |
| Merger.MergeAppend | src/main.rs:71-96 | merging two runs one after the other is merging their concatenation |
| Merger.MergeEntryCell | src/main.rs:83-93 | merging one day changes only that day's own cell |
| Merger.MergeEntryRowLength | src/main.rs:79-81 | only the day's row grows, and only to just past the day's week |
| Merger.RowLength | src/main.rs:79-81 | a row is padded exactly as far as the furthest week any day reached in it |
| Merger.FirstAtNone | src/main.rs:84-93 | a cell no day visited has no first day and a count of 0 |
| Merger.FirstAtIsFirst | src/main.rs:89-91 | a cell's day is the first day that reached it |
| Merger.MergedCell | src/main.rs:65-99 | every cell is absent if no day reached it; otherwise it is the first day to reach it, carrying the sum of all counts |
| Merger.MergedRowEndsWithDay | src/main.rs:79-90 | a non-empty row of the merged grid ends with a day |
| Merger.MergeEntryTotal | src/main.rs:84-93 | merging a day adds exactly its count to the grid's total |
| Merger.MergedTotal | src/main.rs:65-99 | the grid's total is the sum of the counts of all merged days |
| Merger.MergedCollectionsTotal | src/main.rs:65-99 | nothing is lost or counted twice: the grid's total is the total of every present collection |
| Merger.MergedMaxBounds | src/main.rs:87-91 | the maximum is at least 0 and at least every cell's final count |
| Merger.MergedMaxAttained | src/main.rs:87-91 | with non-negative counts, the maximum is 0 or some cell's count |
| Merger.MergedCellPresent | src/main.rs:71-95 | a cell is present exactly when some present collection has that day |
| Merger.MergedMax | src/main.rs:69-91 | the returned maximum bounds every cell and, with non-negative counts, is reached by one |
| Merger.AllAbsentIsEmpty | src/main.rs:68-76 | with every collection absent, the result is seven empty rows and 0 |
| Merger.SkipsAbsent | src/main.rs:73-76 | absent collections are skipped: merging only the present ones gives the same grid |
| Colors.GetColor | src/colors.rs:9-11 | the colour at the index, or the first colour past the end |
| Colors.FindIn | src/colors.rs:110-112 | a found scheme is in the list and has the name; nothing is found exactly when no scheme has it |
| Colors.FindInFirst | src/colors.rs:111 | the scheme found is the first one with that name |
| Colors.FindByName | src/colors.rs:110-112 | `find_by_name` over the table, with `FindIn`'s guarantees |
| Colors.Default | src/colors.rs:115-117 | the default scheme is in the table and is called "github" |
| Colors.DistinctNames | src/colors.rs:14-107 | no two schemes of the table share a name |
| Colors.FindByNameInverse | src/colors.rs:110-112 | looking a table scheme up by its name finds that very scheme |
| Colors.FirstColorIsBlank | src/colors.rs:14-107 | the first colour of every scheme, the one for no contributions, is "#eeeeee" |
| Colors.HexColors | src/colors.rs:14-107 | every colour of the table is '#' and six lower-case hexadecimal digits |
| Renderer.HexComponent | src/renderer.rs:13-15 | a component below 256, 0 when it does not parse |
| Renderer.ToRgb | src/renderer.rs:11-17 | three components below 256 |
| Renderer.ToRgbRoundTrip | src/renderer.rs:11-17 | reading "#rrggbb" written from a colour gives that colour back |
| Renderer.ToRgbIgnoresTail | src/renderer.rs:12-15 | text after the first six digits does not change the colour |
| Renderer.ToRgbComponentwise | src/renderer.rs:13-15 | each component is read from its own two digits alone; a pair that does not parse makes that component 0 and leaves the others unchanged |
| Renderer.ToRgbIgnoresHashes | src/renderer.rs:12 | any number of leading '#'s is skipped |
| Renderer.ColorIndex | src/renderer.rs:102-106 | an empty cell, or a ratio of zero or less, has shade 0 |
| Renderer.ColorIndexIsCeiling | src/renderer.rs:102-106 | the shade is the ceiling of `count / max * (len - 1)` |
| Renderer.ColorIndexInPalette | src/renderer.rs:102-108 | with counts between 0 and a non-negative maximum, the shade indexes the palette |
| Renderer.ColorIndexOfMax | src/renderer.rs:102-106 | the busiest day gets the last colour of the palette |
| Renderer.ColorIndexPositive | src/renderer.rs:102-106 | with two shades or more, any positive count gets a shade above the blank one |
| Renderer.ColorIndexMonotone | src/renderer.rs:102-106 | more contributions never give a lower palette index |
| Renderer.Cutoff | src/renderer.rs:92-100 | the cells drawn run up to the first one where the loop breaks, and there it breaks |
| Renderer.CutoffOfDistinctDates | src/renderer.rs:92-100 | with distinct dates only the last cell can be cut, exactly when its weekday is after today's |
| Renderer.Pen | src/renderer.rs:108-117 | a colour with every component above 200 is dimmed, and its foreground is dropped, because the second `set_color` passes a fresh spec that resets; any other colour is the foreground, not dimmed; the symbol is always the square |
| Renderer.DrawCell | src/renderer.rs:102-118 | the loop body draws a cell with the pen of the colour at its shade, as `GlyphOf` says |
| Renderer.GlyphsUpToAt | src/renderer.rs:91-119 | the `k`-th glyph of a row is the glyph of its `k`-th cell |
| Renderer.RowGlyphsContents | src/renderer.rs:91-119 | a row draws one glyph per cell up to the cut-off, each that cell's glyph |
| Renderer.RenderRow | src/renderer.rs:91-120 | the loop over a row draws exactly the row's glyphs |
| Renderer.Graph | src/renderer.rs:90-121 | one line per row, each that row's glyphs |
| Renderer.RenderGraph | src/renderer.rs:85-123 | `render_graph` writes the graph |
| Renderer.Label | src/renderer.rs:59-70 | a label is a month name that differs from the previous label |
| Renderer.RenderMonths | src/renderer.rs:33-83 | `render_months` writes the month line over the last row, up to its cut-off |
| Renderer.MonthsWidth | src/renderer.rs:65-78 | when no two cells in a row are labelled, each cell takes two columns, and a label just written takes one more; the rows of the window meet that hypothesis (`Driver.WindowRowLabels`) |
| Renderer.MonthsPrevious | src/renderer.rs:65-70 | the previous month is a month name, or nothing yet; a label just printed is the last text written and differs from the one before it |
| Renderer.ReadLabel | src/renderer.rs:59-70 | splitting the date on '-' and parsing its month and day gives the label `Label` defines for the day |
| Renderer.MonthLine | src/renderer.rs:44-81 | nothing is written when there are no rows; otherwise the line ends with its newline |
| Text.TrimStartMatchesIs | src/renderer.rs:12 | what is left is a suffix not starting with the character, and only that character was dropped |
| Text.TrimEndMatchesIs | src/main.rs:39 | what is left is a prefix not ending with the character, and only that character was dropped |
| Text.TrimStartAppend | src/renderer.rs:12 | text after a non-empty trimmed prefix is kept as it is |
| Text.Split | src/renderer.rs:59 | at least one part, no part holds the separator, and the parts joined back give the text |
| Text.SplitNoSeparator | src/renderer.rs:59 | a text without the separator is one part |
| Text.SplitHead | src/renderer.rs:59 | a head without the separator, followed by the separator, splits off as the first part |
| Text.ToDigit | src/renderer.rs:13-15 | a digit's value is below the radix; a decimal digit is worth its own value |
| Text.ParseUnsigned | src/renderer.rs:61-62 | a parsed value is at most the type's largest value, and the text is neither empty nor a lone '+' |
| Text.NatToDecimal | src/processor.rs:29-34 | at least one decimal digit, one exactly below 10, no leading zero |
| Text.IntToDecimal | src/processor.rs:29-34 | the text starts with '-' exactly for a negative number |
| Text.Pad2 | src/processor.rs:29-34 | decimal digits only, two of them below 100 |
| Text.NatToDecimalValue | src/processor.rs:29-34 | reading back the decimal text gives the number |
| Text.ParseNatToDecimal | src/processor.rs:29-34 | `{}` round-trips through `parse` |
| Text.ParsePad2 | src/processor.rs:29-34 | `{:02}` round-trips through `parse` |
| Text.IntToDecimalInjective | src/processor.rs:29-34 | distinct years are written differently |
| Text.Pad2Injective | src/processor.rs:29-34 | distinct months or days are written differently |
| Text.ParseHexByte | src/renderer.rs:13-15 | two lower-case hexadecimal digits written from a byte parse back as that byte |
| Text.TwoDigitsValue | src/renderer.rs:13-15 | a two-digit text is worth its first digit times the radix plus its second |
| Time.WeekdayFromSunday | src/processor.rs:35 | a weekday from 0 (Sunday) to 6 |
| Time.WholeDays | src/processor.rs:62 | whole days, truncated toward zero |
| Time.DayNumberShift | src/processor.rs:37-39 | adding `k` days moves the day number by `k` |
| Time.WeekdayShift | src/main.rs:107-111 | adding `k` days moves the weekday by `k` modulo 7 |
| Time.TimeOfDayShift | src/main.rs:104-111 | adding whole days keeps the time of day |
| Time.CivilFromDays | src/processor.rs:31-33 | a month from 1 to 12 and a day from 1 to 31 |
| Time.CivilRoundTrip | src/processor.rs:31-33 | converting a day to its date and back gives the day |
| Time.CivilFromDaysInjective | src/processor.rs:31-33 | different days have different dates |
| Time.FormatCivilInjective | src/processor.rs:29-34 | different dates are written differently |
| Time.FormatDateInjective | src/processor.rs:29-34 | instants on different days get different date texts |
| Time.FormatCivil | src/processor.rs:29-34 | the text starts with '-' exactly for a negative year; with month and day below 100 it is the year's decimal text, '-', two digits, '-', two digits |
| Time.FormatDateShape | src/processor.rs:29-34 | `FormatDate`, the text of an instant's date, is its year's decimal text, '-', two month digits, '-' and two day digits |
| Time.DistinctDayDates | src/processor.rs:29-34 | instants on different days get different date texts |
| Time.YearNonNegative | src/processor.rs:31 | the year is 0 or more exactly from 0000-01-01 on |
| Time.YearsFromZero | src/processor.rs:37-39 | once the year is 0 or more, it stays so for every later instant |
| Time.WeekLater | src/processor.rs:37-39 | seven days after a date before the 22nd is the same month and year, seven days on |
| Driver.NewGenericConfig | src/main.rs:35-46 | the configuration succeeds exactly when all three variables are set; otherwise the first missing one is reported as "`<name>` must be set"; user name and token are kept verbatim |
| Driver.FromEnv | src/main.rs:50-52 | `SERVER`, `USERNAME` and `TOKEN`, read in that order: success exactly when all three are set; otherwise "SERVER must be set", "USERNAME must be set" or "TOKEN must be set" for the first one missing; user name and token are kept |
| Driver.ConfiguredServer | src/main.rs:37-40 | the server is the value without its trailing '/'s, does not end with '/', and a second trim leaves it as it is |
| Driver.StartDate | src/main.rs:103-111 | the start is a Sunday at the end's time of day: the latest such instant at or before 365 days before the end |
| Driver.WindowCalendar | src/main.rs:103-111 | the window's calendar has 53 weeks, and day `i` of each week falls on weekday `i` |
| Driver.LastWeekDays | src/main.rs:103-111 | day `i` of the last week starts `i - today` days after now, or, on a Sunday, `i - 7` days after now |
| Driver.CalendarRowDates | src/processor.rs:29-34 | a row of one day per week of the window's calendar has distinct dates |
| Driver.LastWeekCutoff | src/renderer.rs:92-100 | on a row of the window's calendar: on a weekday other than Sunday, only a last day still to come is hidden; on a Sunday, rows 1 to 6 hide a last day that is already over |
| Driver.SelectedScheme | src/main.rs:130-141 | with `COLOR_SCHEME` unset the scheme is "github"; a chosen scheme is in the table under the requested name; the lookup fails exactly when no scheme has that name |
| Driver.SelectEveryScheme | src/main.rs:130-141 | every scheme of the table can be chosen by its name |
| Driver.LowerHexDigit | src/renderer.rs:13-15 | a lower-case hexadecimal digit is the digit of its own value |
| Driver.HexPair | src/renderer.rs:13-15 | two lower-case hexadecimal digits parse as a byte that is written back as them |
| Driver.HexColorIsColorText | src/renderer.rs:12-15 | a "#rrggbb" colour can be sliced by `to_rgb` |
| Driver.HexColorRoundTrip | src/renderer.rs:11-17 | `to_rgb` reads a "#rrggbb" colour exactly, never falling back to 0 |
| Driver.TableColorsRoundTrip | src/colors.rs:14-107 | every colour of the table parses exactly |
| Driver.BlankGlyph | src/renderer.rs:102-118 | with "#eeeeee" as the first colour, a day without contributions is a dimmed square in the terminal's default colour, with no foreground |
| Driver.EmptyCellGlyph | src/renderer.rs:102-118 | with any table scheme, a day without contributions is a dimmed square in the terminal's default colour, with no foreground |
| Driver.BusiestRedLooksEmpty | src/colors.rs:88-89 | in the "red" scheme, a busiest day takes "#ffcdd2", which is dimmed too: it is drawn exactly like a day without contributions |
| Driver.RedShades | src/colors.rs:88-89 | the first and last colours of "red" read as (238, 238, 238) and (255, 205, 210) |
| Driver.ParseLightGrey | src/renderer.rs:11-17 | "#eeeeee" reads as (238, 238, 238) |
| Driver.ParsePaleRed | src/renderer.rs:11-17 | "#ffcdd2" reads as (255, 205, 210) |
| Driver.HexPairValue | src/renderer.rs:13-15 | two lower-case hexadecimal digits read as the first one's value times 16 plus the second one's |
| Driver.CellRenders | src/renderer.rs:102-108 | a cell whose count is at most a non-negative maximum can be drawn with any table scheme |
| Driver.MergedGraphRenders | src/main.rs:128-143 | every row of the merged grid can be drawn with any table scheme, without a panic |
| Driver.RenderContributions | src/main.rs:128-143 | for calendars built for the window, from year 0 on, the output is the month line and graph of the merged grid in the chosen scheme; only an unknown scheme name fails |
| Driver.DateFields | src/renderer.rs:59-63 | for a year from 0 on, a calendar date has the three fields, and its month and day fields are the date's own month and day |
| Driver.CivilFields | src/renderer.rs:59-63 | a date from year 0 on written as "Y-MM-DD" splits into three fields whose month and day are the date's own |
| Driver.LabelOfDate | src/renderer.rs:59-70 | a calendar day is labelled with its own month when that month differs from the previous label and the day is before the 20th |
| Driver.FromWindow | src/main.rs:113-126 | calendars built for the window, by `ContributionProcessor::new(start_date, end_date)` and the fold, are well formed for the merger |
| Driver.DatedWeeks | src/main.rs:77-95 | the loops visit each day of a laid-out calendar at its own cell, dated and weekdayed for that cell |
| Driver.DatedFlatten | src/main.rs:65-99 | every entry merged from the window's calendars carries the date and weekday of its own cell of the 53 weeks |
| Driver.FirstAtDated | src/main.rs:84-93 | the day kept in a cell is dated for that cell |
| Driver.MergedWindowRow | src/main.rs:65-99 | for the window's calendars, row `i` holds day `i` of each of the 53 weeks when some provider answered, and is empty when none did |
| Driver.MergedRowCarries | src/main.rs:65-99 | one present laid-out calendar is enough for row `i` to hold day `i` of each week |
| Driver.MergedRowEmpty | src/main.rs:68-76 | with every collection absent, every row is empty |
| Driver.MergedCalendarRow | src/main.rs:65-99 | when some collection is laid out for 53 weeks, row `i` has 53 cells, each the dated day `i` of its week |
| Driver.MergedRowShort | src/main.rs:79-81 | a row of entries dated within 53 weeks is padded no further than 53 cells |
| Driver.MergedWindowCell | src/main.rs:84-93 | a cell some collection has a day for is present, with the date and weekday of that cell |
| Driver.CalendarRowMonths | src/renderer.rs:59-63 | every date of a window row from year 0 on has three fields, whose month and day are the date's own |
| Driver.WindowMonthsRenderable | src/renderer.rs:44-81 | `render_months` cannot panic on the merged grid of a window that starts in year 0 or later |
| Driver.WindowRowLabels | src/renderer.rs:59-78 | on a row of the window, every date has a month and no two neighbouring cells are both labelled |
| Driver.LabelsApart | src/renderer.rs:65-78 | no two neighbouring cells of a calendar row, dated as `FormatDate` writes from year 0 on, are both labelled |
| Driver.AdjacentCells | src/renderer.rs:65-78 | cells `k - 1` and `k` of such a calendar row are not both labelled |
| Driver.WeekApartDays | src/processor.rs:25-43 | neighbouring cells of a calendar row hold the dates of two days a week apart |
| Driver.DayYear | src/processor.rs:29-39 | every day of a calendar is in year 0 or later once its first day is |
| Driver.NoLabelAfterLabel | src/renderer.rs:65-78 | after a labelled day, the day a week later is not labelled |
| Driver.LabelThenNone | src/renderer.rs:59-70 | both dates have a month, and a day a week after a labelled day gets no label |
| Driver.WeekApartSameMonth | src/processor.rs:29-39 | a day before the 20th and the day a week later are in the same month |
| Driver.WindowMonthsWidth | src/renderer.rs:44-81 | the month line of the window's grid takes two columns per cell drawn in the last row, one more when it ends with a label, and the newline |

## Left out

- Network access and the four provider clients are not modelled. This covers the HTTP requests, JSON decoding, GraphQL and pagination. Their calendars are an input to the merger, and their events are an input to the fold.
- Reading `.env` and the process environment is modelled as a map. `dotenv::var` errors on a value that is not Unicode; that case is not modelled.
- `OffsetDateTime::now_utc()` becomes parameters. The window's end is the `endDate` parameter. Today's weekday is the `today` parameter of the renderer. `main` and the renderer read the clock separately; the model assumes both readings fall on the same day.
- Terminal output (`termcolor`, `write!`) is not modelled. The month line is modelled as the text written. Each drawn cell is modelled as a `Glyph`: its foreground colour (none when dimmed), whether it is dimmed, and the symbol `SQUARE`. I/O errors are not modelled.
- Integers are unbounded. `i64` overflow of counts, week numbers and day arithmetic is not modelled. The `checked_add`/`checked_sub` panics near the ends of the `time` crate's range are not modelled either.
- Renderer.ColorIndex: the source computes the shade in `f64` and casts it to `usize`. The model uses the exact ceiling of the rational `count / max * (len - 1)`. Negative ratios cast to 0, as in the source. The precondition `count > 0 ==> max != 0` excludes the infinite index that `x / 0.0` would give. Rounding of very large counts is not modelled.
- Renderer.ToRgb: the source slices bytes and panics at a slice that is too short or not on a character boundary. The model slices characters and requires at least six of them after the '#'s. For the table's ASCII colours the two agree (`Driver.TableColorsRoundTrip`).
- Render preconditions stand for panics of the source: `RowRenderable`, `MonthsRenderable` and the shade index. `Driver.MergedGraphRenders` discharges the graph's precondition for every merged grid and every table scheme. `Driver.WindowMonthsRenderable` discharges the month line's for calendars built for the window.
- Driver.RenderContributions: requires the providers' calendars to be built for the window (`FromWindow`), as every provider builds them with `ContributionProcessor::new(start_date, end_date)`; provider code is not part of this model. It also requires the window to start in year 0 or later, because the month fields are proved from year 0 on only (`Driver.DateFields`). Before that, years -1 to -12 put the year into the month field, so "-1-12-31" is labelled "Jan"; from year -13 on, `MONTHS[month_idx]` panics. The window ends at the clock's reading, so such years do not arise.
- A date whose year is negative is written with a leading '-'. `split('-')` then yields an empty first field and puts the year in the month field and the month in the day field. The model keeps that behaviour in `Renderer.Label`; `Driver.DateFields` covers years from 0 on only.
- Merger.WellFormed: the model requires week numbers to be non-negative and weeks to have at most seven days. With a negative week number, the source casts it to a huge `usize` and pads towards it. With an eighth day, it indexes past the seventh row.
- `ContributionGraphRenderer::new` and the `stdout` handle are not modelled; the palette is passed to each render method.
- `GenericConfig`'s accessors `server`, `username` and `token` are not modelled as separate members; they are the datatype's fields.
