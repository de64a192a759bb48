/**
 * The part of the `time` crate the core uses, on instants counted in whole
 * UTC seconds since 1970-01-01T00:00:00Z: adding whole days, the weekday of
 * an instant, its proleptic Gregorian calendar date and the "Y-MM-DD" text
 * the calendar stores for it.
 */
module Time {
  import opened Text

  // A day is 86400 seconds and a week 604800; a 400-year Gregorian era is
  // 146097 days, and 1970-01-01 is day 719468 counted from 1 March of year 0.
  // They are written as literals so that the arithmetic stays linear.

  /** The UTC day an instant falls on, counted from 1970-01-01 (rounded down). */
  function DayNumber(t: int): int
  {
    t / 86400
  }

  /** `weekday().number_days_from_sunday()`; 1970-01-01 was a Thursday. */
  function WeekdayFromSunday(t: int): (r: int)
    ensures 0 <= r < 7
  {
    (DayNumber(t) + 4) % 7
  }

  /** `Duration::whole_days` of a difference: truncates toward zero. */
  function WholeDays(seconds: int): (r: int)
    ensures seconds >= 0 ==> 0 <= r && r * 86400 <= seconds < (r + 1) * 86400
    ensures seconds < 0 ==> r <= 0 && (r - 1) * 86400 < seconds <= r * 86400
  {
    if seconds >= 0 then seconds / 86400 else -((-seconds) / 86400)
  }

  /** Moving an instant by whole days moves its day number by as many. */
  lemma DayNumberShift(t: int, k: int)
    ensures DayNumber(t + k * 86400) == DayNumber(t) + k
  {
    var q, r := t / 86400, t % 86400;
    var q', r' := (t + k * 86400) / 86400, (t + k * 86400) % 86400;
    assert t == q * 86400 + r;
    assert t + k * 86400 == q' * 86400 + r';
    assert (q' - q - k) * 86400 == r - r';
  }

  /** `(a + b) % 7` depends on `a` only through `a % 7`. */
  lemma Mod7Add(a: int, b: int)
    ensures (a + b) % 7 == (a % 7 + b) % 7
  {
    var q := a / 7;
    var x, y := (a + b) / 7, (a % 7 + b) / 7;
    assert a == 7 * q + a % 7;
    assert a + b == 7 * x + (a + b) % 7;
    assert a % 7 + b == 7 * y + (a % 7 + b) % 7;
    assert 7 * (x - q - y) == (a % 7 + b) % 7 - (a + b) % 7;
  }

  /** Moving an instant by `k` days moves its weekday by `k` (modulo 7). */
  lemma {:induction false} WeekdayShift(t: int, k: int)
    ensures WeekdayFromSunday(t + k * 86400) == (WeekdayFromSunday(t) + k) % 7
  {
    DayNumberShift(t, k);
    Mod7Add(DayNumber(t) + 4, k);
    assert DayNumber(t) + k + 4 == (DayNumber(t) + 4) + k;
  }

  /** Moving an instant by whole days keeps its time of day. */
  lemma TimeOfDayShift(t: int, k: int)
    ensures (t + k * 86400) % 86400 == t % 86400
  {
    DayNumberShift(t, k);
    assert t == DayNumber(t) * 86400 + t % 86400;
    assert t + k * 86400 == DayNumber(t + k * 86400) * 86400 + (t + k * 86400) % 86400;
  }

  // ---------------------------------------------------------- civil dates

  datatype CivilDate = CivilDate(year: int, month: nat, day: nat)

  /**
   * The year within a 400-year era (years begin on 1 March) that holds day
   * `doe` of the era; what is left over is a day of that year.
   */
  function YearOfEra(doe: int): (yoe: int)
    requires 0 <= doe < 146097
    ensures 0 <= yoe < 400
    ensures 0 <= doe - (365 * yoe + yoe / 4 - yoe / 100) <= 365
  {
    var yoe := (doe - doe / 1460 + doe / 36524 - doe / 146096) / 365;
    EraDecomposition(doe, yoe);
    yoe
  }

  /**
   * A day of an era splits into whole centuries (36524 days), four-year
   * cycles (1461 days) and years (365 days), which is what the leap-day
   * corrections in `YearOfEra` undo.
   */
  lemma EraDecomposition(doe: int, yoe: int)
    requires 0 <= doe < 146097 && yoe == (doe - doe / 1460 + doe / 36524 - doe / 146096) / 365
    ensures 0 <= yoe < 400 && 0 <= doe - (365 * yoe + yoe / 4 - yoe / 100) <= 365
  {
    var c, q, s, d := EraParts(doe);
    EraYear(doe, c, q, s, d);
    var y := 100 * c + 4 * q + s;
    DivIs(y, 4, 25 * c + q);
    DivIs(y, 100, c);
  }

  /** The year of the era counts the years of the centuries, four-year cycles and years before the day. */
  lemma EraYear(doe: int, c: int, q: int, s: int, d: int)
    requires 0 <= c <= 3 && 0 <= q <= 24 && 0 <= s <= 3 && 0 <= d <= 365
    requires doe == 36524 * c + 1461 * q + 365 * s + d
    requires d == 365 ==> s == 3
    requires c < 3 && q == 24 && s == 3 ==> d < 365
    ensures (doe - doe / 1460 + doe / 36524 - doe / 146096) / 365 == 100 * c + 4 * q + s
  {
    LeapCorrections(doe, c, q, s, d);
    DivIs(doe - doe / 1460 + doe / 36524 - doe / 146096, 365, 100 * c + 4 * q + s);
  }

  /** The three leap-day corrections of `YearOfEra`, in terms of the parts of `doe`. */
  lemma LeapCorrections(doe: int, c: int, q: int, s: int, d: int)
    requires 0 <= c <= 3 && 0 <= q <= 24 && 0 <= s <= 3 && 0 <= d <= 365
    requires doe == 36524 * c + 1461 * q + 365 * s + d
    requires d == 365 ==> s == 3
    requires c < 3 && q == 24 && s == 3 ==> d < 365
    ensures var carry := if 24 * c + q + 365 * s + d >= 1460 then 1 else 0;
      doe - doe / 1460 + doe / 36524 - doe / 146096 == 365 * (100 * c + 4 * q + s) + d - carry
    ensures d == 0 ==> 24 * c + q + 365 * s + d < 1460
    ensures d == 365 ==> 24 * c + q + 365 * s + d >= 1460
  {
    var leapEnd := c == 3 && q == 24 && s == 3 && d == 365;
    var carry := if 24 * c + q + 365 * s + d >= 1460 then 1 else 0;
    DivIs(doe, 146096, if leapEnd then 1 else 0);
    DivIs(doe, 36524, c + if leapEnd then 1 else 0);
    DivIs(doe, 1460, 25 * c + q + carry);
  }

  /** Centuries, four-year cycles, years and days of a day of an era. */
  lemma EraParts(doe: int) returns (c: int, q: int, s: int, d: int)
    requires 0 <= doe < 146097
    ensures 0 <= c <= 3 && 0 <= q <= 24 && 0 <= s <= 3 && 0 <= d <= 365
    ensures doe == 36524 * c + 1461 * q + 365 * s + d
    ensures d == 365 ==> s == 3
    ensures c < 3 && q == 24 && s == 3 ==> d < 365
  {
    c := if doe / 36524 < 4 then doe / 36524 else 3;
    var rest := doe - 36524 * c;
    q := rest / 1461;
    var rest' := rest - 1461 * q;
    s := if rest' / 365 < 4 then rest' / 365 else 3;
    d := rest' - 365 * s;
  }

  /** `a / n` is the `q` with `n * q <= a < n * q + n`. */
  lemma DivIs(a: int, n: int, q: int)
    requires n > 0 && n * q <= a < n * q + n
    ensures a / n == q
  {
    var r := a / n;
    assert a == n * r + a % n && 0 <= a % n < n;
    if r > q {
      assert n * (q + 1) == n * q + n;
      MulLe(n, q + 1, r);
    } else if r < q {
      assert n * (r + 1) == n * r + n;
      MulLe(n, r + 1, q);
    }
  }

  /** Multiplying by a non-negative factor keeps the order. */
  lemma {:induction false} MulLe(n: int, x: int, y: int)
    requires n >= 0 && x <= y
    ensures n * x <= n * y
    decreases y - x
  {
    if x < y {
      MulLe(n, x, y - 1);
      assert n * y == n * (y - 1) + n;
    }
  }

  /** Month counted from March (0 = March, 11 = February) of a day of such a year. */
  function MarchMonth(doy: int): (mp: int)
    requires 0 <= doy <= 365
    ensures 0 <= mp <= 11
    ensures 1 <= doy - (153 * mp + 2) / 5 + 1 <= 31
  {
    (5 * doy + 2) / 153
  }

  /**
   * The calendar date of day `doy` (counted from 1 March) of year `yoe` of
   * era `era`: January and February belong to the next calendar year.
   */
  function MarchDate(era: int, yoe: int, doy: int): (c: CivilDate)
    requires 0 <= doy <= 365
    ensures 1 <= c.month <= 12 && 1 <= c.day <= 31
  {
    var mp := MarchMonth(doy);
    var d := doy - (153 * mp + 2) / 5 + 1;
    var m := if mp < 10 then mp + 3 else mp - 9;
    CivilDate(yoe + era * 400 + (if m <= 2 then 1 else 0), m, d)
  }

  /** The 400-year era (from 1 March of year 0) that holds a day number. */
  function EraOf(days: int): int
  {
    (days + 719468) / 146097
  }

  /** The day within its era of a day number. */
  function DayOfEra(days: int): (doe: int)
    ensures 0 <= doe < 146097
  {
    (days + 719468) % 146097
  }

  /** The day, counted from 1 March, of its year of a day of an era. */
  function DayOfYear(doe: int): (doy: int)
    requires 0 <= doe < 146097
    ensures 0 <= doy <= 365
  {
    var yoe := YearOfEra(doe);
    doe - (365 * yoe + yoe / 4 - yoe / 100)
  }

  /** The Gregorian calendar date of a day number (days since 1970-01-01). */
  function CivilFromDays(days: int): (c: CivilDate)
    ensures 1 <= c.month <= 12 && 1 <= c.day <= 31
  {
    var doe := DayOfEra(days);
    MarchDate(EraOf(days), YearOfEra(doe), DayOfYear(doe))
  }

  /** The day number of a calendar date: the inverse of `CivilFromDays`. */
  function DaysFromCivil(c: CivilDate): int
    requires 1 <= c.month <= 12 && 1 <= c.day <= 31
  {
    var y := c.year - (if c.month <= 2 then 1 else 0);
    var era := y / 400;
    var yoe := y - era * 400;
    var doy := (153 * (if c.month > 2 then c.month - 3 else c.month + 9) + 2) / 5 + c.day - 1;
    var doe := yoe * 365 + yoe / 4 - yoe / 100 + doy;
    era * 146097 + doe - 719468
  }

  /** Every day number is recovered from its calendar date. */
  lemma CivilRoundTrip(days: int)
    ensures DaysFromCivil(CivilFromDays(days)) == days
  {
    var doe := DayOfEra(days);
    MarchDateBack(EraOf(days), YearOfEra(doe), DayOfYear(doe));
    assert days + 719468 == EraOf(days) * 146097 + doe;
  }

  /** `DaysFromCivil` undoes each step of `MarchDate`. */
  lemma MarchDateBack(era: int, yoe: int, doy: int)
    requires 0 <= yoe < 400 && 0 <= doy <= 365
    ensures DaysFromCivil(MarchDate(era, yoe, doy)) == era * 146097 + 365 * yoe + yoe / 4 - yoe / 100 + doy - 719468
  {
    DivIs(yoe + era * 400, 400, era);
  }

  /** Distinct days have distinct calendar dates. */
  lemma CivilFromDaysInjective(a: int, b: int)
    requires CivilFromDays(a) == CivilFromDays(b)
    ensures a == b
  {
    CivilRoundTrip(a);
    CivilRoundTrip(b);
  }

  /** The first day of year `yoe` of an era, counted from 1 March of the era's first year. */
  function YearStart(yoe: int): int
  {
    365 * yoe + yoe / 4 - yoe / 100
  }

  /** A later year of an era starts at least 365 days later. */
  lemma {:induction false} YearStartGrows(a: int, b: int)
    requires 0 <= a < b
    ensures YearStart(a) + 365 <= YearStart(b)
  {
    var c := b - 1;
    assert c / 4 <= b / 4 && c / 100 <= b / 100;
    if b / 100 != c / 100 {
      assert b % 100 == 0;
      assert b % 4 == 0;
      assert b / 4 == c / 4 + 1;
    }
    if a < c {
      YearStartGrows(a, c);
    }
  }

  /** Every year of an era starts on or before day 145731 of the era, that of its last year. */
  lemma YearStartBound(yoe: int)
    requires 0 <= yoe < 400
    ensures YearStart(yoe) <= 145731
    ensures yoe < 399 ==> YearStart(yoe) <= 145369
  {
  }

  /**
   * The calendar year of a day number is from year 0 on exactly from
   * 0000-01-01, day -719528, on.
   */
  lemma YearNonNegative(days: int)
    ensures CivilFromDays(days).year >= 0 <==> days >= -719528
  {
    var z := days + 719468;
    var era, doe := EraOf(days), DayOfEra(days);
    var yoe := YearOfEra(doe);
    var doy := DayOfYear(doe);
    assert z == 146097 * era + doe;
    assert doy == doe - YearStart(yoe);
    YearStartBound(yoe);
    if days < -719468 {
      if z >= -146097 {
        DivIs(z, 146097, -1);
        if yoe == 399 {
          if days >= -719528 {
            assert MarchMonth(doy) >= 10;
          } else {
            assert MarchMonth(doy) <= 9;
          }
        }
      }
    }
  }

  /** A later instant is on the same day or a later one. */
  lemma DayNumberMonotone(s: int, t: int)
    requires s <= t
    ensures DayNumber(s) <= DayNumber(t)
  {
  }

  /** Once the calendar year is 0 or more it stays so. */
  lemma YearsFromZero(s: int, t: int)
    requires s <= t && CivilOfInstant(s).year >= 0
    ensures CivilOfInstant(t).year >= 0
  {
    YearNonNegative(DayNumber(s));
    YearNonNegative(DayNumber(t));
    DayNumberMonotone(s, t);
  }

  /** A week after a date before the 22nd falls in the same month, seven days on. */
  lemma WeekLater(days: int)
    requires CivilFromDays(days).day <= 21
    ensures var c := CivilFromDays(days); CivilFromDays(days + 7) == CivilDate(c.year, c.month, c.day + 7)
  {
    var era, doe := EraOf(days), DayOfEra(days);
    var yoe, doy := YearOfEra(doe), DayOfYear(doe);
    assert CivilFromDays(days) == MarchDate(era, yoe, doy);
    MarchDateWeekLater(era, yoe, doy);
    YearOfEraWeekLater(doe);
    EraWeekLater(days);
    assert CivilFromDays(days + 7) == MarchDate(era, yoe, doy + 7);
  }

  /** A week on, a day that is not among the last seven of its era stays in that era. */
  lemma EraWeekLater(days: int)
    requires DayOfEra(days) + 7 < 146097
    ensures EraOf(days + 7) == EraOf(days) && DayOfEra(days + 7) == DayOfEra(days) + 7
  {
    var era := EraOf(days);
    assert days + 719468 == 146097 * era + DayOfEra(days);
    DivIs(days + 7 + 719468, 146097, era);
  }

  /** Before the 22nd, the day a week later is in the same month of the same March-based year. */
  lemma MarchDateWeekLater(era: int, yoe: int, doy: int)
    requires 0 <= doy <= 365 && MarchDate(era, yoe, doy).day <= 21
    ensures doy + 7 <= 364
    ensures var c := MarchDate(era, yoe, doy); MarchDate(era, yoe, doy + 7) == CivilDate(c.year, c.month, c.day + 7)
  {
    var mp := MarchMonth(doy);
    assert doy <= (153 * mp + 2) / 5 + 20;
    DivIs(5 * (doy + 7) + 2, 153, mp);
  }

  /** Seven days on, within the same year of the era, the day of the year grows by seven. */
  lemma YearOfEraWeekLater(doe: int)
    requires 0 <= doe < 146097 && DayOfYear(doe) + 7 <= 364
    ensures doe + 7 < 146097
    ensures YearOfEra(doe + 7) == YearOfEra(doe) && DayOfYear(doe + 7) == DayOfYear(doe) + 7
  {
    YearStartBound(YearOfEra(doe));
    var yoe, yoe' := YearOfEra(doe), YearOfEra(doe + 7);
    if yoe' > yoe {
      YearStartGrows(yoe, yoe');
    } else if yoe' < yoe {
      YearStartGrows(yoe', yoe);
    }
  }

  /** `format!("{}-{:02}-{:02}", year, month, day)`. */
  function FormatCivil(c: CivilDate): (s: string)
    ensures |s| >= 7 && (s[0] == '-' <==> c.year < 0)
    ensures c.month < 100 && c.day < 100 ==>
      |s| == |IntToDecimal(c.year)| + 6 && s[..|s| - 6] == IntToDecimal(c.year) &&
      s[|s| - 6] == '-' && s[|s| - 3] == '-' &&
      IsDecimalDigit(s[|s| - 5]) && IsDecimalDigit(s[|s| - 4]) && IsDecimalDigit(s[|s| - 2]) && IsDecimalDigit(s[|s| - 1])
  {
    IntToDecimal(c.year) + "-" + Pad2(c.month) + "-" + Pad2(c.day)
  }

  /** The UTC calendar date of an instant: `year()`, `month()` and `day()` of an `OffsetDateTime`. */
  function CivilOfInstant(t: int): (c: CivilDate)
    ensures 1 <= c.month <= 12 && 1 <= c.day <= 31
  {
    CivilFromDays(DayNumber(t))
  }

  /** The "Y-MM-DD" text the calendar stores for the day an instant falls on. */
  function FormatDate(t: int): string
  {
    FormatCivil(CivilOfInstant(t))
  }

  /** The date text of an instant: its year, then '-', two month digits, '-' and two day digits. */
  lemma FormatDateShape(t: int)
    ensures var s, c := FormatDate(t), CivilOfInstant(t);
      (s[0] == '-' <==> c.year < 0) &&
      |s| == |IntToDecimal(c.year)| + 6 && s[..|s| - 6] == IntToDecimal(c.year) &&
      s[|s| - 6] == '-' && s[|s| - 3] == '-' &&
      IsDecimalDigit(s[|s| - 5]) && IsDecimalDigit(s[|s| - 4]) && IsDecimalDigit(s[|s| - 2]) && IsDecimalDigit(s[|s| - 1])
  {
    var c := CivilOfInstant(t);
    assert c.month < 100 && c.day < 100;
  }

  /** Distinct calendar dates are written differently. */
  lemma FormatCivilInjective(a: CivilDate, b: CivilDate)
    requires 1 <= a.month <= 12 && 1 <= a.day <= 31
    requires 1 <= b.month <= 12 && 1 <= b.day <= 31
    requires FormatCivil(a) == FormatCivil(b)
    ensures a == b
  {
    var fa, fb := FormatCivil(a), FormatCivil(b);
    var ya, yb := IntToDecimal(a.year), IntToDecimal(b.year);
    assert |fa| == |ya| + 6 && |fb| == |yb| + 6;
    assert fa[|ya|..|ya| + 1] == "-" && fb[|yb|..|yb| + 1] == "-";
    assert fa[..|ya|] == ya && fb[..|yb|] == yb;
    assert |ya| == |yb|;
    IntToDecimalInjective(a.year, b.year);
    assert fa[|ya| + 1..|ya| + 3] == Pad2(a.month) && fb[|yb| + 1..|yb| + 3] == Pad2(b.month);
    Pad2Injective(a.month, b.month);
    assert fa[|ya| + 4..] == Pad2(a.day) && fb[|yb| + 4..] == Pad2(b.day);
    Pad2Injective(a.day, b.day);
  }

  /** Instants on different UTC days get different date texts. */
  lemma DistinctDayDates(s: int, t: int)
    requires DayNumber(s) != DayNumber(t)
    ensures FormatDate(s) != FormatDate(t)
  {
    if FormatDate(s) == FormatDate(t) {
      FormatDateInjective(s, t);
    }
  }

  /** Equal date texts mean the same UTC day. */
  lemma FormatDateInjective(s: int, t: int)
    requires FormatDate(s) == FormatDate(t)
    ensures DayNumber(s) == DayNumber(t)
  {
    FormatCivilInjective(CivilFromDays(DayNumber(s)), CivilFromDays(DayNumber(t)));
    CivilFromDaysInjective(DayNumber(s), DayNumber(t));
  }
}
