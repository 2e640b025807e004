/**
 * Instants and calendar days.
 *
 * A JavaScript `Date` is an integer number of milliseconds since 1970-01-01T00:00:00Z.
 * The model keeps that representation and derives the UTC calendar date with the
 * days-to-civil conversion of the proleptic Gregorian calendar, which is what
 * `toISOString` prints.
 */
module Clock {
  import Text

  /** Milliseconds in one day: `24 * 60 * 60 * 1000`. */
  const DayMs: int := 24 * 60 * 60 * 1000

  /**
   * `todayUTC()`: the instant of midnight UTC that starts the day holding `nowMs`.
   * Dafny's `/` and `%` with a positive divisor round towards minus infinity, as the
   * calendar does for instants before 1970.
   */
  function TodayUtc(nowMs: int): (start: int)
    ensures start <= nowMs < start + DayMs
    ensures start % DayMs == 0
  {
    nowMs - nowMs % DayMs
  }

  /** The midnight of a midnight is itself: the day window does not drift. */
  lemma TodayUtcIdempotent(nowMs: int)
    ensures TodayUtc(TodayUtc(nowMs)) == TodayUtc(nowMs)
  {
    var start := TodayUtc(nowMs);
    assert start % DayMs == 0;
  }

  /** Two instants fall into the same UTC day exactly when they lie in one window `[start, start + DayMs)`. */
  lemma {:induction false} SameDayWindow(nowMs: int, t: int)
    ensures TodayUtc(t) == TodayUtc(nowMs) <==> TodayUtc(nowMs) <= t < TodayUtc(nowMs) + DayMs
  {
    var s := TodayUtc(nowMs);
    var s' := TodayUtc(t);
    if s <= t < s + DayMs {
      assert s % DayMs == 0 && s' % DayMs == 0;
      assert s / DayMs * DayMs == s;
      assert s' / DayMs * DayMs == s';
      assert s / DayMs == s' / DayMs;
    }
  }

  datatype CivilDate = CivilDate(year: int, month: int, day: int)

  /**
   * The proleptic Gregorian date of the day `days` after 1970-01-01, by the days-to-civil
   * algorithm: the day number is split into 400-year eras of 146097 days counted from
   * 0000-03-01, the era into years starting on 1 March (so a leap day is the last day of
   * its year), and the day of that year into a month and a day.
   */
  function CivilFromDays(days: int): (d: CivilDate)
    ensures 1 <= d.month <= 12
    ensures 1 <= d.day <= 31
  {
    var z := days + 719468;
    var era := z / 146097;
    var doe := z % 146097;
    var yoe := YearOfEra(doe);
    FromMarch(yoe + era * 400, doe - EraYearStart(yoe))
  }

  /** The year of the era holding day `doe` of the era: the leap days before it are discounted first. */
  function YearOfEra(doe: int): int {
    (doe - doe / 1460 + doe / 36524 - doe / 146096) / 365
  }

  /** Days from the start of the era to 1 March of its year `y`. */
  function EraYearStart(y: int): int {
    365 * y + y / 4 - y / 100
  }

  /** The date `doy` days after 1 March of year `y`: March to December of `y`, then January and February of `y + 1`. */
  function FromMarch(y: int, doy: int): CivilDate {
    var mp := (5 * doy + 2) / 153;
    var day := doy - (153 * mp + 2) / 5 + 1;
    var month := if mp < 10 then mp + 3 else mp - 9;
    CivilDate(y + (if month <= 2 then 1 else 0), month, day)
  }

  // The calendar itself, as a reference for the conversion.

  predicate Leap(y: int) {
    y % 4 == 0 && (y % 100 != 0 || y % 400 == 0)
  }

  function DaysInMonth(y: int, m: int): int
    requires 1 <= m <= 12
  {
    if m == 2 then (if Leap(y) then 29 else 28)
    else if m == 4 || m == 6 || m == 9 || m == 11 then 30
    else 31
  }

  /** Days of year `y` before month `m`: the lengths of the months before it. */
  function DaysBeforeMonth(y: int, m: int): int
    requires 1 <= m <= 12
  {
    if m == 1 then 0 else DaysBeforeMonth(y, m - 1) + DaysInMonth(y, m - 1)
  }

  /** Leap years from 1 up to `x` (counted back from 0, negatively, below it). */
  function Leaps(x: int): int {
    x / 4 - x / 100 + x / 400
  }

  /** Days from 1970-01-01 to 1 January of year `y`. */
  function DaysBeforeYear(y: int): int {
    365 * (y - 1970) + Leaps(y - 1) - Leaps(1969)
  }

  /** The day number of a date: days before its year, before its month, and before it in the month. */
  function DaysFromCivil(d: CivilDate): int
    requires 1 <= d.month <= 12
  {
    DaysBeforeYear(d.year) + DaysBeforeMonth(d.year, d.month) + d.day - 1
  }

  /** `DaysBeforeYear` counts from 1970 and steps by the length of each year. */
  lemma DaysBeforeYearStep(y: int)
    ensures DaysBeforeYear(1970) == 0
    ensures DaysBeforeYear(y + 1) == DaysBeforeYear(y) + (if Leap(y) then 366 else 365)
  {
    LeapsStep(y);
  }

  /**
   * The conversion is the calendar: the date of a day number is a valid date, and its
   * day number is the day number converted.
   */
  lemma CivilFromDaysIsCalendar(days: int)
    ensures var d := CivilFromDays(days);
            && 1 <= d.day <= DaysInMonth(d.year, d.month)
            && DaysFromCivil(d) == days
  {
    var era, yoe, doy := CivilFields(days);
    LeapPeriodic(era, yoe + 1);
    assert 400 * era + (yoe + 1) == 400 * era + yoe + 1;
    MarchDays(400 * era + yoe, doy);
    LeapsOfEra(era, yoe);
  }

  /** `Leaps` grows by one exactly at a leap year. */
  lemma LeapsStep(x: int)
    ensures Leaps(x) == Leaps(x - 1) + (if Leap(x) then 1 else 0)
  {
    DivStep(x, 4);
    DivStep(x, 100);
    DivStep(x, 400);
    if x % 100 == 0 {
      assert x == 4 * (25 * (x / 100));
    }
    if x % 400 == 0 {
      assert x == 100 * (4 * (x / 400));
    }
  }

  /** Dividing by one of the calendar's periods: the quotient grows by one exactly at a multiple. */
  lemma DivStep(x: int, k: int)
    requires k == 4 || k == 100 || k == 400
    ensures x / k == (x - 1) / k + (if x % k == 0 then 1 else 0)
  {
    if k == 4 {
    } else if k == 100 {
    } else {
    }
  }

  /**
   * `YearOfEra` inverts `EraYearStart`: day `doy` of year `100c + 4e + b` of the era (century
   * `c`, four-year cycle `e`, year `b` of the cycle) lies in that year.
   */
  lemma EraYearOf(c: int, e: int, b: int, doy: int)
    requires 0 <= c < 4 && 0 <= e < 25 && 0 <= b < 4
    requires 0 <= doy < 365 + (if b == 3 && (e != 24 || c == 3) then 1 else 0)
    ensures var yoe := 100 * c + 4 * e + b;
            YearOfEra(EraYearStart(yoe) + doy) == yoe
  {
    var yoe := 100 * c + 4 * e + b;
    assert yoe / 4 == 25 * c + e;
    assert yoe / 100 == c;
    var doe := EraYearStart(yoe) + doy;
    var r := 1461 * e + 365 * b + doy;
    assert doe == 36524 * c + r;
    assert 0 <= r <= 36524 && (r == 36524 ==> c == 3);
    assert doe / 36524 == (if r == 36524 then c + 1 else c);
    assert doe / 146096 == (if r == 36524 then 1 else 0);
    var x := 24 * c + e + 365 * b + doy;
    var t := if x >= 1460 then 1 else 0;
    assert doe == 1460 * (25 * c + e) + x && 0 <= x < 2920;
    assert doe / 1460 == 25 * c + e + t;
    assert 0 <= doy - t <= 364;
    assert doe - doe / 1460 + doe / 36524 - doe / 146096 == 365 * yoe + (doy - t);
  }

  /** Every day of an era lies in some century, four-year cycle and year of the era. */
  lemma EraDecompose(doe: int) returns (c: int, e: int, b: int, doy: int)
    requires 0 <= doe < 146097
    ensures 0 <= c < 4 && 0 <= e < 25 && 0 <= b < 4
    ensures 0 <= doy < 365 + (if b == 3 && (e != 24 || c == 3) then 1 else 0)
    ensures doe == EraYearStart(100 * c + 4 * e + b) + doy
    ensures 0 <= doy < 365 + (if Leap(100 * c + 4 * e + b + 1) then 1 else 0)
  {
    c := if doe / 36524 < 3 then doe / 36524 else 3;
    var r := doe - 36524 * c;
    e := r / 1461;
    var r2 := r - 1461 * e;
    b := if r2 / 365 < 3 then r2 / 365 else 3;
    doy := r2 - 365 * b;
    var yoe := 100 * c + 4 * e + b;
    assert yoe / 4 == 25 * c + e;
    assert yoe / 100 == c;
    LeapOfEraYear(c, e, b);
  }

  /** The year following year `100c + 4e + b` of the era (its January and February) is a leap year exactly when the cycle says so. */
  lemma LeapOfEraYear(c: int, e: int, b: int)
    requires 0 <= c < 4 && 0 <= e < 25 && 0 <= b < 4
    ensures Leap(100 * c + 4 * e + b + 1) <==> b == 3 && (e != 24 || c == 3)
  {
    var y := 100 * c + 4 * e + b + 1;
    if b == 3 {
      assert y == 4 * (25 * c + e + 1);
      if e == 24 {
        assert y == 100 * (c + 1);
      } else {
        assert y == 100 * c + 4 * (e + 1);
      }
    }
  }

  /** The leap-year rule repeats every 400 years. */
  lemma LeapPeriodic(era: int, y: int)
    ensures Leap(400 * era + y) == Leap(y)
  {
    var x := 400 * era + y;
    assert x % 4 == y % 4 by {
      assert 4 * (100 * era + y / 4 - x / 4) == x % 4 - y % 4;
    }
    assert x % 100 == y % 100 by {
      assert 100 * (4 * era + y / 100 - x / 100) == x % 100 - y % 100;
    }
    assert x % 400 == y % 400 by {
      assert 400 * (era + y / 400 - x / 400) == x % 400 - y % 400;
    }
  }

  /** Leap years up to year `yoe` of an era: 97 per earlier era and those of the era so far. */
  lemma LeapsOfEra(era: int, yoe: int)
    requires 0 <= yoe < 400
    ensures Leaps(400 * era + yoe) == 97 * era + yoe / 4 - yoe / 100
  {
    var x := 400 * era + yoe;
    assert x == 4 * (100 * era) + yoe;
    assert x / 4 == 100 * era + yoe / 4;
    assert x / 100 == 4 * era + yoe / 100;
    assert x / 400 == era;
  }

  /** The month lengths add up to the March-based formula `FromMarch` inverts. */
  lemma {:induction false} MonthStart(y: int, m: int)
    requires 1 <= m <= 12
    ensures DaysBeforeMonth(y, m) == if m <= 2 then 31 * (m - 1) else 59 + (if Leap(y) then 1 else 0) + (153 * (m - 3) + 2) / 5
  {
    if m > 1 {
      MonthStart(y, m - 1);
    }
  }

  /** A day of a March-based year is a valid date, and its day number counts from 1 March of `y`. */
  lemma MarchDays(y: int, doy: int)
    requires 0 <= doy < 365 + (if Leap(y + 1) then 1 else 0)
    ensures var d := FromMarch(y, doy);
            && 1 <= d.month <= 12 && 1 <= d.day <= DaysInMonth(d.year, d.month)
            && DaysFromCivil(d) == 365 * (y - 1970) + Leaps(y) - 418 + doy
  {
    var d := FromMarch(y, doy);
    LeapsStep(y);
    MonthStart(d.year, d.month);
  }

  /** The year of the era holding day `doe` of the era, and the day of that year. */
  lemma EraYear(doe: int) returns (yoe: int, doy: int)
    requires 0 <= doe < 146097
    ensures 0 <= yoe < 400 && 0 <= doy < 365 + (if Leap(yoe + 1) then 1 else 0)
    ensures YearOfEra(doe) == yoe && doe == EraYearStart(yoe) + doy
  {
    var c, e, b, d := EraDecompose(doe);
    yoe, doy := 100 * c + 4 * e + b, d;
    EraYearOf(c, e, b, doy);
  }

  /** The era, year of the era and day of that year `CivilFromDays` finds for `days`. */
  lemma CivilFields(days: int) returns (era: int, yoe: int, doy: int)
    ensures 0 <= yoe < 400 && 0 <= doy < 365 + (if Leap(yoe + 1) then 1 else 0)
    ensures days + 719468 == 146097 * era + EraYearStart(yoe) + doy
    ensures CivilFromDays(days) == FromMarch(400 * era + yoe, doy)
  {
    var z := days + 719468;
    era := z / 146097;
    var doe := z % 146097;
    assert z == 146097 * era + doe;
    yoe, doy := EraYear(doe);
  }

  /** The year as `toISOString` prints it: four digits, or a sign and six digits outside 0..9999. */
  function YearText(year: int): string {
    if 0 <= year <= 9999 then Text.PadNat(year, 4)
    else (if year < 0 then "-" else "+") + Text.PadNat(if year < 0 then -year else year, 6)
  }

  /** `date.toISOString().slice(0, 10)`: the first ten characters of the ISO rendering. */
  function IsoDate(ms: int): (s: string)
    ensures |s| == 10
  {
    var d := CivilFromDays(ms / DayMs);
    var full := YearText(d.year) + "-" + Text.PadNat(d.month, 2) + "-" + Text.PadNat(d.day, 2);
    full[..10]
  }

  /** For a four-digit year the slice is exactly `YYYY-MM-DD`. */
  lemma IsoDateShape(ms: int)
    requires 0 <= CivilFromDays(ms / DayMs).year <= 9999
    ensures var d := CivilFromDays(ms / DayMs);
            IsoDate(ms) == Text.PadNat(d.year, 4) + "-" + Text.PadNat(d.month, 2) + "-" + Text.PadNat(d.day, 2)
    ensures IsoDate(ms)[4] == '-' && IsoDate(ms)[7] == '-'
  {
    var d := CivilFromDays(ms / DayMs);
    Text.NatToStringLength(d.year, 4);
    Text.NatToStringLength(d.month, 2);
    Text.NatToStringLength(d.day, 2);
  }
}
