/**
 * A .NET `DateTime` as a tick count (100 ns units since 0001-01-01 00:00:00 of the
 * proleptic Gregorian calendar) plus a `Kind` tag, the calendar arithmetic that
 * `DateTime` uses to go between ticks and year/month/day, and the extension
 * `ToUtcKeepTimeAsIs`, which rebuilds a timestamp from its clock fields tagged UTC.
 */
module DateTimeExtension {

  const TicksPerSecond: int := 10_000_000
  const TicksPerMinute: int := 60 * TicksPerSecond
  const TicksPerHour: int := 60 * TicksPerMinute
  const TicksPerDay: int := 24 * TicksPerHour

  const DaysPerYear: int := 365
  const DaysPer4Years: int := 4 * DaysPerYear + 1
  const DaysPer100Years: int := 25 * DaysPer4Years - 1
  const DaysPer400Years: int := 4 * DaysPer100Years + 1
  /** Days from 0001-01-01 to 10000-01-01: `DateTime.MaxValue` is the last tick before it. */
  const DaysTo10000: int := 25 * DaysPer400Years - 366

  const MaxTicks: int := DaysTo10000 * TicksPerDay - 1

  type Ticks = t: int | 0 <= t <= MaxTicks

  datatype DateTimeKind = Unspecified | Utc | Local

  /** `DateTime`: its value is `ticks`; `kind` is a tag that comparisons ignore. */
  datatype DateTime = DateTime(ticks: Ticks, kind: DateTimeKind)

  /** The C# operator `a <= b` on `DateTime`: it compares ticks and ignores the kind. */
  predicate AtOrBefore(a: DateTime, b: DateTime) {
    a.ticks <= b.ticks
  }

  // ---------------------------------------------------------------------------
  // Calendar
  // ---------------------------------------------------------------------------

  const DaysToMonth365: seq<int> := [0, 31, 59, 90, 120, 151, 181, 212, 243, 273, 304, 334, 365]
  const DaysToMonth366: seq<int> := [0, 31, 60, 91, 121, 152, 182, 213, 244, 274, 305, 335, 366]

  predicate IsLeapYear(year: int) {
    year % 4 == 0 && (year % 100 != 0 || year % 400 == 0)
  }

  /** Cumulative day counts before each month of `year` (index 0 to 12). */
  function DaysToMonth(year: int): (days: seq<int>)
    ensures |days| == 13 && days[0] == 0
    ensures days[12] == if IsLeapYear(year) then 366 else 365
    ensures forall m :: 0 <= m < 12 ==> days[m] < days[m + 1]
  {
    if IsLeapYear(year) then DaysToMonth366 else DaysToMonth365
  }

  datatype Date = Date(year: int, month: int, day: int)

  predicate ValidDate(d: Date) {
    && 1 <= d.year <= 9999
    && 1 <= d.month <= 12
    && 1 <= d.day <= DaysToMonth(d.year)[d.month] - DaysToMonth(d.year)[d.month - 1]
  }

  /** Number of days from 0001-01-01 to the given date (the day part of `new DateTime(y, m, d, ...)`). */
  function DaysFromCivil(d: Date): int
    requires ValidDate(d)
  {
    var y := d.year - 1;
    y * 365 + y / 4 - y / 100 + y / 400 + DaysToMonth(d.year)[d.month - 1] + d.day - 1
  }

  /** The month (1 to 12) whose day range holds day `dayOfYear` (0-based) of a year with the table `days`. */
  function MonthOf(days: seq<int>, dayOfYear: int, m: int): (r: int)
    requires |days| == 13 && 1 <= m <= 12
    requires days[m - 1] <= dayOfYear < days[12]
    requires forall k :: 0 <= k < 12 ==> days[k] < days[k + 1]
    ensures m <= r <= 12 && days[r - 1] <= dayOfYear < days[r]
    decreases 12 - m
  {
    if dayOfYear < days[m] then m else MonthOf(days, dayOfYear, m + 1)
  }

  /** Day number `n` split into whole 400-, 100-, 4- and 1-year cycles and the 0-based day of the year left over. */
  datatype CycleSplit = CycleSplit(y400: int, y100: int, y4: int, y1: int, dayOfYear: int) {
    function Year(): int { y400 * 400 + y100 * 100 + y4 * 4 + y1 + 1 }
  }

  /** The cycle split that `DateTime` performs to find the year of a day number. */
  function SplitDays(n: int): (s: CycleSplit)
    requires 0 <= n < DaysTo10000
    ensures 0 <= s.y400 && 0 <= s.y100 <= 3 && 0 <= s.y4 <= 24 && 0 <= s.y1 <= 3
    ensures 0 <= s.dayOfYear < DaysToMonth(s.Year())[12]
    ensures n == s.y400 * DaysPer400Years + s.y100 * DaysPer100Years + s.y4 * DaysPer4Years
                 + s.y1 * DaysPerYear + s.dayOfYear
  {
    var y400 := n / DaysPer400Years;
    var n1 := n % DaysPer400Years;
    var y100 := if n1 / DaysPer100Years == 4 then 3 else n1 / DaysPer100Years;
    var n2 := n1 - y100 * DaysPer100Years;
    var y4 := n2 / DaysPer4Years;
    var n3 := n2 % DaysPer4Years;
    var y1 := if n3 / DaysPerYear == 4 then 3 else n3 / DaysPerYear;
    DivOfSum(n, DaysPer400Years, y400, n1);
    CenturyOfCycle(n1, y100, n2);
    DivOfSum(n2, DaysPer4Years, y4, n3);
    LastDayOfCycleIsLeap(y400, y100, y4, y1, n2, n3);
    CycleSplit(y400, y100, y4, y1, n3 - y1 * DaysPerYear)
  }

  /**
   * The century within a 400-year cycle: the last day of the cycle, day 146096, is the
   * leap day that ends the fourth century rather than the start of a fifth.
   */
  lemma CenturyOfCycle(n1: int, y100: int, n2: int)
    requires 0 <= n1 < DaysPer400Years
    requires y100 == if n1 / DaysPer100Years == 4 then 3 else n1 / DaysPer100Years
    requires n2 == n1 - y100 * DaysPer100Years
    ensures 0 <= y100 <= 3 && 0 <= n2
    ensures n2 < DaysPer100Years || (y100 == 3 && n2 == DaysPer100Years)
  {
    var q, r := n1 / DaysPer100Years, n1 % DaysPer100Years;
    assert n1 == DaysPer100Years * q + r;
    assert 0 <= q <= 4;
    if q == 4 {
      assert n1 == 4 * DaysPer100Years;
    }
  }

  /**
   * The calendar date of day number `n` (0 is 0001-01-01), as `DateTime.Year`, `.Month`
   * and `.Day` compute it; turning it back into a day number gives `n` again.
   */
  function CivilFromDays(n: int): (d: Date)
    requires 0 <= n < DaysTo10000
    ensures ValidDate(d)
    ensures DaysFromCivil(d) == n
  {
    var s := SplitDays(n);
    var year := s.Year();
    CycleDays(s.y400, s.y100, s.y4, s.y1);
    YearBelow10000(year, n - s.dayOfYear);
    var days := DaysToMonth(year);
    var month := MonthOf(days, s.dayOfYear, 1);
    Date(year, month, s.dayOfYear - days[month - 1] + 1)
  }

  lemma YearBelow10000(year: int, before: int)
    requires 1 <= year && before < DaysTo10000
    requires before == (year - 1) * 365 + (year - 1) / 4 - (year - 1) / 100 + (year - 1) / 400
    ensures year <= 9999
  {
    if year > 9999 {
      MonotoneYearDays(9999, year - 1);
    }
  }

  /** The day count of `a` 400-year, `b` 100-year, `c` 4-year and `e` 1-year cycles, as `DaysFromCivil` counts it. */
  lemma CycleDays(a: int, b: int, c: int, e: int)
    requires a >= 0 && 0 <= b <= 3 && 0 <= c <= 24 && 0 <= e <= 3
    ensures var y := a * 400 + b * 100 + c * 4 + e;
      y * 365 + y / 4 - y / 100 + y / 400
      == a * DaysPer400Years + b * DaysPer100Years + c * DaysPer4Years + e * DaysPerYear
  {
    var y := a * 400 + b * 100 + c * 4 + e;
    DivOfSum(y, 4, a * 100 + b * 25 + c, e);
    DivOfSum(y, 100, a * 4 + b, c * 4 + e);
    DivOfSum(y, 400, a, b * 100 + c * 4 + e);
  }

  /** Division by `d` is determined by any quotient/remainder pair with the remainder in range. */
  lemma DivOfSum(x: int, d: int, q: int, r: int)
    requires 0 < d && 0 <= r < d && x == d * q + r
    ensures x / d == q && x % d == r
  {
    var q', r' := x / d, x % d;
    assert d * q' + r' == x;
    assert d * (q - q') == r' - r by { MulSub(d, q, q'); }
    if q > q' {
      MulAtLeast(d, q - q');
    } else if q < q' {
      MulAtLeast(d, q' - q);
      MulSub(d, q', q);
    }
  }

  lemma MulSub(d: int, a: int, b: int)
    ensures d * (a - b) == d * a - d * b
  {
  }

  lemma {:induction false} MulAtLeast(d: int, k: int)
    requires 0 < d && 1 <= k
    ensures d * k >= d
  {
    if k > 1 {
      MulAtLeast(d, k - 1);
      MulSub(d, k, 1);
    }
  }

  /**
   * The only day of year 365 (0-based) that the cycle split produces is the last day
   * of a 4-year cycle, and that year is a leap year.
   */
  lemma LastDayOfCycleIsLeap(y400: int, y100: int, y4: int, y1: int, n2: int, n3: int)
    requires y400 >= 0 && 0 <= y100 <= 3 && 0 <= y4 && 0 <= n3 < DaysPer4Years
    requires n2 == y4 * DaysPer4Years + n3
    requires n2 < DaysPer100Years || (y100 == 3 && n2 == DaysPer100Years)
    requires y1 == if n3 / DaysPerYear == 4 then 3 else n3 / DaysPerYear
    ensures y4 <= 24 && 0 <= y1 <= 3
    ensures 0 <= n3 - y1 * DaysPerYear
    ensures n3 - y1 * DaysPerYear < DaysToMonth(y400 * 400 + y100 * 100 + y4 * 4 + y1 + 1)[12]
  {
    var year := y400 * 400 + y100 * 100 + y4 * 4 + y1 + 1;
    if n3 - y1 * DaysPerYear == 365 {
      assert n3 == 1460 && y1 == 3;
      DivOfSum(year, 4, y400 * 100 + y100 * 25 + y4 + 1, 0);
      if y4 == 24 {
        assert y100 == 3;
        DivOfSum(year, 400, y400 + 1, 0);
      } else {
        DivOfSum(year, 100, y400 * 4 + y100, y4 * 4 + 4);
      }
    }
  }

  // ---------------------------------------------------------------------------
  // Clock fields of a DateTime
  // ---------------------------------------------------------------------------

  function DayNumber(dt: DateTime): (n: int)
    ensures 0 <= n < DaysTo10000
  {
    dt.ticks / TicksPerDay
  }

  function Year(dt: DateTime): int { CivilFromDays(DayNumber(dt)).year }
  function Month(dt: DateTime): int { CivilFromDays(DayNumber(dt)).month }
  function Day(dt: DateTime): int { CivilFromDays(DayNumber(dt)).day }
  function Hour(dt: DateTime): int { dt.ticks / TicksPerHour % 24 }
  function Minute(dt: DateTime): int { dt.ticks / TicksPerMinute % 60 }
  function Second(dt: DateTime): int { dt.ticks / TicksPerSecond % 60 }

  /**
   * `new DateTime(year, month, day, hour, minute, second, kind)` for arguments in range: the
   * result reads back exactly the date and clock fields it was built from.
   */
  function NewDateTime(date: Date, hour: int, minute: int, second: int, kind: DateTimeKind): (dt: DateTime)
    requires ValidDate(date) && 0 <= hour < 24 && 0 <= minute < 60 && 0 <= second < 60
    ensures dt.kind == kind && dt.ticks % TicksPerSecond == 0
    ensures DayNumber(dt) == DaysFromCivil(date)
    ensures Year(dt) == date.year && Month(dt) == date.month && Day(dt) == date.day
    ensures Hour(dt) == hour && Minute(dt) == minute && Second(dt) == second
  {
    CivilDayInRange(date);
    var n := DaysFromCivil(date);
    var ticks := n * TicksPerDay + ((hour * 60 + minute) * 60 + second) * TicksPerSecond;
    ClockJoin(n, hour, minute, second, ticks);
    assert ticks <= MaxTicks;
    var dt := DateTime(ticks, kind);
    assert DayNumber(dt) == n;
    CivilRoundTrip(date);
    assert CivilFromDays(DayNumber(dt)) == date;
    dt
  }

  /** Putting a day number and a clock time together into ticks, and splitting them again, gives the same parts. */
  lemma ClockJoin(n: int, hour: int, minute: int, second: int, ticks: int)
    requires 0 <= n && 0 <= hour < 24 && 0 <= minute < 60 && 0 <= second < 60
    requires ticks == n * TicksPerDay + ((hour * 60 + minute) * 60 + second) * TicksPerSecond
    ensures ticks / TicksPerDay == n
    ensures ticks / TicksPerHour % 24 == hour
    ensures ticks / TicksPerMinute % 60 == minute
    ensures ticks / TicksPerSecond % 60 == second
    ensures ticks % TicksPerSecond == 0
  {
    var hours := n * 24 + hour;
    var minutes := hours * 60 + minute;
    var seconds := minutes * 60 + second;
    assert ticks == seconds * TicksPerSecond;
    DivOfSum(ticks, TicksPerSecond, seconds, 0);
    DivOfSum(seconds, 60, minutes, second);
    DivOfSum(ticks, TicksPerMinute, minutes, second * TicksPerSecond);
    DivOfSum(minutes, 60, hours, minute);
    DivOfSum(ticks, TicksPerHour, hours, (minute * 60 + second) * TicksPerSecond);
    DivOfSum(hours, 24, n, hour);
    DivOfSum(ticks, TicksPerDay, n, ((hour * 60 + minute) * 60 + second) * TicksPerSecond);
  }

  /** Day number of the first day of `year`. */
  function YearStart(year: int): int
    requires 1 <= year
  {
    var y := year - 1;
    y * 365 + y / 4 - y / 100 + y / 400
  }

  /** A year starts where the previous one ends: `DaysToMonth(year)[12]` days after its own start. */
  lemma YearLength(year: int)
    requires 1 <= year
    ensures YearStart(year + 1) == YearStart(year) + DaysToMonth(year)[12]
  {
    var y := year - 1;
    StepQuotient(y, 4);
    StepQuotient(y, 100);
    StepQuotient(y, 400);
    if year % 100 == 0 {
      DivOfSum(year, 4, 25 * (year / 100), 0);
    }
    if year % 400 == 0 {
      DivOfSum(year, 100, 4 * (year / 400), 0);
    }
  }

  /** Going from `y` to `y + 1` raises the quotient by `k` by one exactly when `y + 1` is a multiple of `k`. */
  lemma StepQuotient(y: int, k: int)
    requires 0 <= y && 0 < k
    ensures (y + 1) / k - y / k == if (y + 1) % k == 0 then 1 else 0
  {
    var q, r := y / k, y % k;
    if r == k - 1 {
      DivOfSum(y + 1, k, q + 1, 0);
    } else {
      DivOfSum(y + 1, k, q, r + 1);
    }
  }

  lemma {:induction false} DaysToMonthMonotone(year: int, i: int, j: int)
    requires 0 <= i <= j <= 12
    ensures DaysToMonth(year)[i] <= DaysToMonth(year)[j]
    decreases j - i
  {
    if i < j {
      DaysToMonthMonotone(year, i, j - 1);
    }
  }

  /** The day number of a valid date lies within its year. */
  lemma DayWithinYear(d: Date)
    requires ValidDate(d)
    ensures YearStart(d.year) <= DaysFromCivil(d) < YearStart(d.year + 1)
  {
    DaysToMonthMonotone(d.year, d.month, 12);
    YearLength(d.year);
  }

  lemma YearStartMonotone(y: int, z: int)
    requires 1 <= y <= z
    ensures YearStart(y) <= YearStart(z)
  {
    MonotoneYearDays(y - 1, z - 1);
  }

  /** Years do not overlap: a day number lies in at most one year. */
  lemma YearOfDayUnique(ya: int, yb: int, n: int)
    requires 1 <= ya && 1 <= yb
    requires YearStart(ya) <= n < YearStart(ya + 1) && YearStart(yb) <= n < YearStart(yb + 1)
    ensures ya == yb
  {
    if ya < yb {
      YearStartMonotone(ya + 1, yb);
    } else if yb < ya {
      YearStartMonotone(yb + 1, ya);
    }
  }

  /** Valid dates with the same day number lie in the same year. */
  lemma SameDayNumberSameYear(a: Date, b: Date)
    requires ValidDate(a) && ValidDate(b) && DaysFromCivil(a) == DaysFromCivil(b)
    ensures a.year == b.year
  {
    DayWithinYear(a);
    DayWithinYear(b);
    YearOfDayUnique(a.year, b.year, DaysFromCivil(a));
  }

  /** Different valid dates have different day numbers. */
  lemma DaysFromCivilInjective(a: Date, b: Date)
    requires ValidDate(a) && ValidDate(b) && DaysFromCivil(a) == DaysFromCivil(b)
    ensures a == b
  {
    SameDayNumberSameYear(a, b);
    var days := DaysToMonth(a.year);
    assert days[a.month - 1] + a.day == days[b.month - 1] + b.day;
    if a.month < b.month {
      DaysToMonthMonotone(a.year, a.month, b.month - 1);
    } else if b.month < a.month {
      DaysToMonthMonotone(a.year, b.month, a.month - 1);
    }
  }

  /** The reverse round trip: reading the date of a valid date's day number gives that date back. */
  lemma CivilRoundTrip(d: Date)
    requires ValidDate(d)
    ensures 0 <= DaysFromCivil(d) < DaysTo10000 && CivilFromDays(DaysFromCivil(d)) == d
  {
    CivilDayInRange(d);
    DaysFromCivilInjective(CivilFromDays(DaysFromCivil(d)), d);
  }

  lemma CivilDayInRange(d: Date)
    requires ValidDate(d)
    ensures 0 <= DaysFromCivil(d) < DaysTo10000
  {
    var y := d.year - 1;
    assert y * 365 + y / 4 - y / 100 + y / 400 <= 9998 * 365 + 9998 / 4 - 9998 / 100 + 9998 / 400 by {
      MonotoneYearDays(y, 9998);
    }
  }

  lemma MonotoneYearDays(y: int, z: int)
    requires 0 <= y <= z
    ensures y * 365 + y / 4 - y / 100 + y / 400 <= z * 365 + z / 4 - z / 100 + z / 400
  {
    // Each of the three leap corrections changes by at most the year difference.
    assert z / 4 - y / 4 >= 0;
    assert y / 100 + (z - y) / 100 <= z / 100 <= y / 100 + (z - y) / 100 + 1;
    assert z / 400 >= y / 400;
  }

  // ---------------------------------------------------------------------------
  // ToUtcKeepTimeAsIs
  // ---------------------------------------------------------------------------

  /**
   * `dateTime.ToUtcKeepTimeAsIs()`: a new `DateTime` built from the year, month, day, hour,
   * minute and second of `dt`, of kind UTC. No offset is applied: the result is `dt` cut
   * down to its whole second.
   */
  function ToUtcKeepTimeAsIs(dt: DateTime): (r: DateTime)
    ensures r.kind == Utc
    ensures r.ticks == dt.ticks - dt.ticks % TicksPerSecond
    ensures r.ticks % TicksPerSecond == 0
  {
    var date := CivilFromDays(DayNumber(dt));
    ClockSplit(dt.ticks);
    NewDateTime(date, Hour(dt), Minute(dt), Second(dt), Utc)
  }

  /** Splitting ticks into day number, hour, minute and second and putting them back loses only the sub-second part. */
  lemma ClockSplit(t: int)
    requires 0 <= t
    ensures 0 <= t / TicksPerHour % 24 < 24
    ensures (t / TicksPerDay) * TicksPerDay
      + ((t / TicksPerHour % 24 * 60 + t / TicksPerMinute % 60) * 60 + t / TicksPerSecond % 60) * TicksPerSecond
      == t - t % TicksPerSecond
  {
    var s := t / TicksPerSecond;
    var mi := s / 60;
    var h := mi / 60;
    var n := h / 24;
    DivOfSum(t, TicksPerMinute, mi, t - mi * TicksPerMinute);
    DivOfSum(t, TicksPerHour, h, t - h * TicksPerHour);
    DivOfSum(t, TicksPerDay, n, t - n * TicksPerDay);
  }

  /** The result shows the same calendar date and wall-clock time, to the second, as the input. */
  lemma ToUtcKeepsClockFields(dt: DateTime)
    ensures var r := ToUtcKeepTimeAsIs(dt);
      && Year(r) == Year(dt) && Month(r) == Month(dt) && Day(r) == Day(dt)
      && Hour(r) == Hour(dt) && Minute(r) == Minute(dt) && Second(r) == Second(dt)
  {
    var r := ToUtcKeepTimeAsIs(dt);
    TruncationKeepsUnits(dt.ticks, r.ticks);
    assert DayNumber(r) == DayNumber(dt);
  }

  /** Whole days, hours, minutes and seconds of a tick count survive cutting off its sub-second part. */
  lemma TruncationKeepsUnits(t: int, u: int)
    requires 0 <= t && u == t - t % TicksPerSecond
    ensures u / TicksPerDay == t / TicksPerDay
    ensures u / TicksPerHour == t / TicksPerHour
    ensures u / TicksPerMinute == t / TicksPerMinute
    ensures u / TicksPerSecond == t / TicksPerSecond
  {
    TruncatedQuotient(t, 86400);
    TruncatedQuotient(t, 3600);
    TruncatedQuotient(t, 60);
    TruncatedQuotient(t, 1);
  }

  /** Cutting off the sub-second part does not change the quotient by any whole number of seconds. */
  lemma TruncatedQuotient(t: int, k: int)
    requires 0 <= t && 1 <= k
    ensures (t - t % TicksPerSecond) / (TicksPerSecond * k) == t / (TicksPerSecond * k)
  {
    var d := TicksPerSecond * k;
    var q, rem := t / d, t % d;
    var s, r0 := rem / TicksPerSecond, rem % TicksPerSecond;
    assert d * q == TicksPerSecond * (k * q);
    DivOfSum(t, TicksPerSecond, k * q + s, r0);
    assert TicksPerSecond * s <= rem;
    DivOfSum(t - r0, d, q, TicksPerSecond * s);
  }

  /** Whatever the input's kind, the result is tagged UTC and its ticks are not shifted by any offset. */
  lemma ToUtcIgnoresKind(dt: DateTime, kind: DateTimeKind)
    ensures ToUtcKeepTimeAsIs(DateTime(dt.ticks, kind)) == ToUtcKeepTimeAsIs(dt)
    ensures dt.ticks - TicksPerSecond < ToUtcKeepTimeAsIs(dt).ticks <= dt.ticks
  {
  }

  /** Applying the conversion twice gives the same result as applying it once. */
  lemma ToUtcIdempotent(dt: DateTime)
    ensures ToUtcKeepTimeAsIs(ToUtcKeepTimeAsIs(dt)) == ToUtcKeepTimeAsIs(dt)
  {
  }

  /** The conversion is order-preserving on tick values. */
  lemma ToUtcMonotone(a: DateTime, b: DateTime)
    requires AtOrBefore(a, b)
    ensures AtOrBefore(ToUtcKeepTimeAsIs(a), ToUtcKeepTimeAsIs(b))
  {
    assert a.ticks / TicksPerSecond <= b.ticks / TicksPerSecond;
  }
}
