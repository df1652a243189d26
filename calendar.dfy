/**
  The proleptic Gregorian calendar that Python's `datetime` module uses:
  leap years, month lengths, and the day ordinal (0001-01-01 is day 1) on
  which `date + timedelta` is computed.
 */
module Calendar {

  /** `datetime.MINYEAR`, `datetime.MAXYEAR` and the ordinal of 9999-12-31. */
  const MIN_YEAR: int := 1
  const MAX_YEAR: int := 9999
  const MAX_ORDINAL: int := 3652059

  datatype Date = Date(year: int, month: int, day: int)

  predicate IsLeapYear(y: int) {
    y % 4 == 0 && (y % 100 != 0 || y % 400 == 0)
  }

  function DaysInYear(y: int): int {
    if IsLeapYear(y) then 366 else 365
  }

  function DaysInMonth(y: int, m: int): (n: int)
    requires 1 <= m <= 12
    ensures 28 <= n <= 31
    ensures m == 2 ==> (n == 29 <==> IsLeapYear(y))
  {
    if m == 2 then (if IsLeapYear(y) then 29 else 28)
    else if m == 4 || m == 6 || m == 9 || m == 11 then 30
    else 31
  }

  /** A calendar date; the year is not restricted here (the proleptic calendar
      runs on below year 1 and beyond 9999). */
  predicate IsDate(d: Date) {
    1 <= d.month <= 12 && 1 <= d.day <= DaysInMonth(d.year, d.month)
  }

  /** A date that Python's `date` type can represent. */
  predicate InRange(d: Date) {
    IsDate(d) && MIN_YEAR <= d.year <= MAX_YEAR
  }

  /** Days in the years before `y`, counted from 0001-01-01. */
  function DaysBeforeYear(y: int): int {
    var p := y - 1;
    p * 365 + p / 4 - p / 100 + p / 400
  }

  /** Days in the months of year `y` before month `m`. */
  function DaysBeforeMonth(y: int, m: int): (n: int)
    requires 1 <= m <= 12
    ensures 28 * (m - 1) <= n <= 31 * (m - 1)
  {
    if m == 1 then 0 else DaysBeforeMonth(y, m - 1) + DaysInMonth(y, m - 1)
  }

  /** `date.toordinal()`: 0001-01-01 is day 1. */
  function ToOrdinal(d: Date): int
    requires IsDate(d)
  {
    DaysBeforeYear(d.year) + DaysBeforeMonth(d.year, d.month) + d.day
  }

  lemma DivStep(p: int)
    ensures (p + 1) / 4 - p / 4 == (if (p + 1) % 4 == 0 then 1 else 0)
    ensures (p + 1) / 100 - p / 100 == (if (p + 1) % 100 == 0 then 1 else 0)
    ensures (p + 1) / 400 - p / 400 == (if (p + 1) % 400 == 0 then 1 else 0)
  {
  }

  /** The length of a year as the three divisibility tests count it. */
  lemma LeapCount(y: int)
    ensures DaysInYear(y) == 365 + (if y % 4 == 0 then 1 else 0) - (if y % 100 == 0 then 1 else 0) + (if y % 400 == 0 then 1 else 0)
  {
    if y % 400 == 0 {
      var q := y / 400;
      assert y == 100 * (4 * q) && y == 4 * (100 * q);
    } else if y % 100 == 0 {
      var q := y / 100;
      assert y == 4 * (25 * q);
    }
  }

  /** A year contributes exactly its own length to the day count. */
  lemma DaysBeforeNextYear(y: int)
    ensures DaysBeforeYear(y + 1) == DaysBeforeYear(y) + DaysInYear(y)
  {
    DivStep(y - 1);
    LeapCount(y);
  }

  lemma {:induction false} DaysBeforeYearMonotone(y1: int, y2: int)
    requires y1 < y2
    ensures DaysBeforeYear(y1) + DaysInYear(y1) <= DaysBeforeYear(y2)
    decreases y2 - y1
  {
    DaysBeforeNextYear(y1);
    if y1 + 1 < y2 {
      DaysBeforeYearMonotone(y1 + 1, y2);
    }
  }

  /** December starts 31 days before the year ends. */
  lemma DaysBeforeDecember(y: int)
    ensures DaysBeforeMonth(y, 12) + 31 == DaysInYear(y)
  {
    var leap := if IsLeapYear(y) then 1 else 0;
    assert DaysBeforeMonth(y, 2) == 31;
    assert DaysBeforeMonth(y, 3) == 59 + leap;
    assert DaysBeforeMonth(y, 4) == 90 + leap;
    assert DaysBeforeMonth(y, 5) == 120 + leap;
    assert DaysBeforeMonth(y, 6) == 151 + leap;
    assert DaysBeforeMonth(y, 7) == 181 + leap;
    assert DaysBeforeMonth(y, 8) == 212 + leap;
    assert DaysBeforeMonth(y, 9) == 243 + leap;
    assert DaysBeforeMonth(y, 10) == 273 + leap;
    assert DaysBeforeMonth(y, 11) == 304 + leap;
    assert DaysBeforeMonth(y, 12) == 334 + leap;
  }

  lemma {:induction false} DaysBeforeMonthMonotone(y: int, m1: int, m2: int)
    requires 1 <= m1 < m2 <= 12
    ensures DaysBeforeMonth(y, m1) + DaysInMonth(y, m1) <= DaysBeforeMonth(y, m2)
    decreases m2 - m1
  {
    if m1 + 1 < m2 {
      DaysBeforeMonthMonotone(y, m1 + 1, m2);
    }
  }

  /** The ordinal of a date lies inside its year's span of ordinals. */
  lemma OrdinalWithinYear(d: Date)
    requires IsDate(d)
    ensures DaysBeforeYear(d.year) < ToOrdinal(d) <= DaysBeforeYear(d.year) + DaysInYear(d.year)
  {
    DaysBeforeDecember(d.year);
    if d.month < 12 {
      DaysBeforeMonthMonotone(d.year, d.month, 12);
    }
  }

  /** `toordinal` is strictly increasing in calendar order, hence one-to-one. */
  lemma OrdinalInjective(d1: Date, d2: Date)
    requires IsDate(d1) && IsDate(d2)
    ensures ToOrdinal(d1) == ToOrdinal(d2) <==> d1 == d2
  {
    if d1.year < d2.year {
      OrdinalWithinYear(d1); OrdinalWithinYear(d2);
      DaysBeforeYearMonotone(d1.year, d2.year);
    } else if d2.year < d1.year {
      OrdinalWithinYear(d1); OrdinalWithinYear(d2);
      DaysBeforeYearMonotone(d2.year, d1.year);
    } else if d1.month < d2.month {
      DaysBeforeMonthMonotone(d1.year, d1.month, d2.month);
    } else if d2.month < d1.month {
      DaysBeforeMonthMonotone(d1.year, d2.month, d1.month);
    }
  }

  /** The first day of the month after `d`'s. */
  function NextMonthStart(d: Date): (r: Date)
    requires IsDate(d)
    ensures IsDate(r)
    ensures ToOrdinal(r) == ToOrdinal(d) + DaysInMonth(d.year, d.month) - d.day + 1
  {
    if d.month < 12 then Date(d.year, d.month + 1, 1)
    else
      DaysBeforeNextYear(d.year);
      DaysBeforeDecember(d.year);
      Date(d.year + 1, 1, 1)
  }

  /** The last day of the month before `d`'s. */
  function PrevMonthEnd(d: Date): (r: Date)
    requires IsDate(d)
    ensures IsDate(r)
    ensures ToOrdinal(r) == ToOrdinal(d) - d.day
  {
    if d.month > 1 then Date(d.year, d.month - 1, DaysInMonth(d.year, d.month - 1))
    else
      DaysBeforeNextYear(d.year - 1);
      DaysBeforeDecember(d.year - 1);
      Date(d.year - 1, 12, 31)
  }

  /** Counts `k` days forward (or `-k` back) through the calendar, a month at a time. */
  function AddDays(d: Date, k: int): (r: Date)
    requires IsDate(d)
    ensures IsDate(r)
    ensures ToOrdinal(r) == ToOrdinal(d) + k
    decreases if k >= 0 then k else -k
  {
    if k == 0 then d
    else if k > 0 then
      if d.day + k <= DaysInMonth(d.year, d.month) then Date(d.year, d.month, d.day + k)
      else AddDays(NextMonthStart(d), k - (DaysInMonth(d.year, d.month) - d.day + 1))
    else
      if d.day + k >= 1 then Date(d.year, d.month, d.day + k)
      else AddDays(PrevMonthEnd(d), k + d.day)
  }

  /** `date.fromordinal(n)`: the date `n - 1` days after 0001-01-01. */
  function FromOrdinal(n: int): Date {
    AddDays(Date(1, 1, 1), n - 1)
  }

  /** `fromordinal` and `toordinal` are inverse. */
  lemma OrdinalRoundTrip(n: int, d: Date)
    requires IsDate(d)
    ensures IsDate(FromOrdinal(n)) && ToOrdinal(FromOrdinal(n)) == n
    ensures FromOrdinal(ToOrdinal(d)) == d
  {
    OrdinalInjective(FromOrdinal(ToOrdinal(d)), d);
  }

  /** Ordinal arithmetic is day counting: adding `k` to the ordinal of `d` and
      converting back reaches the same date as stepping `k` days from `d`. */
  lemma FromOrdinalShift(d: Date, k: int)
    requires IsDate(d)
    ensures FromOrdinal(ToOrdinal(d) + k) == AddDays(d, k)
  {
    OrdinalInjective(FromOrdinal(ToOrdinal(d) + k), AddDays(d, k));
  }

  /** The ordinals `1..MAX_ORDINAL` are exactly the dates of years `1..9999`. */
  lemma OrdinalRange(d: Date)
    requires IsDate(d)
    ensures 1 <= ToOrdinal(d) <= MAX_ORDINAL <==> MIN_YEAR <= d.year <= MAX_YEAR
  {
    OrdinalWithinYear(d);
    if d.year < MIN_YEAR {
      DaysBeforeYearMonotone(d.year, MIN_YEAR);
    } else if d.year > MAX_YEAR {
      if d.year > MAX_YEAR + 1 { DaysBeforeYearMonotone(MAX_YEAR + 1, d.year); }
    } else {
      if d.year > MIN_YEAR { DaysBeforeYearMonotone(MIN_YEAR, d.year); }
      if d.year < MAX_YEAR { DaysBeforeYearMonotone(d.year + 1, MAX_YEAR + 1); }
    }
  }
}
