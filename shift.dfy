/**
  The date arithmetic of run.py: a `datetime` with second precision, the
  `timedelta` increment built from days, hours and minutes, `datetime +
  timedelta`, the helper `add_months`, and the shift that composes them.
 */
module DateShift {
  import opened Wrappers
  import opened Calendar

  const SECONDS_PER_DAY: int := 86400
  /** The largest number of days a `timedelta` may hold, either sign. */
  const MAX_DELTA_DAYS: int := 999999999

  /** A naive `datetime` (no time zone); microseconds are always zero here,
      since the text format carries whole seconds only. */
  datatype DateTime = DateTime(year: int, month: int, day: int, hour: int, minute: int, second: int)

  function DateOf(t: DateTime): Date {
    Date(t.year, t.month, t.day)
  }

  /** What Python's `datetime` constructor accepts. */
  predicate IsDateTime(t: DateTime) {
    InRange(DateOf(t)) && 0 <= t.hour < 24 && 0 <= t.minute < 60 && 0 <= t.second < 60
  }

  function SecondOfDay(t: DateTime): int {
    t.hour * 3600 + t.minute * 60 + t.second
  }

  /** `datetime.combine(d, time(h, m, s))` for the time `s` seconds after midnight. */
  function Combine(d: Date, s: int): (r: DateTime)
    requires 0 <= s < SECONDS_PER_DAY
    ensures DateOf(r) == d && SecondOfDay(r) == s
    ensures 0 <= r.hour < 24 && 0 <= r.minute < 60 && 0 <= r.second < 60
  {
    DateTime(d.year, d.month, d.day, s / 3600, s % 3600 / 60, s % 60)
  }

  /** Seconds elapsed from the start of 0000-12-31 (the day before ordinal 1). */
  function Instant(t: DateTime): int
    requires IsDateTime(t)
  {
    ToOrdinal(DateOf(t)) * SECONDS_PER_DAY + SecondOfDay(t)
  }

  /** Two date-times at the same instant are the same date-time. */
  lemma InstantInjective(t1: DateTime, t2: DateTime)
    requires IsDateTime(t1) && IsDateTime(t2)
    ensures Instant(t1) == Instant(t2) <==> t1 == t2
  {
    if Instant(t1) == Instant(t2) {
      assert ToOrdinal(DateOf(t1)) == ToOrdinal(DateOf(t2));
      OrdinalInjective(DateOf(t1), DateOf(t2));
      assert t1.hour == t2.hour;
    }
  }

  /** A `timedelta`, normalised as Python keeps it: whole days, and seconds in one day. */
  datatype Delta = Delta(days: int, seconds: int)

  predicate IsDelta(x: Delta) {
    -MAX_DELTA_DAYS <= x.days <= MAX_DELTA_DAYS && 0 <= x.seconds < SECONDS_PER_DAY
  }

  function TotalSeconds(x: Delta): int {
    x.days * SECONDS_PER_DAY + x.seconds
  }

  /** `timedelta(days=days, hours=hours, minutes=minutes)` (run.py:21): `None`
      stands for the `OverflowError` raised when the days exceed the range. */
  function MakeIncrement(days: int, hours: int, minutes: int): (r: Option<Delta>)
    ensures r.Some? ==> IsDelta(r.value)
    ensures r.Some? ==> TotalSeconds(r.value) == days * SECONDS_PER_DAY + hours * 3600 + minutes * 60
    ensures r.Some? <==>
      -MAX_DELTA_DAYS * SECONDS_PER_DAY <= days * SECONDS_PER_DAY + hours * 3600 + minutes * 60
                                          < (MAX_DELTA_DAYS + 1) * SECONDS_PER_DAY
  {
    var total := days * SECONDS_PER_DAY + hours * 3600 + minutes * 60;
    var d := total / SECONDS_PER_DAY;
    if -MAX_DELTA_DAYS <= d <= MAX_DELTA_DAYS then Some(Delta(d, total % SECONDS_PER_DAY)) else None
  }

  /** The date-time `s` seconds into the day with ordinal `ord`. */
  function FromInstant(ord: int, s: int): (r: DateTime)
    requires 0 < ord <= MAX_ORDINAL && 0 <= s < SECONDS_PER_DAY
    ensures IsDateTime(r) && Instant(r) == ord * SECONDS_PER_DAY + s
  {
    var d := FromOrdinal(ord);
    OrdinalRange(d);
    Combine(d, s)
  }

  /** Carrying whole days out of a second count `total` added to day `a`. */
  lemma CarryDays(a: int, total: int)
    ensures (a + total / SECONDS_PER_DAY) * SECONDS_PER_DAY + total % SECONDS_PER_DAY
            == a * SECONDS_PER_DAY + total
    ensures 0 < a + total / SECONDS_PER_DAY <= MAX_ORDINAL <==>
      SECONDS_PER_DAY <= a * SECONDS_PER_DAY + total < (MAX_ORDINAL + 1) * SECONDS_PER_DAY
  {
  }

  /** `t + x`: the sum is taken on the day ordinal and the second of the day;
      `None` stands for the `OverflowError` of a result outside years 1..9999. */
  function AddDelta(t: DateTime, x: Delta): (r: Option<DateTime>)
    requires IsDateTime(t) && IsDelta(x)
    ensures r.Some? ==> IsDateTime(r.value) && Instant(r.value) == Instant(t) + TotalSeconds(x)
    ensures r.Some? <==>
      SECONDS_PER_DAY <= Instant(t) + TotalSeconds(x) < (MAX_ORDINAL + 1) * SECONDS_PER_DAY
  {
    var total := SecondOfDay(t) + x.seconds;
    var ord := ToOrdinal(DateOf(t)) + x.days + total / SECONDS_PER_DAY;
    CarryDays(ToOrdinal(DateOf(t)) + x.days, total);
    if 0 < ord <= MAX_ORDINAL then Some(FromInstant(ord, total % SECONDS_PER_DAY)) else None
  }

  /** A zero increment leaves every date-time as it is. */
  lemma AddDeltaZero(t: DateTime)
    requires IsDateTime(t)
    ensures AddDelta(t, Delta(0, 0)) == Some(t)
  {
    OrdinalRange(DateOf(t));
    var r := AddDelta(t, Delta(0, 0));
    InstantInjective(r.value, t);
  }

  /** The sum is the one date-time at the instant reached: any valid `u`
      that many seconds after `t` is `t + x`. */
  lemma AddDeltaReaches(t: DateTime, x: Delta, u: DateTime)
    requires IsDateTime(t) && IsDelta(x) && IsDateTime(u)
    requires Instant(u) == Instant(t) + TotalSeconds(x)
    ensures AddDelta(t, x) == Some(u)
  {
    OrdinalRange(DateOf(u));
    InstantInjective(AddDelta(t, x).value, u);
  }

  /** The date-time on day `d`, where `d` is as many days after `t`'s date as
      the increment's days plus the carry, at the remaining seconds, is the
      instant that the increment reaches. */
  lemma CarryInstant(t: DateTime, x: Delta, d: Date)
    requires IsDateTime(t) && IsDelta(x) && InRange(d)
    requires ToOrdinal(d) == ToOrdinal(DateOf(t)) + x.days + (SecondOfDay(t) + x.seconds) / SECONDS_PER_DAY
    ensures IsDateTime(Combine(d, (SecondOfDay(t) + x.seconds) % SECONDS_PER_DAY))
    ensures Instant(Combine(d, (SecondOfDay(t) + x.seconds) % SECONDS_PER_DAY)) == Instant(t) + TotalSeconds(x)
  {
    var total := SecondOfDay(t) + x.seconds;
    var u := Combine(d, total % SECONDS_PER_DAY);
    CarryDays(ToOrdinal(DateOf(t)) + x.days, total);
    assert Instant(u) == ToOrdinal(d) * SECONDS_PER_DAY + total % SECONDS_PER_DAY;
  }

  /** The sum in calendar terms: the date moves by the increment's days plus
      the day carried out of the seconds, and the time of day becomes what is
      left of the seconds. */
  lemma AddDeltaCarry(t: DateTime, x: Delta)
    requires IsDateTime(t) && IsDelta(x)
    requires InRange(AddDays(DateOf(t), x.days + (SecondOfDay(t) + x.seconds) / SECONDS_PER_DAY))
    ensures AddDelta(t, x) ==
      Some(Combine(AddDays(DateOf(t), x.days + (SecondOfDay(t) + x.seconds) / SECONDS_PER_DAY),
                   (SecondOfDay(t) + x.seconds) % SECONDS_PER_DAY))
  {
    var total := SecondOfDay(t) + x.seconds;
    var d := AddDays(DateOf(t), x.days + total / SECONDS_PER_DAY);
    CarryInstant(t, x, d);
    AddDeltaReaches(t, x, Combine(d, total % SECONDS_PER_DAY));
  }

  /** `add_months(t, months)` (run.py:8-17). `None` stands for the `ValueError`
      of a target year outside 1..9999, which the fallback raises again. */
  function AddMonths(t: DateTime, months: int): (r: Option<DateTime>)
    requires IsDateTime(t)
    ensures r.Some? <==> MIN_YEAR <= t.year + (t.month - 1 + months) / 12 <= MAX_YEAR
    ensures r.Some? ==> IsDateTime(r.value)
    ensures r.Some? ==> r.value.year * 12 + r.value.month == t.year * 12 + t.month + months
    ensures r.Some? ==> r.value.hour == t.hour && r.value.minute == t.minute && r.value.second == t.second
    ensures r.Some? ==>
      r.value.day == if t.day <= DaysInMonth(r.value.year, r.value.month) then t.day else 1
  {
    var index := t.month - 1 + months;
    var year := t.year + index / 12;
    var month := index % 12 + 1;
    if !(MIN_YEAR <= year <= MAX_YEAR) then None
    else if t.day <= DaysInMonth(year, month) then Some(t.(year := year, month := month))
    else Some(t.(year := year, month := month, day := 1))
  }

  /** Adding zero months is the identity (run.py:10-14). */
  lemma AddMonthsZero(t: DateTime)
    requires IsDateTime(t)
    ensures AddMonths(t, 0) == Some(t)
  {
    var r := AddMonths(t, 0).value;
    assert r.year == t.year && r.month == t.month;
  }

  /** The shift of run.py:47-49: the increment first, then `add_months` with
      `months + years * 12` when `months or years` is nonzero. */
  function Shift(t: DateTime, x: Delta, months: int, years: int): (r: Option<DateTime>)
    requires IsDateTime(t) && IsDelta(x)
    ensures r.Some? ==> IsDateTime(r.value)
  {
    match AddDelta(t, x)
    case None => None
    case Some(u) => if months != 0 || years != 0 then AddMonths(u, months + years * 12) else Some(u)
  }

  /** The guard `if months or years` changes nothing: the shift is always the
      increment followed by `add_months` with the total month count. */
  lemma ShiftIsIncrementThenMonths(t: DateTime, x: Delta, months: int, years: int)
    requires IsDateTime(t) && IsDelta(x)
    ensures Shift(t, x, months, years) ==
      match AddDelta(t, x)
      case None => None
      case Some(u) => AddMonths(u, months + years * 12)
  {
    if AddDelta(t, x).Some? {
      AddMonthsZero(AddDelta(t, x).value);
    }
  }

  /** A zero offset returns the timestamp unchanged (run.py:21, 47-49). */
  lemma ShiftZero(t: DateTime)
    requires IsDateTime(t)
    ensures MakeIncrement(0, 0, 0) == Some(Delta(0, 0))
    ensures Shift(t, Delta(0, 0), 0, 0) == Some(t)
  {
    AddDeltaZero(t);
  }
}
