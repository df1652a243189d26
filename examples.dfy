/**
  Worked cases of the shift, each proved from the general lemmas: the day
  that does not exist in the target month, a year boundary crossed in either
  direction, a day increment applied before the months, offsets that cancel,
  and minutes that carry into a new year.
 */
module Examples {
  import opened Wrappers
  import opened Calendar
  import opened DateShift
  import opened ExifText
  import opened Rewriter

  /** A shift of the tag text by zero days, hours and minutes. */
  lemma MonthsOnly(t: DateTime, months: int, years: int)
    requires IsDateTime(t)
    ensures ShiftedText(Format(t), Delta(0, 0), months, years) ==
      match AddMonths(t, months + years * 12)
      case None => Failure(OutOfRange)
      case Some(u) => Success(Format(u))
  {
    ParseFormat(t);
    AddDeltaZero(t);
    ShiftIsIncrementThenMonths(t, Delta(0, 0), months, years);
  }

  /** 31 January plus one month: 31 February does not exist, so the day
      falls back to the first. */
  lemma JanuaryThirtyFirstPlusOneMonth()
    ensures AddMonths(DateTime(2024, 1, 31, 10, 0, 0), 1) == Some(DateTime(2024, 2, 1, 10, 0, 0))
  {
  }

  /** Two months from mid-December land in February of the next year. */
  lemma DecemberPlusTwoMonths()
    ensures AddMonths(DateTime(2023, 12, 15, 8, 30, 0), 2) == Some(DateTime(2024, 2, 15, 8, 30, 0))
  {
  }

  /** Four months back from March land in November of the previous year. */
  lemma MarchMinusFourMonths()
    ensures AddMonths(DateTime(2024, 3, 10, 0, 0, 0), -4) == Some(DateTime(2023, 11, 10, 0, 0, 0))
  {
  }

  /** Twelve months forward and one year back cancel out, for every tag. */
  lemma MonthsCancelYears(t: DateTime)
    requires IsDateTime(t)
    ensures ShiftedText(Format(t), Delta(0, 0), 12, -1) == Success(Format(t))
  {
    MonthsOnly(t, 12, -1);
    AddMonthsZero(t);
  }

  lemma TwelveMonthsMinusOneYear()
    ensures ShiftedText("2022:06:30 12:00:00", Delta(0, 0), 12, -1) == Success("2022:06:30 12:00:00")
  {
    var t := DateTime(2022, 6, 30, 12, 0, 0);
    assert Format(t) == "2022:06:30 12:00:00";
    MonthsCancelYears(t);
  }

  /** One day is a whole day of the increment; 45 minutes are 2700 seconds of
      it; a billion days is past what `timedelta` holds, so the whole run
      stops. */
  lemma IncrementExamples()
    ensures MakeIncrement(1, 0, 0) == Some(Delta(1, 0))
    ensures MakeIncrement(0, 0, 45) == Some(Delta(0, 2700))
    ensures MakeIncrement(0, -1, 0) == Some(Delta(-1, 82800))
    ensures MakeIncrement(1000000000, 0, 0).None?
  {
  }

  /** 1 February 2024 is the day after 31 January. */
  lemma DayAfterJanuaryThirtyFirst(t: DateTime, u: DateTime)
    requires t == DateTime(2024, 1, 31, 10, 0, 0) && u == DateTime(2024, 2, 1, 10, 0, 0)
    ensures IsDateTime(t) && IsDateTime(u) && Instant(u) == Instant(t) + TotalSeconds(Delta(1, 0))
  {
    assert ToOrdinal(DateOf(u)) == ToOrdinal(DateOf(t)) + 1;
  }

  /** The day is added first: 31 January plus one day is 1 February, and one
      month later is 1 March (not 29 February, then 1 March by accident). */
  lemma DayThenMonth(t: DateTime)
    requires t == DateTime(2024, 1, 31, 10, 0, 0)
    ensures Shift(t, Delta(1, 0), 1, 0) == Some(DateTime(2024, 3, 1, 10, 0, 0))
  {
    var u := DateTime(2024, 2, 1, 10, 0, 0);
    DayAfterJanuaryThirtyFirst(t, u);
    AddDeltaReaches(t, Delta(1, 0), u);
    assert AddMonths(u, 1) == Some(DateTime(2024, 3, 1, 10, 0, 0));
  }

  /** 23:30 on 31 December and 00:15 on the next 1 January are 45 minutes apart. */
  lemma NewYearInstant(t: DateTime, u: DateTime)
    requires MIN_YEAR <= t.year < MAX_YEAR && t.month == 12 && t.day == 31
    requires t.hour == 23 && t.minute == 30 && t.second == 0
    requires u == DateTime(t.year + 1, 1, 1, 0, 15, 0)
    ensures IsDateTime(t) && IsDateTime(u) && Instant(u) == Instant(t) + TotalSeconds(Delta(0, 2700))
  {
    DaysBeforeNextYear(t.year);
    DaysBeforeDecember(t.year);
    assert ToOrdinal(DateOf(u)) == ToOrdinal(DateOf(t)) + 1;
  }

  /** Forty-five minutes after 23:30 on New Year's Eve of any year but the
      last is a quarter past midnight on the first of January. */
  lemma MinutesIntoNewYear(t: DateTime)
    requires MIN_YEAR <= t.year < MAX_YEAR && t.month == 12 && t.day == 31
    requires t.hour == 23 && t.minute == 30 && t.second == 0
    ensures AddDelta(t, Delta(0, 2700)) == Some(DateTime(t.year + 1, 1, 1, 0, 15, 0))
  {
    var u := DateTime(t.year + 1, 1, 1, 0, 15, 0);
    NewYearInstant(t, u);
    AddDeltaReaches(t, Delta(0, 2700), u);
  }
}
