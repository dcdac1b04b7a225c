/**
 * The scenarios of the workday calendar's tests, stated on the model: the
 * weekend steps of a default calendar in December 2025, the half-day steps of
 * an 08:00-16:00 window that carry over the window's edges, and the kata of
 * May 2004 with its two holidays.
 *
 * Each scenario names the working days by a predicate `work` that is only
 * known day by day (Names), so that the proofs count days without redoing
 * the calendar arithmetic of every day.
 */
module WorkdayScenarios {
  import opened Chrono
  import opened Gregorian
  import opened Workday

  // Two predicates that agree on every day count the same working days.
  lemma {:induction false} SameCount(w1: int -> bool, w2: int -> bool, d: int, step: int, k: nat)
    requires forall n :: w1(n) == w2(n)
    ensures CountAfter(w1, d, step, k) == CountAfter(w2, d, step, k)
  {
    if k > 0 {
      SameCount(w1, w2, d, step, k - 1);
    }
  }

  // A name of the working days agrees with WorkingDays on every day.
  lemma NamedAgrees(work: int -> bool, holidays: Holidays)
    requires Names(work, holidays)
    ensures forall n :: work(n) == WorkingDays(holidays)(n)
  {
    forall n
      ensures work(n) == WorkingDays(holidays)(n)
    {
      assert work(n) == IsWorkingDay(holidays, n);
    }
  }

  // The first working day, as found with a name of the working days.
  lemma FirstNamed(work: int -> bool, holidays: Holidays, d: int, step: int, r: int)
    requires Names(work, holidays) && IsFirstWorkingDay(work, d, step, r)
    ensures IsFirstWorkingDay(WorkingDays(holidays), d, step, r)
  {
    NamedAgrees(work, holidays);
    SameCount(work, WorkingDays(holidays), Toward(d, step, -1), step, Distance(d, step, r));
  }

  // The end day, as found with a name of the working days.
  lemma EndNamed(work: int -> bool, holidays: Holidays, d: int, step: int, n: nat, r: int)
    requires Names(work, holidays) && IsEndDay(work, d, step, n, r)
    ensures IsEndDay(WorkingDays(holidays), d, step, n, r)
  {
    NamedAgrees(work, holidays);
    SameCount(work, WorkingDays(holidays), d, step, Distance(d, step, r));
  }

  // The result of getWorkdayIncrement from its end time, its first working day and its end day.
  lemma ResultOfParts(work: int -> bool, start: Time, stop: Time, holidays: Holidays, startDate: DateTime,
                      x: Increment, first: int, last: int, result: DateTime)
    requires Names(work, holidays)
    requires result.time.total == EndTimeOf(start, stop, startDate, x)
    requires IsFirstWorkingDay(work, CarriedDay(start, stop, startDate, x), CalculateIncrement(x), first)
    requires IsEndDay(work, first, CalculateIncrement(x), Abs(TruncateToInt(x)), last)
    requires result.date == CivilFromDays(last)
    ensures IsWorkdayIncrement(start, stop, holidays, startDate, x, result)
  {
    FirstNamed(work, holidays, CarriedDay(start, stop, startDate, x), CalculateIncrement(x), first);
    EndNamed(work, holidays, first, CalculateIncrement(x), Abs(TruncateToInt(x)), last);
  }

  // Enough working days lie ahead when k days already hold them.
  lemma EnoughOfCount(work: int -> bool, start: Time, stop: Time, holidays: Holidays, startDate: DateTime,
                      x: Increment, k: nat)
    requires Names(work, holidays)
    requires CountAfter(work, Toward(CarriedDay(start, stop, startDate, x), CalculateIncrement(x), -1),
                        CalculateIncrement(x), k) >= Abs(TruncateToInt(x)) + 1
    ensures EnoughWorkingDays(start, stop, holidays, startDate, x)
  {
    var step := CalculateIncrement(x);
    var d := CarriedDay(start, stop, startDate, x);
    NamedAgrees(work, holidays);
    SameCount(work, WorkingDays(holidays), Toward(d, step, -1), step, k);
  }

  // ---------------------------------------------------------------------
  // December 2025, without holidays
  // ---------------------------------------------------------------------

  const NoHolidays := Holidays([], [])

  /** The day numbers of December 2025, from 20423 (December 1st) to 20453 (December 31st). */
  lemma December2025(n: int)
    requires 20423 <= n <= 20453
    ensures CivilFromDays(n) == Date(2025, 12, n - 20422)
  {
    var z := n + 719468;
    assert z / 146097 == 5 && z % 146097 == z - 730485;
    var doe := z - 730485;
    assert doe / 1460 == 6 && doe / 36524 == 0 && doe / 146096 == 0;
    assert YearOfEra(doe) == 25;
    assert DayOfYear(doe, 25) == doe - 9131;
    assert (5 * (doe - 9131) + 2) / 153 == 9;
  }

  /** Friday, December 5th, 2025 is day 20427 and Monday, December 8th is day 20430. */
  lemma December5thAnd8th()
    ensures DaysFromCivil(Date(2025, 12, 5)) == 20427 && DaysFromCivil(Date(2025, 12, 8)) == 20430
  {
  }

  /** Without holidays the working days are Monday to Friday. */
  ghost predicate WeekdaysWork(work: int -> bool) {
    forall n :: work(n) <==> Weekday(n) != Sunday && Weekday(n) != Saturday
  }

  lemma NoHolidaysNamed(work: int -> bool)
    requires Names(work, NoHolidays)
    ensures WeekdaysWork(work)
  {
    forall n
      ensures work(n) <==> Weekday(n) != Sunday && Weekday(n) != Saturday
    {
      assert work(n) == IsWorkingDay(NoHolidays, n);
      WeekendOfDayNumber(n);
    }
  }

  /** The weekend of December 6th and 7th, 2025, between Friday 5th (20427) and Monday 8th (20430). */
  lemma AroundDecember6th(work: int -> bool)
    requires WeekdaysWork(work)
    ensures work(20427) && work(20430)
    ensures CountAfter(work, 20427, 1, 2) == 0 && CountAfter(work, 20427, 1, 3) == 1
    ensures CountAfter(work, 20430, -1, 2) == 0 && CountAfter(work, 20430, -1, 3) == 1
  {
    assert work(20427) && !work(20428) && !work(20429) && work(20430);
  }

  /** A default-constructed calendar: the window is 00:00-00:00 and the time stays at midnight. */
  const DefaultStart := Time(0)
  const DefaultStop := Time(0)

  /** Whole workdays from midnight in the default window keep the time and start from the day itself. */
  lemma WholeDaysFromMidnight(date: Date, n: int)
    ensures EndTimeOf(DefaultStart, DefaultStop, DateTime(date, Time(0)), Increment(n, 1)) == 0
    ensures CarriedDay(DefaultStart, DefaultStop, DateTime(date, Time(0)), Increment(n, 1)) == DaysFromCivil(date)
    ensures CalculateIncrement(Increment(n, 1)) == (if n >= 0 then 1 else -1)
    ensures TruncateToInt(Increment(n, 1)) == n
  {
    WholeWorkdaysKeepTime(DefaultStart, DefaultStop, DateTime(date, Time(0)), n);
  }

  /** Test: one workday after Friday, December 5th, 2025 is Monday, December 8th. */
  lemma FridayPlusOneIsMonday()
    ensures IsWorkdayIncrement(DefaultStart, DefaultStop, NoHolidays, DateTime(Date(2025, 12, 5), Time(0)),
                               Increment(1, 1), DateTime(Date(2025, 12, 8), Time(0)))
    ensures EnoughWorkingDays(DefaultStart, DefaultStop, NoHolidays, DateTime(Date(2025, 12, 5), Time(0)),
                              Increment(1, 1))
  {
    WorkingDaysNamed(NoHolidays);
    var work :| Names(work, NoHolidays);
    NoHolidaysNamed(work);
    AroundDecember6th(work);
    December5thAnd8th();
    December2025(20430);
    WholeDaysFromMidnight(Date(2025, 12, 5), 1);
    ResultOfParts(work, DefaultStart, DefaultStop, NoHolidays, DateTime(Date(2025, 12, 5), Time(0)),
                  Increment(1, 1), 20427, 20430, DateTime(Date(2025, 12, 8), Time(0)));
    assert CountAfter(work, 20426, 1, 4) == 2;
    EnoughOfCount(work, DefaultStart, DefaultStop, NoHolidays, DateTime(Date(2025, 12, 5), Time(0)),
                  Increment(1, 1), 4);
  }

  /** Test: one workday before Monday, December 8th, 2025 is Friday, December 5th. */
  lemma MondayMinusOneIsFriday()
    ensures IsWorkdayIncrement(DefaultStart, DefaultStop, NoHolidays, DateTime(Date(2025, 12, 8), Time(0)),
                               Increment(-1, 1), DateTime(Date(2025, 12, 5), Time(0)))
  {
    WorkingDaysNamed(NoHolidays);
    var work :| Names(work, NoHolidays);
    NoHolidaysNamed(work);
    AroundDecember6th(work);
    December5thAnd8th();
    December2025(20427);
    WholeDaysFromMidnight(Date(2025, 12, 8), -1);
    ResultOfParts(work, DefaultStart, DefaultStop, NoHolidays, DateTime(Date(2025, 12, 8), Time(0)),
                  Increment(-1, 1), 20430, 20427, DateTime(Date(2025, 12, 5), Time(0)));
  }

  /**
   * A default-constructed calendar takes Friday, December 5th, 2025 one
   * workday on to Monday, December 8th, at midnight.
   */
  method FridayPlusOneOnDefaultCalendar() returns (result: DateTime)
    ensures result == DateTime(Date(2025, 12, 8), Time(0))
  {
    var calendar := new WorkdayCalendar();
    var startDate := DateTime(Date(2025, 12, 5), Time(0));
    FridayPlusOneIsMonday();
    result := calendar.GetWorkdayIncrement(startDate, Increment(1, 1));
    IsWorkdayIncrementUnique(DefaultStart, DefaultStop, NoHolidays, startDate, Increment(1, 1),
                             result, DateTime(Date(2025, 12, 8), Time(0)));
  }

  // ---------------------------------------------------------------------
  // Half a workday in an 08:00-16:00 window
  // ---------------------------------------------------------------------

  const WindowStart := Time(8 * 60)
  const WindowStop := Time(16 * 60)

  /**
   * Half a day on from the window's start, or back from its end, ends at 12:00
   * and carries no day: the date loops start from the day itself.
   */
  lemma HalfDayWithinWindow(date: Date)
    ensures EndTimeOf(WindowStart, WindowStop, DateTime(date, WindowStart), Increment(1, 2)) == 12 * 60
    ensures CarriedDay(WindowStart, WindowStop, DateTime(date, WindowStart), Increment(1, 2)) == DaysFromCivil(date)
    ensures EndTimeOf(WindowStart, WindowStop, DateTime(date, WindowStop), Increment(-1, 2)) == 12 * 60
    ensures CarriedDay(WindowStart, WindowStop, DateTime(date, WindowStop), Increment(-1, 2)) == DaysFromCivil(date)
  {
  }

  /**
   * A start before the window is moved to 08:00 and a start after it to
   * 16:00: half a day on from before the window, or back from after it, ends
   * at 12:00 and carries no day.
   */
  lemma HalfDayFromOutsideWindow(date: Date, t: Time)
    requires t.total < MinutesPerDay
    ensures t.total < 8 * 60 ==> EndTimeOf(WindowStart, WindowStop, DateTime(date, t), Increment(1, 2)) == 12 * 60
    ensures t.total < 8 * 60 ==> CarriedDay(WindowStart, WindowStop, DateTime(date, t), Increment(1, 2)) == DaysFromCivil(date)
    ensures 16 * 60 < t.total ==> EndTimeOf(WindowStart, WindowStop, DateTime(date, t), Increment(-1, 2)) == 12 * 60
    ensures 16 * 60 < t.total ==> CarriedDay(WindowStart, WindowStop, DateTime(date, t), Increment(-1, 2)) == DaysFromCivil(date)
  {
  }

  /**
   * Half a day back from before the window crosses 08:00, ends at 12:00 and
   * carries to the day before; half a day on from after the window crosses
   * 16:00, ends at 12:00 and carries to the day after. The date loops then
   * start from the carried day.
   */
  lemma HalfDayAcrossWindowEdge(date: Date, t: Time)
    requires t.total < MinutesPerDay
    ensures t.total < 8 * 60 ==> EndTimeOf(WindowStart, WindowStop, DateTime(date, t), Increment(-1, 2)) == 12 * 60
    ensures t.total < 8 * 60 ==> CarriedDay(WindowStart, WindowStop, DateTime(date, t), Increment(-1, 2)) == DaysFromCivil(date) - 1
    ensures 16 * 60 < t.total ==> EndTimeOf(WindowStart, WindowStop, DateTime(date, t), Increment(1, 2)) == 12 * 60
    ensures 16 * 60 < t.total ==> CarriedDay(WindowStart, WindowStop, DateTime(date, t), Increment(1, 2)) == DaysFromCivil(date) + 1
  {
  }

  /** Test: half a day back from Monday, December 8th, 2025 at 06:00 is Friday, December 5th at 12:00. */
  lemma MondayEarlyHalfDayBackIsFriday()
    ensures IsWorkdayIncrement(WindowStart, WindowStop, NoHolidays, DateTime(Date(2025, 12, 8), Time(6 * 60)),
                               Increment(-1, 2), DateTime(Date(2025, 12, 5), Time(12 * 60)))
  {
    WorkingDaysNamed(NoHolidays);
    var work :| Names(work, NoHolidays);
    NoHolidaysNamed(work);
    AroundDecember6th(work);
    December5thAnd8th();
    December2025(20427);
    HalfDayAcrossWindowEdge(Date(2025, 12, 8), Time(6 * 60));
    ResultOfParts(work, WindowStart, WindowStop, NoHolidays, DateTime(Date(2025, 12, 8), Time(6 * 60)),
                  Increment(-1, 2), 20427, 20427, DateTime(Date(2025, 12, 5), Time(12 * 60)));
  }

  /** Test: half a day on from Friday, December 5th, 2025 at 18:00 is Monday, December 8th at 12:00. */
  lemma FridayLateHalfDayIsMonday()
    ensures IsWorkdayIncrement(WindowStart, WindowStop, NoHolidays, DateTime(Date(2025, 12, 5), Time(18 * 60)),
                               Increment(1, 2), DateTime(Date(2025, 12, 8), Time(12 * 60)))
  {
    WorkingDaysNamed(NoHolidays);
    var work :| Names(work, NoHolidays);
    NoHolidaysNamed(work);
    AroundDecember6th(work);
    December5thAnd8th();
    December2025(20430);
    HalfDayAcrossWindowEdge(Date(2025, 12, 5), Time(18 * 60));
    ResultOfParts(work, WindowStart, WindowStop, NoHolidays, DateTime(Date(2025, 12, 5), Time(18 * 60)),
                  Increment(1, 2), 20430, 20430, DateTime(Date(2025, 12, 8), Time(12 * 60)));
  }

  /** Tuesday, December 9th, 2025 is day 20431; Monday 8th (20430) and Wednesday 10th (20432) are working days. */
  lemma December9th(work: int -> bool)
    requires WeekdaysWork(work)
    ensures DaysFromCivil(Date(2025, 12, 9)) == 20431
    ensures work(20430) && work(20432)
  {
  }

  /** Test: half a day back from Tuesday, December 9th, 2025 at 06:00 is Monday, December 8th at 12:00. */
  lemma TuesdayEarlyHalfDayBackIsMonday()
    ensures IsWorkdayIncrement(WindowStart, WindowStop, NoHolidays, DateTime(Date(2025, 12, 9), Time(6 * 60)),
                               Increment(-1, 2), DateTime(Date(2025, 12, 8), Time(12 * 60)))
  {
    WorkingDaysNamed(NoHolidays);
    var work :| Names(work, NoHolidays);
    NoHolidaysNamed(work);
    December9th(work);
    December2025(20430);
    HalfDayAcrossWindowEdge(Date(2025, 12, 9), Time(6 * 60));
    ResultOfParts(work, WindowStart, WindowStop, NoHolidays, DateTime(Date(2025, 12, 9), Time(6 * 60)),
                  Increment(-1, 2), 20430, 20430, DateTime(Date(2025, 12, 8), Time(12 * 60)));
  }

  /** Test: half a day on from Tuesday, December 9th, 2025 at 18:00 is Wednesday, December 10th at 12:00. */
  lemma TuesdayLateHalfDayIsWednesday()
    ensures IsWorkdayIncrement(WindowStart, WindowStop, NoHolidays, DateTime(Date(2025, 12, 9), Time(18 * 60)),
                               Increment(1, 2), DateTime(Date(2025, 12, 10), Time(12 * 60)))
  {
    WorkingDaysNamed(NoHolidays);
    var work :| Names(work, NoHolidays);
    NoHolidaysNamed(work);
    December9th(work);
    December2025(20432);
    HalfDayAcrossWindowEdge(Date(2025, 12, 9), Time(18 * 60));
    ResultOfParts(work, WindowStart, WindowStop, NoHolidays, DateTime(Date(2025, 12, 9), Time(18 * 60)),
                  Increment(1, 2), 20432, 20432, DateTime(Date(2025, 12, 10), Time(12 * 60)));
  }

  // ---------------------------------------------------------------------
  // The kata: May and June 2004, window 08:00-16:00
  // ---------------------------------------------------------------------

  /** The holidays of the kata: May 17th of every year and May 27th, 2004. */
  const KataHolidays := Holidays([Date(2004, 5, 27)], [Date(2004, 5, 17)])

  /** The kata's start, Monday, May 24th, 2004, at the given time. */
  function KataStartDate(t: Time): DateTime { DateTime(Date(2004, 5, 24), t) }

  /** Monday, May 24th, 2004 is day 12562. */
  lemma May24th()
    ensures DaysFromCivil(Date(2004, 5, 24)) == 12562
  {
  }

  /** The day numbers of May and June 2004, from 12539 (May 1st) to 12599 (June 30th). */
  lemma MayJune2004(n: int)
    requires 12539 <= n <= 12599
    ensures CivilFromDays(n) == if n <= 12569 then Date(2004, 5, n - 12538) else Date(2004, 6, n - 12569)
  {
    var z := n + 719468;
    assert z / 146097 == 5 && z % 146097 == z - 730485;
    var doe := z - 730485;
    assert doe / 1460 == 1 && doe / 36524 == 0 && doe / 146096 == 0;
    assert YearOfEra(doe) == 4;
    assert DayOfYear(doe, 4) == doe - 1461;
    if n <= 12569 {
      assert (5 * (doe - 1461) + 2) / 153 == 2;
    } else {
      assert (5 * (doe - 1461) + 2) / 153 == 3;
    }
  }

  /** In May and June 2004 the kata's holidays are May 17th and May 27th. */
  lemma KataHoliday(date: Date)
    requires date.year == 2004 && (date.month == 5 || date.month == 6)
    ensures IsHoliday(date, KataHolidays) <==> date.month == 5 && (date.day == 17 || date.day == 27)
  {
    if date.month == 5 && date.day == 17 {
      assert KataHolidays.recurring[0].day == date.day;
    }
    if date.month == 5 && date.day == 27 {
      assert KataHolidays.nonRecurring[0] == date;
    }
  }

  /** The working days of the kata in May and June 2004: Monday to Friday, except May 17th and 27th. */
  ghost predicate KataWork(work: int -> bool) {
    forall n :: 12539 <= n <= 12599 ==>
      (work(n) <==> Weekday(n) != Sunday && Weekday(n) != Saturday && n != 12555 && n != 12565)
  }

  lemma KataWorkingDay(n: int)
    requires 12539 <= n <= 12599
    ensures IsWorkingDay(KataHolidays, n) <==>
            Weekday(n) != Sunday && Weekday(n) != Saturday && n != 12555 && n != 12565
  {
    MayJune2004(n);
    WeekendOfDayNumber(n);
    KataHoliday(CivilFromDays(n));
  }

  lemma KataNamed(work: int -> bool)
    requires Names(work, KataHolidays)
    ensures KataWork(work)
  {
    forall n | 12539 <= n <= 12599
      ensures work(n) <==> Weekday(n) != Sunday && Weekday(n) != Saturday && n != 12555 && n != 12565
    {
      assert work(n) == IsWorkingDay(KataHolidays, n);
      KataWorkingDay(n);
    }
  }

  /** Counting back from Monday, May 24th: May 14th is the fifth working day and May 13th the sixth. */
  lemma BackFromMay24th(work: int -> bool)
    requires KataWork(work)
    ensures work(12562) && work(12552) && work(12551)
    ensures CountAfter(work, 12562, -1, 10) == 5 && CountAfter(work, 12562, -1, 11) == 6
    ensures CountAfter(work, 12563, -1, 11) == 6 && CountAfter(work, 12563, -1, 12) == 7
  {
    assert work(12562) && !work(12561) && !work(12560);
    assert work(12559) && work(12558) && work(12557) && work(12556);
    assert !work(12555) && !work(12554) && !work(12553);
    assert work(12552) && work(12551);
    CountAfterSplit(work, 12562, -1, 1, 10);
  }

  /** Counting on from Monday, May 24th: June 4th is the eighth working day and June 10th the twelfth. */
  lemma OnFromMay24th(work: int -> bool)
    requires KataWork(work)
    ensures work(12562) && work(12573) && work(12579)
    ensures CountAfter(work, 12562, 1, 11) == 8 && CountAfter(work, 12562, 1, 17) == 12
    ensures CountAfter(work, 12561, 1, 12) == 9 && CountAfter(work, 12561, 1, 18) == 13
  {
    assert work(12562) && work(12563) && work(12564) && !work(12565) && work(12566);
    assert !work(12567) && !work(12568);
    assert work(12569) && work(12570) && work(12571) && work(12572) && work(12573);
    assert !work(12574) && !work(12575);
    assert work(12576) && work(12577) && work(12578) && work(12579);
    CountAfterSplit(work, 12561, 1, 1, 11);
    CountAfterSplit(work, 12561, 1, 1, 17);
  }

  /**
   * -5.5 workdays from 18:05: the start is moved to 16:00, half a day back is
   * 12:00 of the same day, and five whole days remain, backward.
   */
  lemma FiveAndAHalfBackTime()
    ensures EndTimeOf(WindowStart, WindowStop, KataStartDate(Time(18 * 60 + 5)), Increment(-11, 2)) == 12 * 60
    ensures CarriedDay(WindowStart, WindowStop, KataStartDate(Time(18 * 60 + 5)), Increment(-11, 2)) == 12562
    ensures CalculateIncrement(Increment(-11, 2)) == -1 && TruncateToInt(Increment(-11, 2)) == -5
  {
    var x := Increment(-11, 2);
    assert TruncateToInt(x) == -5;
    assert CalculateTimeDuration(Time(18 * 60 + 5), x, WindowStart, WindowStop).increment == -240;
    May24th();
  }

  /** Kata: -5.5 workdays from Monday, May 24th, 2004 at 18:05 is Friday, May 14th at 12:00. */
  lemma KataFiveAndAHalfBack()
    ensures IsWorkdayIncrement(WindowStart, WindowStop, KataHolidays, KataStartDate(Time(18 * 60 + 5)),
                               Increment(-11, 2), DateTime(Date(2004, 5, 14), Time(12 * 60)))
    ensures EnoughWorkingDays(WindowStart, WindowStop, KataHolidays, KataStartDate(Time(18 * 60 + 5)),
                              Increment(-11, 2))
  {
    WorkingDaysNamed(KataHolidays);
    var work :| Names(work, KataHolidays);
    KataNamed(work);
    BackFromMay24th(work);
    MayJune2004(12552);
    FiveAndAHalfBackTime();
    ResultOfParts(work, WindowStart, WindowStop, KataHolidays, KataStartDate(Time(18 * 60 + 5)),
                  Increment(-11, 2), 12562, 12552, DateTime(Date(2004, 5, 14), Time(12 * 60)));
    EnoughOfCount(work, WindowStart, WindowStop, KataHolidays, KataStartDate(Time(18 * 60 + 5)),
                  Increment(-11, 2), 11);
  }

  /**
   * -6.7470217 workdays from 18:03: the start is moved to 16:00, the fraction
   * is -358.57 minutes, floored to 359 minutes (5 hours 59 minutes) back, and
   * six whole days remain, backward.
   */
  lemma SixPointSevenBackTime()
    ensures EndTimeOf(WindowStart, WindowStop, KataStartDate(Time(18 * 60 + 3)), Increment(-67470217, 10000000)) == 10 * 60 + 1
    ensures CarriedDay(WindowStart, WindowStop, KataStartDate(Time(18 * 60 + 3)), Increment(-67470217, 10000000)) == 12562
    ensures CalculateIncrement(Increment(-67470217, 10000000)) == -1
    ensures TruncateToInt(Increment(-67470217, 10000000)) == -6
  {
    var x := Increment(-67470217, 10000000);
    assert TruncateToInt(x) == -6;
    assert CalculateTimeDuration(Time(18 * 60 + 3), x, WindowStart, WindowStop).increment == -359;
    May24th();
  }

  /** Kata: -6.7470217 workdays from Monday, May 24th, 2004 at 18:03 is Thursday, May 13th at 10:01. */
  lemma KataSixPointSevenBack()
    ensures IsWorkdayIncrement(WindowStart, WindowStop, KataHolidays, KataStartDate(Time(18 * 60 + 3)),
                               Increment(-67470217, 10000000), DateTime(Date(2004, 5, 13), Time(10 * 60 + 1)))
    ensures EnoughWorkingDays(WindowStart, WindowStop, KataHolidays, KataStartDate(Time(18 * 60 + 3)),
                              Increment(-67470217, 10000000))
  {
    WorkingDaysNamed(KataHolidays);
    var work :| Names(work, KataHolidays);
    KataNamed(work);
    BackFromMay24th(work);
    MayJune2004(12551);
    SixPointSevenBackTime();
    ResultOfParts(work, WindowStart, WindowStop, KataHolidays, KataStartDate(Time(18 * 60 + 3)),
                  Increment(-67470217, 10000000), 12562, 12551, DateTime(Date(2004, 5, 13), Time(10 * 60 + 1)));
    EnoughOfCount(work, WindowStart, WindowStop, KataHolidays, KataStartDate(Time(18 * 60 + 3)),
                  Increment(-67470217, 10000000), 12);
  }

  /**
   * 12.782709 workdays from 08:03: the fraction is 375.70 minutes, floored to
   * 6 hours 15 minutes on from 08:03, and twelve whole days remain, forward.
   */
  lemma TwelvePointEightOnTime()
    ensures EndTimeOf(WindowStart, WindowStop, KataStartDate(Time(8 * 60 + 3)), Increment(12782709, 1000000)) == 14 * 60 + 18
    ensures CarriedDay(WindowStart, WindowStop, KataStartDate(Time(8 * 60 + 3)), Increment(12782709, 1000000)) == 12562
    ensures CalculateIncrement(Increment(12782709, 1000000)) == 1
    ensures TruncateToInt(Increment(12782709, 1000000)) == 12
  {
    var x := Increment(12782709, 1000000);
    assert TruncateToInt(x) == 12;
    assert CalculateTimeDuration(Time(8 * 60 + 3), x, WindowStart, WindowStop).increment == 375;
    May24th();
  }

  /** Kata: 12.782709 workdays from Monday, May 24th, 2004 at 08:03 is Thursday, June 10th at 14:18. */
  lemma KataTwelvePointEightOn()
    ensures IsWorkdayIncrement(WindowStart, WindowStop, KataHolidays, KataStartDate(Time(8 * 60 + 3)),
                               Increment(12782709, 1000000), DateTime(Date(2004, 6, 10), Time(14 * 60 + 18)))
    ensures EnoughWorkingDays(WindowStart, WindowStop, KataHolidays, KataStartDate(Time(8 * 60 + 3)),
                              Increment(12782709, 1000000))
  {
    WorkingDaysNamed(KataHolidays);
    var work :| Names(work, KataHolidays);
    KataNamed(work);
    OnFromMay24th(work);
    MayJune2004(12579);
    TwelvePointEightOnTime();
    ResultOfParts(work, WindowStart, WindowStop, KataHolidays, KataStartDate(Time(8 * 60 + 3)),
                  Increment(12782709, 1000000), 12562, 12579, DateTime(Date(2004, 6, 10), Time(14 * 60 + 18)));
    EnoughOfCount(work, WindowStart, WindowStop, KataHolidays, KataStartDate(Time(8 * 60 + 3)),
                  Increment(12782709, 1000000), 18);
  }

  /**
   * 8.276628 workdays from 07:03: the start is moved to 08:00, the fraction is
   * 132.78 minutes, floored to 2 hours 12 minutes, and eight whole days
   * remain, forward.
   */
  lemma EightPointThreeOnTime()
    ensures EndTimeOf(WindowStart, WindowStop, KataStartDate(Time(7 * 60 + 3)), Increment(8276628, 1000000)) == 10 * 60 + 12
    ensures CarriedDay(WindowStart, WindowStop, KataStartDate(Time(7 * 60 + 3)), Increment(8276628, 1000000)) == 12562
    ensures CalculateIncrement(Increment(8276628, 1000000)) == 1
    ensures TruncateToInt(Increment(8276628, 1000000)) == 8
  {
    var x := Increment(8276628, 1000000);
    assert TruncateToInt(x) == 8;
    assert CalculateTimeDuration(Time(7 * 60 + 3), x, WindowStart, WindowStop).increment == 132;
    May24th();
  }

  /** Kata: 8.276628 workdays from Monday, May 24th, 2004 at 07:03 is Friday, June 4th at 10:12. */
  lemma KataEightPointThreeOn()
    ensures IsWorkdayIncrement(WindowStart, WindowStop, KataHolidays, KataStartDate(Time(7 * 60 + 3)),
                               Increment(8276628, 1000000), DateTime(Date(2004, 6, 4), Time(10 * 60 + 12)))
    ensures EnoughWorkingDays(WindowStart, WindowStop, KataHolidays, KataStartDate(Time(7 * 60 + 3)),
                              Increment(8276628, 1000000))
  {
    WorkingDaysNamed(KataHolidays);
    var work :| Names(work, KataHolidays);
    KataNamed(work);
    OnFromMay24th(work);
    MayJune2004(12573);
    EightPointThreeOnTime();
    ResultOfParts(work, WindowStart, WindowStop, KataHolidays, KataStartDate(Time(7 * 60 + 3)),
                  Increment(8276628, 1000000), 12562, 12573, DateTime(Date(2004, 6, 4), Time(10 * 60 + 12)));
    EnoughOfCount(work, WindowStart, WindowStop, KataHolidays, KataStartDate(Time(7 * 60 + 3)),
                  Increment(8276628, 1000000), 12);
  }

  /**
   * The kata's calendar set up as its test does, through the constructors of
   * GregorianCalendar: -5.5 workdays from May 24th, 2004 at 18:05 give
   * May 14th at 12:00.
   */
  method KataOnCalendar() returns (result: DateTime)
    ensures result == DateTime(Date(2004, 5, 14), Time(12 * 60))
  {
    var calendar := new WorkdayCalendar();
    calendar.SetWorkdayStartAndStop(FromComponents(2004, 1, 1, 8, 0), FromComponents(2004, 1, 1, 16, 0));
    calendar.SetRecurringHoliday(FromComponents(2004, 5, 17, 0, 0));
    calendar.SetHoliday(FromComponents(2004, 5, 27, 0, 0));
    var startDate := FromComponents(2004, 5, 24, 18, 5).GetDateTime();
    assert calendar.CurrentHolidays() == KataHolidays;
    assert startDate == KataStartDate(Time(18 * 60 + 5));
    KataFiveAndAHalfBack();
    result := calendar.GetWorkdayIncrement(startDate, Increment(-11, 2));
    IsWorkdayIncrementUnique(WindowStart, WindowStop, KataHolidays, startDate, Increment(-11, 2),
                             result, DateTime(Date(2004, 5, 14), Time(12 * 60)));
  }
}
