/**
 * WorkdayCalendar: adds a signed, possibly fractional number of workdays to a
 * date and time. The calendar holds a workday window (start and stop time of
 * day) and two append-only lists of holidays: fixed dates, and recurring dates
 * matched on month and day only.
 *
 * getWorkdayIncrement works on a time point counted in minutes since
 * 1970-01-01 00:00. It clamps the time of day into the window, adds the
 * fraction of a workday in minutes, carries an underflow or overflow
 * minute-for-minute to the other edge of the window (moving the time point one
 * day), moves the date off weekends and holidays in the direction of the
 * increment, and then steps the whole days one calendar day at a time,
 * counting only working days.
 */
module Workday {
  import opened Chrono
  import opened Gregorian

  type Positive = n: int | n > 0 witness 1

  /**
   * The float incrementWorkdays, taken as the exact rational num / den.
   * -5.5 is Increment(-11, 2).
   */
  datatype Increment = Increment(num: int, den: Positive)

  function Abs(n: int): nat { if n < 0 then -n else n }

  // The quotient of a division by a positive divisor, times the divisor, lies within one divisor below the dividend.
  lemma DivBounds(a: int, b: int)
    requires a >= 0 && b > 0
    ensures 0 <= (a / b) * b <= a < (a / b) * b + b
  {
    var q := a / b;
    assert a == q * b + a % b;
    assert q >= 0;
    assert q * b >= 0;
  }
  /** static_cast<int>(incrementWorkdays): the whole part, truncated toward zero. */
  function TruncateToInt(x: Increment): int {
    if x.num >= 0 then x.num / x.den else -((-x.num) / x.den)
  }

  /**
   * The whole part is the largest whole number of workdays not beyond the
   * increment, counted from zero: it lies within one workday of the increment
   * and on the same side of zero.
   */
  lemma TruncateBounds(x: Increment)
    ensures var n := TruncateToInt(x);
            && (x.num >= 0 ==> 0 <= n * x.den <= x.num < n * x.den + x.den)
            && (x.num < 0 ==> n * x.den - x.den < x.num <= n * x.den <= 0)
  {
    if x.num >= 0 {
      DivBounds(x.num, x.den);
    } else {
      var q := (-x.num) / x.den;
      DivBounds(-x.num, x.den);
      assert (-q) * x.den == -(q * x.den);
    }
  }

  /**
   * calculateIncrement: the day step of the whole-day loops, one day forward
   * for an increment that is zero or positive and one day back otherwise.
   */
  function CalculateIncrement(x: Increment): (step: int)
    ensures step == 1 || step == -1
    ensures step == 1 <==> x.num >= 0
  {
    if x.num >= 0 then 1 else -1
  }

  /** The whole part has the sign of the increment, so stepping by the day step reaches zero. */
  lemma TruncateFollowsStep(x: Increment)
    ensures CalculateIncrement(x) == 1 ==> TruncateToInt(x) >= 0
    ensures CalculateIncrement(x) == -1 ==> TruncateToInt(x) <= 0
  {
  }

  /** The WorkdayDurationsInMinutes struct. */
  datatype WorkdayDurationsInMinutes = WorkdayDurationsInMinutes(
    workDay: int, increment: int, startWorkday: int, stopWorkday: int, inputTime: int)

  // a * c <= b * c for a <= b and a non-negative c
  lemma MulLe(a: int, b: int, c: int)
    requires a <= b && c >= 0
    ensures a * c <= b * c
  {
    assert b * c - a * c == (b - a) * c;
  }

  // lo <= m / den <= hi when the bounds times den enclose m
  lemma FloorBetween(m: int, lo: int, hi: int, den: int)
    requires den > 0 && lo * den <= m <= hi * den
    ensures lo <= m / den <= hi
  {
    var q := m / den;
    assert m == q * den + m % den;
    if q < lo {
      MulLe(q + 1, lo, den);
    }
    if q > hi {
      MulLe(hi + 1, q, den);
    }
  }

  // The floor of w * rest / den stays within the workday when the fraction rest / den is below one.
  lemma FractionBounds(w: int, rest: int, den: int)
    requires den > 0
    ensures w >= 0 && 0 <= rest < den ==> 0 <= (w * rest) / den <= w
    ensures w >= 0 && -den < rest <= 0 ==> -w <= (w * rest) / den <= 0
  {
    if w >= 0 && 0 <= rest < den {
      MulLe(0, rest, w);
      MulLe(rest, den, w);
      FloorBetween(w * rest, 0, w, den);
    } else if w >= 0 && -den < rest <= 0 {
      MulLe(-den, rest, w);
      MulLe(rest, 0, w);
      assert (-w) * den == -den * w;
      FloorBetween(w * rest, -w, 0, den);
    }
  }

  /**
   * calculateTimeDuration: the length of the workday, and the fraction of the
   * increment as the floor of that many minutes (the floor of workDay times
   * the fractional part: increment * den <= workDay * fraction * den < (increment + 1) * den).
   */
  function CalculateTimeDuration(startTime: Time, x: Increment, startWorkday: Time, stopWorkday: Time)
    : (r: WorkdayDurationsInMinutes)
    ensures r.workDay == stopWorkday.total - startWorkday.total
    ensures r.startWorkday == startWorkday.total && r.stopWorkday == stopWorkday.total
    ensures r.inputTime == startTime.total
    ensures var rest := x.num - TruncateToInt(x) * x.den;
            r.increment * x.den <= r.workDay * rest < r.increment * x.den + x.den
    ensures r.workDay >= 0 && x.num >= 0 ==> 0 <= r.increment <= r.workDay
    ensures r.workDay >= 0 && x.num < 0 ==> -r.workDay <= r.increment <= 0
  {
    var workDay := stopWorkday.total - startWorkday.total;
    var rest := x.num - TruncateToInt(x) * x.den;
    var increment := (workDay * rest) / x.den;
    TruncateBounds(x);
    FractionBounds(workDay, rest, x.den);
    WorkdayDurationsInMinutes(workDay, increment, startWorkday.total, stopWorkday.total, startTime.total)
  }

  /**
   * clampStartTime: a start earlier than the window becomes its start, a
   * start later than the window becomes its stop, any other is kept.
   */
  function ClampStartTime(time: WorkdayDurationsInMinutes): (r: int)
    ensures time.startWorkday <= time.stopWorkday ==> time.startWorkday <= r <= time.stopWorkday
    ensures time.startWorkday <= time.inputTime <= time.stopWorkday ==> r == time.inputTime
    ensures time.inputTime < time.startWorkday ==> r == time.startWorkday
    ensures time.startWorkday <= time.stopWorkday < time.inputTime ==> r == time.stopWorkday
  {
    if time.inputTime < time.startWorkday then time.startWorkday
    else if time.inputTime > time.stopWorkday then time.stopWorkday
    else time.inputTime
  }

  /** The end time and the number of days (-1, 0 or 1) the time point moves. */
  datatype Carry = Carry(time: int, days: int)

  /**
   * The specification of calculateEndTime. The time t = start + increment
   * that falls before the window is carried back one day onto the stop, one
   * that falls after the window forward one day onto the start, by the same
   * number of minutes; the position t in working minutes is kept.
   */
  function EdgeCarry(startTime: int, time: WorkdayDurationsInMinutes): (c: Carry)
    ensures var t := startTime + time.increment;
            && (c.days == -1 <==> t < time.startWorkday)
            && (c.days == 1 <==> time.startWorkday <= t && time.stopWorkday < t)
            && (c.days == 0 <==> time.startWorkday <= t <= time.stopWorkday)
            && c.time + c.days * (time.stopWorkday - time.startWorkday) == t
    ensures var w := time.stopWorkday - time.startWorkday;
            var t := startTime + time.increment;
            0 <= w && time.startWorkday - w <= t <= time.stopWorkday + w ==>
            time.startWorkday <= c.time <= time.stopWorkday
  {
    var t := startTime + time.increment;
    if t < time.startWorkday then Carry(time.stopWorkday - (time.startWorkday - t), -1)
    else if t > time.stopWorkday then Carry(time.startWorkday + (t - time.stopWorkday), 1)
    else Carry(t, 0)
  }

  /**
   * calculateEndTime: adds the fraction to the clamped start time, carries at
   * the window's edges and moves the time point (a reference in the source)
   * by the day that was carried.
   */
  method CalculateEndTime(startTime: int, timePoint: int, time: WorkdayDurationsInMinutes)
    returns (endTime: Time, newTimePoint: int)
    requires 0 <= time.startWorkday <= startTime <= time.stopWorkday
    requires var w := time.stopWorkday - time.startWorkday; -w <= time.increment <= w
    ensures endTime.total == EdgeCarry(startTime, time).time
    ensures newTimePoint == timePoint + EdgeCarry(startTime, time).days * MinutesPerDay
    ensures time.startWorkday <= endTime.total <= time.stopWorkday
  {
    var result := startTime;
    result := result + time.increment;
    newTimePoint := timePoint;
    if result < time.startWorkday {
      var underflow := time.startWorkday - result;
      result := time.stopWorkday - underflow;
      newTimePoint := newTimePoint - MinutesPerDay;
    } else if result > time.stopWorkday {
      var overflow := result - time.stopWorkday;
      result := time.startWorkday + overflow;
      newTimePoint := newTimePoint + MinutesPerDay;
    }
    endTime := Time(result);
  }

  /** makeTimepoint: sys_days(date) plus the hours and minutes, in minutes. */
  function MakeTimePoint(dt: DateTime): (r: int)
    ensures dt.time.total < MinutesPerDay ==> DayOf(r) == DaysFromCivil(dt.date) && r % MinutesPerDay == dt.time.total
  {
    DaysFromCivil(dt.date) * MinutesPerDay + dt.time.Hours() * 60 + dt.time.Minutes()
  }

  /** floor<days>(timePoint): the day number of a time point. */
  function DayOf(timePoint: int): int { timePoint / MinutesPerDay }

  /** Moving a time point by one day moves its day by one and keeps its time of day. */
  lemma DayOfShift(timePoint: int, step: int)
    requires step == 1 || step == -1
    ensures DayOf(timePoint + step * MinutesPerDay) == DayOf(timePoint) + step
    ensures (timePoint + step * MinutesPerDay) % MinutesPerDay == timePoint % MinutesPerDay
  {
  }

  /** The Holidays struct: the fixed and the recurring holidays. */
  datatype Holidays = Holidays(nonRecurring: seq<Date>, recurring: seq<Date>)

  /** isWeekend: the date's weekday is Saturday or Sunday. */
  predicate IsWeekend(date: Date) {
    var wd := Weekday(DaysFromCivil(date));
    wd == Sunday || wd == Saturday
  }

  /**
   * isHoliday: the date equals a fixed holiday in year, month and day, or it
   * has the month and day of a recurring holiday, whatever the year.
   */
  predicate IsHoliday(date: Date, holidays: Holidays) {
    || (exists i :: 0 <= i < |holidays.nonRecurring| && holidays.nonRecurring[i] == date)
    || (exists i :: 0 <= i < |holidays.recurring| &&
          holidays.recurring[i].month == date.month && holidays.recurring[i].day == date.day)
  }

  /**
   * The two loops of isHoliday: the first fixed holiday equal to the date, or
   * else the first recurring holiday with the date's month and day.
   */
  method CheckHoliday(date: Date, holidays: Holidays) returns (found: bool)
    ensures found == IsHoliday(date, holidays)
  {
    for i := 0 to |holidays.nonRecurring|
      invariant forall j :: 0 <= j < i ==> holidays.nonRecurring[j] != date
    {
      if date == holidays.nonRecurring[i] {
        return true;
      }
    }
    for i := 0 to |holidays.recurring|
      invariant forall j :: 0 <= j < i ==>
                  !(holidays.recurring[j].month == date.month && holidays.recurring[j].day == date.day)
    {
      var holiday := holidays.recurring[i];
      if holiday.month == date.month && holiday.day == date.day {
        return true;
      }
    }
    return false;
  }

  /** A day number is a working day when its date is neither a weekend day nor a holiday. */
  predicate IsWorkingDay(holidays: Holidays, n: int) {
    var date := CivilFromDays(n);
    !IsWeekend(date) && !IsHoliday(date, holidays)
  }

  /**
   * The working days of a calendar as a predicate on day numbers. The
   * counting below is stated for any such predicate.
   */
  function WorkingDays(holidays: Holidays): int -> bool {
    n => IsWorkingDay(holidays, n)
  }

  /** The day i steps from d in the direction of step. */
  function Toward(d: int, step: int, i: int): int {
    if step > 0 then d + i else d - i
  }

  /** How many steps in the direction of step lead from d to r. */
  function Distance(d: int, step: int, r: int): (k: int)
    ensures Toward(d, step, k) == r
  {
    if step > 0 then r - d else d - r
  }

  /** The number of working days among the k days after d in the direction of step. */
  ghost function CountAfter(work: int -> bool, d: int, step: int, k: nat): nat {
    if k == 0 then 0
    else CountAfter(work, d, step, k - 1) + (if work(Toward(d, step, k)) then 1 else 0)
  }

  /**
   * r is the first working day reached from d by stepping in the direction of
   * step: a working day at or after d, with no working day from d up to the
   * day before r.
   */
  ghost predicate IsFirstWorkingDay(work: int -> bool, d: int, step: int, r: int) {
    var k := Distance(d, step, r);
    && k >= 0
    && work(r)
    && CountAfter(work, Toward(d, step, -1), step, k) == 0
  }

  /**
   * r is where stepping n working days from d ends: d itself when n is 0,
   * otherwise a working day strictly after d such that exactly n working days
   * lie after d up to r, r included.
   */
  ghost predicate IsEndDay(work: int -> bool, d: int, step: int, n: nat, r: int) {
    var k := Distance(d, step, r);
    if n == 0 then r == d
    else k >= 1 && work(r) && CountAfter(work, d, step, k) == n
  }

  /** At least n working days lie at d or after it in the direction of step. */
  ghost predicate WorkingDaysAhead(work: int -> bool, d: int, step: int, n: nat) {
    exists k: nat :: CountAfter(work, Toward(d, step, -1), step, k) >= n
  }

  /** The counts grow with the number of days counted. */
  lemma {:induction false} CountAfterMonotone(work: int -> bool, d: int, step: int, k1: nat, k2: nat)
    requires k1 <= k2
    ensures CountAfter(work, d, step, k1) <= CountAfter(work, d, step, k2)
    decreases k2
  {
    if k1 < k2 {
      CountAfterMonotone(work, d, step, k1, k2 - 1);
    }
  }

  /** One more day counted: the next day in the direction of step, counted when it is a working day. */
  lemma CountNext(work: int -> bool, d: int, step: int, k: nat)
    requires step == 1 || step == -1
    ensures Toward(d, step, k + 1) == Toward(d, step, k) + step
    ensures CountAfter(work, d, step, k + 1) ==
            CountAfter(work, d, step, k) + if work(Toward(d, step, k) + step) then 1 else 0
  {
  }

  /** A step of the time point by one day is a step of its day: one more day is counted. */
  lemma StepDay(work: int -> bool, timePoint: int, d: int, step: int, k: nat)
    requires step == 1 || step == -1
    requires DayOf(timePoint) == Toward(d, step, k)
    ensures DayOf(timePoint + step * MinutesPerDay) == Toward(d, step, k + 1)
    ensures CountAfter(work, d, step, k + 1) ==
            CountAfter(work, d, step, k) + if work(DayOf(timePoint + step * MinutesPerDay)) then 1 else 0
  {
    DayOfShift(timePoint, step);
    CountNext(work, d, step, k);
  }

  /** A smaller count was reached after fewer days. */
  lemma CountBelowMeansBefore(work: int -> bool, d: int, step: int, k: nat, bound: nat)
    requires CountAfter(work, d, step, k) < CountAfter(work, d, step, bound)
    ensures k < bound
  {
    if bound <= k {
      CountAfterMonotone(work, d, step, bound, k);
    }
  }

  /** Counting a + b days is counting a days and then b days from where those end. */
  lemma {:induction false} CountAfterSplit(work: int -> bool, d: int, step: int, a: nat, b: nat)
    ensures CountAfter(work, d, step, a + b) ==
            CountAfter(work, d, step, a) + CountAfter(work, Toward(d, step, a), step, b)
    decreases b
  {
    if b > 0 {
      CountAfterSplit(work, d, step, a, b - 1);
      assert Toward(Toward(d, step, a), step, b) == Toward(d, step, a + b);
    }
  }

  /** A day that is not a working day leaves a count of none at none. */
  lemma NoneCountedStep(work: int -> bool, d: int, step: int, k: nat)
    requires CountAfter(work, Toward(d, step, -1), step, k) == 0 && !work(Toward(d, step, k))
    ensures CountAfter(work, Toward(d, step, -1), step, k + 1) == 0
  {
    assert Toward(Toward(d, step, -1), step, k + 1) == Toward(d, step, k);
  }

  /** The count reaches one first at a working day, and before it is zero. */
  lemma {:induction false} FirstCounted(work: int -> bool, d: int, step: int, j: nat)
    requires CountAfter(work, d, step, j) >= 1
    ensures exists m: nat :: 1 <= m <= j && work(Toward(d, step, m)) && CountAfter(work, d, step, m - 1) == 0
    decreases j
  {
    if CountAfter(work, d, step, j - 1) >= 1 {
      FirstCounted(work, d, step, j - 1);
    }
  }

  /**
   * When n + 1 working days lie ahead of d, a working day lies at d or after
   * it in the direction of step.
   */
  lemma WorkingDayAhead(work: int -> bool, d: int, step: int, n: nat)
    requires WorkingDaysAhead(work, d, step, n + 1)
    ensures exists k: nat :: work(Toward(d, step, k))
  {
    var before := Toward(d, step, -1);
    var big: nat :| CountAfter(work, before, step, big) >= n + 1;
    FirstCounted(work, before, step, big);
    var m: nat :| 1 <= m <= big && work(Toward(before, step, m)) && CountAfter(work, before, step, m - 1) == 0;
    assert Toward(before, step, m) == Toward(d, step, m - 1);
  }

  /**
   * When n + 1 working days lie ahead of d, n of them lie after the first
   * working day.
   */
  lemma WorkingDaysAfterFirst(work: int -> bool, d: int, step: int, n: nat, r: int)
    requires WorkingDaysAhead(work, d, step, n + 1)
    requires IsFirstWorkingDay(work, d, step, r)
    ensures exists k: nat :: CountAfter(work, r, step, k) >= n
  {
    var before := Toward(d, step, -1);
    var big: nat :| CountAfter(work, before, step, big) >= n + 1;
    var k0 := Distance(d, step, r);
    assert Toward(before, step, k0 + 1) == r;
    assert CountAfter(work, before, step, k0 + 1) == 1;
    CountBelowMeansBefore(work, before, step, k0, big);
    CountAfterSplit(work, before, step, k0 + 1, big - (k0 + 1));
    assert CountAfter(work, r, step, big - (k0 + 1)) >= n;
  }

  /** The first working day is unique. */
  lemma IsFirstWorkingDayUnique(work: int -> bool, d: int, step: int, r1: int, r2: int)
    requires IsFirstWorkingDay(work, d, step, r1) && IsFirstWorkingDay(work, d, step, r2)
    ensures r1 == r2
  {
    var before := Toward(d, step, -1);
    var k1, k2 := Distance(d, step, r1), Distance(d, step, r2);
    if k1 < k2 {
      assert Toward(before, step, k1 + 1) == r1;
      CountAfterMonotone(work, before, step, k1 + 1, k2);
    } else if k2 < k1 {
      assert Toward(before, step, k2 + 1) == r2;
      CountAfterMonotone(work, before, step, k2 + 1, k1);
    }
  }

  /** clampStartDate keeps a start that already is a working day, and only that day. */
  lemma WorkingDayIsKept(work: int -> bool, d: int, step: int, r: int)
    requires work(d)
    ensures IsFirstWorkingDay(work, d, step, r) <==> r == d
  {
    assert IsFirstWorkingDay(work, d, step, d);
    if IsFirstWorkingDay(work, d, step, r) {
      IsFirstWorkingDayUnique(work, d, step, r, d);
    }
  }

  /** Stepping a number of working days ends on one day only. */
  lemma IsEndDayUnique(work: int -> bool, d: int, step: int, n: nat, r1: int, r2: int)
    requires IsEndDay(work, d, step, n, r1) && IsEndDay(work, d, step, n, r2)
    ensures r1 == r2
  {
    if n > 0 {
      var k1, k2 := Distance(d, step, r1), Distance(d, step, r2);
      if k1 < k2 {
        CountAfterMonotone(work, d, step, k1, k2 - 1);
      } else if k2 < k1 {
        CountAfterMonotone(work, d, step, k2, k1 - 1);
      }
    }
  }

  /** The end day of a number of working days is itself a working day, also for no days at all from a working day. */
  lemma EndDayIsWorkingDay(work: int -> bool, d: int, step: int, n: nat, r: int)
    requires work(d) && IsEndDay(work, d, step, n, r)
    ensures work(r)
  {
  }

  /** The days counted forward from d are those counted backward from the day after them. */
  lemma {:induction false} CountAfterReflect(work: int -> bool, d: int, k: nat)
    ensures CountAfter(work, d, 1, k) == CountAfter(work, d + k + 1, -1, k)
    decreases k
  {
    if k > 0 {
      CountAfterReflect(work, d, k - 1);
      CountAfterSplit(work, d + k + 1, -1, 1, k - 1);
    }
  }

  /**
   * Stepping n working days forward from a working day and then n working
   * days back returns to it.
   */
  lemma EndDayInverse(work: int -> bool, a: int, n: nat, b: int)
    requires work(a) && IsEndDay(work, a, 1, n, b)
    ensures IsEndDay(work, b, -1, n, a)
  {
    if n > 0 {
      var k := b - a;
      CountAfterReflect(work, a - 1, k);
      CountAfterSplit(work, a - 1, 1, 1, k);
      assert CountAfter(work, a - 1, 1, k + 1) == CountAfter(work, a - 1, 1, k) + 1;
    }
  }

  /**
   * work names the working days of holidays, one day at a time. The loops
   * below are proved for any such name, so that their proofs deal with days
   * only and not with the calendar arithmetic behind each day.
   */
  ghost predicate Names(work: int -> bool, holidays: Holidays) {
    forall n {:trigger IsWorkingDay(holidays, n)} :: work(n) == IsWorkingDay(holidays, n)
  }

  lemma WorkingDaysNamed(holidays: Holidays)
    ensures Names(WorkingDays(holidays), holidays)
  {
  }

  /**
   * The test both loops make: the date of a time point, and whether that date
   * is a weekend day or a holiday.
   */
  method DateOf(timePoint: int, holidays: Holidays, ghost work: int -> bool) returns (current: Date, off: bool)
    requires Names(work, holidays)
    ensures current == CivilFromDays(DayOf(timePoint))
    ensures off == !work(DayOf(timePoint))
  {
    current := CivilFromDays(DayOf(timePoint));
    var holiday := CheckHoliday(current, holidays);
    off := IsWeekend(current) || holiday;
    assert off == !IsWorkingDay(holidays, DayOf(timePoint));
  }

  /**
   * clampStartDate: steps the time point one day at a time, in the direction
   * of the increment, until its date is neither a weekend day nor a holiday.
   */
  method ClampStartDate(incrementWorkdays: Increment, timePoint: int, holidays: Holidays, ghost work: int -> bool)
    returns (tp: int)
    requires Names(work, holidays)
    requires exists k: nat :: work(Toward(DayOf(timePoint), CalculateIncrement(incrementWorkdays), k))
    ensures tp % MinutesPerDay == timePoint % MinutesPerDay
    ensures IsFirstWorkingDay(work, DayOf(timePoint), CalculateIncrement(incrementWorkdays), DayOf(tp))
  {
    var increment := CalculateIncrement(incrementWorkdays);
    tp := timePoint;
    var current, off := DateOf(tp, holidays, work);
    ghost var d := DayOf(timePoint);
    ghost var k: nat := 0;
    ghost var bound: nat :| work(Toward(d, increment, bound));
    while off
      invariant DayOf(tp) == Toward(d, increment, k)
      invariant tp % MinutesPerDay == timePoint % MinutesPerDay
      invariant off == !work(DayOf(tp))
      invariant CountAfter(work, Toward(d, increment, -1), increment, k) == 0
      invariant k <= bound
      decreases bound - k
    {
      NoneCountedStep(work, d, increment, k);
      assert k < bound;
      DayOfShift(tp, increment);
      tp := tp + increment * MinutesPerDay;
      current, off := DateOf(tp, holidays, work);
      k := k + 1;
    }
    assert Distance(d, increment, DayOf(tp)) == k;
  }

  /**
   * calculateEndDate: steps the time point one day at a time in the direction
   * of the increment; a step onto a working day moves the whole-day counter
   * one toward zero, a step onto a weekend day or holiday does not, and the
   * loop ends when the counter is zero.
   */
  method CalculateEndDate(incrementWorkdays: Increment, timePoint: int, holidays: Holidays, ghost work: int -> bool)
    returns (current: Date)
    requires Names(work, holidays)
    requires exists k: nat :: CountAfter(work, DayOf(timePoint), CalculateIncrement(incrementWorkdays), k)
                              >= Abs(TruncateToInt(incrementWorkdays))
    ensures exists e :: IsEndDay(work, DayOf(timePoint), CalculateIncrement(incrementWorkdays),
                                 Abs(TruncateToInt(incrementWorkdays)), e) && current == CivilFromDays(e)
  {
    var increment := CalculateIncrement(incrementWorkdays);
    var tp := timePoint;
    current := CivilFromDays(DayOf(tp));
    var incrementInDays := TruncateToInt(incrementWorkdays);
    TruncateFollowsStep(incrementWorkdays);
    ghost var d := DayOf(timePoint);
    ghost var n := Abs(incrementInDays);
    ghost var k: nat := 0;
    ghost var bound: nat :| CountAfter(work, d, increment, bound) >= n;
    while incrementInDays != 0
      invariant DayOf(tp) == Toward(d, increment, k)
      invariant current == CivilFromDays(DayOf(tp))
      invariant increment == 1 ==> incrementInDays >= 0
      invariant increment == -1 ==> incrementInDays <= 0
      invariant Abs(incrementInDays) + CountAfter(work, d, increment, k) == n
      invariant incrementInDays == 0 && n > 0 ==> k >= 1 && work(DayOf(tp))
      invariant n == 0 ==> k == 0
      invariant k <= bound
      decreases bound - k
    {
      CountBelowMeansBefore(work, d, increment, k, bound);
      StepDay(work, tp, d, increment, k);
      tp := tp + increment * MinutesPerDay;
      var off;
      current, off := DateOf(tp, holidays, work);
      k := k + 1;
      if off {
        continue;
      }
      incrementInDays := incrementInDays - increment;
    }
    assert Distance(d, increment, DayOf(tp)) == k;
    assert IsEndDay(work, d, increment, n, DayOf(tp));
  }

  /** The time of day getWorkdayIncrement returns: the clamped start time moved by the fraction and carried. */
  function EndTimeOf(start: Time, stop: Time, startDate: DateTime, incrementWorkdays: Increment): int {
    var time := CalculateTimeDuration(startDate.time, incrementWorkdays, start, stop);
    EdgeCarry(ClampStartTime(time), time).time
  }

  /** The day the date loops start from: the day of the start, moved by the carry of the time. */
  function CarriedDay(start: Time, stop: Time, startDate: DateTime, incrementWorkdays: Increment): int {
    var time := CalculateTimeDuration(startDate.time, incrementWorkdays, start, stop);
    var carry := EdgeCarry(ClampStartTime(time), time);
    DayOf(MakeTimePoint(startDate) + carry.days * MinutesPerDay)
  }

  /**
   * The result of getWorkdayIncrement: the end time; and the end date, reached
   * from the carried day by taking it to its first working day and then
   * stepping the whole part of the increment in working days.
   */
  ghost predicate IsWorkdayIncrement(start: Time, stop: Time, holidays: Holidays,
                                     startDate: DateTime, incrementWorkdays: Increment, result: DateTime)
  {
    var step := CalculateIncrement(incrementWorkdays);
    && result.time.total == EndTimeOf(start, stop, startDate, incrementWorkdays)
    && exists first, last ::
         && IsFirstWorkingDay(WorkingDays(holidays), CarriedDay(start, stop, startDate, incrementWorkdays), step, first)
         && IsEndDay(WorkingDays(holidays), first, step, Abs(TruncateToInt(incrementWorkdays)), last)
         && result.date == CivilFromDays(last)
  }

  /**
   * The loops of getWorkdayIncrement end: more working days than the whole
   * part of the increment lie ahead of the carried day, in the direction of
   * the increment.
   */
  ghost predicate EnoughWorkingDays(start: Time, stop: Time, holidays: Holidays,
                                    startDate: DateTime, incrementWorkdays: Increment)
  {
    WorkingDaysAhead(WorkingDays(holidays), CarriedDay(start, stop, startDate, incrementWorkdays),
                     CalculateIncrement(incrementWorkdays), Abs(TruncateToInt(incrementWorkdays)) + 1)
  }

  class WorkdayCalendar {
    var start: Time
    var stop: Time
    var nonRecurringHolidays: seq<Date>
    var recurringHolidays: seq<Date>

    /** A default-constructed calendar: a 00:00-00:00 window and no holidays. */
    constructor ()
      ensures start == Time(0) && stop == Time(0)
      ensures nonRecurringHolidays == [] && recurringHolidays == []
    {
      start := Time(0);
      stop := Time(0);
      nonRecurringHolidays := [];
      recurringHolidays := [];
    }

    function CurrentHolidays(): Holidays
      reads this
    {
      Holidays(nonRecurringHolidays, recurringHolidays)
    }

    /** setHoliday: appends the date to the fixed holidays. */
    method SetHoliday(date: GregorianCalendar)
      modifies this
      ensures nonRecurringHolidays == old(nonRecurringHolidays) + [date.GetDate()]
      ensures recurringHolidays == old(recurringHolidays)
      ensures start == old(start) && stop == old(stop)
    {
      nonRecurringHolidays := nonRecurringHolidays + [date.GetDate()];
    }

    /** setRecurringHoliday: appends the date to the recurring holidays; its year plays no part. */
    method SetRecurringHoliday(date: GregorianCalendar)
      modifies this
      ensures recurringHolidays == old(recurringHolidays) + [date.GetDate()]
      ensures nonRecurringHolidays == old(nonRecurringHolidays)
      ensures start == old(start) && stop == old(stop)
    {
      recurringHolidays := recurringHolidays + [date.GetDate()];
    }

    /** setWorkdayStartAndStop: replaces both ends of the window by the two times. */
    method SetWorkdayStartAndStop(startTime: GregorianCalendar, stopTime: GregorianCalendar)
      modifies this
      ensures start == startTime.GetTime() && stop == stopTime.GetTime()
      ensures nonRecurringHolidays == old(nonRecurringHolidays)
      ensures recurringHolidays == old(recurringHolidays)
    {
      start := startTime.GetTime();
      stop := stopTime.GetTime();
    }

    /**
     * getWorkdayIncrement: the date and time reached by adding the increment
     * in workdays to startDate. It changes nothing in the calendar. The window
     * must not be inverted.
     */
    method GetWorkdayIncrement(startDate: DateTime, incrementWorkdays: Increment) returns (result: DateTime)
      requires start.total <= stop.total
      requires EnoughWorkingDays(start, stop, CurrentHolidays(), startDate, incrementWorkdays)
      ensures IsWorkdayIncrement(start, stop, CurrentHolidays(), startDate, incrementWorkdays, result)
    {
      var holidays := Holidays(nonRecurringHolidays, recurringHolidays);
      var timeInMinutes := CalculateTimeDuration(startDate.time, incrementWorkdays, start, stop);

      var correctedStartTime := ClampStartTime(timeInMinutes);
      var timePoint := MakeTimePoint(startDate);
      var endTime;
      endTime, timePoint := CalculateEndTime(correctedStartTime, timePoint, timeInMinutes);

      ghost var work := WorkingDays(holidays);
      ghost var step := CalculateIncrement(incrementWorkdays);
      ghost var n := Abs(TruncateToInt(incrementWorkdays));
      ghost var carried := DayOf(timePoint);
      assert carried == CarriedDay(start, stop, startDate, incrementWorkdays);
      WorkingDaysNamed(holidays);
      WorkingDayAhead(work, carried, step, n);
      timePoint := ClampStartDate(incrementWorkdays, timePoint, holidays, work);
      ghost var first := DayOf(timePoint);
      WorkingDaysAfterFirst(work, carried, step, n, first);
      var endDate := CalculateEndDate(incrementWorkdays, timePoint, holidays, work);
      result := DateTime(endDate, endTime);
      ghost var last :| IsEndDay(work, first, step, n, last) && endDate == CivilFromDays(last);
      assert IsFirstWorkingDay(work, carried, step, first);
    }
  }

  /** getWorkdayIncrement has one result only: the end day and the end time are each unique. */
  lemma IsWorkdayIncrementUnique(start: Time, stop: Time, holidays: Holidays,
                                 startDate: DateTime, x: Increment, r1: DateTime, r2: DateTime)
    requires IsWorkdayIncrement(start, stop, holidays, startDate, x, r1)
    requires IsWorkdayIncrement(start, stop, holidays, startDate, x, r2)
    ensures r1 == r2
  {
    var work := WorkingDays(holidays);
    var step := CalculateIncrement(x);
    var carried := CarriedDay(start, stop, startDate, x);
    var n := Abs(TruncateToInt(x));
    var f1, l1 :| IsFirstWorkingDay(work, carried, step, f1) && IsEndDay(work, f1, step, n, l1)
                  && r1.date == CivilFromDays(l1);
    var f2, l2 :| IsFirstWorkingDay(work, carried, step, f2) && IsEndDay(work, f2, step, n, l2)
                  && r2.date == CivilFromDays(l2);
    IsFirstWorkingDayUnique(work, carried, step, f1, f2);
    IsEndDayUnique(work, f1, step, n, l1, l2);
  }

  /** The date getWorkdayIncrement returns is neither a weekend day nor a holiday. */
  lemma WorkdayIncrementEndsOnWorkingDay(start: Time, stop: Time, holidays: Holidays,
                                         startDate: DateTime, x: Increment, result: DateTime)
    requires IsWorkdayIncrement(start, stop, holidays, startDate, x, result)
    ensures !IsWeekend(result.date) && !IsHoliday(result.date, holidays)
  {
    var work := WorkingDays(holidays);
    var step := CalculateIncrement(x);
    var n := Abs(TruncateToInt(x));
    var first, last :| IsFirstWorkingDay(work, CarriedDay(start, stop, startDate, x), step, first)
                       && IsEndDay(work, first, step, n, last) && result.date == CivilFromDays(last);
    EndDayIsWorkingDay(work, first, step, n, last);
    assert IsWorkingDay(holidays, last);
  }

  /** For a window that is not inverted, the time getWorkdayIncrement returns lies within it. */
  lemma EndTimeInWindow(start: Time, stop: Time, startDate: DateTime, x: Increment)
    requires start.total <= stop.total
    ensures start.total <= EndTimeOf(start, stop, startDate, x) <= stop.total
  {
  }

  /** A time within the window is kept by a whole number of workdays. */
  lemma WholeWorkdaysKeepTime(start: Time, stop: Time, startDate: DateTime, n: int)
    requires start.total <= startDate.time.total <= stop.total
    ensures EndTimeOf(start, stop, startDate, Increment(n, 1)) == startDate.time.total
    ensures CarriedDay(start, stop, startDate, Increment(n, 1)) == DayOf(MakeTimePoint(startDate))
  {
    var time := CalculateTimeDuration(startDate.time, Increment(n, 1), start, stop);
    assert TruncateToInt(Increment(n, 1)) == n;
    assert time.increment == 0;
    assert ClampStartTime(time) == startDate.time.total;
    assert EdgeCarry(ClampStartTime(time), time).days == 0;
  }

  /** weekday(year_month_day(n)) is the weekday of the day number n itself. */
  lemma WeekendOfDayNumber(n: int)
    ensures IsWeekend(CivilFromDays(n)) <==> (Weekday(n) == Sunday || Weekday(n) == Saturday)
  {
    DaysFromCivilOfCivilFromDays(n);
  }

  /** Every stretch of b days, in both directions, holds a working day. */
  ghost predicate WorkingDayInEvery(work: int -> bool, b: nat) {
    forall e :: CountAfter(work, e, 1, b) >= 1
  }

  /** A stretch taken backward holds the same days as one taken forward. */
  lemma WorkingDayInEveryBackward(work: int -> bool, b: nat, e: int)
    requires WorkingDayInEvery(work, b)
    ensures CountAfter(work, e, -1, b) >= 1
  {
    CountAfterReflect(work, e - b - 1, b);
  }

  /** Where a working day lies in every b days, any number of working days lies ahead. */
  lemma {:induction false} WorkingDaysAheadOfRecurrence(work: int -> bool, b: nat, d: int, step: int, m: nat)
    requires step == 1 || step == -1
    requires WorkingDayInEvery(work, b)
    ensures exists k: nat :: CountAfter(work, d, step, k) >= m
    decreases m
  {
    if m == 0 {
      assert CountAfter(work, d, step, 0) >= m;
    } else {
      WorkingDaysAheadOfRecurrence(work, b, d, step, m - 1);
      var k: nat :| CountAfter(work, d, step, k) >= m - 1;
      if step == 1 {
        assert CountAfter(work, Toward(d, step, k), step, b) >= 1;
      } else {
        WorkingDayInEveryBackward(work, b, Toward(d, step, k));
      }
      CountAfterSplit(work, d, step, k, b);
      assert CountAfter(work, d, step, k + b) >= m;
    }
  }

  /**
   * When a working day lies in every b days, getWorkdayIncrement ends for every
   * start and every increment.
   */
  lemma RecurrenceIsEnough(start: Time, stop: Time, holidays: Holidays, b: nat,
                           startDate: DateTime, x: Increment)
    requires WorkingDayInEvery(WorkingDays(holidays), b)
    ensures EnoughWorkingDays(start, stop, holidays, startDate, x)
  {
    var step := CalculateIncrement(x);
    var d := CarriedDay(start, stop, startDate, x);
    WorkingDaysAheadOfRecurrence(WorkingDays(holidays), b, Toward(d, step, -1), step, Abs(TruncateToInt(x)) + 1);
  }

  /** Without holidays the working days are the days from Monday to Friday. */
  lemma NoHolidaysWorkingDays()
    ensures forall n :: WorkingDays(Holidays([], []))(n) <==> !(Weekday(n) == Sunday || Weekday(n) == Saturday)
  {
    forall n
      ensures WorkingDays(Holidays([], []))(n) <==> !(Weekday(n) == Sunday || Weekday(n) == Saturday)
    {
      WeekendOfDayNumber(n);
    }
  }

  // Of the seven days from n, the Sunday lies (7 - Weekday(n)) % 7 days on
  // and the Saturday (13 - Weekday(n)) % 7 days on.
  lemma WeekendOffsets(n: int, m: int)
    requires n <= m < n + 7
    ensures (Weekday(m) == Sunday || Weekday(m) == Saturday) <==>
            m == n + (7 - Weekday(n)) % 7 || m == n + (13 - Weekday(n)) % 7
    ensures Weekday(n + (7 - Weekday(n)) % 7) == Sunday
    ensures Weekday(n + (13 - Weekday(n)) % 7) == Saturday
  {
    var w := Weekday(n);
    var q := (n + 4) / 7;
    assert n + 4 == 7 * q + w;
    assert Weekday(m) == (w + (m - n)) % 7;
    var sunday := (7 - w) % 7;
    var saturday := (13 - w) % 7;
    assert w + saturday == 6;
    assert w + sunday == 0 || w + sunday == 7;
  }

  /**
   * Weekends recur every week, and every seven consecutive days hold exactly
   * two weekend days, a Saturday and a Sunday.
   */
  lemma WeekendsPerWeek(n: int)
    ensures IsWeekend(CivilFromDays(n + 7)) == IsWeekend(CivilFromDays(n))
    ensures exists saturday, sunday ::
              && n <= saturday < n + 7 && n <= sunday < n + 7 && saturday != sunday
              && Weekday(saturday) == Saturday && Weekday(sunday) == Sunday
              && forall m :: n <= m < n + 7 ==> (IsWeekend(CivilFromDays(m)) <==> m == saturday || m == sunday)
  {
    WeekendOfDayNumber(n);
    WeekendOfDayNumber(n + 7);
    var sunday := n + (7 - Weekday(n)) % 7;
    var saturday := n + (13 - Weekday(n)) % 7;
    forall m | n <= m < n + 7
      ensures IsWeekend(CivilFromDays(m)) <==> m == saturday || m == sunday
    {
      WeekendOfDayNumber(m);
      WeekendOffsets(n, m);
    }
    WeekendOffsets(n, n);
  }

  /** A week's weekend is two days long, so from Monday to Friday a working day lies in every three days. */
  lemma WeekdaysRecurrence(work: int -> bool)
    requires forall n :: work(n) <==> !(Weekday(n) == Sunday || Weekday(n) == Saturday)
    ensures WorkingDayInEvery(work, 3)
  {
    forall e
      ensures CountAfter(work, e, 1, 3) >= 1
    {
      assert work(e + 1) || work(e + 2) || work(e + 3);
      assert CountAfter(work, e, 1, 1) == if work(e + 1) then 1 else 0;
      assert CountAfter(work, e, 1, 2) == CountAfter(work, e, 1, 1) + if work(e + 2) then 1 else 0;
      assert CountAfter(work, e, 1, 3) == CountAfter(work, e, 1, 2) + if work(e + 3) then 1 else 0;
    }
  }

  /** Without holidays a working day lies in every three days, so getWorkdayIncrement always ends. */
  lemma NoHolidaysRecurrence()
    ensures WorkingDayInEvery(WorkingDays(Holidays([], [])), 3)
  {
    NoHolidaysWorkingDays();
    WeekdaysRecurrence(WorkingDays(Holidays([], [])));
  }

  /** After setHoliday the holidays are the old ones and the given date, in that year only. */
  lemma AddedHoliday(holidays: Holidays, holiday: Date, date: Date)
    ensures IsHoliday(date, Holidays(holidays.nonRecurring + [holiday], holidays.recurring)) <==>
            IsHoliday(date, holidays) || date == holiday
  {
    var added := holidays.nonRecurring + [holiday];
    if date == holiday {
      assert added[|added| - 1] == date;
    }
    if exists i :: 0 <= i < |added| && added[i] == date {
      var i :| 0 <= i < |added| && added[i] == date;
      if i < |holidays.nonRecurring| {
        assert holidays.nonRecurring[i] == date;
      }
    }
    if exists i :: 0 <= i < |holidays.nonRecurring| && holidays.nonRecurring[i] == date {
      var i :| 0 <= i < |holidays.nonRecurring| && holidays.nonRecurring[i] == date;
      assert added[i] == date;
    }
  }

  /** After setRecurringHoliday every date with the given month and day is a holiday, in any year. */
  lemma AddedRecurringHoliday(holidays: Holidays, holiday: Date, date: Date)
    ensures IsHoliday(date, Holidays(holidays.nonRecurring, holidays.recurring + [holiday])) <==>
            IsHoliday(date, holidays) || (date.month == holiday.month && date.day == holiday.day)
  {
    var added := holidays.recurring + [holiday];
    if date.month == holiday.month && date.day == holiday.day {
      assert added[|added| - 1] == holiday;
    }
    if exists i :: 0 <= i < |added| && added[i].month == date.month && added[i].day == date.day {
      var i :| 0 <= i < |added| && added[i].month == date.month && added[i].day == date.day;
      if i < |holidays.recurring| {
        assert holidays.recurring[i] == added[i];
      }
    }
    if exists i :: 0 <= i < |holidays.recurring| &&
         holidays.recurring[i].month == date.month && holidays.recurring[i].day == date.day {
      var i :| 0 <= i < |holidays.recurring| &&
               holidays.recurring[i].month == date.month && holidays.recurring[i].day == date.day;
      assert added[i] == holidays.recurring[i];
    }
  }

  /**
   * From a working day at a time within the window, n whole workdays lead to
   * the day n working days away in the direction of n, at the same time.
   * Stepping back from there returns to the start (EndDayInverse).
   */
  lemma WholeWorkdaysFromWorkingDay(start: Time, stop: Time, holidays: Holidays, d: int, t: Time, n: int,
                                    r: DateTime)
    requires start.total <= t.total <= stop.total && t.total < MinutesPerDay
    requires IsWorkingDay(holidays, d)
    requires IsWorkdayIncrement(start, stop, holidays, DateTime(CivilFromDays(d), t), Increment(n, 1), r)
    ensures r.time == t
    ensures exists e :: IsEndDay(WorkingDays(holidays), d, if n >= 0 then 1 else -1, Abs(n), e)
                        && r.date == CivilFromDays(e)
  {
    var work := WorkingDays(holidays);
    var dt := DateTime(CivilFromDays(d), t);
    var step := CalculateIncrement(Increment(n, 1));
    WholeWorkdaysKeepTime(start, stop, dt, n);
    DaysFromCivilOfCivilFromDays(d);
    assert CarriedDay(start, stop, dt, Increment(n, 1)) == d;
    assert IsFirstWorkingDay(work, d, step, d);
    assert Abs(TruncateToInt(Increment(n, 1))) == Abs(n);
    var f, e :| IsFirstWorkingDay(work, d, step, f) && IsEndDay(work, f, step, Abs(n), e) && r.date == CivilFromDays(e);
    IsFirstWorkingDayUnique(work, d, step, f, d);
  }
}
