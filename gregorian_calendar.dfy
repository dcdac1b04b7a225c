/**
 * GregorianCalendar: an immutable date and time built from raw components.
 * Construction never fails; it clamps the day to the month, a day of zero to
 * the first, an invalid month to January, and a time of 24:00 or later to 23:59.
 */
module Gregorian {
  import opened Chrono

  /**
   * getNumberOfDaysInMonth: February by the leap-year rule, every other month
   * by the bit trick 30 | (m ^ (m >> 3)) on the month's unsigned value.
   */
  function DaysInMonth(y: int, m: Byte): (n: Byte)
    ensures MonthOk(m) ==> n == LastDayOfMonth(y, m)
    ensures !MonthOk(m) ==> n >= 30
  {
    if m == 2 then (if IsLeapYear(y) then 29 else 28)
    else
      var i := m as bv8;
      ((30 as bv8) | (i ^ (i >> 3))) as int
  }

  /** chrono::day::ok() */
  predicate DayOk(d: int) { 1 <= d <= 31 }

  /**
   * clamp(year_month_day, Month) exactly as written: a day past the month's
   * length becomes that length, any other invalid day becomes 1 (both under
   * the given month), and then an invalid month becomes January, keeping the
   * day as it is.
   */
  function ClampDateAsWritten(date: Date, month: Byte): (r: Date)
    ensures r.year == date.year
    ensures MonthOk(date.month) && month == date.month ==>
            r.month == month && 1 <= r.day <= LastDayOfMonth(date.year, month)
    ensures !MonthOk(date.month) && month == date.month ==> r.month == 1
  {
    var maxDay := DaysInMonth(date.year, date.month);
    var d :=
      if date.day > maxDay then Date(date.year, month, maxDay)
      else if !DayOk(date.day) then Date(date.year, month, 1)
      else date;
    if !MonthOk(d.month) then Date(d.year, 1, d.day) else d
  }

  /**
   * The clamp as evidently intended: as written, and then a day that still lies
   * past the end of its month (possible only after an invalid month was
   * replaced by January) is clamped to that month's length.
   */
  function ClampDate(date: Date, month: Byte): (r: Date)
    ensures YearOk(date.year) ==> r.Ok()
  {
    var c := ClampDateAsWritten(date, month);
    if c.day > LastDayOfMonth(c.year, c.month) then Date(c.year, c.month, DaysInMonth(c.year, c.month))
    else c
  }

  const MaxHour: nat := 23
  const MaxMinute: nat := 59

  /**
   * clamp(hh_mm_ss<minutes>): a time whose hour count exceeds 23 becomes 23:59;
   * any other time is kept, so the result is always a time of day.
   */
  function ClampTime(time: Time): (r: Time)
    ensures r.total < MinutesPerDay
    ensures time.total < MinutesPerDay ==> r == time
    ensures time.total >= MinutesPerDay ==> r.Hours() == MaxHour && r.Minutes() == MaxMinute
  {
    if time.Hours() > MaxHour then Time(MaxHour * 60 + MaxMinute) else time
  }

  /** The GregorianCalendar class: a date and a time, both already clamped. */
  datatype GregorianCalendar = GregorianCalendar(date: Date, time: Time) {

    function GetDateTime(): DateTime { DateTime(date, time) }

    function GetTime(): Time { time }

    function GetDate(): Date { date }
  }

  /**
   * GregorianCalendar(DateTime): clamps the date against its own month, as the
   * clamp is written, and the time. A valid month is kept and an invalid one
   * becomes January; the date is valid whenever the month is.
   */
  function FromDateTime(dt: DateTime): (g: GregorianCalendar)
    ensures YearOk(dt.date.year) && MonthOk(dt.date.month) ==> g.GetDate().Ok()
    ensures g.GetDate().month == if MonthOk(dt.date.month) then dt.date.month else 1
    ensures g.GetTime().total < MinutesPerDay
    ensures g.GetDate().year == dt.date.year
  {
    GregorianCalendar(ClampDateAsWritten(dt.date, dt.date.month), ClampTime(dt.time))
  }

  /** The 16-bit signed range of the int16_t year argument. */
  type Int16 = x: int | -32768 <= x < 32768

  /**
   * GregorianCalendar(int16_t, Month, uint8_t, uint8_t, uint8_t): the time is
   * hours{hh} + minutes{mm}, so minutes of 60 or more carry into the hours
   * instead of saturating; only a total of 24 hours or more becomes 23:59.
   */
  function FromComponents(y: Int16, m: Byte, d: Byte, hh: Byte, mm: Byte): (g: GregorianCalendar)
    ensures g.GetTime().total == if hh * 60 + mm < MinutesPerDay then hh * 60 + mm else MinutesPerDay - 1
    ensures g.GetDate() == ClampDateAsWritten(Date(y, m, d), m)
    ensures YearOk(y) && MonthOk(m) ==> g.GetDate().Ok()
  {
    FromDateTime(DateTime(Date(y, m, d), Time(hh * 60 + mm)))
  }

  /**
   * GregorianCalendar(year, month, day, hours, minutes): the signed durations
   * hh + mm are added first, so `hours{1} + minutes{-30}` is 00:30; the same
   * clamping as FromComponents.
   */
  function FromChrono(y: Int16, m: Byte, d: Byte, hh: int, mm: int): (g: GregorianCalendar)
    requires hh * 60 + mm >= 0
    ensures g.GetTime().total == if hh * 60 + mm < MinutesPerDay then hh * 60 + mm else MinutesPerDay - 1
    ensures g.GetDate() == ClampDateAsWritten(Date(y, m, d), m)
    ensures YearOk(y) && MonthOk(m) ==> g.GetDate().Ok()
  {
    FromDateTime(DateTime(Date(y, m, d), Time(hh * 60 + mm)))
  }

  /** The getters hand back exactly the clamped fields, the date and time together in getDateTime. */
  lemma GettersReturnClampedFields(dt: DateTime)
    ensures FromDateTime(dt).GetDate() == ClampDateAsWritten(dt.date, dt.date.month)
    ensures FromDateTime(dt).GetTime() == ClampTime(dt.time)
    ensures FromDateTime(dt).GetDateTime() == DateTime(FromDateTime(dt).GetDate(), FromDateTime(dt).GetTime())
  {
  }

  /** A day past the end of a valid month becomes the month's last day, in both clamps. */
  lemma ClampDayAboveMonthLength(date: Date)
    requires MonthOk(date.month) && date.day > LastDayOfMonth(date.year, date.month)
    ensures ClampDateAsWritten(date, date.month) == Date(date.year, date.month, LastDayOfMonth(date.year, date.month))
    ensures ClampDate(date, date.month) == Date(date.year, date.month, LastDayOfMonth(date.year, date.month))
  {
  }

  /** Day zero of a valid month becomes the first of that month, in both clamps. */
  lemma ClampDayZero(date: Date)
    requires MonthOk(date.month) && date.day == 0
    ensures ClampDateAsWritten(date, date.month) == Date(date.year, date.month, 1)
    ensures ClampDate(date, date.month) == Date(date.year, date.month, 1)
  {
  }

  /**
   * An invalid month becomes January. The day is the one clamped against the
   * invalid month's own length, and it is not clamped again as long as it fits
   * in January.
   */
  lemma ClampInvalidMonth(date: Date)
    requires !MonthOk(date.month)
    ensures var r := ClampDateAsWritten(date, date.month);
            var maxDay := DaysInMonth(date.year, date.month);
            r.year == date.year && r.month == 1 &&
            r.day == (if date.day > maxDay then maxDay else if !DayOk(date.day) then 1 else date.day)
    ensures ClampDateAsWritten(date, date.month).day <= 31 ==>
            ClampDate(date, date.month) == ClampDateAsWritten(date, date.month)
  {
  }

  /**
   * Each clamp leaves a date alone exactly when its month is valid and its day
   * lies within that month.
   */
  lemma ClampDateUnchangedIff(date: Date)
    ensures ClampDateAsWritten(date, date.month) == date <==>
            MonthOk(date.month) && 1 <= date.day <= LastDayOfMonth(date.year, date.month)
    ensures ClampDate(date, date.month) == date <==>
            MonthOk(date.month) && 1 <= date.day <= LastDayOfMonth(date.year, date.month)
  {
  }

  /**
   * A valid month always yields a day within that month, and the month is
   * kept; on a valid month the two clamps agree.
   */
  lemma ClampValidMonthDay(date: Date)
    requires MonthOk(date.month)
    ensures var r := ClampDateAsWritten(date, date.month);
            r.month == date.month && 1 <= r.day <= LastDayOfMonth(date.year, date.month)
    ensures ClampDate(date, date.month) == ClampDateAsWritten(date, date.month)
  {
  }

  /** A date and time that are already valid come out of the constructor unchanged. */
  lemma FromDateTimeKeepsValid(dt: DateTime)
    requires dt.date.Ok() && dt.time.total < MinutesPerDay
    ensures FromDateTime(dt).GetDateTime() == dt
  {
  }

  /** The corrected clamp differs from the code only where the code returns an invalid date. */
  lemma ClampDateAgreesWhenValid(date: Date, month: Byte)
    requires ClampDateAsWritten(date, month).Ok()
    ensures ClampDate(date, month) == ClampDateAsWritten(date, month)
  {
  }

  /**
   * As written, an invalid month with a large day gives an invalid date: month
   * 32 has the bit-trick length 62, so day 63 becomes January 62.
   */
  lemma ClampAsWrittenInvalidMonthCounterexample()
    ensures ClampDateAsWritten(Date(2025, 32, 63), 32) == Date(2025, 1, 62)
    ensures !ClampDateAsWritten(Date(2025, 32, 63), 32).Ok()
    ensures ClampDate(Date(2025, 32, 63), 32) == Date(2025, 1, 31)
  {
  }
}
