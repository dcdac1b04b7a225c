/**
 * The parts of the C++ <chrono> calendar that the workday calendar relies on:
 * year_month_day as a value, hh_mm_ss<minutes> as a count of minutes, the
 * conversions between a civil date and its day number (sys_days, day 0 being
 * 1970-01-01) and the day of the week of a day number.
 *
 * The conversions are Howard Hinnant's days_from_civil / civil_from_days,
 * written with floor division (Dafny's `/` and `%` on a positive divisor).
 */
module Chrono {

  /** An unsigned char: the storage of chrono::month and chrono::day. */
  type Byte = x: int | 0 <= x < 256

  /** std::chrono::year_month_day. The year is not narrowed to 16 bits. */
  datatype Date = Date(year: int, month: Byte, day: Byte) {

    /** year_month_day::ok(): every field in range and the day inside its month. */
    predicate Ok() {
      YearOk(year) && MonthOk(month) && 1 <= day <= LastDayOfMonth(year, month)
    }
  }

  /** std::chrono::hh_mm_ss<minutes> of a non-negative duration, kept as its total minutes. */
  datatype Time = Time(total: nat) {
    function Hours(): nat { total / 60 }
    function Minutes(): nat { total % 60 }
  }

  /** The DateTime struct shared by both classes. */
  datatype DateTime = DateTime(date: Date, time: Time)

  const MinutesPerDay: int := 1440

  predicate YearOk(y: int) { -32767 <= y <= 32767 }

  predicate MonthOk(m: int) { 1 <= m <= 12 }

  predicate IsLeapYear(y: int) { y % 4 == 0 && (y % 100 != 0 || y % 400 == 0) }

  /** The length of a month as the calendar defines it (the table year_month_day::ok uses). */
  function LastDayOfMonth(y: int, m: int): int {
    if m == 2 then (if IsLeapYear(y) then 29 else 28)
    else if m == 4 || m == 6 || m == 9 || m == 11 then 30
    else 31
  }

  /** sys_days(year_month_day): the number of days since 1970-01-01. */
  function DaysFromCivil(date: Date): int {
    var y := if date.month <= 2 then date.year - 1 else date.year;
    var era := y / 400;
    var yoe := y - era * 400;
    var mp := if date.month > 2 then date.month - 3 else date.month + 9;
    var doy := (153 * mp + 2) / 5 + date.day - 1;
    var doe := yoe * 365 + yoe / 4 - yoe / 100 + doy;
    era * 146097 + doe - 719468
  }

  // The year of a 400-year era (starting on March 1st) that contains day `doe` of that era.
  function YearOfEra(doe: int): int {
    (doe - doe / 1460 + doe / 36524 - doe / 146096) / 365
  }

  // The day of the March-based year `yoe` that is day `doe` of the era.
  function DayOfYear(doe: int, yoe: int): int {
    doe - (365 * yoe + yoe / 4 - yoe / 100)
  }

  /** year_month_day(sys_days): the civil date of a day number. */
  function CivilFromDays(n: int): (date: Date)
    ensures MonthOk(date.month) && 1 <= date.day <= 31
  {
    var z := n + 719468;
    var era := z / 146097;
    var doe := z % 146097;
    EraDayBounds(doe);
    var yoe := YearOfEra(doe);
    var y := yoe + era * 400;
    var doy := DayOfYear(doe, yoe);
    var mp := (5 * doy + 2) / 153;
    var d := doy - (153 * mp + 2) / 5 + 1;
    var m := if mp < 10 then mp + 3 else mp - 9;
    Date(if m <= 2 then y + 1 else y, m, d)
  }

  /** weekday(sys_days): 0 is Sunday, 6 is Saturday; day 0 was a Thursday. */
  function Weekday(n: int): (wd: int)
    ensures 0 <= wd < 7
  {
    (n + 4) % 7
  }

  const Sunday: int := 0
  const Saturday: int := 6

  // Within one 4-year block of one century of an era the year and the day of
  // the year of `doe` are found from the block's offsets.
  lemma EraDayBoundsInBlock(doe: int, c: int, g: int)
    requires 0 <= c < 4 && 0 <= g < 25
    requires 36524 * c + 1461 * g <= doe < 36524 * c + 1461 * g + 1461
    requires doe < 36524 * c + 36524
    ensures 0 <= YearOfEra(doe) < 400
    ensures 0 <= DayOfYear(doe, YearOfEra(doe)) <= 365
    ensures DayOfYear(doe, YearOfEra(doe)) == 365 ==>
            (YearOfEra(doe) + 1) % 4 == 0 && (YearOfEra(doe) + 1) % 100 != 0
  {
    var s := doe - 36524 * c - 1461 * g;
    assert doe / 36524 == c;
    assert doe / 146096 == 0;
    var t := (24 * c + g + s) / 1460;
    assert doe / 1460 == 25 * c + g + t;
    var h := (s - t) / 365;
    assert 0 <= h <= 3;
    var yoe := 100 * c + 4 * g + h;
    assert YearOfEra(doe) == yoe;
    assert yoe / 4 == 25 * c + g && yoe / 100 == c;
    assert DayOfYear(doe, yoe) == s - 365 * h;
  }

  /** Every day of an era lies in one of its 400 years, at a day of the year in 0..365. */
  lemma EraDayBounds(doe: int)
    requires 0 <= doe < 146097
    ensures 0 <= YearOfEra(doe) < 400
    ensures 0 <= DayOfYear(doe, YearOfEra(doe)) <= 365
  {
    EraDayLeap(doe);
  }

  /** Only the last day of a leap year is day 365 of its March-based year. */
  lemma EraDayLeap(doe: int)
    requires 0 <= doe < 146097
    ensures 0 <= YearOfEra(doe) < 400
    ensures 0 <= DayOfYear(doe, YearOfEra(doe)) <= 365
    ensures DayOfYear(doe, YearOfEra(doe)) == 365 ==> IsLeapYear(YearOfEra(doe) + 1)
  {
    if doe == 146096 {
    } else {
      var c := doe / 36524;
      var g := (doe - 36524 * c) / 1461;
      EraDayBoundsInBlock(doe, c, g);
    }
  }

  /**
   * The month and day that civil_from_days finds for day doy of a March-based
   * year: every day lies within its month, and only the year's last day, day
   * 365, is a February 29th. y is the civil year of January and February.
   */
  lemma MonthPartDay(doy: int, y: int)
    requires 0 <= doy <= 365
    requires doy == 365 ==> IsLeapYear(y)
    ensures var mp := (5 * doy + 2) / 153;
            var d := doy - (153 * mp + 2) / 5 + 1;
            var m := if mp < 10 then mp + 3 else mp - 9;
            1 <= d <= LastDayOfMonth(if m <= 2 then y else y - 1, m)
  {
  }

  // Whole eras of 400 years do not change whether a year is a leap year.
  lemma LeapYearOfEra(era: int, x: int)
    ensures IsLeapYear(era * 400 + x) == IsLeapYear(x)
  {
    RemainderFour(x, 100 * era);
    RemainderHundred(x, 4 * era);
    RemainderFourHundred(x, era);
  }

  // Adding multiples of 4, 100 or 400 keeps the remainders the leap-year rule takes.
  lemma RemainderFour(x: int, j: int)
    ensures (x + 4 * j) % 4 == x % 4
  {
  }

  lemma RemainderHundred(x: int, j: int)
    ensures (x + 100 * j) % 100 == x % 100
  {
  }

  lemma RemainderFourHundred(x: int, j: int)
    ensures (x + 400 * j) % 400 == x % 400
  {
  }

  // The month part of days_from_civil undoes the month part of civil_from_days.
  lemma MonthPartRoundTrip(doy: int)
    requires 0 <= doy <= 365
    ensures var mp := (5 * doy + 2) / 153;
            var m := if mp < 10 then mp + 3 else mp - 9;
            var mp' := if m > 2 then m - 3 else m + 9;
            0 <= mp < 12 && mp' == mp && (153 * mp + 2) / 5 <= doy
  {
  }

  // days_from_civil of a date whose March-based year is era * 400 + yoe and
  // whose March-based month is mp.
  lemma DaysFromCivilParts(date: Date, era: int, yoe: int, mp: int)
    requires 0 <= yoe < 400 && 0 <= mp < 12
    requires date.month == (if mp < 10 then mp + 3 else mp - 9)
    requires date.year == (if date.month <= 2 then era * 400 + yoe + 1 else era * 400 + yoe)
    ensures DaysFromCivil(date) ==
            era * 146097 + yoe * 365 + yoe / 4 - yoe / 100 + (153 * mp + 2) / 5 + date.day - 1 - 719468
  {
    var y := if date.month <= 2 then date.year - 1 else date.year;
    assert y == era * 400 + yoe;
    assert y / 400 == era;
  }

  /** Converting a day number to a date and back gives the day number again. */
  lemma DaysFromCivilOfCivilFromDays(n: int)
    ensures DaysFromCivil(CivilFromDays(n)) == n
  {
    var z := n + 719468;
    var era := z / 146097;
    var doe := z % 146097;
    EraDayBounds(doe);
    var yoe := YearOfEra(doe);
    var doy := DayOfYear(doe, yoe);
    MonthPartRoundTrip(doy);
    var mp := (5 * doy + 2) / 153;
    var date := CivilFromDays(n);
    var m := if mp < 10 then mp + 3 else mp - 9;
    assert date.month == m;
    assert date.day == doy - (153 * mp + 2) / 5 + 1;
    assert date.year == (if m <= 2 then yoe + era * 400 + 1 else yoe + era * 400);
    DaysFromCivilParts(date, era, yoe, mp);
    assert yoe * 365 + yoe / 4 - yoe / 100 + doy == doe;
    assert era * 146097 + doe == z;
  }

  // A date whose month and day are those civil_from_days finds for day doy
  // of the March-based year y - 1 (y being the year of its January) lies within its month.
  lemma MonthPartDayOfDate(date: Date, doy: int, y: int)
    requires 0 <= doy <= 365
    requires doy == 365 ==> IsLeapYear(y)
    requires var mp := (5 * doy + 2) / 153;
             && date.month == (if mp < 10 then mp + 3 else mp - 9)
             && date.day == doy - (153 * mp + 2) / 5 + 1
             && date.year == (if date.month <= 2 then y else y - 1)
    ensures 1 <= date.day <= LastDayOfMonth(date.year, date.month)
  {
    MonthPartDay(doy, y);
  }

  // civil_from_days in terms of its era, its year of the era and its day of the March-based year.
  lemma CivilFromDaysShape(n: int) returns (era: int, yoe: int, doy: int)
    ensures 0 <= doy <= 365 && (doy == 365 ==> IsLeapYear(yoe + 1))
    ensures var date := CivilFromDays(n);
            var mp := (5 * doy + 2) / 153;
            && date.month == (if mp < 10 then mp + 3 else mp - 9)
            && date.day == doy - (153 * mp + 2) / 5 + 1
            && date.year == (if date.month <= 2 then era * 400 + yoe + 1 else era * 400 + yoe)
  {
    var z := n + 719468;
    era := z / 146097;
    var doe := z % 146097;
    EraDayLeap(doe);
    CivilFromDaysOfEraDay(n, era, doe);
    yoe := YearOfEra(doe);
    doy := DayOfYear(doe, yoe);
  }

  /** The civil date of every day number is a day within its month: year_month_day(sys_days) is ok(). */
  lemma CivilFromDaysInMonth(n: int)
    ensures var date := CivilFromDays(n);
            1 <= date.day <= LastDayOfMonth(date.year, date.month)
  {
    var era, yoe, doy := CivilFromDaysShape(n);
    LeapYearOfEra(era, yoe + 1);
    MonthPartDayOfDate(CivilFromDays(n), doy, era * 400 + yoe + 1);
  }

  // Day doy of year h of block g of century c of an era is in year 100c + 4g + h of the era.
  lemma YearOfEraInBlock(c: int, g: int, h: int, doy: int)
    requires 0 <= c < 4 && 0 <= g < 25 && 0 <= h < 4 && 0 <= doy <= 365
    requires doy == 365 ==> h == 3
    requires 1461 * g + 365 * h + doy < 36524
    ensures YearOfEra(36524 * c + 1461 * g + 365 * h + doy) == 100 * c + 4 * g + h
  {
    var doe := 36524 * c + 1461 * g + 365 * h + doy;
    var s := 365 * h + doy;
    assert doe / 36524 == c;
    assert doe / 146096 == 0;
    var t := (24 * c + g + s) / 1460;
    assert doe / 1460 == 25 * c + g + t;
    assert (s - t) / 365 == h;
  }

  // The day of the era and the day of the year of day doy of year yoe of an era.
  lemma YearOfEraOfParts(yoe: int, doy: int)
    requires 0 <= yoe < 400 && 0 <= doy <= 365
    requires doy == 365 ==> IsLeapYear(yoe + 1)
    ensures var doe := yoe * 365 + yoe / 4 - yoe / 100 + doy;
            0 <= doe < 146097 && YearOfEra(doe) == yoe && DayOfYear(doe, yoe) == doy
  {
    var c := yoe / 100;
    var g := (yoe - 100 * c) / 4;
    var h := yoe - 100 * c - 4 * g;
    assert yoe / 4 == 25 * c + g;
    var doe := yoe * 365 + yoe / 4 - yoe / 100 + doy;
    assert doe == 36524 * c + 1461 * g + 365 * h + doy;
    if doe != 146096 {
      YearOfEraInBlock(c, g, h, doy);
    }
  }

  // The day of the March-based year of day `day` of March-based month mp, and back.
  lemma MonthPartOfDay(mp: int, day: int, y: int)
    requires 0 <= mp < 12
    requires 1 <= day <= LastDayOfMonth(y, if mp < 10 then mp + 3 else mp - 9)
    ensures var doy := (153 * mp + 2) / 5 + day - 1;
            && 0 <= doy <= 365
            && (doy == 365 ==> IsLeapYear(y))
            && (5 * doy + 2) / 153 == mp
  {
  }

  // civil_from_days of the day `doe` of era `era`.
  lemma CivilFromDaysOfEraDay(n: int, era: int, doe: int)
    requires 0 <= doe < 146097 && n == era * 146097 + doe - 719468
    ensures var date := CivilFromDays(n);
            var yoe := YearOfEra(doe);
            var doy := DayOfYear(doe, yoe);
            var mp := (5 * doy + 2) / 153;
            && date.month == (if mp < 10 then mp + 3 else mp - 9)
            && date.day == doy - (153 * mp + 2) / 5 + 1
            && date.year == (if date.month <= 2 then era * 400 + yoe + 1 else era * 400 + yoe)
  {
    var z := era * 146097 + doe;
    assert z / 146097 == era;
    assert z % 146097 == doe;
  }

  // days_from_civil of a date in terms of its era, its year of the era, its
  // March-based month and its day of the March-based year.
  lemma DaysFromCivilShape(date: Date) returns (era: int, yoe: int, mp: int, doy: int)
    requires MonthOk(date.month)
    ensures 0 <= yoe < 400 && 0 <= mp < 12
    ensures date.month == (if mp < 10 then mp + 3 else mp - 9)
    ensures date.year == (if date.month <= 2 then era * 400 + yoe + 1 else era * 400 + yoe)
    ensures doy == (153 * mp + 2) / 5 + date.day - 1
    ensures DaysFromCivil(date) == era * 146097 + (yoe * 365 + yoe / 4 - yoe / 100 + doy) - 719468
  {
    var y := if date.month <= 2 then date.year - 1 else date.year;
    era := y / 400;
    yoe := y - era * 400;
    mp := if date.month > 2 then date.month - 3 else date.month + 9;
    doy := (153 * mp + 2) / 5 + date.day - 1;
  }

  // civil_from_days of the day doy of the year yoe of an era, doy lying in
  // the March-based month mp.
  lemma CivilFromDaysOfParts(n: int, era: int, yoe: int, mp: int, doy: int)
    requires 0 <= yoe < 400 && 0 <= doy <= 365
    requires doy == 365 ==> IsLeapYear(yoe + 1)
    requires (5 * doy + 2) / 153 == mp
    requires n == era * 146097 + (yoe * 365 + yoe / 4 - yoe / 100 + doy) - 719468
    ensures var date := CivilFromDays(n);
            && date.month == (if mp < 10 then mp + 3 else mp - 9)
            && date.day == doy - (153 * mp + 2) / 5 + 1
            && date.year == (if date.month <= 2 then era * 400 + yoe + 1 else era * 400 + yoe)
  {
    YearOfEraOfParts(yoe, doy);
    CivilFromDaysOfEraDay(n, era, yoe * 365 + yoe / 4 - yoe / 100 + doy);
  }

  /** Converting a valid date to its day number and back gives the date again. */
  lemma CivilFromDaysOfDaysFromCivil(date: Date)
    requires MonthOk(date.month) && 1 <= date.day <= LastDayOfMonth(date.year, date.month)
    ensures CivilFromDays(DaysFromCivil(date)) == date
  {
    var era, yoe, mp, doy := DaysFromCivilShape(date);
    MonthPartOfDay(mp, date.day, date.year);
    LeapYearOfEra(era, yoe + 1);
    CivilFromDaysOfParts(DaysFromCivil(date), era, yoe, mp, doy);
  }

  /** Two valid dates with the same day number are the same date. */
  lemma DaysFromCivilInjective(d1: Date, d2: Date)
    requires MonthOk(d1.month) && 1 <= d1.day <= LastDayOfMonth(d1.year, d1.month)
    requires MonthOk(d2.month) && 1 <= d2.day <= LastDayOfMonth(d2.year, d2.month)
    requires DaysFromCivil(d1) == DaysFromCivil(d2)
    ensures d1 == d2
  {
    CivilFromDaysOfDaysFromCivil(d1);
    CivilFromDaysOfDaysFromCivil(d2);
  }

  /** Two day numbers with the same civil date are the same day. */
  lemma CivilFromDaysInjective(n1: int, n2: int)
    requires CivilFromDays(n1) == CivilFromDays(n2)
    ensures n1 == n2
  {
    DaysFromCivilOfCivilFromDays(n1);
    DaysFromCivilOfCivilFromDays(n2);
  }
}
