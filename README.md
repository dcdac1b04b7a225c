# Workday calendar, modelled and verified in Dafny

This project models the core of a small C++ library that computes workday arithmetic.
`WorkdayCalendar::getWorkdayIncrement` takes a date and time and a (possibly
fractional, possibly negative) number of workdays. It returns the date and time
reached when only the working window of each working day counts. A working day
is any day that is not a Saturday, a Sunday, a fixed holiday or a recurring
holiday. `GregorianCalendar` builds the date and time values the engine works
on, and clamps raw components into a date and a time of day.

The model has five modules:

- `Chrono` (`chrono.dfy`): the parts of C++ `<chrono>` the library relies on.
  - `year_month_day` as a value and `hh_mm_ss<minutes>` as a count of minutes.
  - The conversions between a civil date and its day number (`sys_days`, day 0 is 1970-01-01), after Howard Hinnant's `days_from_civil` / `civil_from_days`.
  - The weekday of a day number, `(n + 4) % 7` with 0 for Sunday.
- `Gregorian` (`gregorian_calendar.dfy`): `GregorianCalendar` as an immutable value, with its three constructors, its getters, the month length and both clamps. The constructors use the date clamp as written; a corrected clamp stands beside it (see Findings).
- `Workday` (`workday_calendar.dfy`): the class `WorkdayCalendar`, which has its four fields and its three mutators, and `getWorkdayIncrement` with every helper it calls.
  - `calculateEndTime` and both date loops are methods with loop invariants.
  - The loops are proved against `IsFirstWorkingDay` and `IsEndDay`, two specifications that count working days.
  - `IsWorkdayIncrement` specifies `getWorkdayIncrement` as a whole.
- `WorkdayScenarios` and `GregorianScenarios`: the tests of the library, stated as lemmas on the model. Two of them are methods that drive the class the way the tests do.

Modelling decisions:

- The `float` increment is an exact rational `Increment(num, den)`.
  - `static_cast<int>` becomes truncation toward zero (`TruncateToInt`).
  - `floor<minutes>(workDay * fraction)` becomes the floor of an exact product (`CalculateTimeDuration`).
  - The step's sign comes from the increment itself, so `-0.3` steps backward with no whole days.
- A time point is a count of minutes, as `time_point<system_clock, minutes>` is. Its day is `timePoint / 1440`, floored as `floor<days>` floors.
- The clampStartDate loop, and the calculateEndDate loop for a non-zero whole-day count, do not end when no working day lies ahead; for example, recurring holidays can cover every weekday. Termination is therefore the precondition `EnoughWorkingDays` of `GetWorkdayIncrement`.
  - `RecurrenceIsEnough` shows the precondition holds for every start and every increment when some working day lies in every `b` consecutive days.
  - `NoHolidaysRecurrence` shows such a `b` exists (3) for a calendar without holidays.
- Minutes above 59 are not clamped on their own. The constructors build the time as `hours{hh} + minutes{mm}` (`lib/src/gregoriancalendar.cpp` lines 19 and 24), so extra minutes carry into the hours. The time clamp (lines 78-88) only turns a total of 24 hours or more into 23:59 (`Gregorian.FromComponents`, `GregorianScenarios.Minutes250`).
- The tests expect every constructed date to be valid (`EXPECT_TRUE(dt.date.ok())`, tests/gregoriancalendar.cpp:13). The code's clamp can still return January 62 for an invalid month (see Findings).

## Model

| member | source | states |
|---|---|---|
| Chrono.CivilFromDays | lib/src/workdaycalendar.cpp:139 | `Date{floor<days>(timePoint)}`: the civil date of a day number always has a valid month and a day from 1 to 31 |
| Chrono.CivilFromDaysInMonth | lib/src/workdaycalendar.cpp:139 | `year_month_day(sys_days)` is always a day within its month: February 29th only in leap years, never a 31st of a 30-day month |
| Chrono.Weekday | lib/src/workdaycalendar.cpp:184 | `weekday{date}` of a day number is a day of the week in 0..6, Sunday being 0 |
| Chrono.DaysFromCivilOfCivilFromDays | lib/src/workdaycalendar.cpp:171-174 | `sys_days` of the date of a day number is that day number again: the date loops and `makeTimepoint` agree on days |
| Chrono.CivilFromDaysOfDaysFromCivil | lib/src/workdaycalendar.cpp:173 | `sys_days(dt.date)`: the date of the day number of a valid date is that date again, so the conversion inverts `year_month_day(sys_days)` |
| Chrono.DaysFromCivilInjective | lib/src/workdaycalendar.cpp:184 | two valid dates never share a day number, so `weekday{date}` depends only on the date |
| Workday.MakeTimePoint | lib/src/workdaycalendar.cpp:171-174 | for a time of day below 24 hours, the time point lies on the day of the date's `sys_days`, and its minutes within that day are the time of day |
| Chrono.CivilFromDaysInjective | lib/src/workdaycalendar.cpp:144 | two different day numbers never have the same date, so stepping the time point always changes the date |
| Gregorian.DaysInMonth | lib/src/gregoriancalendar.cpp:45-56 | the month length: February 29 or 28 by the leap rule, and for every valid month the bit trick `30 \| (m ^ (m >> 3))` gives that month's calendar length; an invalid month gets at least 30 |
| Gregorian.ClampDateAsWritten | lib/src/gregoriancalendar.cpp:58-76 | the date clamp exactly as written: the year is always kept; a valid month is kept and the day lands within it; an invalid month becomes January |
| Gregorian.ClampDate | lib/src/gregoriancalendar.cpp:58-76 | the corrected clamp: for a year in the 16-bit range, the result is always a valid date |
| Gregorian.ClampTime | lib/src/gregoriancalendar.cpp:78-88 | a time of 24 hours or more becomes 23:59, any other time is kept, and the result is always a time of day |
| Gregorian.FromDateTime | lib/src/gregoriancalendar.cpp:12-16 | the constructor from a DateTime keeps the year, keeps a valid month and turns an invalid one into January, gives a valid date whenever the year and month are valid, and gives a time of day |
| Gregorian.FromComponents | lib/src/gregoriancalendar.cpp:18-21 | the time is hh*60 + mm when that is below 24 hours and 23:59 otherwise; the date is the as-written clamp of the components, and it is valid whenever the year and month are |
| Gregorian.FromChrono | lib/src/gregoriancalendar.cpp:23-26 | the signed hour and minute durations are added first, so 1 hour and -30 minutes give 00:30; the same time and date clamping as FromComponents |
| Gregorian.GettersReturnClampedFields | lib/src/gregoriancalendar.cpp:28-41 | getDate, getTime and getDateTime return exactly the fields clamped by the code's clamps |
| Gregorian.ClampDayAboveMonthLength | lib/src/gregoriancalendar.cpp:61-64 | in the clamp as written and in the corrected one, a day past a valid month's end becomes that month's last day |
| Gregorian.ClampDayZero | lib/src/gregoriancalendar.cpp:65-68 | in the clamp as written and in the corrected one, day 0 of a valid month becomes day 1 of that month |
| Gregorian.ClampInvalidMonth | lib/src/gregoriancalendar.cpp:70-73 | an invalid month becomes January; as written, the day, clamped against the invalid month's own length, is kept; the corrected ClampDate re-clamps it only when it does not fit January |
| Gregorian.ClampDateUnchangedIff | lib/src/gregoriancalendar.cpp:58-76 | the clamp as written, and the corrected one, each leave a date unchanged if and only if its month is valid and its day lies within the month |
| Gregorian.ClampValidMonthDay | lib/src/gregoriancalendar.cpp:58-76 | in the clamp as written a valid month is kept and the day always lands within that month; on a valid month the corrected clamp gives the same date |
| Gregorian.FromDateTimeKeepsValid | lib/src/gregoriancalendar.cpp:12-16 | a valid date and time of day come out of the constructor unchanged |
| Gregorian.ClampDateAgreesWhenValid | lib/src/gregoriancalendar.cpp:58-76 | the corrected clamp agrees with the code wherever the code returns a valid date |
| Gregorian.ClampAsWrittenInvalidMonthCounterexample | lib/src/gregoriancalendar.cpp:70-73 | month 32, day 63 gives January 62 as written: not a valid date; January 31 when corrected |
| GregorianScenarios.ZeroComponents | tests/gregoriancalendar.cpp:4-14 | all-zero components give January 1st of year 0, at 00:00, a valid date |
| GregorianScenarios.ValidDateTimeKept | tests/gregoriancalendar.cpp:16-34 | 2025-12-10 09:30 is kept by the DateTime constructor |
| GregorianScenarios.ValidComponentsKept | tests/gregoriancalendar.cpp:36-56 | 2021-03-29 03:33 is kept by the chrono-components constructor |
| GregorianScenarios.February29thOfCommonYear | tests/gregoriancalendar.cpp:92-106 | February 29th, 2025 becomes February 28th |
| GregorianScenarios.Hour24 | tests/gregoriancalendar.cpp:108-121 | 24:00 becomes 23:59 |
| GregorianScenarios.Minutes250 | tests/gregoriancalendar.cpp:123-137 | 23 hours and 250 minutes become 23:59 |
| GregorianScenarios.Day31OfThirtyDayMonths | tests/gregoriancalendar.cpp:146-168 | the 31st of April, June, September and November becomes the 30th |
| Workday.TruncateBounds | lib/src/workdaycalendar.cpp:82 | `static_cast<int>`: the whole part lies within one workday of the increment, on the same side of zero |
| Workday.CalculateIncrement | lib/src/workdaycalendar.cpp:176-180 | the day step is +1 for an increment of zero or more and -1 otherwise, always exactly one day |
| Workday.TruncateFollowsStep | lib/src/workdaycalendar.cpp:140-152 | the whole part has the sign of the step, so the counter moves toward zero |
| Workday.CalculateTimeDuration | lib/src/workdaycalendar.cpp:77-92 | the window length and the raw times; the fraction in minutes is the floor of the length times the fractional part, and it lies between 0 and the window length, with the increment's sign |
| Workday.ClampStartTime | lib/src/workdaycalendar.cpp:94-110 | an input before the window becomes its start, one after it becomes its stop, any other is kept; for start <= stop the result lies in the window |
| Workday.EdgeCarry | lib/src/workdaycalendar.cpp:112-133 | the carry moves -1 day exactly when t = start + fraction falls before the window, +1 exactly when it falls after it, 0 otherwise; it carries minute for minute onto the other edge, and ends within the window whenever t is within one window length of it |
| Workday.CalculateEndTime | lib/src/workdaycalendar.cpp:112-133 | the end time is the carried time, the time point moves by exactly the carried day, and the end time lies within the window |
| Workday.DayOfShift | lib/src/workdaycalendar.cpp:143-144 | adding one day to a time point moves its day by one and keeps its time of day |
| Workday.CheckHoliday | lib/src/workdaycalendar.cpp:189-207 | isHoliday is true exactly when the date equals a fixed holiday, or has the month and day of a recurring holiday in any year |
| Workday.AddedHoliday | lib/src/workdaycalendar.cpp:41-44 | after setHoliday a date is a holiday exactly when it was one before or it is the new date, year included |
| Workday.AddedRecurringHoliday | lib/src/workdaycalendar.cpp:46-49 | after setRecurringHoliday a date is a holiday exactly when it was one before or it has the new date's month and day |
| Workday.WeekendOfDayNumber | lib/src/workdaycalendar.cpp:182-187 | isWeekend of a day's date holds exactly when the day number's weekday is Saturday or Sunday |
| Workday.WeekendsPerWeek | lib/src/workdaycalendar.cpp:182-187 | isWeekend repeats every seven days, and any seven consecutive days hold exactly two weekend days, one Saturday and one Sunday |
| Workday.DateOf | lib/src/workdaycalendar.cpp:144-146 | the date of the time point, and whether it is a weekend day or a holiday |
| Workday.ClampStartDate | lib/src/workdaycalendar.cpp:157-169 | the time point is moved, keeping its time of day, to the first working day reached from its day in the step's direction |
| Workday.WorkingDayIsKept | lib/src/workdaycalendar.cpp:162 | a start that already is a working day is the first working day, and the only one |
| Workday.IsFirstWorkingDayUnique | lib/src/workdaycalendar.cpp:157-169 | clampStartDate's result is determined by its input |
| Workday.CalculateEndDate | lib/src/workdaycalendar.cpp:135-155 | the result is the date of the end day: with no whole days the start, otherwise a working day with exactly \|whole days\| working days after the start up to it, in the step's direction |
| Workday.IsEndDayUnique | lib/src/workdaycalendar.cpp:135-155 | the end day of a number of working days is unique |
| Workday.EndDayIsWorkingDay | lib/src/workdaycalendar.cpp:146-151 | from a working day, the end day is a working day |
| Workday.EndDayInverse | lib/src/workdaycalendar.cpp:135-155 | stepping n working days forward from a working day and then n back returns to it |
| Workday.WorkdayCalendar.constructor | lib/include/workdaycalendar.h:22-25 | a new calendar has a 00:00-00:00 window and no holidays |
| Workday.WorkdayCalendar.SetHoliday | lib/src/workdaycalendar.cpp:41-44 | appends exactly the date to the fixed holidays; the recurring holidays and the window are unchanged |
| Workday.WorkdayCalendar.SetRecurringHoliday | lib/src/workdaycalendar.cpp:46-49 | appends exactly the date to the recurring holidays; the fixed holidays and the window are unchanged |
| Workday.WorkdayCalendar.SetWorkdayStartAndStop | lib/src/workdaycalendar.cpp:51-55 | replaces both ends of the window by the two times; the holidays are unchanged |
| Workday.WorkdayCalendar.GetWorkdayIncrement | lib/src/workdaycalendar.cpp:57-73 | the result is the carried end time, and the date reached from the carried day by moving to its first working day and then stepping the whole days in working days; it modifies no field |
| Workday.IsWorkdayIncrementUnique | lib/src/workdaycalendar.cpp:57-73 | getWorkdayIncrement has exactly one possible result for given inputs |
| Workday.WorkdayIncrementEndsOnWorkingDay | lib/src/workdaycalendar.cpp:57-73 | the date returned is neither a weekend day nor a holiday |
| Workday.EndTimeInWindow | lib/src/workdaycalendar.cpp:112-133 | for a window that is not inverted, the time returned lies within the window |
| Workday.WholeWorkdaysKeepTime | lib/src/workdaycalendar.cpp:82-85 | a whole number of workdays from a time within the window keeps that time and carries no day |
| Workday.WholeWorkdaysFromWorkingDay | lib/src/workdaycalendar.cpp:57-73 | from a working day at a time within the window, n whole workdays end at the same time on the day n working days away; with EndDayInverse, stepping back returns to the start |
| Workday.WorkingDaysAheadOfRecurrence | lib/src/workdaycalendar.cpp:141-152 | when every b consecutive days hold a working day, any number of working days lies ahead in either direction |
| Workday.RecurrenceIsEnough | lib/src/workdaycalendar.cpp:162-166 | when every b consecutive days hold a working day, both loops end for every start and every increment |
| Workday.NoHolidaysWorkingDays | lib/src/workdaycalendar.cpp:182-187 | without holidays the working days are exactly Monday to Friday |
| Workday.WeekdaysRecurrence | lib/src/workdaycalendar.cpp:182-187 | Monday to Friday put a working day in every 3 consecutive days |
| Workday.NoHolidaysRecurrence | lib/src/workdaycalendar.cpp:162-166 | without holidays a working day lies in every 3 consecutive days, so getWorkdayIncrement always ends |
| WorkdayScenarios.FridayPlusOneIsMonday | tests/workdaycalendar.cpp:32-44 | one workday after Friday, 2025-12-05 is Monday, 2025-12-08, and the loops end |
| WorkdayScenarios.MondayMinusOneIsFriday | tests/workdaycalendar.cpp:46-58 | one workday before Monday, 2025-12-08 is Friday, 2025-12-05 |
| WorkdayScenarios.FridayPlusOneOnDefaultCalendar | tests/workdaycalendar.cpp:32-44 | a default-constructed calendar returns 2025-12-08 00:00 for 2025-12-05 plus one workday |
| WorkdayScenarios.HalfDayWithinWindow | tests/workdaycalendar.cpp:178-208 | in an 08:00-16:00 window, +0.5 from 08:00 and -0.5 from 16:00 both end at 12:00 and carry no day, for every date |
| WorkdayScenarios.HalfDayFromOutsideWindow | tests/workdaycalendar.cpp:210-242 | +0.5 from before the window and -0.5 from after it end at 12:00 and carry no day, for every date |
| WorkdayScenarios.HalfDayAcrossWindowEdge | tests/workdaycalendar.cpp:244-288 | -0.5 from before the window ends at 12:00 and carries to the day before; +0.5 from after it ends at 12:00 and carries to the day after; for every date, before the move to a working day |
| WorkdayScenarios.TuesdayEarlyHalfDayBackIsMonday | tests/workdaycalendar.cpp:244-265 | -0.5 from Tuesday, 2025-12-09 06:00 gives Monday, 2025-12-08 12:00 |
| WorkdayScenarios.TuesdayLateHalfDayIsWednesday | tests/workdaycalendar.cpp:267-288 | +0.5 from Tuesday, 2025-12-09 18:00 gives Wednesday, 2025-12-10 12:00 |
| WorkdayScenarios.MondayEarlyHalfDayBackIsFriday | tests/workdaycalendar.cpp:290-311 | -0.5 from Monday, 2025-12-08 06:00 gives Friday, 2025-12-05 12:00 |
| WorkdayScenarios.FridayLateHalfDayIsMonday | tests/workdaycalendar.cpp:313-334 | +0.5 from Friday, 2025-12-05 18:00 gives Monday, 2025-12-08 12:00 |
| WorkdayScenarios.KataFiveAndAHalfBack | tests/workdaycalendar.cpp:376 | with the kata's window and holidays, -5.5 from 2004-05-24 18:05 gives 2004-05-14 12:00, and the loops end |
| WorkdayScenarios.KataSixPointSevenBack | tests/workdaycalendar.cpp:378 | -6.7470217 from 2004-05-24 18:03 gives 2004-05-13 10:01 |
| WorkdayScenarios.KataTwelvePointEightOn | tests/workdaycalendar.cpp:379 | 12.782709 from 2004-05-24 08:03 gives 2004-06-10 14:18 |
| WorkdayScenarios.KataEightPointThreeOn | tests/workdaycalendar.cpp:380 | 8.276628 from 2004-05-24 07:03 gives 2004-06-04 10:12 |
| WorkdayScenarios.KataOnCalendar | tests/workdaycalendar.cpp:349-373 | the kata's calendar, set up through the GregorianCalendar constructors, returns 2004-05-14 12:00 for -5.5 from 2004-05-24 18:05 |

## Left out

- Floating point: the increment is an exact rational, so the model does not capture the rounding of `float` products. The kata increments are written as their decimal text (for example 12.782709 as 12782709/1000000), not as the nearest `float`.
- Workday.TruncateToInt: does not model the undefined behaviour of `static_cast<int>` for increments beyond the `int` range, because integers are unbounded here.
- Chrono.Date: the year is an unbounded integer, while `chrono::year` holds a `short` and is valid only from -32767 to 32767. Any `getWorkdayIncrement` whose result falls after 32767-12-31 or before -32767-01-01 is therefore not modelled; for example, one working day after the valid date 32767-12-31 gives the year 32768 in the model, which the library cannot represent. No test reaches these years.
- Gregorian.FromChrono: requires `hh * 60 + mm >= 0`, because `Chrono.Time` is a non-negative minute count. A negative sum (such as `hours{-1}`) gives a negative `hh_mm_ss`, which the code's time clamp keeps because its `hours()` is 1. The model does not capture such times.
- Workday.WorkdayCalendar.GetWorkdayIncrement: requires `start <= stop`. An inverted window gives negative durations in the code and is not modelled. The zero-length window of a default-constructed calendar is modelled.
- Workday.WorkdayCalendar.GetWorkdayIncrement: requires `EnoughWorkingDays`, because the code loops forever when no working day lies ahead. Termination is proved only under that condition, which `RecurrenceIsEnough` derives from a recurrence of working days.
- Workday.CalculateEndTime: requires a start time inside the window and a fraction of at most one window length. `getWorkdayIncrement` always passes such values, and it is the only caller.
- Workday.ClampStartDate: requires a working day ahead, and Workday.CalculateEndDate requires enough working days ahead, as termination conditions (see above).
- The time point is an unbounded integer count of minutes, so the model does not capture overflow of `time_point<system_clock, minutes>`.
- The kata scenario 44.723656 from 19:03 to 2004-07-27 13:47 (tests/workdaycalendar.cpp:377) is not restated: it counts 44 working days through July. The one-day, large-increment and holiday unit tests of the default calendar are not restated either; the general lemmas cover what they check (`CalculateEndDate`, `AddedHoliday`, `AddedRecurringHoliday`).
- `SimpleDateFormat` (formatting through `std::vformat`), the console demo and the test that reads `system_clock::now()` are I/O or wall-clock code. They are not part of this model.

## Findings

| source | as written | input that shows it | evidently intended | confidence | as-written member | corrected member |
|---|---|---|---|---|---|---|
| lib/src/gregoriancalendar.cpp:70-73 | an invalid month is replaced by January, but the day, already clamped against the invalid month's bit-trick length (up to 62), is kept | `GregorianCalendar{2025, Month(32), 63, 0, 0}` gives 2025-01-62, which is not a valid date | clamp the day again against January, giving 2025-01-31, so that construction always yields a valid date | not executed | Gregorian.ClampAsWrittenInvalidMonthCounterexample | Gregorian.ClampDate |
