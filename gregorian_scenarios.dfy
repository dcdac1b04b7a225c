/** The scenarios of the GregorianCalendar tests, stated on the model. */
module GregorianScenarios {
  import opened Chrono
  import opened Gregorian

  /** Test: all components zero give a valid date, January 1st of year 0, at midnight. */
  lemma ZeroComponents()
    ensures FromComponents(0, 0, 0, 0, 0).GetDateTime() == DateTime(Date(0, 1, 1), Time(0))
    ensures FromComponents(0, 0, 0, 0, 0).GetDate().Ok()
  {
  }

  /** Test: a valid date and time, December 10th, 2025 at 09:30, are kept. */
  lemma ValidDateTimeKept()
    ensures FromDateTime(DateTime(Date(2025, 12, 10), Time(9 * 60 + 30))).GetDateTime() ==
            DateTime(Date(2025, 12, 10), Time(9 * 60 + 30))
  {
  }

  /** Test: the components of March 29th, 2021 at 03:33 are kept. */
  lemma ValidComponentsKept()
    ensures FromChrono(2021, 3, 29, 3, 33).GetDateTime() == DateTime(Date(2021, 3, 29), Time(3 * 60 + 33))
  {
  }

  /** Test: February 29th of the common year 2025 becomes February 28th. */
  lemma February29thOfCommonYear()
    ensures FromComponents(2025, 2, 29, 0, 0).GetDate() == Date(2025, 2, 28)
  {
  }

  /** Test: 24:00 becomes 23:59. */
  lemma Hour24()
    ensures FromComponents(0, 0, 0, 24, 0).GetTime() == Time(MaxHour * 60 + MaxMinute)
  {
  }

  /** Test: 23 hours and 250 minutes become 23:59. */
  lemma Minutes250()
    ensures FromComponents(0, 0, 0, 23, 250).GetTime().Hours() == 23
    ensures FromComponents(0, 0, 0, 23, 250).GetTime().Minutes() == 59
  {
  }

  /** Test: the 31st of April, June, September and November becomes the 30th. */
  lemma Day31OfThirtyDayMonths(m: Byte)
    requires m == 4 || m == 6 || m == 9 || m == 11
    ensures FromComponents(2025, m, 31, 0, 0).GetDate() == Date(2025, m, 30)
  {
  }
}
