/**
 * The proleptic Gregorian calendar of SQL Server's DATE type (0001-01-01 to
 * 9999-12-31): month lengths, DATEADD by one day, EOMONTH, date comparison,
 * the weekday and the 'dd/MM/yyyy' format.
 */
module Calendar {
  import opened Text

  datatype Date = Date(year: int, month: int, day: int)

  datatype Weekday = Monday | Tuesday | Wednesday | Thursday | Friday | Saturday | Sunday

  predicate IsLeapYear(y: int)
  {
    y % 4 == 0 && (y % 100 != 0 || y % 400 == 0)
  }

  function DaysInMonth(y: int, m: int): (n: int)
    requires 1 <= m <= 12
    ensures 28 <= n <= 31
  {
    if m == 2 then (if IsLeapYear(y) then 29 else 28)
    else if m == 4 || m == 6 || m == 9 || m == 11 then 30
    else 31
  }

  predicate ValidDate(d: Date)
  {
    1 <= d.year <= 9999 && 1 <= d.month <= 12 && 1 <= d.day <= DaysInMonth(d.year, d.month)
  }

  /** Days of year y that come before the first day of month m; m == 13 gives the year's length. */
  function DaysBeforeMonth(y: int, m: int): (n: nat)
    requires 1 <= m <= 13
    decreases m
  {
    if m == 1 then 0 else DaysBeforeMonth(y, m - 1) + DaysInMonth(y, m - 1)
  }

  /** The twelve month lengths add up to 366 days in a leap year and 365 otherwise. */
  lemma {:induction false} YearLength(y: int)
    ensures DaysBeforeMonth(y, 13) == YearDays(y)
  {
    assert DaysBeforeMonth(y, 2) == 31;
    assert DaysBeforeMonth(y, 3) == 31 + DaysInMonth(y, 2);
    assert DaysBeforeMonth(y, 4) == 62 + DaysInMonth(y, 2);
    assert DaysBeforeMonth(y, 5) == 92 + DaysInMonth(y, 2);
    assert DaysBeforeMonth(y, 6) == 123 + DaysInMonth(y, 2);
    assert DaysBeforeMonth(y, 7) == 153 + DaysInMonth(y, 2);
    assert DaysBeforeMonth(y, 8) == 184 + DaysInMonth(y, 2);
    assert DaysBeforeMonth(y, 9) == 215 + DaysInMonth(y, 2);
    assert DaysBeforeMonth(y, 10) == 245 + DaysInMonth(y, 2);
    assert DaysBeforeMonth(y, 11) == 276 + DaysInMonth(y, 2);
    assert DaysBeforeMonth(y, 12) == 306 + DaysInMonth(y, 2);
  }

  /** The length of year y. */
  function YearDays(y: int): (n: nat)
  {
    if IsLeapYear(y) then 366 else 365
  }

  /** Days from 0001-01-01 to the first day of year y: the lengths of the years before it. */
  function DaysBeforeYear(y: int): (n: nat)
    requires 1 <= y
    decreases y
  {
    if y == 1 then 0 else DaysBeforeYear(y - 1) + YearDays(y - 1)
  }

  /** Stepping y by one crosses a multiple of k (4, 100 or 400) exactly when k divides y. */
  lemma DivStep(y: int, k: int)
    requires k == 4 || k == 100 || k == 400
    ensures y / k - (y - 1) / k == if y % k == 0 then 1 else 0
  {
    if k == 4 {
      assert y / 4 - (y - 1) / 4 == if y % 4 == 0 then 1 else 0;
    } else if k == 100 {
      assert y / 100 - (y - 1) / 100 == if y % 100 == 0 then 1 else 0;
    } else {
      assert y / 400 - (y - 1) / 400 == if y % 400 == 0 then 1 else 0;
    }
  }

  /** A multiple of 400 is a multiple of 100, and a multiple of 100 a multiple of 4. */
  lemma DivisibilityChain(y: int)
    ensures y % 400 == 0 ==> y % 100 == 0
    ensures y % 100 == 0 ==> y % 4 == 0
  {
    if y % 400 == 0 {
      MultipleOf(y / 400 * 4, 100);
      assert y == y / 400 * 4 * 100;
    }
    if y % 100 == 0 {
      MultipleOf(y / 100 * 25, 4);
      assert y == y / 100 * 25 * 4;
    }
  }

  lemma MultipleOf(q: int, k: int)
    requires k == 4 || k == 100
    ensures (q * k) % k == 0
  {
    if k == 4 {
      assert (q * 4) % 4 == 0;
    } else {
      assert (q * 100) % 100 == 0;
    }
  }

  /**
   * The count of days before year y in closed form: 365 a year, plus one for every
   * fourth year, less one for every hundredth, plus one for every four hundredth.
   */
  lemma {:induction false} DaysBeforeYearClosedForm(y: int)
    requires 1 <= y
    ensures var p := y - 1; DaysBeforeYear(y) == 365 * p + p / 4 - p / 100 + p / 400
    decreases y
  {
    if y > 1 {
      var p := y - 1;
      DaysBeforeYearClosedForm(y - 1);
      DivStep(p, 4);
      DivStep(p, 100);
      DivStep(p, 400);
      DivisibilityChain(p);
      assert DaysBeforeYear(y) == DaysBeforeYear(p) + YearDays(p);
    }
  }

  /** Days elapsed from 0001-01-01 to d. */
  function DayNumber(d: Date): (n: nat)
    requires ValidDate(d)
  {
    DaysBeforeYear(d.year) + DaysBeforeMonth(d.year, d.month) + d.day - 1
  }

  /** DATEADD(DAY, 1, d); SQL Server raises an error past 9999-12-31. */
  function NextDay(d: Date): (r: Date)
    requires ValidDate(d) && d != Date(9999, 12, 31)
    ensures ValidDate(r)
  {
    if d.day < DaysInMonth(d.year, d.month) then Date(d.year, d.month, d.day + 1)
    else if d.month < 12 then Date(d.year, d.month + 1, 1)
    else Date(d.year + 1, 1, 1)
  }

  /** The next day is exactly one day later, across month and year ends alike. */
  lemma {:induction false} NextDayNumber(d: Date)
    requires ValidDate(d) && d != Date(9999, 12, 31)
    ensures DayNumber(NextDay(d)) == DayNumber(d) + 1
  {
    if d.day == DaysInMonth(d.year, d.month) && d.month == 12 {
      YearLength(d.year);
      assert DaysBeforeYear(d.year + 1) == DaysBeforeYear(d.year) + YearDays(d.year);
    }
  }

  /** EOMONTH(d): the last day of d's month. */
  function EndOfMonth(d: Date): (r: Date)
    requires ValidDate(d)
    ensures ValidDate(r) && r.year == d.year && r.month == d.month && d.day <= r.day
    ensures !ValidDate(Date(r.year, r.month, r.day + 1))
  {
    Date(d.year, d.month, DaysInMonth(d.year, d.month))
  }

  /** SQL Server's `a < b` on DATE values. */
  predicate Before(a: Date, b: Date)
  {
    a.year < b.year || (a.year == b.year && (a.month < b.month || (a.month == b.month && a.day < b.day)))
  }

  /** `<` on dates is a strict order: irreflexive, asymmetric and transitive. */
  lemma BeforeIsStrictOrder(a: Date, b: Date, c: Date)
    ensures !Before(a, a)
    ensures Before(a, b) ==> !Before(b, a)
    ensures Before(a, b) && Before(b, c) ==> Before(a, c)
  {
  }

  lemma {:induction false} DaysBeforeMonthGrows(y: int, m: int, m': int)
    requires 1 <= m < m' <= 13
    ensures DaysBeforeMonth(y, m) + DaysInMonth(y, m) <= DaysBeforeMonth(y, m')
    decreases m' - m
  {
    if m + 1 < m' {
      DaysBeforeMonthGrows(y, m + 1, m');
    }
  }

  lemma {:induction false} DaysBeforeYearGrows(y: int, y': int)
    requires 1 <= y < y'
    ensures DaysBeforeYear(y) + YearDays(y) <= DaysBeforeYear(y')
    decreases y' - y
  {
    if y + 1 < y' {
      DaysBeforeYearGrows(y + 1, y');
    }
  }

  /** Comparing dates field by field is comparing them in time. */
  lemma {:induction false} BeforeIsChronological(a: Date, b: Date)
    requires ValidDate(a) && ValidDate(b)
    ensures Before(a, b) <==> DayNumber(a) < DayNumber(b)
  {
    if a.year < b.year {
      DaysBeforeYearGrows(a.year, b.year);
      DaysBeforeMonthGrows(a.year, a.month, 13);
      YearLength(a.year);
    } else if b.year < a.year {
      DaysBeforeYearGrows(b.year, a.year);
      DaysBeforeMonthGrows(b.year, b.month, 13);
      YearLength(b.year);
    } else if a.month < b.month {
      DaysBeforeMonthGrows(a.year, a.month, b.month);
    } else if b.month < a.month {
      DaysBeforeMonthGrows(a.year, b.month, a.month);
    }
  }

  /** The weekday of d, counted from 0001-01-01, a Monday in the proleptic Gregorian calendar. */
  function WeekdayOf(d: Date): (w: Weekday)
    requires ValidDate(d)
    ensures d == Date(1, 1, 1) ==> w == Monday
  {
    WeekdayAt(DayNumber(d) % 7)
  }

  /** The k-th weekday counting from Monday as 0. */
  function WeekdayAt(k: int): Weekday
    requires 0 <= k < 7
  {
    [Monday, Tuesday, Wednesday, Thursday, Friday, Saturday, Sunday][k]
  }

  /** The weekday after w, Sunday followed by Monday. */
  function Succ(w: Weekday): Weekday
  {
    match w
    case Monday => Tuesday
    case Tuesday => Wednesday
    case Wednesday => Thursday
    case Thursday => Friday
    case Friday => Saturday
    case Saturday => Sunday
    case Sunday => Monday
  }

  /** Weekdays follow one another from each day to the next. */
  lemma NextDayWeekday(d: Date)
    requires ValidDate(d) && d != Date(9999, 12, 31)
    ensures WeekdayOf(NextDay(d)) == Succ(WeekdayOf(d))
  {
    NextDayNumber(d);
    WeekdayStep(DayNumber(d));
  }

  /** One more day on the count is the next weekday. */
  lemma WeekdayStep(n: nat)
    ensures WeekdayAt((n + 1) % 7) == Succ(WeekdayAt(n % 7))
  {
    var k := n % 7;
    assert (n + 1) % 7 == if k == 6 then 0 else k + 1;
  }

  /** Two dates of known weekday: 1 February 2025 was a Saturday, 10 November 2025 a Monday. */
  lemma KnownWeekdays()
    ensures WeekdayOf(Date(2025, 2, 1)) == Saturday
    ensures WeekdayOf(Date(2025, 11, 10)) == Monday
  {
    DaysBefore2025();
    assert DaysBeforeMonth(2025, 2) == 31;
    assert DaysBeforeMonth(2025, 11) == 304;
    assert DayNumber(Date(2025, 2, 1)) == 739282 == 7 * 105611 + 5;
    assert DayNumber(Date(2025, 11, 10)) == 739564 == 7 * 105652;
  }

  /** 2024 years of 365 days, 491 of them leap years, come before 2025. */
  lemma DaysBefore2025()
    ensures DaysBeforeYear(2025) == 739251
  {
    DaysBeforeYearClosedForm(2025);
  }

  /** FORMAT(d, 'dd/MM/yyyy'). */
  function DateLabel(d: Date): (s: string)
    requires ValidDate(d)
    ensures |s| == 10 && s[2] == '/' && s[5] == '/'
    ensures AllDigits(s[..2]) && AllDigits(s[3..5]) && AllDigits(s[6..])
    ensures DigitsValue(s[..2]) == d.day && DigitsValue(s[3..5]) == d.month && DigitsValue(s[6..]) == d.year
  {
    assert Pow10(2) == 100 && Pow10(4) == 10000;
    ZeroPadValue(d.day, 2);
    ZeroPadValue(d.month, 2);
    ZeroPadValue(d.year, 4);
    var s := ZeroPad(d.day, 2) + "/" + ZeroPad(d.month, 2) + "/" + ZeroPad(d.year, 4);
    assert s[..2] == ZeroPad(d.day, 2) && s[3..5] == ZeroPad(d.month, 2) && s[6..] == ZeroPad(d.year, 4);
    s
  }
}
