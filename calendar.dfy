/** The proleptic Gregorian calendar, stated the plain way: leap years,
    month lengths, and the Rata Die day number obtained by counting
    whole years and months. Rata Die 1 is 0001-01-01; year 0 is allowed
    (it is a leap year), so Rata Die 0 is 0000-12-31. */
module Calendar {

  datatype Date = Date(year: nat, month: nat, day: nat)

  /** Divisible by 4, except centuries not divisible by 400. */
  predicate IsLeapYear(y: nat) {
    y % 4 == 0 && (y % 100 != 0 || y % 400 == 0)
  }

  function DaysInYear(y: nat): nat {
    if IsLeapYear(y) then 366 else 365
  }

  function DaysInMonth(y: nat, m: nat): nat
    requires 1 <= m <= 12
  {
    if m == 2 then (if IsLeapYear(y) then 29 else 28)
    else if m == 4 || m == 6 || m == 9 || m == 11 then 30
    else 31
  }

  predicate ValidDate(d: Date) {
    1 <= d.month <= 12 && 1 <= d.day <= DaysInMonth(d.year, d.month)
  }

  /** Days in the months of year y before month m (m == 13: the whole year). */
  function DaysBeforeMonth(y: nat, m: nat): nat
    requires 1 <= m <= 13
  {
    if m == 1 then 0 else DaysBeforeMonth(y, m - 1) + DaysInMonth(y, m - 1)
  }

  /** Days from 0000-01-01 to y-01-01, year by year. */
  function DaysBeforeYear(y: nat): nat {
    if y == 0 then 0 else DaysBeforeYear(y - 1) + DaysInYear(y - 1)
  }

  /** The Rata Die number of a date: 0001-01-01 is day 1. */
  function DaysFromCivil(d: Date): int
    requires 1 <= d.month <= 12
  {
    DaysBeforeYear(d.year) + DaysBeforeMonth(d.year, d.month) + d.day - 366
  }

  /** The calendar day after d. */
  function NextDay(d: Date): Date
    requires ValidDate(d)
  {
    if d.day < DaysInMonth(d.year, d.month) then Date(d.year, d.month, d.day + 1)
    else if d.month < 12 then Date(d.year, d.month + 1, 1)
    else Date(d.year + 1, 1, 1)
  }

  /** Strict chronological (lexicographic) order on dates. */
  predicate DateBefore(d1: Date, d2: Date) {
    d1.year < d2.year
    || (d1.year == d2.year && d1.month < d2.month)
    || (d1.year == d2.year && d1.month == d2.month && d1.day < d2.day)
  }

  /** The number of leap years in 0 .. y-1 is (y+3)/4 - (y+99)/100 + (y+399)/400. */
  lemma {:induction false} DaysBeforeYearClosedForm(y: nat)
    ensures DaysBeforeYear(y) == 365 * y + (y + 3) / 4 - (y + 99) / 100 + (y + 399) / 400
  {
    if y > 0 {
      var x := y - 1;
      DaysBeforeYearClosedForm(x);
      CeilingStep(x, 4);
      CeilingStep(x, 100);
      CeilingStep(x, 400);
      LeapYearByCounting(x);
    }
  }

  /** The leap rule as inclusion-exclusion over multiples of 4, 100 and 400. */
  lemma LeapYearByCounting(x: nat)
    ensures DaysInYear(x) == 365 + (if x % 4 == 0 then 1 else 0)
                           - (if x % 100 == 0 then 1 else 0) + (if x % 400 == 0 then 1 else 0)
  {
    if x % 400 == 0 {
      MultipleOf400(x);
      MultipleOf100(x);
    } else if x % 100 == 0 {
      MultipleOf100(x);
    }
  }

  lemma MultipleOf100(x: nat)
    requires x % 100 == 0
    ensures x % 4 == 0
  {
    var m := 25 * (x / 100);
    assert x == 4 * m + 0;
  }

  lemma MultipleOf400(x: nat)
    requires x % 400 == 0
    ensures x % 100 == 0
  {
    var m := 4 * (x / 400);
    assert x == 100 * m + 0;
  }

  /** Moving from x to x+1 adds one multiple of k to 0 .. x exactly when k divides x. */
  lemma CeilingStep(x: nat, k: nat)
    requires k == 4 || k == 100 || k == 400
    ensures (x + k) / k == (x + k - 1) / k + (if x % k == 0 then 1 else 0)
  {
  }

  /** The cumulative month table, with the leap day counted from March on. */
  lemma {:induction false} DaysBeforeMonthTable(y: nat, m: nat)
    requires 1 <= m <= 13
    ensures DaysBeforeMonth(y, m)
            == [0, 31, 59, 90, 120, 151, 181, 212, 243, 273, 304, 334, 365][m - 1]
               + (if m > 2 && IsLeapYear(y) then 1 else 0)
  {
    if m > 1 {
      DaysBeforeMonthTable(y, m - 1);
    }
  }

  lemma {:induction false} DaysBeforeMonthMonotone(y: nat, m1: nat, m2: nat)
    requires 1 <= m1 < m2 <= 13
    ensures DaysBeforeMonth(y, m1) + DaysInMonth(y, m1) <= DaysBeforeMonth(y, m2)
  {
    if m2 > m1 + 1 {
      DaysBeforeMonthMonotone(y, m1, m2 - 1);
    }
  }

  lemma {:induction false} DaysBeforeYearMonotone(y1: nat, y2: nat)
    requires y1 < y2
    ensures DaysBeforeYear(y1) + DaysInYear(y1) <= DaysBeforeYear(y2)
  {
    if y2 > y1 + 1 {
      DaysBeforeYearMonotone(y1, y2 - 1);
    }
  }

  /** A valid date's day number lies inside its year. */
  lemma DaysFromCivilWithinYear(d: Date)
    requires ValidDate(d)
    ensures DaysBeforeYear(d.year) - 366 < DaysFromCivil(d)
    ensures DaysFromCivil(d) <= DaysBeforeYear(d.year) + DaysInYear(d.year) - 366
  {
    DaysBeforeMonthMonotone(d.year, d.month, 13);
    DaysBeforeMonthTable(d.year, 13);
  }

  /** Counting days preserves chronological order. */
  lemma DaysFromCivilMonotone(d1: Date, d2: Date)
    requires ValidDate(d1) && ValidDate(d2)
    requires DateBefore(d1, d2)
    ensures DaysFromCivil(d1) < DaysFromCivil(d2)
  {
    if d1.year < d2.year {
      DaysFromCivilWithinYear(d1);
      DaysFromCivilWithinYear(d2);
      DaysBeforeYearMonotone(d1.year, d2.year);
    } else if d1.month < d2.month {
      DaysBeforeMonthMonotone(d1.year, d1.month, d2.month);
    }
  }

  /** Distinct valid dates have distinct day numbers. */
  lemma DaysFromCivilInjective(d1: Date, d2: Date)
    requires ValidDate(d1) && ValidDate(d2)
    requires DaysFromCivil(d1) == DaysFromCivil(d2)
    ensures d1 == d2
  {
    if DateBefore(d1, d2) {
      DaysFromCivilMonotone(d1, d2);
    } else if DateBefore(d2, d1) {
      DaysFromCivilMonotone(d2, d1);
    }
  }

  /** NextDay is a valid date exactly one day later. */
  lemma NextDayFollows(d: Date)
    requires ValidDate(d)
    ensures ValidDate(NextDay(d))
    ensures DaysFromCivil(NextDay(d)) == DaysFromCivil(d) + 1
  {
    if d.day == DaysInMonth(d.year, d.month) {
      if d.month == 12 {
        DaysBeforeMonthTable(d.year, 12);
      }
    }
  }
}
