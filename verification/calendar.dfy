/** The proleptic Gregorian calendar counted in days from 1970-01-01, as
    "Seconds Since the Epoch" (section 4.16 of the POSIX.1-2017 Base
    Definitions) uses it: no leap seconds, every day 86400 seconds long. */
module Calendar {

  datatype Date = Date(year: int, month: int, day: int)

  predicate IsLeapYear(y: int) {
    y % 4 == 0 && (y % 100 != 0 || y % 400 == 0)
  }

  function DaysInYear(y: int): int {
    if IsLeapYear(y) then 366 else 365
  }

  function DaysInMonth(y: int, m: int): int
    requires 1 <= m <= 12
  {
    if m == 2 then (if IsLeapYear(y) then 29 else 28)
    else if m == 4 || m == 6 || m == 9 || m == 11 then 30
    else 31
  }

  predicate ValidDate(d: Date) {
    1 <= d.month <= 12 && 1 <= d.day <= DaysInMonth(d.year, d.month)
  }

  /** Days in the months of year `y` that come before month `m`. */
  function DaysBeforeMonth(y: int, m: int): int
    requires 1 <= m <= 13
  {
    if m == 1 then 0 else DaysBeforeMonth(y, m - 1) + DaysInMonth(y, m - 1)
  }

  /** Days from 1970-01-01 to January 1st of year `y` (negative before 1970):
      365 per year plus one per leap year in between. */
  function DaysBeforeYear(y: int): int {
    var t := y - 1;
    365 * t + t / 4 - t / 100 + t / 400 - 719162
  }

  /** The day number of a date: days since 1970-01-01. This is the reference
      definition the conversion below is proved against. */
  function DaysFromCivil(d: Date): int
    requires ValidDate(d)
  {
    DaysBeforeYear(d.year) + DaysBeforeMonth(d.year, d.month) + d.day - 1
  }

  lemma EpochIsDayZero()
    ensures DaysFromCivil(Date(1970, 1, 1)) == 0
  {
  }

  lemma StepOverFour(y: int)
    ensures y / 4 - (y - 1) / 4 == if y % 4 == 0 then 1 else 0
  {
  }

  lemma StepOverHundred(y: int)
    ensures y / 100 - (y - 1) / 100 == if y % 100 == 0 then 1 else 0
  {
  }

  lemma StepOverFourHundred(y: int)
    ensures y / 400 - (y - 1) / 400 == if y % 400 == 0 then 1 else 0
  {
  }

  /** The closed form of DaysBeforeYear counts exactly the leap rule. */
  lemma YearLength(y: int)
    ensures DaysBeforeYear(y + 1) - DaysBeforeYear(y) == DaysInYear(y)
  {
    StepOverFour(y);
    StepOverHundred(y);
    StepOverFourHundred(y);
  }

  /** The twelve months make up the year. */
  lemma {:induction false} MonthsFillYear(y: int)
    ensures DaysBeforeMonth(y, 13) == DaysInYear(y)
    ensures DaysBeforeMonth(y, 12) == DaysInYear(y) - 31
  {
    assert DaysBeforeMonth(y, 1) == 0;
    assert DaysBeforeMonth(y, 2) == 31;
    assert DaysBeforeMonth(y, 3) == 31 + DaysInMonth(y, 2);
    assert DaysBeforeMonth(y, 4) == 62 + DaysInMonth(y, 2);
    assert DaysBeforeMonth(y, 5) == 92 + DaysInMonth(y, 2);
    assert DaysBeforeMonth(y, 6) == 123 + DaysInMonth(y, 2);
    assert DaysBeforeMonth(y, 7) == 153 + DaysInMonth(y, 2);
    assert DaysBeforeMonth(y, 8) == 184 + DaysInMonth(y, 2);
    assert DaysBeforeMonth(y, 9) == 215 + DaysInMonth(y, 2);
    assert DaysBeforeMonth(y, 10) == 245 + DaysInMonth(y, 2);
    assert DaysBeforeMonth(y, 11) == 276 + DaysInMonth(y, 2);
    assert DaysBeforeMonth(y, 12) == 306 + DaysInMonth(y, 2);
  }

  lemma {:induction false} DaysBeforeMonthIncreasing(y: int, m: int, m': int)
    requires 1 <= m <= m' <= 13
    ensures DaysBeforeMonth(y, m) + 28 * (m' - m) <= DaysBeforeMonth(y, m')
    decreases m' - m
  {
    if m < m' {
      DaysBeforeMonthIncreasing(y, m, m' - 1);
    }
  }

  lemma {:induction false} DaysBeforeYearIncreasing(a: int, b: int)
    requires a <= b
    ensures DaysBeforeYear(a) + 365 * (b - a) <= DaysBeforeYear(b)
    decreases b - a
  {
    if a < b {
      DaysBeforeYearIncreasing(a, b - 1);
      YearLength(b - 1);
    }
  }

  /** Every valid date falls inside its own year. */
  lemma DayInsideYear(d: Date)
    requires ValidDate(d)
    ensures DaysBeforeYear(d.year) <= DaysFromCivil(d) < DaysBeforeYear(d.year + 1)
  {
    DaysBeforeMonthIncreasing(d.year, 1, d.month);
    DaysBeforeMonthIncreasing(d.year, d.month + 1, 13);
    MonthsFillYear(d.year);
    YearLength(d.year);
  }

  lemma SameDayNumberSameYear(a: Date, b: Date)
    requires ValidDate(a) && ValidDate(b)
    requires DaysFromCivil(a) == DaysFromCivil(b)
    ensures a.year == b.year
  {
    DayInsideYear(a);
    DayInsideYear(b);
    if a.year < b.year {
      DaysBeforeYearIncreasing(a.year + 1, b.year);
      assert false;
    } else if b.year < a.year {
      DaysBeforeYearIncreasing(b.year + 1, a.year);
      assert false;
    }
  }

  /** A month ends no later than any later month starts. */
  lemma {:induction false} MonthEndsBefore(y: int, m: int, m': int)
    requires 1 <= m < m' <= 13
    ensures DaysBeforeMonth(y, m) + DaysInMonth(y, m) <= DaysBeforeMonth(y, m')
    decreases m'
  {
    if m + 1 < m' {
      MonthEndsBefore(y, m, m' - 1);
      assert DaysBeforeMonth(y, m') == DaysBeforeMonth(y, m' - 1) + DaysInMonth(y, m' - 1);
    }
  }

  lemma SameDayOfYearSameMonth(y: int, m: int, d: int, m': int, d': int)
    requires 1 <= m <= 12 && 1 <= d <= DaysInMonth(y, m)
    requires 1 <= m' <= 12 && 1 <= d' <= DaysInMonth(y, m')
    requires DaysBeforeMonth(y, m) + d == DaysBeforeMonth(y, m') + d'
    ensures m == m'
  {
    if m < m' {
      MonthEndsBefore(y, m, m');
    } else if m' < m {
      MonthEndsBefore(y, m', m);
    }
  }

  /** Different valid dates have different day numbers. */
  lemma DaysFromCivilInjective(a: Date, b: Date)
    requires ValidDate(a) && ValidDate(b)
    requires DaysFromCivil(a) == DaysFromCivil(b)
    ensures a == b
  {
    SameDayNumberSameYear(a, b);
    SameDayOfYearSameMonth(a.year, a.month, a.day, b.month, b.day);
  }

  /** The start of year 400a + 100c + 4b + k + 1, counted from 0001-01-01, is
      a whole number of 400-year, 100-year, 4-year and 1-year blocks. */
  lemma CycleDecomposition(a: int, c: int, b: int, k: int)
    requires 0 <= c <= 3 && 0 <= b <= 24 && 0 <= k <= 3
    ensures DaysBeforeYear(400 * a + 100 * c + 4 * b + k + 1) + 719162
            == 146097 * a + 36524 * c + 1461 * b + 365 * k
  {
    var t := 400 * a + 100 * c + 4 * b + k;
    assert t / 4 == 100 * a + 25 * c + b;
    assert t / 100 == 4 * a + c;
    assert t / 400 == a;
  }

  /** The date `r` days (0-based) after the first of month `m` of year `y`. */
  function MonthOfDay(y: int, m: int, r: int): (d: Date)
    requires 1 <= m <= 12
    requires 0 <= r < DaysInYear(y) - DaysBeforeMonth(y, m)
    ensures ValidDate(d) && d.year == y && m <= d.month
    ensures DaysBeforeMonth(y, d.month) + d.day - 1 == DaysBeforeMonth(y, m) + r
    decreases 12 - m
  {
    if r < DaysInMonth(y, m) then Date(y, m, r + 1)
    else
      MonthsFillYear(y);
      MonthOfDay(y, m + 1, r - DaysInMonth(y, m))
  }

  /** December 31st is the last day of its year. */
  lemma LastDayOfYear(y: int)
    ensures ValidDate(Date(y, 12, 31))
    ensures DaysFromCivil(Date(y, 12, 31)) == DaysBeforeYear(y) + DaysInYear(y) - 1
  {
    MonthsFillYear(y);
  }

  lemma MultipleOfFour(q: int)
    ensures (4 * q) % 4 == 0
  {
  }

  lemma MultipleOfFourHundred(q: int)
    ensures (400 * q) % 400 == 0 && (400 * q) % 4 == 0
  {
  }

  lemma RemainderOfHundred(x: int, r: int)
    requires 0 <= r < 100
    ensures (100 * x + r) % 100 == r
  {
  }

  lemma LeapYearClosingFourYears(a: int, c: int, b: int)
    requires 0 <= c <= 3 && 0 <= b <= 23
    ensures IsLeapYear(400 * a + 100 * c + 4 * b + 4)
  {
    var y := 400 * a + 100 * c + 4 * b + 4;
    assert y == 4 * (100 * a + 25 * c + b + 1);
    MultipleOfFour(100 * a + 25 * c + b + 1);
    assert y == 100 * (4 * a + c) + (4 * b + 4);
    RemainderOfHundred(4 * a + c, 4 * b + 4);
  }

  lemma LeapYearClosingFourCenturies(a: int)
    ensures IsLeapYear(400 * a + 400)
  {
    assert 400 * a + 400 == 400 * (a + 1);
    MultipleOfFourHundred(a + 1);
  }

  /** December 31st closing a 4-year block (a leap year) has the day number
      that the block arithmetic predicts. */
  lemma LastDayOfFourYears(a: int, c: int, b: int)
    requires 0 <= c <= 3 && 0 <= b <= 23
    ensures ValidDate(Date(400 * a + 100 * c + 4 * b + 4, 12, 31))
    ensures DaysFromCivil(Date(400 * a + 100 * c + 4 * b + 4, 12, 31)) + 719162
            == 146097 * a + 36524 * c + 1461 * b + 1460
  {
    var y := 400 * a + 100 * c + 4 * b + 4;
    LeapYearClosingFourYears(a, c, b);
    CycleDecomposition(a, c, b, 3);
    LastDayOfYear(y);
  }

  /** December 31st closing a 400-year block (a year divisible by 400). */
  lemma LastDayOfFourCenturies(a: int)
    ensures ValidDate(Date(400 * a + 400, 12, 31))
    ensures DaysFromCivil(Date(400 * a + 400, 12, 31)) + 719162 == 146097 * a + 146096
  {
    var y := 400 * a + 400;
    LeapYearClosingFourCenturies(a);
    CycleDecomposition(a, 3, 24, 3);
    LastDayOfYear(y);
  }

  /** The calendar date of day number `z`, by splitting the days since
      0001-01-01 into 400-, 100-, 4- and 1-year blocks and then walking the
      months of the year found. */
  function CivilFromDays(z: int): (d: Date)
    ensures ValidDate(d)
    ensures DaysFromCivil(d) == z
  {
    var n := z + 719162;
    var n400, r400 := n / 146097, n % 146097;
    var n100, r100 := r400 / 36524, r400 % 36524;
    var n4, r4 := r100 / 1461, r100 % 1461;
    var n1, r1 := r4 / 365, r4 % 365;
    assert n == 146097 * n400 + 36524 * n100 + 1461 * n4 + 365 * n1 + r1;
    assert 0 <= n100 <= 4 && 0 <= n4 <= 24 && 0 <= n1 <= 4 && 0 <= r1 < 365;
    if n100 == 4 then
      // the last day of a 400-year block
      assert r400 == 146096;
      LastDayOfFourCenturies(n400);
      Date(400 * n400 + 400, 12, 31)
    else if n1 == 4 then
      // the last day of a 4-year block
      assert r4 == 1460 && n4 <= 23;
      LastDayOfFourYears(n400, n100, n4);
      Date(400 * n400 + 100 * n100 + 4 * n4 + 4, 12, 31)
    else
      var year := 400 * n400 + 100 * n100 + 4 * n4 + n1 + 1;
      CycleDecomposition(n400, n100, n4, n1);
      assert DaysInYear(year) >= 365;
      MonthOfDay(year, 1, r1)
  }

  /** The conversion and the reference definition are inverse bijections. */
  lemma CivilFromDaysInverse(d: Date)
    requires ValidDate(d)
    ensures CivilFromDays(DaysFromCivil(d)) == d
  {
    DaysFromCivilInjective(CivilFromDays(DaysFromCivil(d)), d);
  }

  /** Day numbers between the starts of two years convert to dates between them. */
  lemma CivilFromDaysYearRange(z: int, lo: int, hi: int)
    requires DaysBeforeYear(lo) <= z < DaysBeforeYear(hi)
    ensures lo <= CivilFromDays(z).year < hi
  {
    var d := CivilFromDays(z);
    DayInsideYear(d);
    if d.year < lo {
      DaysBeforeYearIncreasing(d.year + 1, lo);
    }
    if hi <= d.year {
      DaysBeforeYearIncreasing(hi, d.year);
    }
  }
}
