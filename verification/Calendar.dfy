/**
 The proleptic Gregorian calendar, as the civil date of a day number.

 Day 0 is 0001-01-01. The leap-year rule is that of appendix C of RFC 3339,
 extended to every integer year.
 */
module Calendar {

  datatype Date = Date(year: int, month: int, day: int)

  predicate IsLeap(year: int) {
    year % 4 == 0 && (year % 100 != 0 || year % 400 == 0)
  }

  /** The number of days from 0001-01-01 to the first of January of `year`. */
  function DaysBeforeYear(year: int): int {
    365 * (year - 1) + (year - 1) / 4 - (year - 1) / 100 + (year - 1) / 400
  }

  function DaysBeforeMonth(leap: bool, month: int): int
    requires 1 <= month <= 13
  {
    [0, 31, 59, 90, 120, 151, 181, 212, 243, 273, 304, 334, 365][month - 1] + if leap && month > 2 then 1 else 0
  }

  function DaysInMonth(year: int, month: int): int
    requires 1 <= month <= 12
  {
    DaysBeforeMonth(IsLeap(year), month + 1) - DaysBeforeMonth(IsLeap(year), month)
  }

  predicate IsDate(d: Date) {
    1 <= d.month <= 12 && 1 <= d.day <= DaysInMonth(d.year, d.month)
  }

  function DayNumber(d: Date): int
    requires 1 <= d.month <= 12
  {
    DaysBeforeYear(d.year) + DaysBeforeMonth(IsLeap(d.year), d.month) + d.day - 1
  }

  /**
   The year holding day n, found by cutting off whole cycles of 400, 100, 4
   and 1 years. The last century of an era and the last year of a cycle are a
   day longer than their quotient allows for.
   */
  function YearOf(n: int): int {
    var era := n / 146097;
    var dayOfEra := n % 146097;
    var century := CutCycle(dayOfEra, 36524);
    var dayOfCentury := dayOfEra - century * 36524;
    var cycle := dayOfCentury / 1461;
    var dayOfCycle := dayOfCentury % 1461;
    400 * era + 100 * century + 4 * cycle + CutCycle(dayOfCycle, 365) + 1
  }

  function CutCycle(days: nat, length: nat): (k: nat)
    requires length > 0
  {
    if days / length == 4 then 3 else days / length
  }

  function MonthOf(leap: bool, dayOfYear: int): (month: int)
    requires 0 <= dayOfYear < DaysBeforeMonth(leap, 13)
    ensures 1 <= month <= 12
    ensures DaysBeforeMonth(leap, month) <= dayOfYear < DaysBeforeMonth(leap, month + 1)
  {
    var feb := if leap then 1 else 0;
    if dayOfYear < 31 then 1
    else if dayOfYear < 59 + feb then 2
    else if dayOfYear < 90 + feb then 3
    else if dayOfYear < 120 + feb then 4
    else if dayOfYear < 151 + feb then 5
    else if dayOfYear < 181 + feb then 6
    else if dayOfYear < 212 + feb then 7
    else if dayOfYear < 243 + feb then 8
    else if dayOfYear < 273 + feb then 9
    else if dayOfYear < 304 + feb then 10
    else if dayOfYear < 334 + feb then 11
    else 12
  }

  /** The civil date of day n. */
  function DateOf(n: int): Date {
    var year := YearOf(n);
    YearOfHoldsDay(n);
    YearLength(year);
    var dayOfYear := n - DaysBeforeYear(year);
    var month := MonthOf(IsLeap(year), dayOfYear);
    Date(year, month, dayOfYear - DaysBeforeMonth(IsLeap(year), month) + 1)
  }

  /** It is a date, and that of day n. */
  lemma DateOfIs(n: int)
    ensures IsDate(DateOf(n)) && DayNumber(DateOf(n)) == n && DateOf(n).year == YearOf(n)
  {
    YearOfHoldsDay(n);
    YearLength(YearOf(n));
  }

  lemma YearLength(year: int)
    ensures DaysBeforeYear(year + 1) - DaysBeforeYear(year) == DaysBeforeMonth(IsLeap(year), 13)
  {
    StepQuotient(year, 4);
    StepQuotient(year, 100);
    StepQuotient(year, 400);
    FourHundreds(year);
    assert DaysBeforeMonth(IsLeap(year), 13) == 365 + if IsLeap(year) then 1 else 0;
  }

  lemma FourHundreds(year: int)
    ensures year % 400 == 0 ==> year % 100 == 0
    ensures year % 100 == 0 ==> year % 4 == 0
  {
  }

  lemma StepQuotient(year: int, k: int)
    requires k in {4, 100, 400}
    ensures year / k - (year - 1) / k == if year % k == 0 then 1 else 0
  {
  }

  lemma Quotient(n: int, k: int, q: int, r: int)
    requires k in {4, 100, 400} && n == k * q + r && 0 <= r < k
    ensures n / k == q
  {
  }

  lemma Multiple(n: int, k: int, q: int, r: int)
    requires k in {4, 100, 400} && n == k * q + r && 0 < r <= k
    ensures n % k == 0 <==> r == k
  {
  }

  lemma CyclesOfYear(era: int, century: int, cycle: int, year: int)
    requires 0 <= century <= 3 && 0 <= cycle <= 24 && 0 <= year <= 3
    ensures
      var y := 400 * era + 100 * century + 4 * cycle + year + 1;
      && DaysBeforeYear(y) == 146097 * era + 36524 * century + 1461 * cycle + 365 * year
      && (IsLeap(y) <==> year == 3 && (cycle != 24 || century == 3))
  {
    var y := 400 * era + 100 * century + 4 * cycle + year;
    Quotient(y, 4, 100 * era + 25 * century + cycle, year);
    Quotient(y, 100, 4 * era + century, 4 * cycle + year);
    Quotient(y, 400, era, 100 * century + 4 * cycle + year);
    Multiple(y + 1, 4, 100 * era + 25 * century + cycle, year + 1);
    Multiple(y + 1, 100, 4 * era + century, 4 * cycle + year + 1);
    Multiple(y + 1, 400, era, 100 * century + 4 * cycle + year + 1);
  }

  /** The last of four centuries is the one that may be a day longer. */
  lemma CutEra(dayOfEra: nat)
    requires dayOfEra < 146097
    ensures
      var century := CutCycle(dayOfEra, 36524);
      century <= 3 && 0 <= dayOfEra - century * 36524 <= 36524 - (if century < 3 then 1 else 0)
  {
  }

  /** A century that is not the longer one stops a day short of its last four years. */
  lemma CutCentury(dayOfCentury: nat)
    requires dayOfCentury <= 36524
    ensures dayOfCentury / 1461 <= 24
    ensures dayOfCentury / 1461 == 24 && dayOfCentury < 36524 ==> dayOfCentury % 1461 < 1460
  {
  }

  /** The last of four years is the one that may be a day longer. */
  lemma CutYears(dayOfCycle: nat)
    requires dayOfCycle < 1461
    ensures
      var year := CutCycle(dayOfCycle, 365);
      year <= 3 && 0 <= dayOfCycle - 365 * year <= (if year == 3 then 365 else 364)
  {
  }

  /** YearOf finds the year whose days include n. */
  lemma YearOfHoldsDay(n: int)
    ensures DaysBeforeYear(YearOf(n)) <= n < DaysBeforeYear(YearOf(n) + 1)
  {
    hide DaysBeforeYear, IsLeap, CutCycle;
    var era := n / 146097;
    var dayOfEra := n % 146097;
    var century := CutCycle(dayOfEra, 36524);
    var dayOfCentury := dayOfEra - century * 36524;
    var cycle := dayOfCentury / 1461;
    var dayOfCycle := dayOfCentury % 1461;
    var year := CutCycle(dayOfCycle, 365);
    CutEra(dayOfEra);
    CutCentury(dayOfCentury);
    CutYears(dayOfCycle);
    CyclesOfYear(era, century, cycle, year);
    YearLength(YearOf(n));
  }

  lemma {:induction false} DaysBeforeYearIsMonotone(a: int, b: int)
    requires a <= b
    ensures DaysBeforeYear(a) <= DaysBeforeYear(b)
  {
  }

  predicate DateLess(a: Date, b: Date) {
    || a.year < b.year
    || (a.year == b.year && a.month < b.month)
    || (a.year == b.year && a.month == b.month && a.day < b.day)
  }

  /** Later days have later dates. */
  lemma DateOrder(m: int, n: int)
    requires m < n
    ensures DateLess(DateOf(m), DateOf(n))
  {
    hide DateOf, YearOf, DaysBeforeYear, IsLeap;
    var a, b := DateOf(m), DateOf(n);
    DateOfIs(m);
    DateOfIs(n);
    if !DateLess(a, b) {
      YearLength(b.year);
      if b.year < a.year {
        DaysBeforeYearIsMonotone(b.year + 1, a.year);
      }
    }
  }

  lemma MonthsAreDisjoint(leap: bool, a: int, b: int)
    requires 1 <= a < b <= 13
    ensures DaysBeforeMonth(leap, a + 1) <= DaysBeforeMonth(leap, b)
  {
  }

  /** Only one month holds a given day of the year. */
  lemma MonthIsUnique(leap: bool, a: int, b: int, dayOfYear: int)
    requires 1 <= a <= 12 && DaysBeforeMonth(leap, a) <= dayOfYear < DaysBeforeMonth(leap, a + 1)
    requires 1 <= b <= 12 && DaysBeforeMonth(leap, b) <= dayOfYear < DaysBeforeMonth(leap, b + 1)
    ensures a == b
  {
    if a < b {
      MonthsAreDisjoint(leap, a, b);
    } else if b < a {
      MonthsAreDisjoint(leap, b, a);
    }
  }

  lemma DayOfYearBound(d: Date)
    requires IsDate(d)
    ensures DaysBeforeYear(d.year) <= DayNumber(d) < DaysBeforeYear(d.year + 1)
  {
    YearLength(d.year);
    if d.month < 12 {
      MonthsAreDisjoint(IsLeap(d.year), d.month, 12);
      MonthsAreDisjoint(IsLeap(d.year), 12, 13);
    }
  }

  /** A date determines its day and is determined by it. */
  lemma DateOfDayNumber(d: Date)
    requires IsDate(d)
    ensures DateOf(DayNumber(d)) == d
  {
    hide DateOf, DaysBeforeYear, DaysBeforeMonth, IsLeap, YearOf;
    var n := DayNumber(d);
    var e := DateOf(n);
    DateOfIs(n);
    DayOfYearBound(d);
    DayOfYearBound(e);
    if e.year < d.year {
      DaysBeforeYearIsMonotone(e.year + 1, d.year);
    } else if d.year < e.year {
      DaysBeforeYearIsMonotone(d.year + 1, e.year);
    } else {
      MonthIsUnique(IsLeap(d.year), d.month, e.month, n - DaysBeforeYear(d.year));
    }
  }

  // ---------- What makes it the Gregorian calendar ----------

  /** Section 5.7 of RFC 3339: thirty days, twenty-eight or twenty-nine, and thirty-one for the rest. */
  lemma MonthLengths(year: int, month: int)
    requires 1 <= month <= 12
    ensures DaysInMonth(year, month) ==
      if month == 4 || month == 6 || month == 9 || month == 11 then 30
      else if month != 2 then 31
      else if year % 4 == 0 && (year % 100 != 0 || year % 400 == 0) then 29
      else 28
  {
  }

  /**
   The day after a date is the next of its month, or the first of the next
   month, or New Year's Day, and it turns at the Gregorian lengths.
   */
  lemma NextDay(n: int)
    ensures
      var d := DateOf(n);
      var length :=
        if d.month == 4 || d.month == 6 || d.month == 9 || d.month == 11 then 30
        else if d.month != 2 then 31
        else if d.year % 4 == 0 && (d.year % 100 != 0 || d.year % 400 == 0) then 29
        else 28;
      && 1 <= d.month <= 12 && 1 <= d.day <= length
      && DateOf(n + 1) ==
           if d.day < length then Date(d.year, d.month, d.day + 1)
           else if d.month < 12 then Date(d.year, d.month + 1, 1)
           else Date(d.year + 1, 1, 1)
  {
    hide DateOf, YearOf, DaysBeforeYear, DaysBeforeMonth, IsLeap;
    var d := DateOf(n);
    DateOfIs(n);
    MonthLengths(d.year, d.month);
    var e :=
      if d.day < DaysInMonth(d.year, d.month) then Date(d.year, d.month, d.day + 1)
      else if d.month < 12 then Date(d.year, d.month + 1, 1)
      else Date(d.year + 1, 1, 1);
    FirstMonth(d.year);
    FirstMonth(d.year + 1);
    YearLength(d.year);
    MonthLengths(e.year, e.month);
    DateOfDayNumber(e);
  }

  lemma FirstMonth(year: int)
    ensures DaysBeforeMonth(IsLeap(year), 1) == 0
  {
  }

  /** Where the count of days starts, and the day of the epoch. */
  lemma FirstDays()
    ensures DateOf(0) == Date(1, 1, 1) && DateOf(719162) == Date(1970, 1, 1)
  {
    hide DateOf, YearOf;
    assert DayNumber(Date(1, 1, 1)) == 0 && DayNumber(Date(1970, 1, 1)) == 719162;
    DateOfDayNumber(Date(1, 1, 1));
    DateOfDayNumber(Date(1970, 1, 1));
  }
}
