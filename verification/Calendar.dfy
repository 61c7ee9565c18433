/** days_in_month and day_of_week (apps/include/userlib.h) against counting day by day. */
module Calendar {

  datatype Date = Date(year: int, month: int, day: int)

  /** C's remainder takes the sign of the dividend. */
  function CMod(a: int, b: int): int
    requires b > 0
  {
    if a >= 0 then a % b else -((-a) % b)
  }

  /** C's division truncates towards zero. */
  function CDiv(a: int, b: int): int
    requires b > 0
  {
    if a >= 0 then a / b else -((-a) / b)
  }

  predicate LeapYear(year: int) {
    (CMod(year, 4) == 0 && CMod(year, 100) != 0) || CMod(year, 400) == 0
  }

  const DAYS: seq<int> := [31, 28, 31, 30, 31, 30, 31, 31, 30, 31, 30, 31]

  function DaysInMonth(month: int, year: int): (d: int)
    requires 1 <= month <= 12
  {
    if month == 2 && LeapYear(year) then 29 else DAYS[month - 1]
  }

  lemma Multiple4(y: int)
    ensures CMod(y, 4) == 0 <==> y % 4 == 0
  {}

  lemma Multiple100(y: int)
    ensures CMod(y, 100) == 0 <==> y % 100 == 0
  {}

  lemma Multiple400(y: int)
    ensures CMod(y, 400) == 0 <==> y % 400 == 0
  {}

  /** Thirty days have April, June, September and November, February has 28, or 29 in a leap
      year, all the others have 31. */
  lemma MonthLengths(month: int, year: int)
    requires 1 <= month <= 12
    ensures DaysInMonth(month, year) ==
              if month in {4, 6, 9, 11} then 30
              else if month != 2 then 31
              else if year % 400 == 0 || (year % 4 == 0 && year % 100 != 0) then 29 else 28
  {
    Multiple4(year);
    Multiple100(year);
    Multiple400(year);
  }

  predicate Valid(d: Date) {
    d.year >= 1 && 1 <= d.month <= 12 && 1 <= d.day <= DaysInMonth(d.month, d.year)
  }

  /** What the year adds in Zeller's formula. */
  function YearTerm(year: int): int {
    var k, j := CMod(year, 100), CDiv(year, 100);
    k + CDiv(k, 4) + CDiv(j, 4) - 2 * j
  }

  function MonthTerm(month: int): int { CDiv(13 * (month + 1), 5) }

  /** January and February count as months 13 and 14 of the year before. */
  function Sum(d: Date): int {
    if d.month < 3 then d.day + MonthTerm(d.month + 12) + YearTerm(d.year - 1)
    else d.day + MonthTerm(d.month) + YearTerm(d.year)
  }

  /** day_of_week: 0 is Sunday. */
  function DayOfWeek(d: Date): int { CMod(CMod(Sum(d), 7) + 6, 7) }

  function NextDay(d: Date): Date
    requires Valid(d)
  {
    if d.day < DaysInMonth(d.month, d.year) then d.(day := d.day + 1)
    else if d.month < 12 then Date(d.year, d.month + 1, 1)
    else Date(d.year + 1, 1, 1)
  }

  lemma NextValid(d: Date)
    requires Valid(d)
    ensures Valid(NextDay(d))
  {}

  /** The two truncating remainders are a mathematical one. */
  lemma Remainders(x: int)
    ensures CMod(CMod(x, 7) + 6, 7) == (x + 6) % 7
  {}

  lemma Shift(x: int, q: int)
    ensures (x + 1 + 7 * q + 6) % 7 == ((x + 6) % 7 + 1) % 7
  {}

  /** Year k of century j. */
  lemma InCentury(j: nat, k: nat)
    requires k < 100
    ensures YearTerm(100 * j + k) == k + k / 4 + j / 4 - 2 * j
  {
    var y := 100 * j + k;
    assert y % 100 == k && y / 100 == j;
  }

  lemma LeapIn(j: nat, k: nat)
    requires k < 100
    ensures LeapYear(100 * j + k) <==> if k == 0 then j % 4 == 0 else k % 4 == 0
  {
    var y := 100 * j + k;
    assert y % 100 == k;
    Rest4(y, 25 * j + k / 4, k % 4);
    Rest400(y, j / 4, 100 * (j % 4) + k);
  }

  lemma Rest4(y: nat, q: nat, r: nat)
    requires y == 4 * q + r && r < 4
    ensures y % 4 == r
  {}

  lemma Rest400(y: nat, q: nat, r: nat)
    requires y == 400 * q + r && r < 400
    ensures y % 400 == r
  {}

  /** From one year to the next the year term grows by 1, or by 2 before a leap day, modulo 7. */
  lemma YearStep(year: int) returns (q: int)
    requires year >= 0
    ensures YearTerm(year + 1) == YearTerm(year) + (if LeapYear(year + 1) then 2 else 1) + 7 * q
  {
    var k, j := year % 100, year / 100;
    assert year == 100 * j + k;
    InCentury(j, k);
    if k < 99 {
      InCentury(j, k + 1);
      LeapIn(j, k + 1);
      q := 0;
    } else {
      assert year + 1 == 100 * (j + 1) + 0;
      InCentury(j + 1, 0);
      LeapIn(j + 1, 0);
      q := -18;
    }
  }

  /** Over the end of a month other than February the month term makes up for its length. */
  lemma MonthStep(month: int)
    requires 1 <= month <= 12 && month != 2
    ensures var m := if month < 3 then month + 12 else month;
            MonthTerm(m + 1) == MonthTerm(m) + DAYS[month - 1] - 28
  {}

  lemma OverMonth(d: Date)
    requires Valid(d) && d.month != 2 && d.day == DAYS[d.month - 1]
    ensures Sum(if d.month < 12 then Date(d.year, d.month + 1, 1) else Date(d.year + 1, 1, 1)) == Sum(d) + 1 - 28
  {
    MonthStep(d.month);
  }

  lemma OverFebruary(d: Date) returns (q: int)
    requires Valid(d) && d.month == 2 && d.day == DaysInMonth(2, d.year)
    ensures Sum(Date(d.year, 3, 1)) == Sum(d) + 1 + 7 * q
  {
    var p := YearStep(d.year - 1);
    q := p - 8;
  }

  /** From one day to the next the sum grows by 1 modulo 7, across months, years, leap days
      and centuries. */
  lemma SumStep(d: Date) returns (q: int)
    requires Valid(d)
    ensures Sum(NextDay(d)) == Sum(d) + 1 + 7 * q
  {
    if d.day < DaysInMonth(d.month, d.year) {
      q := 0;
    } else if d.month == 2 {
      q := OverFebruary(d);
    } else {
      OverMonth(d);
      q := -4;
    }
  }

  /** The day after has the next day of the week. */
  lemma NextDayOfWeek(d: Date)
    requires Valid(d)
    ensures DayOfWeek(NextDay(d)) == (DayOfWeek(d) + 1) % 7
  {
    var q := SumStep(d);
    Remainders(Sum(d));
    Remainders(Sum(NextDay(d)));
    Shift(Sum(d), q);
  }

  /** The date n days after 1 January of year 1. */
  function DateAfter(n: nat): (d: Date)
    ensures Valid(d)
  {
    if n == 0 then Date(1, 1, 1)
    else
      NextValid(DateAfter(n - 1));
      NextDay(DateAfter(n - 1))
  }

  lemma ModNext(n: nat)
    ensures (n % 7 + 1) % 7 == (n + 1) % 7
  {}

  lemma CountStep(d: Date, n: nat)
    requires Valid(d) && DayOfWeek(d) == n % 7
    ensures DayOfWeek(NextDay(d)) == (n + 1) % 7
  {
    NextDayOfWeek(d);
    ModNext(n);
  }

  /** Counting days from a Monday gives the formula's result for every date. */
  lemma {:induction false} Counting(n: nat)
    ensures DayOfWeek(DateAfter(n)) == (n + 1) % 7
  {
    if n == 0 {
      Remainders(Sum(Date(1, 1, 1)));
    } else {
      Counting(n - 1);
      CountStep(DateAfter(n - 1), n);
    }
  }

  /** Every valid date is reached. */
  lemma {:induction false} Reached(d: Date) returns (n: nat)
    requires Valid(d)
    ensures DateAfter(n) == d
    decreases d.year, d.month, d.day
  {
    if d == Date(1, 1, 1) {
      n := 0;
    } else {
      var p := if d.day > 1 then d.(day := d.day - 1)
               else if d.month > 1 then Date(d.year, d.month - 1, DaysInMonth(d.month - 1, d.year))
               else Date(d.year - 1, 12, 31);
      assert NextDay(p) == d;
      var m := Reached(p);
      n := m + 1;
    }
  }

  // ---- how long the years are ----

  lemma {:induction false} DayRun(n: nat, d: Date, k: nat)
    requires DateAfter(n) == d && d.day + k <= DaysInMonth(d.month, d.year)
    ensures DateAfter(n + k) == d.(day := d.day + k)
  {
    if k > 0 { DayRun(n, d, k - 1); }
  }

  /** From the first of a month to the first of the next. */
  lemma MonthRun(n: nat, d: Date)
    requires DateAfter(n) == d && d.day == 1
    ensures DateAfter(n + DaysInMonth(d.month, d.year)) ==
              if d.month < 12 then Date(d.year, d.month + 1, 1) else Date(d.year + 1, 1, 1)
  {
    DayRun(n, d, DaysInMonth(d.month, d.year) - 1);
    assert DateAfter(n + DaysInMonth(d.month, d.year)) == NextDay(DateAfter(n + DaysInMonth(d.month, d.year) - 1));
  }

  /** Days of the year before the first of a month; month 13 is the end of the year. */
  function DaysBefore(month: int, year: int): nat
    requires 1 <= month <= 13
  {
    [0, 31, 59, 90, 120, 151, 181, 212, 243, 273, 304, 334, 365][month - 1]
    + if month > 2 && LeapYear(year) then 1 else 0
  }

  lemma DaysStep(month: int, year: int)
    requires 1 <= month <= 12
    ensures DaysBefore(month + 1, year) == DaysBefore(month, year) + DaysInMonth(month, year)
  {}

  lemma {:induction false} MonthStart(n: nat, month: int, year: int)
    requires year >= 1 && DateAfter(n) == Date(year, 1, 1) && 1 <= month <= 12
    ensures DateAfter(n + DaysBefore(month, year)) == Date(year, month, 1)
    decreases month
  {
    if month > 1 {
      MonthStart(n, month - 1, year);
      MonthRun(n + DaysBefore(month - 1, year), Date(year, month - 1, 1));
      DaysStep(month - 1, year);
    }
  }

  function YearLength(year: int): nat { if LeapYear(year) then 366 else 365 }

  /** A year has 365 days, or 366. */
  lemma YearRun(n: nat, year: int, next: nat)
    requires year >= 1 && DateAfter(n) == Date(year, 1, 1)
    requires next == n + YearLength(year)
    ensures DateAfter(next) == Date(year + 1, 1, 1)
  {
    MonthStart(n, 12, year);
    MonthRun(n + DaysBefore(12, year), Date(year, 12, 1));
    DaysStep(12, year);
  }

  lemma Step4(y: nat)
    requires y >= 1
    ensures y / 4 == (y - 1) / 4 + if y % 4 == 0 then 1 else 0
  {}

  lemma Step100(y: nat)
    requires y >= 1
    ensures y / 100 == (y - 1) / 100 + if y % 100 == 0 then 1 else 0
  {}

  lemma Step400(y: nat)
    requires y >= 1
    ensures y / 400 == (y - 1) / 400 + if y % 400 == 0 then 1 else 0
  {}

  lemma Multiples(y: nat)
    ensures y % 400 == 0 ==> y % 100 == 0
    ensures y % 100 == 0 ==> y % 4 == 0
  {
    if y % 400 == 0 { Hundreds(y, 4 * (y / 400)); }
    if y % 100 == 0 { Fours(y, 25 * (y / 100)); }
  }

  lemma Hundreds(y: nat, q: nat)
    requires y == 100 * q
    ensures y % 100 == 0
  {}

  lemma Fours(y: nat, q: nat)
    requires y == 4 * q
    ensures y % 4 == 0
  {}

  /** Days of y years: 365 each, and one more for every fourth but not the hundredth but the
      four-hundredth. */
  function DaysOf(y: nat): nat {
    365 * y + y / 4 - y / 100 + y / 400
  }

  lemma LeapStep(y: nat)
    requires y >= 1
    ensures DaysOf(y) == DaysOf(y - 1) + YearLength(y)
  {
    Step4(y);
    Step100(y);
    Step400(y);
    Multiples(y);
  }

  lemma {:induction false} Years(y: nat, days: nat -> nat)
    requires days(0) == 0 && forall k: nat :: k >= 1 ==> days(k) == days(k - 1) + YearLength(k)
    ensures DateAfter(days(y)) == Date(y + 1, 1, 1)
  {
    if y > 0 {
      Years(y - 1, days);
      YearRun(days(y - 1), y, days(y));
    }
  }

  /** Counted day by day, New Year's Day after y years comes after so many days. */
  lemma NewYear(y: nat)
    ensures DateAfter(DaysOf(y)) == Date(y + 1, 1, 1)
  {
    forall k: nat | k >= 1 ensures DaysOf(k) == DaysOf(k - 1) + YearLength(k) { LeapStep(k); }
    Years(y, DaysOf);
  }
}
