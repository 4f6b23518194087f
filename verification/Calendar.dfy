/** The closed-form calendar of powerpc/rtas.c against counting days one month and one year at a time. */
module Calendar {

  // ----- The program's formula -----

  function Days(y: int, m: int, d: int): (r: int) {
    365 * y + y / 4 - y / 100 + y / 400 + 367 * m / 12 + d
  }

  function Mktime(year: int, month: int, day: int, hour: int, minute: int, second: int): (epoch: int) {
    // February is put at the end of the year
    var m := month - 2;
    var y := if m <= 0 then year - 1 else year;
    var m' := if m <= 0 then m + 12 else m;
    var days := Days(y, m', day) - Days(1969, 11, 1);
    ((days * 24 + hour) * 60 + minute) * 60 + second
  }

  // ----- The Gregorian calendar -----

  predicate IsLeap(y: int) {
    y % 4 == 0 && (y % 100 != 0 || y % 400 == 0)
  }

  function YearLength(y: int): (n: nat) {
    if IsLeap(y) then 366 else 365
  }

  function MonthLength(y: int, m: int): (n: nat)
    requires 1 <= m <= 12
  {
    if m == 2 then (if IsLeap(y) then 29 else 28) else if m in {4, 6, 9, 11} then 30 else 31
  }

  datatype Date = Date(year: int, month: int, day: int) {
    predicate Valid() {
      year >= 1970 && 1 <= month <= 12 && 1 <= day <= MonthLength(year, month)
    }
  }

  /** Days in the years from 1970 up to, not including, y. */
  function DaysToYear(y: int): (n: int)
    requires y >= 1970
    decreases y
  {
    if y == 1970 then 0 else DaysToYear(y - 1) + YearLength(y - 1)
  }

  /** Days in the months of year y before month m. */
  function DaysToMonth(y: int, m: int): (n: int)
    requires 1 <= m <= 13
  {
    if m == 1 then 0 else DaysToMonth(y, m - 1) + MonthLength(y, m - 1)
  }

  /** Days from 1970-01-01 to the date, counted. */
  function Counted(x: Date): (n: int)
    requires x.Valid()
  {
    DaysToYear(x.year) + DaysToMonth(x.year, x.month) + x.day - 1
  }

  // ----- Agreement -----

  function Leaps(y: int): (n: int) {
    365 * y + y / 4 - y / 100 + y / 400
  }

  lemma LeapsStep(y: int)
    requires y >= 1
    ensures Leaps(y) == Leaps(y - 1) + YearLength(y)
  {
    QuotientStep(y, 4);
    QuotientStep(y, 100);
    QuotientStep(y, 400);
  }

  lemma QuotientStep(y: int, k: int)
    requires k in {4, 100, 400}
    ensures y / k == (y - 1) / k + if y % k == 0 then 1 else 0
  {
  }

  lemma {:induction false} DaysToYearClosed(y: int)
    requires y >= 1970
    ensures DaysToYear(y) == Leaps(y - 1) - Leaps(1969)
    decreases y
  {
    if y > 1970 {
      DaysToYearClosed(y - 1);
      LeapsStep(y - 1);
    }
  }

  /** The months from March on follow one linear rule. */
  lemma DaysToMonthClosed(y: int, m: int)
    requires 1 <= m <= 12
    ensures m <= 2 ==> DaysToMonth(y, m) == 367 * (m + 10) / 12 - 336
    ensures m > 2 ==> DaysToMonth(y, m) == 367 * (m - 2) / 12 - 336 + YearLength(y)
  {
    assert DaysToMonth(y, 1) == 0;
    assert DaysToMonth(y, 2) == 31;
    assert DaysToMonth(y, 3) == 31 + MonthLength(y, 2);
    assert DaysToMonth(y, 4) == 62 + MonthLength(y, 2);
    assert DaysToMonth(y, 5) == 92 + MonthLength(y, 2);
    assert DaysToMonth(y, 6) == 123 + MonthLength(y, 2);
    assert DaysToMonth(y, 7) == 153 + MonthLength(y, 2);
    assert DaysToMonth(y, 8) == 184 + MonthLength(y, 2);
    assert DaysToMonth(y, 9) == 215 + MonthLength(y, 2);
    assert DaysToMonth(y, 10) == 245 + MonthLength(y, 2);
    assert DaysToMonth(y, 11) == 276 + MonthLength(y, 2);
    assert DaysToMonth(y, 12) == 306 + MonthLength(y, 2);
  }

  predicate TimeOfDay(hour: int, minute: int, second: int) {
    0 <= hour < 24 && 0 <= minute < 60 && 0 <= second < 60
  }

  /** For every valid date from 1970 on the closed form equals the counted days and the time of day. */
  lemma MktimeCounts(x: Date, hour: int, minute: int, second: int)
    requires x.Valid() && TimeOfDay(hour, minute, second)
    ensures Mktime(x.year, x.month, x.day, hour, minute, second) ==
            86400 * Counted(x) + 3600 * hour + 60 * minute + second
  {
    DaysToYearClosed(x.year);
    DaysToMonthClosed(x.year, x.month);
    LeapsStep(x.year);
  }

  // ----- Order -----

  predicate Before(x: Date, y: Date) {
    x.year < y.year || (x.year == y.year && (x.month < y.month || (x.month == y.month && x.day < y.day)))
  }

  lemma {:induction false} MonthsGrow(y: int, m: int, n: int)
    requires 1 <= m < n <= 13
    ensures DaysToMonth(y, m) + MonthLength(y, m) <= DaysToMonth(y, n)
    decreases n
  {
    if m + 1 < n { MonthsGrow(y, m, n - 1); }
  }

  lemma {:induction false} YearsGrow(y: int, z: int)
    requires 1970 <= y < z
    ensures DaysToYear(y) + YearLength(y) <= DaysToYear(z)
    decreases z
  {
    if y + 1 < z { YearsGrow(y, z - 1); }
  }

  lemma YearIsItsMonths(y: int)
    ensures DaysToMonth(y, 13) == YearLength(y)
  {
    DaysToMonthClosed(y, 12);
    assert DaysToMonth(y, 13) == DaysToMonth(y, 12) + 31;
  }

  lemma CountedGrows(x: Date, y: Date)
    requires x.Valid() && y.Valid() && Before(x, y)
    ensures Counted(x) < Counted(y)
  {
    if x.year < y.year {
      YearsGrow(x.year, y.year);
      YearIsItsMonths(x.year);
      MonthsGrow(x.year, x.month, 13);
      if y.month > 1 { MonthsGrow(y.year, 1, y.month); }
    } else if x.month < y.month {
      MonthsGrow(x.year, x.month, y.month);
    }
  }

  /** mktime is strictly increasing in the date, whatever the times of day. */
  lemma MktimeIncreasing(x: Date, h: int, m: int, s: int, y: Date, h': int, m': int, s': int)
    requires x.Valid() && y.Valid() && Before(x, y) && TimeOfDay(h, m, s) && TimeOfDay(h', m', s')
    ensures Mktime(x.year, x.month, x.day, h, m, s) < Mktime(y.year, y.month, y.day, h', m', s')
  {
    CountedGrows(x, y);
    MktimeCounts(x, h, m, s);
    MktimeCounts(y, h', m', s');
  }

  /** The calendar's next day. */
  function NextDay(x: Date): (y: Date)
    requires x.Valid()
    ensures y.Valid() && Before(x, y)
  {
    if x.day < MonthLength(x.year, x.month) then Date(x.year, x.month, x.day + 1)
    else if x.month < 12 then Date(x.year, x.month + 1, 1)
    else Date(x.year + 1, 1, 1)
  }

  /** Consecutive days are 86400 seconds apart, across month ends, year ends and leap days. */
  lemma NextDayAdds(x: Date, h: int, m: int, s: int)
    requires x.Valid() && TimeOfDay(h, m, s)
    ensures var y := NextDay(x);
      Mktime(y.year, y.month, y.day, h, m, s) == Mktime(x.year, x.month, x.day, h, m, s) + 86400
  {
    hide Mktime;
    var y := NextDay(x);
    MktimeCounts(x, h, m, s);
    MktimeCounts(y, h, m, s);
    YearIsItsMonths(x.year);
    assert Counted(y) == Counted(x) + 1;
  }
}
