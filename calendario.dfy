/** The calendar arithmetic of Python's `datetime.date` that the application leans on:
  * which (year, month, day) triples the constructor accepts, the proleptic Gregorian
  * ordinal of `toordinal()`, and the ordering `<` of dates. */
module Calendario {
  import opened Wrappers

  datatype Date = Date(year: int, month: int, day: int)

  /** `date.min` and `date.max`. */
  const Min := Date(1, 1, 1)
  const Max := Date(9999, 12, 31)

  predicate IsLeap(y: int) {
    y % 4 == 0 && (y % 100 != 0 || y % 400 == 0)
  }

  function DaysInMonth(y: int, m: int): (r: int)
    requires 1 <= m <= 12
    ensures 28 <= r <= 31
  {
    if m == 2 then (if IsLeap(y) then 29 else 28)
    else if m == 4 || m == 6 || m == 9 || m == 11 then 30
    else 31
  }

  /** The triples `date(year, month, day)` accepts without raising `ValueError`. */
  predicate Valid(d: Date) {
    1 <= d.year <= 9999 && 1 <= d.month <= 12 && 1 <= d.day <= DaysInMonth(d.year, d.month)
  }

  /** `date(y, m, d)`, with `None` for the `ValueError`. */
  function MakeDate(y: int, m: int, d: int): (r: Option<Date>)
    ensures r.Some? ==> Valid(r.value)
  {
    if Valid(Date(y, m, d)) then Some(Date(y, m, d)) else None
  }

  function DaysBeforeYear(y: int): int {
    var p := y - 1;
    p * 365 + p / 4 - p / 100 + p / 400
  }

  function DaysBeforeMonth(y: int, m: int): int
    requires 1 <= m <= 12
  {
    [0, 31, 59, 90, 120, 151, 181, 212, 243, 273, 304, 334][m - 1] + (if m > 2 && IsLeap(y) then 1 else 0)
  }

  /** `d.toordinal()`: day 1 is 1 January of year 1. */
  function Ordinal(d: Date): int
    requires Valid(d)
  {
    DaysBeforeYear(d.year) + DaysBeforeMonth(d.year, d.month) + d.day
  }

  /** `a < b` on dates: by year, then month, then day. */
  predicate Before(a: Date, b: Date) {
    a.year < b.year || (a.year == b.year && (a.month < b.month || (a.month == b.month && a.day < b.day)))
  }

  /** `a <= b` on dates. */
  predicate AtMost(a: Date, b: Date) {
    Before(a, b) || a == b
  }

  /** Any two dates are ordered one way or the other, and the ordering is transitive: what
    * `list.sort` needs of its keys. */
  lemma AtMostTotalOrder(a: Date, b: Date, c: Date)
    ensures AtMost(a, b) || AtMost(b, a)
    ensures AtMost(a, b) && AtMost(b, c) ==> AtMost(a, c)
    ensures AtMost(a, b) && AtMost(b, a) ==> a == b
    ensures AtMost(a, b) <==> !Before(b, a)
  {
  }

  lemma DivStep(p: int, k: int)
    requires k == 4 || k == 100 || k == 400
    ensures (p + 1) / k - p / k == if (p + 1) % k == 0 then 1 else 0
  {
    if k == 4 {
      var q, r := p / 4, p % 4;
      assert p == 4 * q + r;
      if r == 3 { assert p + 1 == 4 * (q + 1); } else { assert p + 1 == 4 * q + (r + 1); }
    } else if k == 100 {
      var q, r := p / 100, p % 100;
      assert p == 100 * q + r;
      if r == 99 { assert p + 1 == 100 * (q + 1); } else { assert p + 1 == 100 * q + (r + 1); }
    } else {
      var q, r := p / 400, p % 400;
      assert p == 400 * q + r;
      if r == 399 { assert p + 1 == 400 * (q + 1); } else { assert p + 1 == 400 * q + (r + 1); }
    }
  }

  /** Year `y` contributes 365 days, 366 in a leap year. */
  lemma YearLength(y: int)
    ensures DaysBeforeYear(y + 1) == DaysBeforeYear(y) + (if IsLeap(y) then 366 else 365)
  {
    var p := y - 1;
    DivStep(p, 4);
    DivStep(p, 100);
    DivStep(p, 400);
    Divisores(y);
    assert DaysBeforeYear(y + 1) - DaysBeforeYear(y)
           == 365 + ((p + 1) / 4 - p / 4) - ((p + 1) / 100 - p / 100) + ((p + 1) / 400 - p / 400);
  }

  /** A multiple of 400 is one of 100, and a multiple of 100 one of 4. */
  lemma Divisores(y: int)
    ensures y % 400 == 0 ==> y % 100 == 0
    ensures y % 100 == 0 ==> y % 4 == 0
  {
    if y % 400 == 0 {
      MultiploDe100(y, 4 * (y / 400));
    }
    if y % 100 == 0 {
      MultiploDe4(y, 25 * (y / 100));
    }
  }

  lemma MultiploDe100(y: int, m: int)
    requires y == 100 * m
    ensures y % 100 == 0
  {
  }

  lemma MultiploDe4(y: int, m: int)
    requires y == 4 * m
    ensures y % 4 == 0
  {
  }

  lemma {:induction false} YearsIncrease(a: int, b: int)
    requires a <= b
    ensures DaysBeforeYear(a) + (b - a) * 365 <= DaysBeforeYear(b)
    decreases b - a
  {
    if a < b {
      YearLength(a);
      YearsIncrease(a + 1, b);
    }
  }

  lemma MonthLength(y: int, m: int)
    requires 1 <= m <= 12
    ensures DaysBeforeMonth(y, m) + DaysInMonth(y, m)
            == if m < 12 then DaysBeforeMonth(y, m + 1) else (if IsLeap(y) then 366 else 365)
  {
  }

  lemma {:induction false} MonthsIncrease(y: int, a: int, b: int)
    requires 1 <= a < b <= 12
    ensures DaysBeforeMonth(y, a) + DaysInMonth(y, a) <= DaysBeforeMonth(y, b)
    decreases b - a
  {
    MonthLength(y, a);
    if a + 1 < b {
      MonthsIncrease(y, a + 1, b);
    }
  }

  /** The ordinal of a valid date is its position in the calendar: one date comes before
    * another exactly when its ordinal is smaller, so dates and ordinals order alike. */
  lemma OrdinalOrder(a: Date, b: Date)
    requires Valid(a) && Valid(b)
    ensures Before(a, b) <==> Ordinal(a) < Ordinal(b)
    ensures a == b <==> Ordinal(a) == Ordinal(b)
  {
    if Before(a, b) {
      OrdinalBefore(a, b);
    } else if Before(b, a) {
      OrdinalBefore(b, a);
    }
  }

  lemma OrdinalBefore(a: Date, b: Date)
    requires Valid(a) && Valid(b) && Before(a, b)
    ensures Ordinal(a) < Ordinal(b)
  {
    if a.year < b.year {
      FinDeAnio(a);
      YearsIncrease(a.year + 1, b.year);
    } else if a.month < b.month {
      MonthsIncrease(a.year, a.month, b.month);
    }
  }

  /** No day of a year comes after the days before the next year. */
  lemma FinDeAnio(a: Date)
    requires Valid(a)
    ensures Ordinal(a) <= DaysBeforeYear(a.year + 1)
  {
    MonthLength(a.year, a.month);
    if a.month < 12 {
      MonthsIncrease(a.year, a.month, 12);
      MonthLength(a.year, 12);
    }
    YearLength(a.year);
  }
}
