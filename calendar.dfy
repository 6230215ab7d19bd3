/** The date arithmetic Frontend.java delegates to java.util.Calendar
    (isBeforeToday, withinThreeMonths, daysSpan), restated as exact
    proleptic-Gregorian day arithmetic with "today" passed in. */
module DayArithmetic {
  import opened Text
  import opened Dates

  /** Days in the years 1 .. y-1. */
  function DaysBeforeYear(y: int): int
    requires y >= 1
  {
    365 * (y - 1) + (y - 1) / 4 - (y - 1) / 100 + (y - 1) / 400
  }

  /** Days in the months 1 .. m-1 of year y. */
  function DaysBeforeMonth(m: int, y: int): int
    requires 1 <= m <= 12
  {
    var table := [0, 31, 59, 90, 120, 151, 181, 212, 243, 273, 304, 334];
    table[m - 1] + if m > 2 && IsLeap(y) then 1 else 0
  }

  /** Serial day number of a valid date; 1/1/1 is day 1. */
  function DayNumber(d: Date): int
    requires IsValid(d)
  {
    DaysBeforeYear(d.year) + DaysBeforeMonth(d.month, d.year) + d.day
  }

  /** Calendar.before on two calendar days. */
  predicate IsBefore(d: Date, today: Date)
  {
    Compare(d, today) < 0
  }

  /** Calendar.add(MONTH, k): move k months ahead, keeping the day unless the
      target month is shorter, in which case it becomes that month's last day. */
  function AddMonths(d: Date, k: nat): (r: Date)
    ensures IsValid(d) ==> IsValid(r)
    ensures IsValid(d) && k > 0 ==> Compare(d, r) < 0
  {
    var t := d.year * 12 + (d.month - 1) + k;
    var y, m := t / 12, t % 12 + 1;
    var last := DaysInMonth(m, y);
    Date(m, if d.day <= last then d.day else last, y)
  }

  /** withinThreeMonths: not after today plus three months. */
  predicate WithinThreeMonths(d: Date, today: Date)
  {
    Compare(d, AddMonths(today, 3)) <= 0
  }

  /** Java's narrowing conversion of a long to an int: the value modulo 2^32,
      read as a signed 32-bit number. */
  function ToInt32(x: int): (r: int)
    ensures INT_MIN <= r <= INT_MAX
    ensures (x - r) % 0x1_0000_0000 == 0
    ensures INT_MIN <= x <= INT_MAX ==> r == x
  {
    var m := x % 0x1_0000_0000;
    if m > INT_MAX then m - 0x1_0000_0000 else m
  }

  /** The number of calendar days from a to b, both included. */
  function ExactSpan(a: Date, b: Date): int
    requires IsValid(a) && IsValid(b)
  {
    DayNumber(b) - DayNumber(a) + 1
  }

  /** daysSpan as the program computes it: the whole days between the two
      midnights, narrowed to an int by the `(int)` cast, plus one in int
      arithmetic, so both steps wrap modulo 2^32. */
  function DaysSpan(a: Date, b: Date): int
    requires IsValid(a) && IsValid(b)
  {
    ToInt32(ToInt32(DayNumber(b) - DayNumber(a)) + 1)
  }

  // ----- properties -----

  lemma MonthStep(m: int, y: int)
    requires 1 <= m < 12
    ensures DaysBeforeMonth(m + 1, y) == DaysBeforeMonth(m, y) + DaysInMonth(m, y)
  {
  }

  /** Moving from y - 1 to y, the quotients by 4, 100 and 400 grow by one
      exactly when the divisor divides y, and the centuries are divisible by
      4 and every fourth century by 100. */
  lemma DivSteps(y: int)
    ensures y / 4 - (y - 1) / 4 == if y % 4 == 0 then 1 else 0
    ensures y / 100 - (y - 1) / 100 == if y % 100 == 0 then 1 else 0
    ensures y / 400 - (y - 1) / 400 == if y % 400 == 0 then 1 else 0
    ensures y % 400 == 0 ==> y % 100 == 0
    ensures y % 100 == 0 ==> y % 4 == 0
  {
    assert y / 4 - (y - 1) / 4 == if y % 4 == 0 then 1 else 0;
    assert y / 100 - (y - 1) / 100 == if y % 100 == 0 then 1 else 0;
    assert y / 400 - (y - 1) / 400 == if y % 400 == 0 then 1 else 0;
    assert y % 400 == 0 ==> y % 100 == 0;
    assert y % 100 == 0 ==> y % 4 == 0;
  }

  lemma YearStep(y: int)
    requires y >= 1
    ensures DaysBeforeYear(y + 1) == DaysBeforeYear(y) + (if IsLeap(y) then 366 else 365)
  {
    DivSteps(y);
    assert DaysBeforeYear(y + 1) - DaysBeforeYear(y) == 365 + (y / 4 - (y - 1) / 4) - (y / 100 - (y - 1) / 100) + (y / 400 - (y - 1) / 400);
  }

  /** A valid date's day of the year lies within its year. */
  lemma DayOfYearBounds(d: Date)
    requires IsValid(d)
    ensures DaysBeforeYear(d.year) < DayNumber(d) <= DaysBeforeYear(d.year + 1)
  {
    YearStep(d.year);
    YearLength(d.year);
  }

  lemma {:induction false} YearsIncrease(y: int, z: int)
    requires 1 <= y <= z
    ensures DaysBeforeYear(y) + 365 * (z - y) <= DaysBeforeYear(z)
    decreases z - y
  {
    if y < z {
      YearsIncrease(y + 1, z);
      YearStep(y);
    }
  }

  lemma MonthsIncrease(m: int, n: int, y: int)
    requires 1 <= m < n <= 12
    ensures DaysBeforeMonth(m, y) + DaysInMonth(m, y) <= DaysBeforeMonth(n, y)
  {
  }

  /** On valid dates, the day number is strictly monotone in compareTo. */
  lemma DayNumberMonotone(a: Date, b: Date)
    requires IsValid(a) && IsValid(b)
    ensures Compare(a, b) < 0 <==> DayNumber(a) < DayNumber(b)
    ensures a == b <==> DayNumber(a) == DayNumber(b)
  {
    if a.year < b.year {
      DayOfYearBounds(a);
      DayOfYearBounds(b);
      YearsIncrease(a.year + 1, b.year);
    } else if b.year < a.year {
      DayOfYearBounds(a);
      DayOfYearBounds(b);
      YearsIncrease(b.year + 1, a.year);
    } else if a.month < b.month {
      MonthsIncrease(a.month, b.month, a.year);
    } else if b.month < a.month {
      MonthsIncrease(b.month, a.month, a.year);
    }
  }

  /** The span of a well-ordered booking is at least one day; the span of a
      reversed one is at most zero. */
  lemma SpanSign(a: Date, b: Date)
    requires IsValid(a) && IsValid(b)
    ensures Compare(a, b) <= 0 <==> ExactSpan(a, b) >= 1
    ensures ExactSpan(a, a) == 1
  {
    DayNumberMonotone(a, b);
    DayNumberMonotone(b, a);
    CompareAntisymmetric(a, b);
  }

  /** The program's span is the exact one whenever the day difference and
      the span itself fit in an int, which covers every date less than
      2^31 - 1 days apart in either direction. */
  lemma SpanAgrees(a: Date, b: Date)
    requires IsValid(a) && IsValid(b)
    requires INT_MIN <= DayNumber(b) - DayNumber(a) < INT_MAX
    ensures DaysSpan(a, b) == ExactSpan(a, b)
  {
  }

  /** On well-ordered dates, a program span of at most seven days is either
      a real span of one to seven days or a real span beyond the int range
      that the cast wrapped round to a small or negative number. */
  lemma SpanWeekLimit(a: Date, b: Date)
    requires IsValid(a) && IsValid(b) && Compare(a, b) <= 0
    requires DaysSpan(a, b) <= 7
    ensures 1 <= ExactSpan(a, b) <= 7 || ExactSpan(a, b) > INT_MAX
  {
    SpanSign(a, b);
    if ExactSpan(a, b) <= INT_MAX {
      SpanAgrees(a, b);
    }
  }

  /** The cast at work: 4/24/5881637 is 2^31 days after 10/14/2026, so the
      exact span is 2^31 + 1 days while the program's span wraps to
      -2^31 + 1, which passes the test `daysSpan(begin, end) > 7`. */
  lemma SpanWrapWitness()
    ensures IsValid(Date(10, 14, 2026)) && IsValid(Date(4, 24, 5881637))
    ensures DayNumber(Date(4, 24, 5881637)) - DayNumber(Date(10, 14, 2026)) == 0x8000_0000
    ensures ExactSpan(Date(10, 14, 2026), Date(4, 24, 5881637)) == 0x8000_0001
    ensures DaysSpan(Date(10, 14, 2026), Date(4, 24, 5881637)) == -0x7FFF_FFFF
  {
    var a, b := Date(10, 14, 2026), Date(4, 24, 5881637);
    assert IsLeap(2026) == false && IsLeap(5881637) == false;
    assert DayNumber(a) == 739903;
    assert DayNumber(b) == 739903 + 0x8000_0000;
  }

  /** Within one month, the span is the difference of the days plus one,
      and the program's span agrees with it. */
  lemma SpanSameMonth(a: Date, b: Date)
    requires IsValid(a) && IsValid(b) && a.year == b.year && a.month == b.month
    ensures ExactSpan(a, b) == b.day - a.day + 1
    ensures DaysSpan(a, b) == ExactSpan(a, b)
  {
  }

  /** Across a month boundary the span counts the rest of the first month. */
  lemma SpanNextMonth(a: Date, b: Date)
    requires IsValid(a) && IsValid(b) && a.year == b.year && b.month == a.month + 1
    ensures ExactSpan(a, b) == DaysInMonth(a.month, a.year) - a.day + b.day + 1
    ensures DaysSpan(a, b) == ExactSpan(a, b)
  {
    MonthStep(a.month, a.year);
  }

  /** The three-month limit is a valid date strictly after today, three
      months on in the calendar. */
  lemma ThreeMonthLimit(today: Date)
    requires IsValid(today)
    ensures IsValid(AddMonths(today, 3))
    ensures Compare(today, AddMonths(today, 3)) < 0
    ensures AddMonths(today, 3).month == (today.month + 2) % 12 + 1
    ensures AddMonths(today, 3).day <= today.day
  {
  }

  /** Samples: 1/31/2025 plus three months is 4/30/2025; 11/15/2025 plus
      three months is 2/15/2026. */
  lemma AddMonthsSamples()
    ensures AddMonths(Date(1, 31, 2025), 3) == Date(4, 30, 2025)
    ensures AddMonths(Date(11, 15, 2025), 3) == Date(2, 15, 2026)
  {
  }
}
