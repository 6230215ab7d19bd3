/** Date.java: an immutable month/day/year triple with calendar validity,
    the Gregorian leap-year rule, lexicographic comparison and its
    m/d/yyyy text form. */
module Dates {
  import opened Options
  import opened Text

  datatype Date = Date(month: int, day: int, year: int)

  const FOUR_YEAR_CYCLE: int := 4
  const HUNDRED_YEARS_EXCEPTION: int := 100
  const FOUR_HUNDRED_YEARS_RULE: int := 400

  /** isLeap: divisible by 4, except centuries not divisible by 400. */
  predicate IsLeap(y: int)
  {
    if y % FOUR_YEAR_CYCLE != 0 then false
    else if y % HUNDRED_YEARS_EXCEPTION != 0 then true
    else y % FOUR_HUNDRED_YEARS_RULE == 0
  }

  /** daysInMonth; 0 for a month outside 1..12. */
  function DaysInMonth(m: int, y: int): (n: int)
    ensures 0 <= n <= 31
    ensures 1 <= m <= 12 <==> n >= 28
  {
    match m
    case 1 => 31 case 3 => 31 case 5 => 31 case 7 => 31
    case 8 => 31 case 10 => 31 case 12 => 31
    case 4 => 30 case 6 => 30 case 9 => 30 case 11 => 30
    case 2 => if IsLeap(y) then 29 else 28
    case _ => 0
  }

  predicate IsValid(d: Date)
  {
    if d.year <= 0 then false
    else if d.month < 1 || d.month > 12 then false
    else 1 <= d.day <= DaysInMonth(d.month, d.year)
  }

  /** compareTo: the difference of the first differing field, taken in the
      order year, month, day. */
  function Compare(a: Date, b: Date): int
  {
    if a.year != b.year then a.year - b.year
    else if a.month != b.month then a.month - b.month
    else a.day - b.day
  }

  /** equals: all three fields agree. */
  predicate Equals(a: Date, b: Date)
  {
    a.year == b.year && a.month == b.month && a.day == b.day
  }

  /** toString: m/d/yyyy without padding. */
  function ToString(d: Date): string
  {
    IntToString(d.month) + "/" + IntToString(d.day) + "/" + IntToString(d.year)
  }

  /** fromString: split on '/' and parse the first three pieces as month,
      day and year. None stands for the exception Integer.parseInt or the
      array access throws on malformed text. */
  function FromString(s: string): Option<Date>
  {
    var parts := Split(s, '/');
    if |parts| < 3 then None
    else
      match (ParseInt(parts[0]), ParseInt(parts[1]), ParseInt(parts[2]))
      case (Some(m), Some(d), Some(y)) => Some(Date(m, d, y))
      case _ => None
  }

  /** A date whose fields fit Java's int, the only dates the source can hold. */
  predicate Fits(d: Date)
  {
    INT_MIN <= d.month <= INT_MAX && INT_MIN <= d.day <= INT_MAX && INT_MIN <= d.year <= INT_MAX
  }

  // ----- properties -----

  lemma LeapRule(y: int)
    ensures IsLeap(y) <==> (y % 4 == 0 && (y % 100 != 0 || y % 400 == 0))
  {
  }

  lemma LeapSamples()
    ensures IsLeap(2000) && !IsLeap(1900) && IsLeap(2024) && !IsLeap(2023)
  {
  }

  /** The twelve month lengths add up to the length of the year. */
  lemma YearLength(y: int)
    ensures DaysInMonth(1, y) + DaysInMonth(2, y) + DaysInMonth(3, y) + DaysInMonth(4, y)
          + DaysInMonth(5, y) + DaysInMonth(6, y) + DaysInMonth(7, y) + DaysInMonth(8, y)
          + DaysInMonth(9, y) + DaysInMonth(10, y) + DaysInMonth(11, y) + DaysInMonth(12, y)
         == if IsLeap(y) then 366 else 365
  {
  }

  lemma MonthLengths(m: int, y: int)
    ensures m in {1, 3, 5, 7, 8, 10, 12} ==> DaysInMonth(m, y) == 31
    ensures m in {4, 6, 9, 11} ==> DaysInMonth(m, y) == 30
    ensures m == 2 ==> DaysInMonth(m, y) == (if IsLeap(y) then 29 else 28)
    ensures !(1 <= m <= 12) ==> DaysInMonth(m, y) == 0
  {
  }

  /** The sample dates of Date.main. */
  lemma ValiditySamples()
    ensures !IsValid(Date(1, 1, 0)) && !IsValid(Date(13, 19, 2000))
    ensures !IsValid(Date(2, 29, 1999)) && !IsValid(Date(6, 31, 2000))
    ensures IsValid(Date(2, 29, 2024)) && IsValid(Date(12, 31, 2025))
  {
  }

  /** compareTo is zero exactly when equals holds, and equals is field-wise
      equality of the value. */
  lemma CompareZero(a: Date, b: Date)
    ensures Compare(a, b) == 0 <==> Equals(a, b)
    ensures Equals(a, b) <==> a == b
  {
  }

  lemma CompareAntisymmetric(a: Date, b: Date)
    ensures Compare(a, b) == -Compare(b, a)
  {
  }

  /** compareTo <= 0 is the lexicographic order on (year, month, day). */
  lemma CompareLexicographic(a: Date, b: Date)
    ensures Compare(a, b) <= 0 <==>
      a.year < b.year || (a.year == b.year && (a.month < b.month || (a.month == b.month && a.day <= b.day)))
  {
  }

  lemma CompareTransitive(a: Date, b: Date, c: Date)
    ensures Compare(a, b) <= 0 && Compare(b, c) <= 0 ==> Compare(a, c) <= 0
    ensures Compare(a, b) < 0 && Compare(b, c) <= 0 ==> Compare(a, c) < 0
  {
  }

  /** fromString inverts toString. */
  lemma {:induction false} TextRoundTrip(d: Date)
    requires Fits(d)
    ensures FromString(ToString(d)) == Some(d)
  {
    var m, dd, y := IntToString(d.month), IntToString(d.day), IntToString(d.year);
    assert ToString(d) == m + ['/'] + (dd + ['/'] + y);
    SplitPiece(m, '/', dd + ['/'] + y);
    SplitPiece(dd, '/', y);
    SplitWhole(y, '/');
    assert Split(ToString(d), '/') == [m, dd, y];
    IntRoundTrip(d.month);
    IntRoundTrip(d.day);
    IntRoundTrip(d.year);
  }
}
