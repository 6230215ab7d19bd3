/** The few pieces of java.lang.String and java.lang.Integer the core relies
    on: String.compareTo, Integer.toString, Integer.parseInt, String.split on
    one separator character and ASCII upper-casing. */
module Text {
  import opened Options

  const INT_MIN: int := -0x8000_0000
  const INT_MAX: int := 0x7FFF_FFFF

  // ----- String.compareTo -----

  /** Java's String.compareTo: the difference of the first differing
      characters, or the difference of the lengths when one string is a
      prefix of the other. */
  function StrCmp(a: string, b: string): int
    decreases |a|
  {
    if a == [] || b == [] then |a| - |b|
    else if a[0] != b[0] then a[0] as int - b[0] as int
    else StrCmp(a[1..], b[1..])
  }

  lemma {:induction false} StrCmpZero(a: string, b: string)
    ensures StrCmp(a, b) == 0 <==> a == b
    decreases |a|
  {
    if a != [] && b != [] && a[0] == b[0] {
      StrCmpZero(a[1..], b[1..]);
      assert a == [a[0]] + a[1..] && b == [b[0]] + b[1..];
    }
  }

  lemma {:induction false} StrCmpAntisymmetric(a: string, b: string)
    ensures StrCmp(a, b) == -StrCmp(b, a)
    decreases |a|
  {
    if a != [] && b != [] && a[0] == b[0] {
      StrCmpAntisymmetric(a[1..], b[1..]);
    }
  }

  lemma {:induction false} StrCmpTransitive(a: string, b: string, c: string)
    requires StrCmp(a, b) <= 0 && StrCmp(b, c) <= 0
    ensures StrCmp(a, c) <= 0
    decreases |a|
  {
    if a != [] && b != [] && c != [] && a[0] == b[0] && b[0] == c[0] {
      StrCmpTransitive(a[1..], b[1..], c[1..]);
    }
  }

  /** A comparison by a string key and then by a secondary key is
      transitive whenever the secondary comparison is transitive on elements
      that share the string key. `p`, `q` and `r` are the secondary results
      for the pairs (x, y), (y, z) and (x, z). */
  lemma ThenTransitive(x: string, y: string, z: string, p: int, q: int, r: int)
    requires (if StrCmp(x, y) != 0 then StrCmp(x, y) else p) <= 0
    requires (if StrCmp(y, z) != 0 then StrCmp(y, z) else q) <= 0
    requires x == y && y == z && p <= 0 && q <= 0 ==> r <= 0
    ensures (if StrCmp(x, z) != 0 then StrCmp(x, z) else r) <= 0
  {
    StrCmpAntisymmetric(x, y);
    StrCmpAntisymmetric(y, z);
    StrCmpAntisymmetric(x, z);
    StrCmpZero(x, y);
    StrCmpZero(y, z);
    StrCmpZero(x, z);
    StrCmpTransitive(x, y, z);
    if StrCmp(x, z) == 0 && StrCmp(x, y) != 0 {
      // x == z, so x <= y <= x forces x == y
      StrCmpTransitive(y, z, x);
    }
  }

  // ----- Integer.toString -----

  function DigitChar(d: nat): char
    requires d < 10
  {
    "0123456789"[d]
  }

  predicate IsDigit(c: char)
  {
    '0' <= c <= '9'
  }

  function DigitsOf(n: nat): (s: string)
    ensures |s| > 0 && forall i :: 0 <= i < |s| ==> IsDigit(s[i])
  {
    if n < 10 then [DigitChar(n)] else DigitsOf(n / 10) + [DigitChar(n % 10)]
  }

  /** Integer.toString: decimal digits without padding, with a leading '-'
      for negative values. */
  function IntToString(n: int): (s: string)
    ensures |s| > 0 && '/' !in s
  {
    if n < 0 then "-" + DigitsOf(-n) else DigitsOf(n)
  }

  // ----- Integer.parseInt -----

  /** Value of a non-empty string of decimal digits. */
  function DigitsValue(s: string): nat
    requires forall i :: 0 <= i < |s| ==> IsDigit(s[i])
    decreases |s|
  {
    if s == [] then 0
    else
      assert IsDigit(s[|s| - 1]);
      DigitsValue(s[..|s| - 1]) * 10 + (s[|s| - 1] as int - '0' as int)
  }

  predicate AllDigits(s: string)
  {
    |s| > 0 && forall i :: 0 <= i < |s| ==> IsDigit(s[i])
  }

  /** Integer.parseInt: an optional sign followed by at least one ASCII
      digit, whose value lies in the 32-bit range; None stands for the
      NumberFormatException. */
  function ParseInt(s: string): (r: Option<int>)
    ensures r.Some? ==> INT_MIN <= r.value <= INT_MAX
  {
    if |s| > 0 && (s[0] == '-' || s[0] == '+') then
      if AllDigits(s[1..]) then
        var mag: int := DigitsValue(s[1..]);
        var v := if s[0] == '-' then -mag else mag;
        if INT_MIN <= v <= INT_MAX then Some(v) else None
      else None
    else if AllDigits(s) then
      var v := DigitsValue(s);
      if v <= INT_MAX then Some(v) else None
    else None
  }

  lemma {:induction false} DigitsRoundTrip(n: nat)
    ensures DigitsValue(DigitsOf(n)) == n
  {
    if n >= 10 {
      DigitsRoundTrip(n / 10);
      var s := DigitsOf(n);
      assert s[..|s| - 1] == DigitsOf(n / 10);
    }
  }

  /** parseInt inverts toString on every 32-bit value. */
  lemma IntRoundTrip(n: int)
    requires INT_MIN <= n <= INT_MAX
    ensures ParseInt(IntToString(n)) == Some(n)
  {
    if n < 0 {
      NegativeRoundTrip(n);
    } else {
      DigitsRoundTrip(n);
      var s := DigitsOf(n);
      assert IsDigit(s[0]);
      assert AllDigits(s);
    }
  }

  lemma NegativeRoundTrip(n: int)
    requires INT_MIN <= n < 0
    ensures ParseInt(IntToString(n)) == Some(n)
  {
    var d := DigitsOf(-n);
    DigitsRoundTrip(-n);
    assert IntToString(n) == "-" + d;
    ParseNegative(d);
  }

  /** A minus sign followed by digits whose value fits parses to the
      negated value. */
  lemma ParseNegative(d: string)
    requires AllDigits(d) && DigitsValue(d) <= 0x8000_0000
    ensures ParseInt("-" + d) == Some(-(DigitsValue(d) as int))
  {
    var s := "-" + d;
    assert s[0] == '-' && s[1..] == d;
  }

  // ----- String.split -----

  /** The pieces of `s` between occurrences of `sep`. Java's split also drops
      trailing empty pieces; the date parser reads only the first three
      pieces and fails on an empty one, so the two agree wherever it is used. */
  function Split(s: string, sep: char): (r: seq<string>)
    ensures |r| >= 1
    decreases |s|
  {
    if s == [] then [""]
    else
      var rest := Split(s[1..], sep);
      if s[0] == sep then [""] + rest else [[s[0]] + rest[0]] + rest[1..]
  }

  lemma {:induction false} SplitPiece(a: string, sep: char, b: string)
    requires sep !in a
    ensures Split(a + [sep] + b, sep) == [a] + Split(b, sep)
    decreases |a|
  {
    if a == [] {
      assert (a + [sep] + b)[1..] == b;
    } else {
      SplitPiece(a[1..], sep, b);
      assert (a + [sep] + b)[1..] == a[1..] + [sep] + b;
      assert [a[0]] + a[1..] == a;
    }
  }

  lemma {:induction false} SplitWhole(a: string, sep: char)
    requires sep !in a
    ensures Split(a, sep) == [a]
    decreases |a|
  {
    if a != [] {
      SplitWhole(a[1..], sep);
      assert [a[0]] + a[1..] == a;
    }
  }

  // ----- String.toUpperCase (ASCII letters) -----

  function UpperChar(c: char): char
  {
    if 'a' <= c <= 'z' then (c as int - 'a' as int + 'A' as int) as char else c
  }

  function ToUpper(s: string): (r: string)
    ensures |r| == |s| && forall i :: 0 <= i < |s| ==> r[i] == UpperChar(s[i])
  {
    seq(|s|, i requires 0 <= i < |s| => UpperChar(s[i]))
  }
}
