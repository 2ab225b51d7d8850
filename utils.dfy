/** Small value types and string helpers shared by the table, XML and JSON modules. */
module Utils {

  datatype Option<T> = None | Some(value: T)

  /** The .NET exceptions the modelled code can raise. */
  datatype Fault =
    | FormatException      // string.Format with a placeholder index past its arguments
    | ArgumentOutOfRange   // string.Substring with a start index past the end
    | ArgumentException    // DataColumn.ColumnName set to "" on a column of a table

  datatype Result<T> = Ok(value: T) | Err(fault: Fault)

  predicate Distinct<T(==)>(s: seq<T>) {
    forall i, j :: 0 <= i < j < |s| ==> s[i] != s[j]
  }

  /** Number of occurrences of x in s (LINQ's Count with an equality predicate). */
  function Count<T(==)>(s: seq<T>, x: T): (n: nat)
    ensures n <= |s|
    ensures n == 0 <==> x !in s
  {
    if s == [] then 0
    else Count(s[..|s| - 1], x) + (if s[|s| - 1] == x then 1 else 0)
  }

  function Digit(d: nat): (c: char)
    requires d < 10
    ensures '0' <= c <= '9'
  {
    ('0' as int + d) as char
  }

  /** Decimal form of a natural number, as string.Format writes an int. */
  function DecimalString(n: nat): (s: string)
    ensures |s| >= 1
    ensures forall i :: 0 <= i < |s| ==> '0' <= s[i] <= '9'
  {
    if n < 10 then [Digit(n)] else DecimalString(n / 10) + [Digit(n % 10)]
  }

  /** The number a string of decimal digits denotes. */
  function DigitsValue(s: string): (v: nat)
    requires forall i :: 0 <= i < |s| ==> '0' <= s[i] <= '9'
  {
    if s == [] then 0 else 10 * DigitsValue(s[..|s| - 1]) + (s[|s| - 1] as int - '0' as int)
  }

  /** DecimalString writes n itself, without a leading zero. */
  lemma {:induction false} DecimalStringValue(n: nat)
    ensures DigitsValue(DecimalString(n)) == n
    ensures n > 0 ==> DecimalString(n)[0] != '0'
  {
    if n >= 10 {
      DecimalStringValue(n / 10);
      assert DecimalString(n)[..|DecimalString(n)| - 1] == DecimalString(n / 10);
    }
  }

  /** Different numbers are written differently. */
  lemma DecimalStringInjective(m: nat, n: nat)
    requires DecimalString(m) == DecimalString(n)
    ensures m == n
  {
    DecimalStringValue(m);
    DecimalStringValue(n);
  }

  /** sep occurs in s at position i. */
  predicate MatchAt(s: string, sep: string, i: int) {
    0 <= i && i + |sep| <= |s| && s[i..i + |sep|] == sep
  }

  function IndexFrom(s: string, sep: string, from: nat): (r: int)
    requires from <= |s| + 1
    ensures r == -1 || (from <= r && MatchAt(s, sep, r))
    ensures forall i :: from <= i && (r == -1 || i < r) ==> !MatchAt(s, sep, i)
    decreases |s| + 1 - from
  {
    if from + |sep| > |s| then -1
    else if s[from..from + |sep|] == sep then from
    else IndexFrom(s, sep, from + 1)
  }

  /** Ordinal String.IndexOf: the first position where sep occurs in s, or -1. */
  function IndexOf(s: string, sep: string): (r: int)
    ensures r >= 0 ==> MatchAt(s, sep, r) && forall i :: 0 <= i < r ==> !MatchAt(s, sep, i)
    ensures r < 0 <==> forall i :: 0 <= i <= |s| ==> !MatchAt(s, sep, i)
    ensures r >= -1
  {
    IndexFrom(s, sep, 0)
  }
}
