/** The string primitives the upload pages borrow from JavaScript:
    `toLowerCase`, `lastIndexOf`, `split` and the decimal rendering of a
    count inside a template literal. */
module Text {

  /** One character as `toLowerCase` maps it, restricted to 'A'..'Z' and
      U+212A KELVIN SIGN; every other character is kept. */
  function LowerChar(c: char): char
  {
    if 'A' <= c <= 'Z' then (c as int - 'A' as int + 'a' as int) as char
    else if c == '\U{212A}' then 'k'
    else c
  }

  /** `s.toLowerCase()`, character by character. */
  function Lower(s: string): (r: string)
    ensures |r| == |s|
    ensures forall i :: 0 <= i < |s| ==> r[i] == LowerChar(s[i])
  {
    seq(|s|, i requires 0 <= i < |s| => LowerChar(s[i]))
  }

  /** Lower-casing never creates or removes a '.', so it keeps every
      position that `lastIndexOf('.')` or `split('.')` depends on. */
  lemma LowerKeepsDots(s: string, i: int)
    requires 0 <= i < |s|
    ensures Lower(s)[i] == '.' <==> s[i] == '.'
  {
  }

  /** Lower-casing twice is lower-casing once. */
  lemma LowerIdempotent(s: string)
    ensures Lower(Lower(s)) == Lower(s)
  {
  }

  /** `s.lastIndexOf(c)`: the last position holding `c`, or -1. */
  function LastIndexOf(s: string, c: char): (i: int)
    ensures -1 <= i < |s|
    ensures i >= 0 ==> s[i] == c
    ensures forall k :: i < k < |s| ==> s[k] != c
  {
    if |s| == 0 then -1
    else if s[|s| - 1] == c then |s| - 1
    else LastIndexOf(s[..|s| - 1], c)
  }

  /** The contract of `LastIndexOf` pins the position down: a `c` with no
      `c` after it is the one found. */
  lemma LastIndexOfIsUnique(s: string, c: char, i: int)
    requires 0 <= i < |s| && s[i] == c
    requires forall k :: i < k < |s| ==> s[k] != c
    ensures LastIndexOf(s, c) == i
  {
  }

  /** Re-inserting the separator between consecutive parts. */
  function Join(parts: seq<string>, sep: char): string
    requires |parts| >= 1
  {
    if |parts| == 1 then parts[0]
    else Join(parts[..|parts| - 1], sep) + [sep] + parts[|parts| - 1]
  }

  /** `s.split(sep)` for a one-character separator: never empty, no part
      holds the separator, and joining the parts gives `s` back. */
  function Split(s: string, sep: char): (parts: seq<string>)
    ensures |parts| >= 1
    ensures forall k :: 0 <= k < |parts| ==> sep !in parts[k]
    ensures Join(parts, sep) == s
    decreases |s|
  {
    var i := LastIndexOf(s, sep);
    if i < 0 then [s]
    else
      var front := Split(s[..i], sep);
      var last := s[i + 1..];
      assert sep !in last by {
        forall k | 0 <= k < |last|
          ensures last[k] != sep
        {
          assert last[k] == s[i + 1 + k];
        }
      }
      var parts := front + [last];
      assert parts[..|parts| - 1] == front && parts[|parts| - 1] == last;
      assert s == s[..i] + [sep] + last;
      parts
  }

  /** Splitting a text that ends in a separator followed by a
      separator-free tail: the tail is the last part. */
  lemma SplitAtLast(j: string, sep: char, last: string)
    requires sep !in last
    ensures Split(j + [sep] + last, sep) == Split(j, sep) + [last]
  {
    var s := j + [sep] + last;
    assert s[|j|] == sep;
    forall k | |j| < k < |s|
      ensures s[k] != sep
    {
      assert s[k] == last[k - |j| - 1];
    }
    LastIndexOfIsUnique(s, sep, |j|);
    assert s[..|j|] == j;
    assert s[|j| + 1..] == last;
  }

  /** The converse round trip: parts free of the separator are recovered
      by splitting their join. */
  lemma {:induction false} SplitJoin(parts: seq<string>, sep: char)
    requires |parts| >= 1
    requires forall k :: 0 <= k < |parts| ==> sep !in parts[k]
    ensures Split(Join(parts, sep), sep) == parts
    decreases |parts|
  {
    var n := |parts|;
    if n == 1 {
      assert LastIndexOf(parts[0], sep) == -1;
    } else {
      var front := parts[..n - 1];
      SplitAtLast(Join(front, sep), sep, parts[n - 1]);
      SplitJoin(front, sep);
      assert front + [parts[n - 1]] == parts;
    }
  }

  predicate IsDigits(s: string)
  {
    forall k :: 0 <= k < |s| ==> '0' <= s[k] <= '9'
  }

  function DigitChar(d: nat): char
    requires d < 10
  {
    "0123456789"[d]
  }

  /** A count as a template literal renders it: decimal digits, no
      leading zero. */
  function Decimal(n: nat): (s: string)
    ensures |s| >= 1 && IsDigits(s)
    ensures s[0] == '0' ==> n == 0
    decreases n
  {
    if n < 10 then [DigitChar(n)] else Decimal(n / 10) + [DigitChar(n % 10)]
  }

  /** Reads a digit string back as a number. */
  function ParseDecimal(s: string): nat
    requires IsDigits(s)
  {
    if |s| == 0 then 0
    else 10 * ParseDecimal(s[..|s| - 1]) + (s[|s| - 1] as int - '0' as int)
  }

  /** Rendering a count loses nothing: parsing it gives the count back. */
  lemma {:induction false} ParseDecimalInvertsDecimal(n: nat)
    ensures ParseDecimal(Decimal(n)) == n
    decreases n
  {
    if n >= 10 {
      var s := Decimal(n);
      assert s[..|s| - 1] == Decimal(n / 10);
      ParseDecimalInvertsDecimal(n / 10);
    }
  }
}
