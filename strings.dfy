/**
  The few pieces of Python's `str` behaviour that the documentation tool
  relies on: `isspace` (which is also what `\s` means in a `str` regex),
  `strip`, `splitlines`, `'sep'.join`, `replace`, and prefix tests.
  Strings are sequences of Unicode code points.
 */
module Strings {

  /** Python's `str.isspace` for one character, which is also the class `\s` of `re` on `str`. */
  predicate IsSpace(c: char) {
    var n := c as int;
    n == 0x20 || (0x09 <= n <= 0x0D) || (0x1C <= n <= 0x1F) || n == 0x85 || n == 0xA0
    || n == 0x1680 || (0x2000 <= n <= 0x200A) || n == 0x2028 || n == 0x2029
    || n == 0x202F || n == 0x205F || n == 0x3000
  }

  /** The characters at which `str.splitlines` ends a line (`\r\n` counts as one boundary). */
  predicate IsLineBreak(c: char) {
    var n := c as int;
    n == 0x0A || n == 0x0B || n == 0x0C || n == 0x0D || n == 0x1C || n == 0x1D || n == 0x1E
    || n == 0x85 || n == 0x2028 || n == 0x2029
  }

  /** Every character is whitespace. */
  predicate AllSpaces(s: string) {
    forall k :: 0 <= k < |s| ==> IsSpace(s[k])
  }

  /** `w` occurs in `s` starting at index `i`. */
  predicate HasPrefixAt(s: string, i: nat, w: string) {
    i + |w| <= |s| && s[i..i + |w|] == w
  }

  /** The smaller of two integers. */
  function Min(a: int, b: int): int {
    if a <= b then a else b
  }

  /** Length of the run of whitespace that starts at `i` (greedy `\s*`). */
  function SpaceRun(s: string, i: nat): (n: nat)
    requires i <= |s|
    ensures i + n <= |s|
    ensures forall k :: i <= k < i + n ==> IsSpace(s[k])
    ensures i + n == |s| || !IsSpace(s[i + n])
    decreases |s| - i
  {
    if i == |s| || !IsSpace(s[i]) then 0 else 1 + SpaceRun(s, i + 1)
  }

  /** A run of `n` whitespace characters at `i` that ends the whitespace is what `SpaceRun` measures. */
  lemma SpaceRunIs(s: string, i: nat, n: nat)
    requires i + n <= |s|
    requires forall k :: i <= k < i + n ==> IsSpace(s[k])
    requires i + n == |s| || !IsSpace(s[i + n])
    ensures SpaceRun(s, i) == n
  {
  }

  /** Whitespace runs in the second part of a text are those of that part alone. */
  lemma SpaceRunShift(a: string, b: string, j: nat)
    requires j <= |b|
    ensures SpaceRun(a + b, |a| + j) == SpaceRun(b, j)
  {
    var s := a + b;
    assert forall q :: 0 <= q < |b| ==> s[|a| + q] == b[q];
    SpaceRunIs(s, |a| + j, SpaceRun(b, j));
  }

  /** Occurrences in the second part of a text are those of that part alone. */
  lemma HasPrefixShift(a: string, b: string, e: nat, w: string)
    ensures HasPrefixAt(a + b, |a| + e, w) <==> HasPrefixAt(b, e, w)
  {
    if e + |w| <= |b| {
      assert (a + b)[|a| + e..|a| + e + |w|] == b[e..e + |w|];
    }
  }

  /** Length of the run of non-whitespace that starts at `i` (greedy `\S*`). */
  function WordRun(s: string, i: nat): (n: nat)
    requires i <= |s|
    ensures i + n <= |s|
    ensures forall k :: i <= k < i + n ==> !IsSpace(s[k])
    ensures i + n == |s| || IsSpace(s[i + n])
    decreases |s| - i
  {
    if i == |s| || IsSpace(s[i]) then 0 else 1 + WordRun(s, i + 1)
  }

  /** A run of `n` non-whitespace characters at `i` that ends the run is what `WordRun` measures. */
  lemma WordRunIs(s: string, i: nat, n: nat)
    requires i + n <= |s|
    requires forall k :: i <= k < i + n ==> !IsSpace(s[k])
    requires i + n == |s| || IsSpace(s[i + n])
    ensures WordRun(s, i) == n
  {
  }

  /** Runs of non-whitespace in the second part of a text are those of that part alone. */
  lemma WordRunShift(a: string, b: string, j: nat)
    requires j <= |b|
    ensures WordRun(a + b, |a| + j) == WordRun(b, j)
  {
    var s := a + b;
    assert forall q :: 0 <= q < |b| ==> s[|a| + q] == b[q];
    WordRunIs(s, |a| + j, WordRun(b, j));
  }

  /** Index of the first `c` at or after `i`, or `|s|` when there is none. */
  function IndexOfFrom(s: string, c: char, i: nat): (k: nat)
    requires i <= |s|
    ensures i <= k <= |s|
    ensures forall j :: i <= j < k ==> s[j] != c
    ensures k < |s| ==> s[k] == c
    decreases |s| - i
  {
    if i == |s| || s[i] == c then i else IndexOfFrom(s, c, i + 1)
  }

  /** Index of the first `c`, or `|s|`. */
  function IndexOf(s: string, c: char): (k: nat)
    ensures k <= |s|
    ensures forall j :: 0 <= j < k ==> s[j] != c
    ensures k < |s| ==> s[k] == c
  {
    IndexOfFrom(s, c, 0)
  }

  /** Number of leading characters `strip` removes. */
  function LeadingSpace(s: string): (n: nat)
    ensures n <= |s|
    ensures forall k :: 0 <= k < n ==> IsSpace(s[k])
    ensures n == |s| || !IsSpace(s[n])
  {
    SpaceRun(s, 0)
  }

  /** Number of trailing characters `strip` removes. */
  function TrailingSpace(s: string): (n: nat)
    ensures n <= |s|
    ensures forall k :: |s| - n <= k < |s| ==> IsSpace(s[k])
    ensures n == |s| || !IsSpace(s[|s| - n - 1])
  {
    if s == [] || !IsSpace(s[|s| - 1]) then 0 else 1 + TrailingSpace(s[..|s| - 1])
  }

  /** A string that `strip` leaves as it is. */
  predicate IsStripped(s: string) {
    s == [] || (!IsSpace(s[0]) && !IsSpace(s[|s| - 1]))
  }

  /** Python's `str.strip()` with no argument. */
  function Strip(s: string): (r: string)
    ensures IsStripped(r)
    ensures |r| <= |s|
    ensures AllSpaces(s) ==> r == []
    ensures s != [] && !IsSpace(s[0]) && !IsSpace(s[|s| - 1]) ==> r == s
    ensures LeadingSpace(s) + |r| <= |s|
    ensures r == s[LeadingSpace(s)..LeadingSpace(s) + |r|]
    ensures forall k :: LeadingSpace(s) + |r| <= k < |s| ==> IsSpace(s[k])
  {
    var a := LeadingSpace(s);
    if a == |s| then []
    else
      var b := TrailingSpace(s);
      assert !IsSpace(s[a]);
      var r := s[a..|s| - b];
      r
  }

  /** Whitespace around a text that begins and ends with a non-space character is what `strip` removes. */
  lemma StripAround(w1: string, x: string, w2: string)
    requires AllSpaces(w1) && AllSpaces(w2)
    requires x != [] && !IsSpace(x[0]) && !IsSpace(x[|x| - 1])
    ensures Strip(w1 + x + w2) == x
  {
    var s := w1 + x + w2;
    var r := Strip(s);
    var a, n := |w1|, |x|;
    assert s[a] == x[0] && s[a + n - 1] == x[n - 1];
    assert forall k :: 0 <= k < a ==> s[k] == w1[k];
    assert forall k :: a + n <= k < |s| ==> s[k] == w2[k - a - n];
    SpaceRunIs(s, 0, a);
    assert r != [] && |r| == n by {
      assert a + |r| > a + n - 1;
      assert r[|r| - 1] == s[a + |r| - 1];
    }
    assert r == s[a..a + n] == x;
  }

  /** Python's `str.splitlines()` (without `keepends`). */
  function SplitLines(s: string): (lines: seq<string>)
    ensures s == [] <==> lines == []
    ensures forall i :: 0 <= i < |lines| ==> |lines[i]| <= |s|
    decreases |s|
  {
    if s == [] then []
    else
      var i := LineEnd(s, 0);
      if i == |s| then [s]
      else
        var next := if s[i] == '\r' && i + 1 < |s| && s[i + 1] == '\n' then i + 2 else i + 1;
        [s[..i]] + SplitLines(s[next..])
  }

  /** Index of the first line boundary at or after `i`, or `|s|`. */
  function LineEnd(s: string, i: nat): (k: nat)
    requires i <= |s|
    ensures i <= k <= |s|
    ensures forall j :: i <= j < k ==> !IsLineBreak(s[j])
    ensures k < |s| ==> IsLineBreak(s[k])
    decreases |s| - i
  {
    if i == |s| || IsLineBreak(s[i]) then i else LineEnd(s, i + 1)
  }

  /** Python's `sep.join(parts)`. */
  function Join(parts: seq<string>, sep: string): (r: string)
    ensures |parts| == 1 ==> r == parts[0]
  {
    if parts == [] then []
    else if |parts| == 1 then parts[0]
    else parts[0] + sep + Join(parts[1..], sep)
  }

  /** Python's `s.replace(pat, rep)`: non-overlapping occurrences, left to right. */
  function ReplaceAll(s: string, pat: string, rep: string): (r: string)
    requires pat != []
    ensures (forall i :: 0 <= i <= |s| ==> !HasPrefixAt(s, i, pat)) ==> r == s
    decreases |s|
  {
    if |s| < |pat| then s
    else if s[..|pat|] == pat then
      assert HasPrefixAt(s, 0, pat);
      rep + ReplaceAll(s[|pat|..], pat, rep)
    else
      assert forall i :: 0 <= i <= |s| - 1 ==> HasPrefixAt(s[1..], i, pat) ==> HasPrefixAt(s, i + 1, pat) by {
        forall i | 0 <= i <= |s| - 1 && HasPrefixAt(s[1..], i, pat) ensures HasPrefixAt(s, i + 1, pat) {
          assert s[1..][i..i + |pat|] == s[i + 1..i + 1 + |pat|];
        }
      }
      [s[0]] + ReplaceAll(s[1..], pat, rep)
  }

  /** Number of occurrences of `c` in `s`. */
  function Count(s: string, c: char): (n: nat)
    ensures n <= |s|
  {
    if s == [] then 0 else (if s[0] == c then 1 else 0) + Count(s[1..], c)
  }

  /** Counts add up over concatenation. */
  lemma {:induction false} CountAppend(a: string, b: string, c: char)
    ensures Count(a + b, c) == Count(a, c) + Count(b, c)
  {
    if a != [] {
      assert (a + b)[1..] == a[1..] + b;
      CountAppend(a[1..], b, c);
    } else {
      assert a + b == b;
    }
  }

  /** A text in which `c` is counted zero times does not hold `c`. */
  lemma {:induction false} CountZero(s: string, c: char)
    requires Count(s, c) == 0
    ensures forall k :: 0 <= k < |s| ==> s[k] != c
  {
    if s != [] {
      CountZero(s[1..], c);
      assert forall k :: 1 <= k < |s| ==> s[k] == s[1..][k - 1];
    }
  }

  /** `s.replace(c, rep)` for a one-character pattern, one step: the first character is replaced or kept. */
  lemma ReplaceCharStep(s: string, c: char, rep: string)
    requires s != []
    ensures ReplaceAll(s, [c], rep) == (if s[0] == c then rep else [s[0]]) + ReplaceAll(s[1..], [c], rep)
  {
    if s[0] == c {
      assert s[..1] == [c];
    } else {
      assert s[..1] != [c];
    }
  }

  /** `(k + 1) * n == k * n + n`. */
  lemma MulSucc(k: int, n: int)
    ensures k * (n + 1) == k * n + k
  {
  }

  /** Replacing every `c` by `rep` adds `|rep| - 1` characters per occurrence. */
  lemma {:induction false} ReplaceCharLength(s: string, c: char, rep: string)
    ensures |ReplaceAll(s, [c], rep)| == |s| + (|rep| - 1) * Count(s, c)
  {
    if s != [] {
      ReplaceCharStep(s, c, rep);
      ReplaceCharLength(s[1..], c, rep);
      var n := Count(s[1..], c);
      var k := |rep| - 1;
      if s[0] == c {
        assert Count(s, c) == n + 1;
        MulSucc(k, n);
      } else {
        assert Count(s, c) == n;
      }
    }
  }

  /**
    After replacing every `c` by `rep`, a character `d` occurs as often as in
    `s` (not counting `c` itself) plus once per `d` in each copy of `rep`.
   */
  lemma {:induction false} ReplaceCharCount(s: string, c: char, rep: string, d: char)
    ensures Count(ReplaceAll(s, [c], rep), d) == (if d == c then 0 else Count(s, d)) + Count(rep, d) * Count(s, c)
  {
    if s != [] {
      ReplaceCharStep(s, c, rep);
      ReplaceCharCount(s[1..], c, rep, d);
      var head := if s[0] == c then rep else [s[0]];
      CountAppend(head, ReplaceAll(s[1..], [c], rep), d);
      var n := Count(s[1..], c);
      if s[0] == c {
        assert Count(s, c) == n + 1;
        MulSucc(Count(rep, d), n);
      } else {
        assert Count(s, c) == n;
        assert [s[0]][1..] == [];
        assert Count(head, d) == (if s[0] == d then 1 else 0);
      }
    }
  }

  /** Text without `c` is left unchanged by replacing `c`. */
  lemma {:induction false} ReplaceCharAbsent(s: string, c: char, rep: string)
    requires Count(s, c) == 0
    ensures ReplaceAll(s, [c], rep) == s
  {
    if s != [] {
      ReplaceCharStep(s, c, rep);
      ReplaceCharAbsent(s[1..], c, rep);
      assert s == [s[0]] + s[1..];
    }
  }

  /** Python's `str(n)` for an integer. */
  function IntToString(n: int): (r: string)
    ensures r != []
    ensures r[0] == '-' <==> n < 0
    ensures forall k :: (if n < 0 then 1 else 0) <= k < |r| ==> '0' <= r[k] <= '9'
    ensures n >= 0 ==> DecimalValue(r) == n
    ensures n < 0 ==> DecimalValue(r[1..]) == -n
  {
    if n < 0 then "-" + NatToString(-n) else NatToString(n)
  }

  /** The number a string of decimal digits denotes. */
  function DecimalValue(ds: string): nat
    requires forall k :: 0 <= k < |ds| ==> '0' <= ds[k] <= '9'
  {
    if ds == [] then 0 else DecimalValue(ds[..|ds| - 1]) * 10 + (ds[|ds| - 1] as int - 48)
  }

  /** The decimal digits of `n`, without leading zeros. */
  function NatToString(n: nat): (r: string)
    ensures r != []
    ensures forall k :: 0 <= k < |r| ==> '0' <= r[k] <= '9'
    ensures DecimalValue(r) == n
    ensures r[0] == '0' <==> n == 0
  {
    var d := [(48 + n % 10) as char];
    if n < 10 then d
    else
      var r := NatToString(n / 10) + d;
      assert r[..|r| - 1] == NatToString(n / 10);
      r
  }

  /** ASCII letters (the model's approximation of Python's `isalpha`). */
  predicate IsAsciiLetter(c: char) {
    ('a' <= c <= 'z') || ('A' <= c <= 'Z')
  }

  /** ASCII upper-casing of one character (approximation of `str.upper`/`capitalize` on one letter). */
  function Upper(c: char): (u: char)
    ensures 'a' <= c <= 'z' ==> 'A' <= u <= 'Z' && u as int == c as int - 32 && LowerChar(u) == c
    ensures !('a' <= c <= 'z') ==> u == c
  {
    if 'a' <= c <= 'z' then (c as int - 32) as char else c
  }

  /** ASCII lower-casing of one character (approximation of `str.lower`). */
  function LowerChar(c: char): (l: char)
    ensures 'A' <= c <= 'Z' ==> 'a' <= l <= 'z' && l as int == c as int + 32
    ensures !('A' <= c <= 'Z') ==> l == c
  {
    if 'A' <= c <= 'Z' then (c as int + 32) as char else c
  }

  /** ASCII lower-casing of a string. */
  function Lower(s: string): (r: string)
    ensures |r| == |s|
    ensures forall k :: 0 <= k < |s| ==> r[k] == LowerChar(s[k])
    ensures forall k :: 0 <= k < |r| ==> !('A' <= r[k] <= 'Z')
    ensures (forall k :: 0 <= k < |s| ==> !('A' <= s[k] <= 'Z')) ==> r == s
  {
    seq(|s|, k requires 0 <= k < |s| => LowerChar(s[k]))
  }

  /** A slice of a slice is a slice of the original. */
  lemma SliceOfSlice<T>(s: seq<T>, a: nat, b: nat, i: nat, j: nat)
    requires a <= b <= |s| && i <= j <= b - a
    ensures s[a..b][i..j] == s[a + i..a + j]
  {
    var x, y := s[a..b][i..j], s[a + i..a + j];
    forall k | 0 <= k < |x| ensures x[k] == y[k] {
      assert x[k] == s[a..b][i + k];
    }
  }
}
