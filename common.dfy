/**
  Removal of the common indentation of a block of text (`remove_padding`).
  The block is split into lines as `str.splitlines` does; the smallest count
  of leading `' '` over the non-empty lines (starting from a cap of 100) is
  sliced off every line, and the lines are joined again with `'\n'`.
 */
module Common {
  import opened Strings

  /** The starting value of the minimum; a block indented by at least this much is left alone. */
  const PaddingCap: nat := 100

  /** Number of leading `' '` of a line (`len(l) - len(l.lstrip(' '))`); tabs do not count. */
  function LeadingBlanks(l: string): (n: nat)
    ensures n <= |l|
    ensures forall k :: 0 <= k < n ==> l[k] == ' '
    ensures n == |l| || l[n] != ' '
  {
    if l == [] || l[0] != ' ' then 0 else 1 + LeadingBlanks(l[1..])
  }

  /** The value of `minpadding` after the loop has looked at `lines`, in order. */
  function MinPadding(lines: seq<string>): nat
  {
    if lines == [] then PaddingCap
    else
      var m := MinPadding(lines[..|lines| - 1]);
      var l := lines[|lines| - 1];
      if |l| > 0 then Min(m, LeadingBlanks(l)) else m
  }

  /** Python's `l[m:]`: empty when the line is shorter than `m`. */
  function DropChars(l: string, m: nat): (r: string)
    ensures |r| == if m <= |l| then |l| - m else 0
    ensures forall j :: 0 <= j < |r| ==> r[j] == l[m + j]
  {
    if m <= |l| then l[m..] else []
  }

  /** Every line with its first `m` characters sliced off. */
  function DedentLines(lines: seq<string>, m: nat): (r: seq<string>)
    ensures |r| == |lines|
  {
    seq(|lines|, i requires 0 <= i < |lines| => DropChars(lines[i], m))
  }

  /** What `remove_padding(s)` returns. */
  function Dedent(s: string): string
  {
    var lines := SplitLines(s);
    var m := MinPadding(lines);
    if m == PaddingCap then s else Join(DedentLines(lines, m), "\n")
  }

  /** The `remove_padding` loop: the minimum is accumulated line by line, then every line is sliced. */
  method RemovePadding(s: string) returns (r: string)
    ensures r == Dedent(s)
  {
    var lines := SplitLines(s);
    var minpadding := PaddingCap;
    var i := 0;
    while i < |lines|
      invariant 0 <= i <= |lines|
      invariant minpadding == MinPadding(lines[..i])
    {
      var l := lines[i];
      if |l| > 0 {
        minpadding := Min(minpadding, LeadingBlanks(l));
      }
      assert lines[..i + 1][..i] == lines[..i];
      i := i + 1;
    }
    assert lines[..|lines|] == lines;
    if minpadding == PaddingCap {
      return s;
    }
    var sliced := seq(|lines|, k requires 0 <= k < |lines| => DropChars(lines[k], minpadding));
    r := Join(sliced, "\n");
  }

  /** A line that counts towards the minimum. */
  predicate NonEmpty(l: string) {
    |l| > 0
  }

  /**
    The minimum is a lower bound of the leading blanks of every non-empty line,
    is at most the cap, and is either the cap or attained by some non-empty line.
   */
  lemma {:induction false} MinPaddingIsMinimum(lines: seq<string>)
    ensures MinPadding(lines) <= PaddingCap
    ensures forall i :: 0 <= i < |lines| && NonEmpty(lines[i]) ==> MinPadding(lines) <= LeadingBlanks(lines[i])
    ensures MinPadding(lines) == PaddingCap
            || exists i :: 0 <= i < |lines| && NonEmpty(lines[i]) && LeadingBlanks(lines[i]) == MinPadding(lines)
  {
    if lines != [] {
      var init := lines[..|lines| - 1];
      MinPaddingIsMinimum(init);
      var m := MinPadding(init);
      var last := |lines| - 1;
      forall i | 0 <= i < |lines| && NonEmpty(lines[i]) ensures MinPadding(lines) <= LeadingBlanks(lines[i]) {
        if i < last {
          assert lines[i] == init[i];
        }
      }
      if MinPadding(lines) != PaddingCap {
        if NonEmpty(lines[last]) && LeadingBlanks(lines[last]) <= m {
          assert LeadingBlanks(lines[last]) == MinPadding(lines);
        } else {
          var j :| 0 <= j < |init| && NonEmpty(init[j]) && LeadingBlanks(init[j]) == m;
          assert lines[j] == init[j];
        }
      }
    }
  }

  /** If no line has text, the input comes back unchanged. */
  lemma NoTextUnchanged(s: string)
    requires forall i :: 0 <= i < |SplitLines(s)| ==> SplitLines(s)[i] == []
    ensures Dedent(s) == s
  {
    var lines := SplitLines(s);
    MinPaddingIsMinimum(lines);
  }

  /** If every non-empty line starts with at least 100 blanks, the input comes back unchanged. */
  lemma DeepIndentUnchanged(s: string)
    requires forall i :: 0 <= i < |SplitLines(s)| && NonEmpty(SplitLines(s)[i]) ==> LeadingBlanks(SplitLines(s)[i]) >= PaddingCap
    ensures Dedent(s) == s
  {
    var lines := SplitLines(s);
    MinPaddingIsMinimum(lines);
  }

  /**
    When the input is changed, it becomes the lines of `splitlines`, same
    number and order, each with exactly `m` leading characters removed, where
    `m` is the least count of leading blanks of a non-empty line; what is
    removed from a non-empty line consists only of blanks.
   */
  lemma DedentRemovesCommonBlanks(s: string)
    requires Dedent(s) != s
    ensures var lines := SplitLines(s);
            var m := MinPadding(lines);
            && m < PaddingCap
            && (exists i :: 0 <= i < |lines| && NonEmpty(lines[i]) && LeadingBlanks(lines[i]) == m)
            && (forall i :: 0 <= i < |lines| && NonEmpty(lines[i]) ==> m <= |lines[i]| && forall k :: 0 <= k < m ==> lines[i][k] == ' ')
            && Dedent(s) == Join(DedentLines(lines, m), "\n")
  {
    MinPaddingIsMinimum(SplitLines(s));
  }

  /** When some non-empty line has no leading blank, every line is kept and only rejoined with `'\n'`. */
  lemma NoCommonIndentRejoins(s: string, j: nat)
    requires j < |SplitLines(s)| && NonEmpty(SplitLines(s)[j]) && LeadingBlanks(SplitLines(s)[j]) == 0
    ensures Dedent(s) == Join(SplitLines(s), "\n")
  {
    var lines := SplitLines(s);
    MinPaddingIsMinimum(lines);
    assert DedentLines(lines, 0) == lines;
  }

  /** A single line that does not open with a blank comes back unchanged. */
  lemma DedentUnindentedLine(x: string)
    requires x != [] && x[0] != ' '
    requires forall k :: 0 <= k < |x| ==> !IsLineBreak(x[k])
    ensures Dedent(x) == x
  {
    assert LineEnd(x, 0) == |x|;
    assert SplitLines(x) == [x];
    NoCommonIndentRejoins(x, 0);
  }

  /**
    `remove_padding` is not idempotent: a trailing line of blanks becomes an empty
    line, which a second `splitlines` no longer sees.
   */
  lemma DedentNotIdempotent()
    ensures Dedent("  a\n  ") == "a\n"
    ensures Dedent(Dedent("  a\n  ")) == "a"
  {
    DedentBlankTail();
    DedentSingleLine();
  }

  /** The two lines of `"  a\n  "` lose their two common blanks; the second becomes empty. */
  lemma DedentBlankTail()
    ensures Dedent("  a\n  ") == "a\n"
  {
    DedentSplitsBlankTail();
    var lines := ["  a", "  "];
    assert MinPadding(lines) == 2 by {
      assert lines[..1] == ["  a"];
      assert LeadingBlanks("  a") == 2;
    }
    assert DedentLines(lines, 2) == ["a", ""];
  }

  /** `"  a\n  "` splits into its indented line and a line of two blanks. */
  lemma DedentSplitsBlankTail()
    ensures SplitLines("  a\n  ") == ["  a", "  "]
  {
    var s := "  a\n  ";
    assert LineEnd(s, 0) == 3;
    assert s[3] == '\n' && s[..3] == "  a" && s[4..] == "  ";
    assert LineEnd("  ", 0) == 2;
    assert SplitLines("  ") == ["  "];
  }

  /** A single unindented line with a trailing line break loses that line break. */
  lemma DedentSingleLine()
    ensures Dedent("a\n") == "a"
  {
    var t := "a\n";
    assert SplitLines(t) == ["a"] by {
      assert LineEnd(t, 0) == 1;
      assert t[1] == '\n' && t[..1] == "a" && t[2..] == [];
    }
    assert MinPadding(["a"]) == 0;
    assert DedentLines(["a"], 0) == ["a"];
  }
}
