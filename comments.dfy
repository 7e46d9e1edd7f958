/**
  Normalisation of the text that clang hands over for a declaration: the raw
  comment (`clean_text`, `clean_comment`, the `@copybrief` directive and the
  `@brief` marker) and the declaration's source (`replace_macros`,
  `source_to_definition`, the `using` keyword of aliases).
 */
module Comments {
  import opened Strings
  import opened Optional
  import opened Rewrite
  import Common
  import opened Descriptions
  import opened Patterns

  /** Replacing tabs by four blanks: three more characters per tab, no tab left, carriage returns untouched. */
  lemma ExpandTabs(s: string)
    ensures var t := ReplaceAll(s, "\t", "    ");
            && |t| == |s| + 3 * Count(s, '\t')
            && Count(t, '\t') == 0 && Count(t, '\r') == Count(s, '\r')
            && (Count(s, '\t') == 0 ==> t == s)
  {
    var blanks := "    ";
    assert Count(blanks, '\t') == 0 && Count(blanks, '\r') == 0 by {
      assert blanks[1..][1..][1..][1..] == [];
    }
    ReplaceCharLength(s, '\t', blanks);
    ReplaceCharCount(s, '\t', blanks, '\t');
    ReplaceCharCount(s, '\t', blanks, '\r');
    if Count(s, '\t') == 0 {
      ReplaceCharAbsent(s, '\t', blanks);
    }
  }

  /** Removing carriage returns: one character less per return, none left, tabs untouched. */
  lemma DropReturns(t: string)
    ensures var r := ReplaceAll(t, "\r", "");
            && |r| == |t| - Count(t, '\r')
            && Count(r, '\r') == 0 && Count(r, '\t') == Count(t, '\t')
            && (Count(t, '\r') == 0 ==> r == t)
  {
    ReplaceCharLength(t, '\r', "");
    ReplaceCharCount(t, '\r', "", '\t');
    ReplaceCharCount(t, '\r', "", '\r');
    if Count(t, '\r') == 0 {
      ReplaceCharAbsent(t, '\r', "");
    }
  }

  /** `clean_text`: every tab becomes four blanks, then every `'\r'` is removed. */
  function CleanText(s: string): (r: string)
    ensures Count(r, '\t') == 0 && Count(r, '\r') == 0
    ensures |r| == |s| + 3 * Count(s, '\t') - Count(s, '\r')
    ensures Count(s, '\t') == 0 && Count(s, '\r') == 0 ==> r == s
  {
    ExpandTabs(s);
    DropReturns(ReplaceAll(s, "\t", "    "));
    ReplaceAll(ReplaceAll(s, "\t", "    "), "\r", "")
  }

  /** Python's `s[a:b]` for `0 <= a` and `b` counted from the end (`s[a:-k]`). */
  function SliceDropLast(s: string, a: nat, k: nat): (r: string)
    ensures |r| == if a + k <= |s| then |s| - a - k else 0
    ensures forall j :: 0 <= j < |r| ==> r[j] == s[a + j]
  {
    if a + k <= |s| then s[a..|s| - k] else []
  }

  /**
    Python's `s[4::-2]` for a string of at least four characters: from index
    `min(4, len(s) - 1)` down to 0 in steps of 2.
   */
  function BackFromFourStepTwo(s: string): (r: string)
    requires |s| >= 4
    ensures |r| == Min(4, |s| - 1) / 2 + 1
    ensures forall k :: 0 <= k < |r| ==> r[k] == s[Min(4, |s| - 1) - 2 * k]
  {
    if |s| >= 5 then [s[4], s[2], s[0]] else [s[3], s[1]]
  }

  predicate StartsWith(s: string, p: string) {
    HasPrefixAt(s, 0, p)
  }

  /** A text that differs from `p` at some position of both does not start with `p`. */
  lemma DiffersAt(t: string, p: string, k: nat)
    requires k < |p| && k < |t| && t[k] != p[k]
    ensures !StartsWith(t, p)
  {
    if |p| <= |t| {
      assert t[0..|p|][k] == t[k];
    }
  }

  /** `clean_comment`: the comment markers are removed according to the opening of the stripped comment. */
  function CleanComment(s: string): string {
    var t := Strip(s);
    if StartsWith(t, "///<") then Common.Dedent(t[4..])
    else if StartsWith(t, "/**<") then Common.Dedent(BackFromFourStepTwo(t))
    else if StartsWith(t, "///") then Common.Dedent(Sub(TripleSlash, "", t))
    else if StartsWith(t, "/**") then Common.Dedent(Sub(Star, "", SliceDropLast(t, 3, 2)))
    else t
  }

  /** No position of a text without `'\n'` other than 0 is a line start. */
  lemma OnlyFirstLineStart(t: string, j: nat)
    requires forall k :: 0 <= k < |t| ==> t[k] != '\n'
    requires 0 < j
    ensures !LineStart(t, j)
  {
  }

  /** A one-line `///` comment loses its marker and is dedented. */
  lemma LineCommentOneLine(s: string, x: string)
    requires Strip(s) == "///" + x
    requires forall k :: 0 <= k < |x| ==> x[k] != '\n'
    requires x == [] || x[0] != '<'
    ensures CleanComment(s) == Common.Dedent(x)
  {
    var t := "///" + x;
    if x != [] {
      DiffersAt(t, "///<", 3);
    }
    DiffersAt(t, "/**<", 1);
    assert t[0..3] == "///";
    TripleSlashRemoved(x);
  }

  /** On a single line, the only `///` marker removed is the leading one. */
  lemma TripleSlashRemoved(x: string)
    requires forall k :: 0 <= k < |x| ==> x[k] != '\n'
    ensures Sub(TripleSlash, "", "///" + x) == x
  {
    var t := "///" + x;
    assert SpaceRun(t, 0) == 0 && t[..3] == "///";
    assert TripleSlashAt(t, 0) == Some(3);
    forall j | 3 <= j < |t| ensures TripleSlash(t, j).None? {
      assert t[j - 1] != '\n';
    }
    SubFromNoMatch(TripleSlash, "", t, 3);
    assert t[3..] == x;
  }

  /** Blanks within one line: whitespace other than `'\n'`. */
  predicate LineBlanks(w: string) {
    forall k :: 0 <= k < |w| ==> IsSpace(w[k]) && w[k] != '\n'
  }

  /** Text within one line. */
  predicate OneLine(x: string) {
    forall k :: 0 <= k < |x| ==> x[k] != '\n'
  }

  /** The lines of a line comment: line `i` is the blanks `ws[i]`, the marker `///` and the text `xs[i]`. */
  function SlashLines(ws: seq<string>, xs: seq<string>): (ls: seq<string>)
    requires |ws| == |xs|
    ensures |ls| == |ws|
  {
    if ws == [] then [] else [ws[0] + "///" + xs[0]] + SlashLines(ws[1..], xs[1..])
  }

  /** Behind a text that ends with `'\n'`, the marker pattern matches as it does at the start of a text. */
  lemma TripleSlashShift(a: string, b: string, j: nat)
    requires a != [] && a[|a| - 1] == '\n' && j <= |b|
    ensures TripleSlashAt(a + b, |a| + j) == if TripleSlashAt(b, j).Some? then Some(|a| + TripleSlashAt(b, j).value) else None
  {
    var s := a + b;
    SpaceRunShift(a, b, j);
    HasPrefixShift(a, b, j + SpaceRun(b, j), "///");
    assert LineStart(s, |a| + j) <==> LineStart(b, j) by {
      if j > 0 {
        assert s[|a| + j - 1] == b[j - 1];
      }
    }
  }

  /** Behind a text that ends with `'\n'`, marker removal proceeds as it does on the rest alone. */
  lemma {:induction false} TripleSlashSubShift(a: string, b: string, j: nat)
    requires a != [] && a[|a| - 1] == '\n' && j <= |b|
    ensures SubFrom(TripleSlash, "", a + b, |a| + j) == SubFrom(TripleSlash, "", b, j)
    decreases |b| - j
  {
    var s := a + b;
    if j < |b| {
      TripleSlashShift(a, b, j);
      match TripleSlashAt(b, j)
      case Some(e) =>
        assert TripleSlash(s, |a| + j) == Some(|a| + e);
        assert SubFrom(TripleSlash, "", s, |a| + j) == "" + SubFrom(TripleSlash, "", s, |a| + e);
        assert SubFrom(TripleSlash, "", b, j) == "" + SubFrom(TripleSlash, "", b, e);
        TripleSlashSubShift(a, b, e);
      case None =>
        assert TripleSlash(s, |a| + j).None?;
        assert s[|a| + j] == b[j];
        assert SubFrom(TripleSlash, "", s, |a| + j) == [b[j]] + SubFrom(TripleSlash, "", s, |a| + j + 1);
        assert SubFrom(TripleSlash, "", b, j) == [b[j]] + SubFrom(TripleSlash, "", b, j + 1);
        TripleSlashSubShift(a, b, j + 1);
    }
  }

  /** At the start of a text, blanks within the line and `///` are one match of the marker pattern. */
  lemma MarkerAtStart(s: string, w: string)
    requires LineBlanks(w) && |w| + 3 <= |s|
    requires s[..|w|] == w && s[|w|..|w| + 3] == "///"
    ensures TripleSlashAt(s, 0) == Some(|w| + 3)
  {
    assert forall q :: 0 <= q < |w| ==> s[q] == w[q];
    assert s[|w|] == '/';
    SpaceRunIs(s, 0, |w|);
  }

  /** A comment line followed by the rest of the comment: the marker is the only match on the line. */
  lemma SlashLineLayout(s: string, w: string, x: string, after: string)
    requires LineBlanks(w) && OneLine(x) && s == w + "///" + x + after
    ensures TripleSlash(s, 0) == Some(|w| + 3)
    ensures s[|w| + 3..|w| + 3 + |x|] == x
    ensures forall k :: |w| + 3 <= k < |w| + 3 + |x| ==> TripleSlash(s, k).None?
  {
    var line := w + "///" + x;
    var n := |w| + 3;
    assert s[..|w|] == w && s[|w|..n] == "///";
    MarkerAtStart(s, w);
    assert forall q :: n <= q < |line| ==> s[q] == x[q - n];
    forall k | n <= k < |line| ensures !LineStart(s, k) {
      if k > n {
        assert s[k - 1] == x[k - 1 - n];
      }
    }
    assert s[n..|line|] == x;
  }

  /** A marker match at the start followed by a stretch `x` without matches: the marker goes, `x` stays. */
  lemma MarkerThenText(s: string, n: nat, j: nat, x: string)
    requires n <= j <= |s| && TripleSlash(s, 0) == Some(n) && s[n..j] == x
    requires forall k :: n <= k < j ==> TripleSlash(s, k).None?
    ensures SubFrom(TripleSlash, "", s, 0) == x + SubFrom(TripleSlash, "", s, j)
  {
    SubFromKeep(TripleSlash, "", s, n, j);
    assert SubFrom(TripleSlash, "", s, 0) == "" + SubFrom(TripleSlash, "", s, n);
  }

  /**
    In a comment made only of `///` lines, each possibly indented, every
    marker and the blanks before it are removed and nothing else: the lines
    keep their text and their order.
   */
  lemma {:induction false} TripleSlashLines(ws: seq<string>, xs: seq<string>)
    requires |ws| == |xs| >= 1
    requires forall i :: 0 <= i < |ws| ==> LineBlanks(ws[i]) && OneLine(xs[i])
    ensures Sub(TripleSlash, "", Join(SlashLines(ws, xs), "\n")) == Join(xs, "\n")
    decreases |ws|
  {
    var line := ws[0] + "///" + xs[0];
    assert LineBlanks(ws[0]) && OneLine(xs[0]);
    if |ws| == 1 {
      assert Join(SlashLines(ws, xs), "\n") == line;
      LastSlashLine(line, ws[0], xs[0]);
    } else {
      var rest := Join(SlashLines(ws[1..], xs[1..]), "\n");
      assert SlashLines(ws, xs)[1..] == SlashLines(ws[1..], xs[1..]);
      assert Join(SlashLines(ws, xs), "\n") == line + "\n" + rest;
      SlashLineThenRest(line, ws[0], xs[0], rest);
      TripleSlashLines(ws[1..], xs[1..]);
    }
  }

  /** A comment of a single `///` line keeps the text after the marker. */
  lemma LastSlashLine(line: string, w: string, x: string)
    requires LineBlanks(w) && OneLine(x) && line == w + "///" + x
    ensures Sub(TripleSlash, "", line) == x
  {
    var n := |w| + 3;
    assert TripleSlash(line, 0) == Some(n) && line[n..|line|] == x && forall k :: n <= k < |line| ==> TripleSlash(line, k).None? by {
      assert line == w + "///" + x + [];
      SlashLineLayout(line, w, x, []);
    }
    MarkerThenText(line, n, |line|, x);
    assert SubFrom(TripleSlash, "", line, |line|) == [];
  }

  /** The first `///` line of a longer comment keeps its text and its line break; the rest is rewritten on its own. */
  lemma SlashLineThenRest(line: string, w: string, x: string, rest: string)
    requires LineBlanks(w) && OneLine(x) && line == w + "///" + x
    ensures Sub(TripleSlash, "", line + "\n" + rest) == x + "\n" + Sub(TripleSlash, "", rest)
  {
    var s := line + "\n" + rest;
    var head := SubFrom(TripleSlash, "", s, |line|);
    var tail := SubFrom(TripleSlash, "", s, |line| + 1);
    assert SubFrom(TripleSlash, "", s, 0) == x + head by {
      FirstSlashLine(s, line, w, x, rest);
    }
    assert head == "\n" + tail by {
      SlashLineEnd(s, line, w, x, rest);
      NewlineKept(s, |line|);
    }
    assert tail == Sub(TripleSlash, "", rest) by {
      RestAfterLine(line, rest);
    }
    assert x + ("\n" + tail) == x + "\n" + tail;
  }

  /** After a line and its break, marker removal goes on as it would on the remaining text alone. */
  lemma RestAfterLine(line: string, rest: string)
    ensures SubFrom(TripleSlash, "", line + "\n" + rest, |line| + 1) == Sub(TripleSlash, "", rest)
  {
    var a := line + "\n";
    TripleSlashSubShift(a, rest, 0);
  }

  /** The first line of a longer comment: its marker is removed and its text kept up to its line break. */
  lemma FirstSlashLine(s: string, line: string, w: string, x: string, rest: string)
    requires LineBlanks(w) && OneLine(x) && line == w + "///" + x && s == line + "\n" + rest
    ensures SubFrom(TripleSlash, "", s, 0) == x + SubFrom(TripleSlash, "", s, |line|)
  {
    var n := |w| + 3;
    assert TripleSlash(s, 0) == Some(n) && s[n..|line|] == x && forall k :: n <= k < |line| ==> TripleSlash(s, k).None? by {
      assert s == w + "///" + x + ("\n" + rest);
      SlashLineLayout(s, w, x, "\n" + rest);
    }
    MarkerThenText(s, n, |line|, x);
  }

  /** A `///` line followed by a line break: the break comes right after a character that is not one. */
  lemma SlashLineEnd(s: string, line: string, w: string, x: string, rest: string)
    requires OneLine(x) && line == w + "///" + x && s == line + "\n" + rest
    ensures 0 < |line| < |s| && s[|line|] == '\n' && s[|line| - 1] != '\n'
  {
    assert s[|line|] == (line + "\n")[|line|];
    assert s[|line| - 1] == line[|line| - 1];
    if |x| == 0 {
      assert line[|line| - 1] == "///"[2];
    } else {
      assert line[|line| - 1] == x[|x| - 1];
    }
  }

  /** A line break that ends a line with text is not a line start and is kept. */
  lemma NewlineKept(s: string, p: nat)
    requires 0 < p < |s| && s[p] == '\n' && s[p - 1] != '\n'
    ensures SubFrom(TripleSlash, "", s, p) == "\n" + SubFrom(TripleSlash, "", s, p + 1)
  {
    assert TripleSlash(s, p).None?;
  }

  /**
    `clean_comment` on a comment made only of `///` lines: the markers, and
    the blanks before them, are removed line by line, and the result is
    dedented.
   */
  lemma LineCommentLines(s: string, ws: seq<string>, xs: seq<string>)
    requires |ws| == |xs| >= 1 && ws[0] == []
    requires forall i :: 0 <= i < |ws| ==> LineBlanks(ws[i]) && OneLine(xs[i])
    requires xs[0] == [] || xs[0][0] != '<'
    requires Strip(s) == Join(SlashLines(ws, xs), "\n")
    ensures CleanComment(s) == Common.Dedent(Join(xs, "\n"))
  {
    var t := Strip(s);
    assert StartsWith(t, "///") && !StartsWith(t, "///<") && !StartsWith(t, "/**<") by {
      SlashCommentOpening(t, ws, xs);
    }
    assert Sub(TripleSlash, "", t) == Join(xs, "\n") by {
      TripleSlashLines(ws, xs);
    }
  }

  /** A comment whose first line is `///` and a text not opening with `<` takes the plain `///` branch. */
  lemma SlashCommentOpening(t: string, ws: seq<string>, xs: seq<string>)
    requires |ws| == |xs| >= 1 && ws[0] == []
    requires xs[0] == [] || xs[0][0] != '<'
    requires t == Join(SlashLines(ws, xs), "\n")
    ensures StartsWith(t, "///") && !StartsWith(t, "///<") && !StartsWith(t, "/**<")
  {
    var line := ws[0] + "///" + xs[0];
    assert line == "///" + xs[0];
    if |ws| == 1 {
      assert t == line;
    } else {
      assert SlashLines(ws, xs)[0] == line;
      assert t == line + "\n" + Join(SlashLines(ws[1..], xs[1..]), "\n");
    }
    assert t[..3] == "///";
    if |t| > 3 {
      assert t[3] == if xs[0] != [] then xs[0][0] else '\n';
      DiffersAt(t, "///<", 3);
    }
    DiffersAt(t, "/**<", 1);
  }

  // A one-line block comment (opened by slash-star-star, closed by star-slash)
  // without a star in its text loses its markers and is dedented.
  lemma BlockCommentOneLine(s: string, x: string)
    requires Strip(s) == "/**" + x + "*/"
    requires forall k :: 0 <= k < |x| ==> x[k] != '\n' && x[k] != '*'
    requires x == [] || x[0] != '<'
    ensures CleanComment(s) == Common.Dedent(x)
  {
    var t := "/**" + x + "*/";
    DiffersAt(t, "///<", 1);
    DiffersAt(t, "///", 1);
    DiffersAt(t, "/**<", 3);
    assert t[0..3] == "/**";
    assert SliceDropLast(t, 3, 2) == x;
    forall j | 0 <= j < |x| ensures Star(x, j).None? {
    }
    SubNoMatch(Star, "", x);
  }

  // The branch for a trailing block comment (opened by slash-star-star-<)
  // reads the comment backwards from its fifth character in steps of two, so
  // of everything after the opening only that fifth character survives: the
  // text of the comment is lost.
  lemma TrailingBlockCommentLosesText(s: string)
    requires StartsWith(Strip(s), "/**<") && |Strip(s)| >= 5
    ensures CleanComment(s) == Common.Dedent([Strip(s)[4], '*', '/'])
  {
    var t := Strip(s);
    assert t[..4] == "/**<";
    assert t[0] == '/' && t[2] == '*';
    assert !StartsWith(t, "///<");
  }

  // In particular every trailing block comment whose text starts with a
  // blank, such as the comment "/**< value */", becomes "*/".
  lemma TrailingBlockCommentBecomesCloser(s: string)
    requires StartsWith(Strip(s), "/**<") && |Strip(s)| >= 5 && Strip(s)[4] == ' '
    ensures CleanComment(s) == "*/"
  {
    TrailingBlockCommentLosesText(s);
    var u := [' ', '*', '/'];
    assert [Strip(s)[4], '*', '/'] == u;
    DedentOneIndentedLine(u);
    assert u[1..] == "*/";
  }

  /** A single line indented by one blank loses that blank. */
  lemma DedentOneIndentedLine(u: string)
    requires |u| >= 2 && u[0] == ' ' && u[1] != ' '
    requires forall k :: 0 <= k < |u| ==> !IsLineBreak(u[k])
    ensures Common.Dedent(u) == u[1..]
  {
    assert LineEnd(u, 0) == |u|;
    assert SplitLines(u) == [u];
    assert Common.LeadingBlanks(u) == 1 by {
      assert u[1..][0] == u[1];
    }
    assert Common.MinPadding([u]) == 1 by {
      assert [u][..0] == [];
    }
    assert Common.DedentLines([u], 1) == [u[1..]];
  }

  /** The `///<` branch: the opening is cut off and the rest dedented. */
  lemma TrailingLineComment(s: string)
    requires StartsWith(Strip(s), "///<")
    ensures CleanComment(s) == Common.Dedent(Strip(s)[4..])
  {
  }

  /** `dict.items()` of the macros, in insertion order; each key is taken literally. */
  type Macros = seq<(string, string)>

  /**
    `re.sub(r'\b\b', value, s)`, which is what an empty key gives: the pattern
    matches the empty text at every word boundary from `i` on, and `value` is
    inserted there.
   */
  function InsertAtBoundaries(s: string, value: string, i: nat): string
    requires i <= |s|
    decreases |s| - i
  {
    (if Boundary(s, i) then value else [])
    + (if i == |s| then [] else [s[i]] + InsertAtBoundaries(s, value, i + 1))
  }

  /** One macro applied: the key as a whole word, or, for the empty key, every word boundary. */
  function MacroApplied(s: string, key: string, value: string): string {
    if key == [] then InsertAtBoundaries(s, value, 0) else Sub(WholeWord(key), value, s)
  }

  /** The text after `replace_macros` has applied the first `|macros|` entries. */
  function MacrosApplied(s: string, macros: Macros): string {
    if macros == [] then s
    else
      var (key, value) := macros[|macros| - 1];
      MacroApplied(MacrosApplied(s, macros[..|macros| - 1]), key, value)
  }

  /** `replace_macros`: each key, as a whole word, is replaced by its value, one key after the other. */
  method ReplaceMacros(s: string, macros: Macros) returns (r: string)
    ensures r == MacrosApplied(s, macros)
  {
    r := s;
    for i := 0 to |macros|
      invariant r == MacrosApplied(s, macros[..i])
    {
      var (key, value) := macros[i];
      if key == [] {
        r := InsertAtBoundaries(r, value, 0);
      } else {
        r := Sub(WholeWord(key), value, r);
      }
      assert macros[..i + 1][..i] == macros[..i];
    }
    assert macros[..|macros|] == macros;
  }

  /** Inserting nothing at the boundaries changes nothing. */
  lemma {:induction false} InsertNothing(s: string, i: nat)
    requires i <= |s|
    ensures InsertAtBoundaries(s, "", i) == s[i..]
    decreases |s| - i
  {
    if i < |s| {
      InsertNothing(s, i + 1);
      assert s[i..] == [s[i]] + s[i + 1..];
    }
  }

  /** Hidden tokens are deleted (every value is `''`), so the text never grows. */
  lemma {:induction false} DeletingMacrosShrinks(s: string, macros: Macros)
    requires forall k :: 0 <= k < |macros| ==> macros[k].1 == ""
    ensures |MacrosApplied(s, macros)| <= |s|
  {
    if macros != [] {
      var init := macros[..|macros| - 1];
      var before := MacrosApplied(s, init);
      DeletingMacrosShrinks(s, init);
      if macros[|macros| - 1].0 == [] {
        InsertNothing(before, 0);
      } else {
        SubDeleteShrinks(WholeWord(macros[|macros| - 1].0), before);
      }
    }
  }

  /**
    A key that does not occur as a whole word leaves the text unchanged, and
    so does the empty key when its value is empty, as for hidden tokens.
   */
  lemma AbsentMacroUnchanged(s: string, key: string, value: string)
    requires key != [] ==> forall i :: 0 <= i < |s| ==> !(HasPrefixAt(s, i, key) && Boundary(s, i) && Boundary(s, i + |key|))
    requires key == [] ==> value == ""
    ensures MacrosApplied(s, [(key, value)]) == s
  {
    assert [(key, value)][..0] == [];
    if key == [] {
      InsertNothing(s, 0);
    } else {
      forall j | 0 <= j < |s| ensures WholeWord(key)(s, j).None? {
      }
      SubNoMatch(WholeWord(key), value, s);
    }
  }

  /** An empty key with a value inserts the value at every word boundary: `ab` becomes `XabX`. */
  lemma EmptyKeyMarksBoundaries()
    ensures MacrosApplied("ab", [("", "X")]) == "XabX"
  {
    var s := "ab";
    assert [("", "X")][..0] == [];
    assert IsWordChar('a') && IsWordChar('b');
    assert InsertAtBoundaries(s, "X", 2) == "X";
    assert InsertAtBoundaries(s, "X", 1) == "bX";
    assert InsertAtBoundaries(s, "X", 0) == "XabX";
  }

  /** An occurrence of the key glued to a word character is not a whole word and is kept. */
  lemma GluedKeyKept(s: string, key: string, i: nat)
    requires key != [] && HasPrefixAt(s, i, key)
    requires IsWordChar(key[0]) && 0 < i && IsWordChar(s[i - 1])
    ensures WholeWord(key)(s, i).None?
  {
  }

  /** `source_to_definition`: the stripped text before the first `{`, or all of it stripped. */
  function SourceToDefinition(src: string): (r: string)
    ensures forall k :: 0 <= k < |r| ==> r[k] != '{'
    ensures IsStripped(r)
    ensures |r| <= IndexOf(src, '{')
    ensures (forall k :: 0 <= k < |src| ==> src[k] != '{') ==> r == Strip(src)
    ensures '{' in src ==> src[IndexOf(src, '{')] == '{' && r == Strip(src[..IndexOf(src, '{')])
  {
    var head := src[..IndexOf(src, '{')];
    assert forall k :: 0 <= k < |head| ==> head[k] != '{';
    if IndexOf(src, '{') == |src| then assert head == src; Strip(head)
    else Strip(head)
  }

  /** The `using` keyword removed from an alias definition: `re.sub(r'(^|\s+)using\s+', '', d)`. */
  function StripUsing(d: string): (r: string)
    ensures |r| <= |d|
  {
    SubDeleteShrinks(Using, d);
    Sub(Using, "", d)
  }

  /** A definition in which `using` is never introduced by whitespace or the start is left as it is. */
  lemma NoUsingUnchanged(d: string)
    requires forall i :: 0 <= i < |d| ==> UsingAt(d, i).None?
    ensures StripUsing(d) == d
  {
    forall i | 0 <= i < |d| ensures Using(d, i).None? {
    }
    SubNoMatch(Using, "", d);
  }

  /**
    An alias definition `using T = ...`, with a single blank after the keyword
    and no other `using` in it, loses exactly the keyword and that blank.
   */
  lemma UsingAliasStripped(t: string)
    requires t == [] || !IsSpace(t[0])
    requires forall j :: 0 <= j < |t| ==> !HasPrefixAt(t, j, "using")
    ensures StripUsing("using " + t) == t
  {
    var s := "using " + t;
    assert Using(s, 0) == Some(6) && NoMatchFrom(Using, s, 6) by {
      UsingThenNoMatch(s, "using ", t, "using");
    }
    SubSingleLeadingMatch(Using, "", s, 6);
    assert s[6..] == t;
  }

  /**
    A description that opens with `@brief `, with no other `@brief` in it,
    loses exactly the marker and its blank (`re.sub(r'\s*@brief\s*', '', d)`).
   */
  lemma BriefMarkerRemoved(t: string)
    requires t == [] || !IsSpace(t[0])
    requires forall j :: 0 <= j < |t| ==> !HasPrefixAt(t, j, "@brief")
    ensures Sub(Brief, "", "@brief " + t) == t
  {
    var s := "@brief " + t;
    assert Brief(s, 0) == Some(7) && NoMatchFrom(Brief, s, 7) by {
      BriefThenNoMatch(s, "@brief ", t, "@brief");
    }
    SubSingleLeadingMatch(Brief, "", s, 7);
    assert s[7..] == t;
  }

  /**
    Behind a prefix `a`, a text that never contains `kw` does not contain it
    after any run of whitespace either.
   */
  lemma KeywordAbsentAfter(s: string, a: string, t: string, kw: string)
    requires s == a + t && kw != []
    requires forall j :: 0 <= j < |t| ==> !HasPrefixAt(t, j, kw)
    ensures forall j :: |a| <= j < |s| ==> !HasPrefixAt(s, j + SpaceRun(s, j), kw)
  {
    forall j | |a| <= j < |s| ensures !HasPrefixAt(s, j + SpaceRun(s, j), kw) {
      KeywordAbsentAt(s, a, t, kw, j);
    }
  }

  /** One position of `KeywordAbsentAfter`. */
  lemma KeywordAbsentAt(s: string, a: string, t: string, kw: string, j: nat)
    requires s == a + t && kw != [] && |a| <= j < |s|
    requires forall j :: 0 <= j < |t| ==> !HasPrefixAt(t, j, kw)
    ensures !HasPrefixAt(s, j + SpaceRun(s, j), kw)
  {
    var q := j - |a|;
    SpaceRunShift(a, t, q);
    assert j + SpaceRun(s, j) == |a| + (q + SpaceRun(t, q));
    HasPrefixShift(a, t, q + SpaceRun(t, q), kw);
  }

  /** `using`, one blank, and a text without `using` that does not open with whitespace: one match, at the start. */
  lemma UsingThenNoMatch(s: string, a: string, t: string, kw: string)
    requires kw == "using" && a == kw + " " && s == a + t
    requires t == [] || !IsSpace(t[0])
    requires forall j :: 0 <= j < |t| ==> !HasPrefixAt(t, j, kw)
    ensures UsingAt(s, 0) == Some(|a|) && forall j :: |a| <= j < |s| ==> UsingAt(s, j).None?
  {
    assert s[..|kw|] == kw && s[|kw|] == ' ';
    SpaceRunIs(s, |kw|, 1);
    KeywordAbsentAfter(s, a, t, kw);
  }

  /** `@brief`, one blank, and a text without `@brief` that does not open with whitespace: one match, at the start. */
  lemma BriefThenNoMatch(s: string, a: string, t: string, kw: string)
    requires kw == "@brief" && a == kw + " " && s == a + t
    requires t == [] || !IsSpace(t[0])
    requires forall j :: 0 <= j < |t| ==> !HasPrefixAt(t, j, kw)
    ensures BriefAt(s, 0) == Some(|a|) && forall j :: |a| <= j < |s| ==> BriefAt(s, j).None?
  {
    BriefOpens(s, a, t);
    BriefAbsentAfter(s, a, t);
  }

  /** `@brief` and one blank before a text that does not open with whitespace: one match, ending after the blank. */
  lemma BriefOpens(s: string, a: string, t: string)
    requires a == "@brief " && s == a + t
    requires t == [] || !IsSpace(t[0])
    ensures BriefAt(s, 0) == Some(|a|)
  {
    assert s[..6] == "@brief" && s[6] == ' ';
    SpaceRunIs(s, 0, 0);
    SpaceRunIs(s, 6, 1);
  }

  /** Behind a prefix `a`, a text without `@brief` gives no match of the marker pattern. */
  lemma BriefAbsentAfter(s: string, a: string, t: string)
    requires s == a + t
    requires forall j :: 0 <= j < |t| ==> !HasPrefixAt(t, j, "@brief")
    ensures forall j :: |a| <= j < |s| ==> BriefAt(s, j).None?
  {
    forall j | |a| <= j < |s| ensures BriefAt(s, j).None? {
      KeywordAbsentAt(s, a, t, "@brief", j);
    }
  }

  /** The characters `[a-zA-Z0-9:._-]` of a `@copybrief` target. */
  predicate IsNameChar(c: char) {
    IsAsciiLetter(c) || ('0' <= c <= '9') || c in ":._-"
  }

  /** Length of the run of name characters at `i`. */
  function NameRun(s: string, i: nat): (n: nat)
    requires i <= |s|
    ensures i + n <= |s|
    ensures forall k :: i <= k < i + n ==> IsNameChar(s[k])
    ensures i + n == |s| || !IsNameChar(s[i + n])
    decreases |s| - i
  {
    if i == |s| || !IsNameChar(s[i]) then 0 else 1 + NameRun(s, i + 1)
  }

  /** `re.match(r'[@\\]copybrief\s+([a-zA-Z0-9:\._-]+)', t)`: the target name, when `t` starts with the directive. */
  function CopyTarget(t: string): (r: Option<string>)
    ensures r.Some? <==> |t| >= 10 && IsCommandChar(t[0]) && HasPrefixAt(t, 1, "copybrief")
                         && SpaceRun(t, 10) > 0 && NameRun(t, 10 + SpaceRun(t, 10)) > 0
    ensures r.Some? ==> r.value != [] && forall k :: 0 <= k < |r.value| ==> IsNameChar(r.value[k])
    ensures r.Some? ==> r.value == t[10 + SpaceRun(t, 10)..10 + SpaceRun(t, 10) + NameRun(t, 10 + SpaceRun(t, 10))]
  {
    if |t| >= 10 && IsCommandChar(t[0]) && HasPrefixAt(t, 1, "copybrief") && SpaceRun(t, 10) > 0 then
      var a := 10 + SpaceRun(t, 10);
      if NameRun(t, a) > 0 then Some(t[a..a + NameRun(t, a)]) else None
    else None
  }

  /**
    The description made from a cleaned comment: a copy directive when the
    stripped comment starts with `@copybrief NAME`; otherwise the comment,
    without its `@brief` markers, parsed into text and tags.
   */
  function DescribeCleaned(c: string): (d: Description)
    ensures d.Copy? <==> CopyTarget(Strip(c)).Some?
    ensures d.Copy? ==> d.target == CopyTarget(Strip(c)).value
    ensures d.Plain? ==> d.text == Sub(Brief, "", c)
    ensures !d.Copy? ==> (d.Plain? <==> NoRuleMatches(TextSearch, Rules(), Sub(Brief, "", c)))
    ensures !d.Copy? ==> d == ParseDescription(Sub(Brief, "", c))
  {
    match CopyTarget(Strip(c))
    case Some(name) => Copy(name)
    case None => ParseDescription(Sub(Brief, "", c))
  }

  /** The description of a documented declaration, from its raw comment. */
  function Describe(raw: string): Description {
    DescribeCleaned(CleanComment(CleanText(raw)))
  }

  /** The directive is recognised only at the start of the comment and only with a name after it. */
  lemma CopyNeedsName(t: string)
    requires |t| >= 10 && IsCommandChar(t[0]) && HasPrefixAt(t, 1, "copybrief")
    requires 10 + SpaceRun(t, 10) == |t|
    ensures CopyTarget(t).None?
  {
  }

  /** A character that does not occur in `s` is counted zero times. */
  lemma CountAbsent(s: string, c: char)
    requires forall k :: 0 <= k < |s| ==> s[k] != c
    ensures Count(s, c) == 0
  {
    if s != [] {
      CountAbsent(s[1..], c);
    }
  }

  /** The directive `[@\\]copybrief NAME`, laid out position by position. */
  predicate IsDirective(t: string, name: string) {
    |t| == 11 + |name| && IsCommandChar(t[0]) && t[1..10] == "copybrief" && t[10] == ' ' && t[11..] == name
  }

  /** A name run, with the directive in front of it, is what `CopyTarget` extracts. */
  lemma CopyTargetOfDirective(t: string, name: string)
    requires IsDirective(t, name)
    requires name != [] && forall k :: 0 <= k < |name| ==> IsNameChar(name[k])
    ensures CopyTarget(t) == Some(name)
  {
    assert forall k :: 11 <= k < |t| ==> t[k] == name[k - 11];
    assert SpaceRun(t, 11) == 0;
    assert NameRun(t, 11) == |name|;
    assert t[11..11 + |name|] == name;
  }

  /** The directive is a single line that `strip` leaves as it is. */
  lemma DirectiveIsOneStrippedLine(t: string, name: string)
    requires IsDirective(t, name)
    requires name != [] && forall k :: 0 <= k < |name| ==> IsNameChar(name[k])
    ensures forall k :: 0 <= k < |t| ==> !IsLineBreak(t[k])
    ensures Strip(t) == t
  {
    assert forall k :: 11 <= k < |t| ==> t[k] == name[k - 11];
    assert forall k :: 1 <= k < 10 ==> t[k] == t[1..10][k - 1];
    assert !IsSpace(t[|t| - 1]);
  }

  /** A one-line comment `/// TEXT`, with one blank before a text without line breaks, is cleaned to `TEXT`. */
  lemma CleanOneBlankLineComment(raw: string, t: string)
    requires t != [] && t[0] != ' ' && t[0] != '<'
    requires forall k :: 0 <= k < |t| ==> !IsLineBreak(t[k])
    requires Strip(raw) == "///" + ([' '] + t)
    ensures CleanComment(raw) == t
  {
    var x := [' '] + t;
    assert forall k :: 1 <= k < |x| ==> x[k] == t[k - 1];
    LineCommentOneLine(raw, x);
    DedentOneIndentedLine(x);
    assert x[1..] == t;
  }

  /**
    A one-line comment `/// @copybrief NAME` (or with `\copybrief`), as on
    the fourth overload of the example header, makes the description a copy
    directive for `NAME`.
   */
  lemma CopyBriefLineComment(raw: string, t: string, name: string)
    requires IsDirective(t, name)
    requires name != [] && forall k :: 0 <= k < |name| ==> IsNameChar(name[k])
    requires Count(raw, '\t') == 0 && Count(raw, '\r') == 0
    requires Strip(raw) == "///" + ([' '] + t)
    ensures Describe(raw) == Copy(name)
  {
    DirectiveIsOneStrippedLine(t, name);
    CleanOneBlankLineComment(raw, t);
    assert CleanText(raw) == raw;
    CopyTargetOfDirective(t, name);
  }
}
