/**
  Shared helpers of the renderers: `padding`, which trims blanks at line
  ends, optionally collapses empty lines and indents every line by a prefix,
  and the group filters over the index.
 */
module Generator {
  import opened Strings
  import opened Optional
  import opened Rewrite
  import opened Entities

  /** The characters of the class `[ \t]`. */
  predicate IsBlank(c: char) {
    c == ' ' || c == '\t'
  }

  /** Length of the run of `' '` and `'\t'` that starts at `i`. */
  function BlankRun(s: string, i: nat): (n: nat)
    requires i <= |s|
    ensures i + n <= |s|
    ensures forall k :: i <= k < i + n ==> IsBlank(s[k])
    ensures i + n == |s| || !IsBlank(s[i + n])
    decreases |s| - i
  {
    if i < |s| && IsBlank(s[i]) then 1 + BlankRun(s, i + 1) else 0
  }

  /**
    `[ \t]+\n` at `i`. A shorter run of blanks ends before a blank, never
    before `'\n'`, so only the longest run can match.
   */
  function BlankBeforeNewlineAt(s: string, i: nat): (r: Option<nat>)
    ensures r.Some? ==> i < r.value <= |s|
    ensures r.Some? <==> i < |s| && IsBlank(s[i]) && i + BlankRun(s, i) < |s| && s[i + BlankRun(s, i)] == '\n'
    ensures r.Some? ==> r.value == i + BlankRun(s, i) + 1
  {
    if i < |s| && IsBlank(s[i]) && i + BlankRun(s, i) < |s| && s[i + BlankRun(s, i)] == '\n'
    then Some(i + BlankRun(s, i) + 1) else None
  }

  const BlankBeforeNewline: Matcher := BlankBeforeNewlineAt

  /** `re.sub(r'[ \t]+\n', '\n', s)`. */
  function TrimLineEnds(s: string): string {
    Sub(BlankBeforeNewline, "\n", s)
  }

  /** `s.replace('\n\n', '\n')`: scanning from the left, every pair of line breaks becomes one. */
  function HalveNewlines(s: string): (r: string)
    ensures |r| <= |s|
  {
    if |s| >= 2 && s[0] == '\n' && s[1] == '\n' then "\n" + HalveNewlines(s[2..])
    else if s == [] then []
    else [s[0]] + HalveNewlines(s[1..])
  }

  /** The pass is the generic left-to-right replacement of `"\n\n"` by `"\n"`. */
  lemma {:induction false} HalveIsReplace(s: string)
    ensures HalveNewlines(s) == ReplaceAll(s, "\n\n", "\n")
    decreases |s|
  {
    if |s| >= 2 {
      if s[0] == '\n' && s[1] == '\n' {
        assert s[..2] == "\n\n";
        HalveIsReplace(s[2..]);
      } else {
        assert s[..2] != "\n\n" by {
          assert s[..2][0] == s[0] && s[..2][1] == s[1];
        }
        HalveIsReplace(s[1..]);
      }
    } else if |s| == 1 {
      assert HalveNewlines(s) == [s[0]] + HalveNewlines([]);
      assert [s[0]] == s;
    }
  }

  /** `padding(s, p, remove_empty_lines)`. */
  function Padding(s: string, p: string, removeEmptyLines: bool): string {
    var t := TrimLineEnds(s);
    var u := if removeEmptyLines then HalveNewlines(HalveNewlines(t)) else t;
    p + ReplaceAll(u, "\n", "\n" + p)
  }

  /** No blank stands right before a line break. */
  predicate NoBlankBeforeNewline(t: string) {
    forall k :: 0 <= k < |t| - 1 ==> !(IsBlank(t[k]) && t[k + 1] == '\n')
  }

  /** Where the pattern does not match, the rewritten text starts with the original character. */
  lemma SubFromKeeps(s: string, i: nat)
    requires i < |s| && BlankBeforeNewlineAt(s, i).None?
    ensures SubFrom(BlankBeforeNewline, "\n", s, i) == [s[i]] + SubFrom(BlankBeforeNewline, "\n", s, i + 1)
  {
  }

  /** The rewritten rest of the text has no blank before a line break, and its first character is known. */
  lemma {:induction false} TrimFromNoBlankBeforeNewline(s: string, i: nat)
    requires i <= |s|
    ensures NoBlankBeforeNewline(SubFrom(BlankBeforeNewline, "\n", s, i))
    ensures i < |s| && BlankBeforeNewlineAt(s, i).None? ==> SubFrom(BlankBeforeNewline, "\n", s, i)[0] == s[i]
    ensures i < |s| && BlankBeforeNewlineAt(s, i).Some? ==> SubFrom(BlankBeforeNewline, "\n", s, i)[0] == '\n'
    decreases |s| - i
  {
    if i < |s| {
      var m := BlankBeforeNewlineAt(s, i);
      if m.Some? {
        TrimFromNoBlankBeforeNewline(s, m.value);
        var rest := SubFrom(BlankBeforeNewline, "\n", s, m.value);
        assert SubFrom(BlankBeforeNewline, "\n", s, i) == "\n" + rest;
      } else {
        TrimFromNoBlankBeforeNewline(s, i + 1);
        var rest := SubFrom(BlankBeforeNewline, "\n", s, i + 1);
        var t := [s[i]] + rest;
        assert SubFrom(BlankBeforeNewline, "\n", s, i) == t;
        if IsBlank(s[i]) && rest != [] {
          // The run of blanks from i does not end at a line break, so neither does the one from i + 1.
          assert BlankRun(s, i) == 1 + BlankRun(s, i + 1);
          if IsBlank(s[i + 1]) {
            assert BlankBeforeNewlineAt(s, i + 1).None?;
          }
          assert rest[0] == s[i + 1];
          assert rest[0] != '\n';
        }
        forall k | 0 <= k < |t| - 1
          ensures !(IsBlank(t[k]) && t[k + 1] == '\n')
        {
          if k > 0 {
            assert t[k] == rest[k - 1] && t[k + 1] == rest[k];
          }
        }
      }
    }
  }

  /** After the first rewrite of `padding`, no line ends in a space or tab. */
  lemma TrimLeavesNoBlankBeforeNewline(s: string)
    ensures NoBlankBeforeNewline(TrimLineEnds(s))
  {
    TrimFromNoBlankBeforeNewline(s, 0);
  }

  /** The characters of a match of `[ \t]+\n` hold exactly one line break, its last character. */
  lemma MatchHasOneNewline(s: string, i: nat)
    requires BlankBeforeNewlineAt(s, i).Some?
    ensures Count(s[i..BlankBeforeNewlineAt(s, i).value], '\n') == 1
  {
    var e := BlankBeforeNewlineAt(s, i).value;
    var blanks := s[i..e - 1];
    assert s[i..e] == blanks + ['\n'];
    CountAppend(blanks, ['\n'], '\n');
    CountNoNewline(blanks);
    assert ['\n'][1..] == [];
  }

  /** A run of blanks holds no line break. */
  lemma {:induction false} CountNoNewline(t: string)
    requires forall k :: 0 <= k < |t| ==> IsBlank(t[k])
    ensures Count(t, '\n') == 0
  {
    if t != [] {
      CountNoNewline(t[1..]);
    }
  }

  /** Rewriting the rest of the text from `i` keeps its number of line breaks. */
  lemma {:induction false} TrimFromKeepsNewlines(s: string, i: nat)
    requires i <= |s|
    ensures Count(SubFrom(BlankBeforeNewline, "\n", s, i), '\n') == Count(s[i..], '\n')
    decreases |s| - i
  {
    if i < |s| {
      var m := BlankBeforeNewlineAt(s, i);
      if m.Some? {
        TrimFromKeepsNewlines(s, m.value);
        TrimMatchStep(s, i);
      } else {
        TrimFromKeepsNewlines(s, i + 1);
        assert s[i..] == [s[i]] + s[i + 1..];
        CountJoin([s[i]], SubFrom(BlankBeforeNewline, "\n", s, i + 1), [s[i]], s[i + 1..]);
      }
    }
  }

  /** A match of blanks and a line break is replaced by one line break. */
  lemma TrimMatchStep(s: string, i: nat)
    requires i < |s| && BlankBeforeNewlineAt(s, i).Some?
    requires var e := BlankBeforeNewlineAt(s, i).value;
             Count(SubFrom(BlankBeforeNewline, "\n", s, e), '\n') == Count(s[e..], '\n')
    ensures Count(SubFrom(BlankBeforeNewline, "\n", s, i), '\n') == Count(s[i..], '\n')
  {
    var e := BlankBeforeNewlineAt(s, i).value;
    assert "\n"[1..] == [];
    MatchHasOneNewline(s, i);
    assert s[i..] == s[i..e] + s[e..];
    CountJoin("\n", SubFrom(BlankBeforeNewline, "\n", s, e), s[i..e], s[e..]);
  }

  /** Line breaks add up over concatenation. */
  lemma CountJoin(a: string, b: string, c: string, d: string)
    requires Count(a, '\n') == Count(c, '\n') && Count(b, '\n') == Count(d, '\n')
    ensures Count(a + b, '\n') == Count(c + d, '\n')
  {
    CountAppend(a, b, '\n');
    CountAppend(c, d, '\n');
  }

  /** Trimming line ends removes no line break. */
  lemma TrimKeepsNewlines(s: string)
    ensures Count(TrimLineEnds(s), '\n') == Count(s, '\n')
  {
    TrimFromKeepsNewlines(s, 0);
    assert s[0..] == s;
  }

  /** `n` line breaks in a row. */
  function Newlines(n: nat): (r: string)
    ensures |r| == n && forall k :: 0 <= k < n ==> r[k] == '\n'
  {
    if n == 0 then [] else Newlines(n - 1) + "\n"
  }

  /** A run of line breaks starts with a pair of them. */
  lemma NewlinesSplit(n: nat)
    requires n >= 2
    ensures Newlines(n) == "\n\n" + Newlines(n - 2)
  {
    assert Newlines(n)[..2] == "\n\n";
  }

  /** One `replace('\n\n', '\n')` pass halves a run of line breaks, rounding up. */
  lemma {:induction false} HalveRun(n: nat)
    ensures HalveNewlines(Newlines(n)) == Newlines((n + 1) / 2)
    decreases n
  {
    if n == 1 {
      assert Newlines(1) == "\n";
      assert HalveNewlines("\n") == "\n" + HalveNewlines([]);
    } else if n >= 2 {
      var s := Newlines(n);
      assert s[2..] == Newlines(n - 2) by {
        NewlinesSplit(n);
      }
      assert HalveNewlines(s) == "\n" + Newlines((n - 1) / 2) by {
        HalveRun(n - 2);
      }
      assert Newlines((n + 1) / 2) == "\n" + Newlines((n - 1) / 2) by {
        var a, b := Newlines((n + 1) / 2), "\n" + Newlines((n - 1) / 2);
        assert |a| == |b|;
        forall k | 0 <= k < |a| ensures a[k] == b[k] { }
      }
    }
  }

  /**
    With `remove_empty_lines`, a run of two to four line breaks becomes a
    single one; a run of five keeps an empty line.
   */
  lemma CollapseShortRuns(n: nat)
    requires 1 <= n <= 5
    ensures HalveNewlines(HalveNewlines(Newlines(n))) == Newlines(if n <= 4 then 1 else 2)
  {
    HalveRun(n);
    HalveRun((n + 1) / 2);
  }

  /** A place in the text that is not inside a pair of line breaks: one side of it is empty or not a line break. */
  predicate SplitsNoPair(a: string, b: string) {
    a == [] || b == [] || a[|a| - 1] != '\n' || b[0] != '\n'
  }

  /**
    `replace('\n\n', '\n')` scans left to right; where no pair of line
    breaks straddles the place between `a` and `b`, the two halves are
    rewritten independently.
   */
  lemma {:induction false} HalveSplit(a: string, b: string)
    requires SplitsNoPair(a, b)
    ensures HalveNewlines(a + b) == HalveNewlines(a) + HalveNewlines(b)
    decreases |a|
  {
    var s := a + b;
    if a == [] {
      assert s == b;
    } else if b == [] {
      assert s == a;
    } else {
      var k := if |a| >= 2 && a[0] == '\n' && a[1] == '\n' then 2 else 1;
      var a' := a[k..];
      assert s[0] == a[0] && s[1] == (if |a| >= 2 then a[1] else b[0]);
      assert s[k..] == a' + b;
      var head := if k == 2 then "\n" else [a[0]];
      assert HalveNewlines(s) == head + HalveNewlines(a' + b);
      assert HalveNewlines(a) == head + HalveNewlines(a');
      assert HalveNewlines(a' + b) == HalveNewlines(a') + HalveNewlines(b) by {
        assert a' == [] || a'[|a'| - 1] == a[|a| - 1];
        HalveSplit(a', b);
      }
      AppendAssoc(head, HalveNewlines(a'), HalveNewlines(b));
    }
  }

  /** A text that does not end in a line break still ends in the same character after one pass. */
  lemma HalveKeepsLast(a: string)
    requires a != [] && a[|a| - 1] != '\n'
    ensures HalveNewlines(a) != [] && HalveNewlines(a)[|HalveNewlines(a)| - 1] == a[|a| - 1]
  {
    var c := a[|a| - 1];
    assert a == a[..|a| - 1] + [c];
    HalveSplit(a[..|a| - 1], [c]);
  }

  /** A text that does not start with a line break still starts with the same character after one pass. */
  lemma HalveKeepsFirst(b: string)
    requires b != [] && b[0] != '\n'
    ensures HalveNewlines(b) != [] && HalveNewlines(b)[0] == b[0]
  {
    assert b == [b[0]] + b[1..];
    HalveSplit([b[0]], b[1..]);
  }

  /** `pre` does not end in a line break. */
  predicate NoBreakAtEnd(pre: string) {
    pre == [] || pre[|pre| - 1] != '\n'
  }

  /** `post` does not start with a line break. */
  predicate NoBreakAtStart(post: string) {
    post == [] || post[0] != '\n'
  }

  /** One pass over a whole run of line breaks between other text: the run is halved, rounding up, and the text around it is rewritten on its own. */
  lemma HalveAround(pre: string, n: nat, post: string)
    requires NoBreakAtEnd(pre) && NoBreakAtStart(post)
    ensures HalveNewlines(pre + Newlines(n) + post)
         == HalveNewlines(pre) + Newlines((n + 1) / 2) + HalveNewlines(post)
  {
    var nl := Newlines(n);
    var r := nl + post;
    assert pre + nl + post == pre + r;
    assert HalveNewlines(pre + r) == HalveNewlines(pre) + HalveNewlines(r) by {
      HalveSplit(pre, r);
    }
    assert HalveNewlines(r) == HalveNewlines(nl) + HalveNewlines(post) by {
      HalveSplit(nl, post);
    }
    assert HalveNewlines(nl) == Newlines((n + 1) / 2) by {
      HalveRun(n);
    }
    AppendAssoc(HalveNewlines(pre), Newlines((n + 1) / 2), HalveNewlines(post));
  }

  /** One pass keeps a text from ending, or starting, with a line break. */
  lemma HalveKeepsEnds(pre: string, post: string)
    requires NoBreakAtEnd(pre) && NoBreakAtStart(post)
    ensures NoBreakAtEnd(HalveNewlines(pre)) && NoBreakAtStart(HalveNewlines(post))
  {
    if pre != [] {
      HalveKeepsLast(pre);
    } else {
      assert HalveNewlines(pre) == [];
    }
    if post != [] {
      HalveKeepsFirst(post);
    } else {
      assert HalveNewlines(post) == [];
    }
  }

  /**
    With `remove_empty_lines`, a whole run of `n` line breaks anywhere in the
    text becomes a run of `ceil(ceil(n / 2) / 2)`: two to four line breaks
    become one, and the text before and after the run is rewritten as if it
    stood alone.
   */
  lemma CollapseRunInText(pre: string, n: nat, post: string)
    requires NoBreakAtEnd(pre) && NoBreakAtStart(post)
    ensures HalveNewlines(HalveNewlines(pre + Newlines(n) + post))
         == HalveNewlines(HalveNewlines(pre)) + Newlines(((n + 1) / 2 + 1) / 2) + HalveNewlines(HalveNewlines(post))
  {
    var x := pre + Newlines(n) + post;
    var h, g, m := HalveNewlines(pre), HalveNewlines(post), (n + 1) / 2;
    var y := h + Newlines(m) + g;
    assert HalveNewlines(x) == y by {
      HalveAround(pre, n, post);
    }
    HalveHalvedAround(pre, m, post);
  }

  /** A run of `m` breaks between the once-halved ends is halved again on its own. */
  lemma HalveHalvedAround(pre: string, m: nat, post: string)
    requires NoBreakAtEnd(pre) && NoBreakAtStart(post)
    ensures var h, g := HalveNewlines(pre), HalveNewlines(post);
            HalveNewlines(h + Newlines(m) + g) == HalveNewlines(h) + Newlines((m + 1) / 2) + HalveNewlines(g)
  {
    HalveKeepsEnds(pre, post);
    HalveAround(HalveNewlines(pre), m, HalveNewlines(post));
  }

  /** Every line break in `r` is followed by `p`. */
  predicate BreaksFollowedBy(r: string, p: string) {
    forall k :: 0 <= k < |r| && r[k] == '\n' ==> HasPrefixAt(r, k + 1, p)
  }

  /** Putting text in front keeps every line break followed by `p`, when that text is empty, one ordinary character, or a line break with `p`. */
  lemma BreaksFollowedByPrepend(head: string, rest: string, p: string)
    requires BreaksFollowedBy(rest, p)
    requires head == [] || (head[0] == '\n' && head[1..] == p) || (|head| == 1 && head[0] != '\n')
    requires '\n' !in p
    ensures BreaksFollowedBy(head + rest, p)
  {
    var r := head + rest;
    forall k | 0 <= k < |r| && r[k] == '\n'
      ensures HasPrefixAt(r, k + 1, p)
    {
      if k < |head| {
        assert k == 0;
        assert r[1..1 + |p|] == head[1..];
      } else {
        assert rest[k - |head|] == '\n';
        assert r[k + 1..k + 1 + |p|] == rest[k - |head| + 1..k - |head| + 1 + |p|];
      }
    }
  }

  /** `s.replace('\n', '\n' + p)` puts `p` after every line break. */
  lemma {:induction false} IndentFollowsNewlines(u: string, p: string)
    requires '\n' !in p
    ensures BreaksFollowedBy(ReplaceAll(u, "\n", "\n" + p), p)
  {
    if u != [] {
      ReplaceCharStep(u, '\n', "\n" + p);
      IndentFollowsNewlines(u[1..], p);
      var head := if u[0] == '\n' then "\n" + p else [u[0]];
      BreaksFollowedByPrepend(head, ReplaceAll(u[1..], "\n", "\n" + p), p);
    }
  }

  /**
    The padded text starts with `p` and every line break in it is followed by
    `p`: every line is indented.
   */
  lemma PaddingIndentsEveryLine(s: string, p: string, removeEmptyLines: bool)
    requires '\n' !in p
    ensures HasPrefixAt(Padding(s, p, removeEmptyLines), 0, p)
    ensures BreaksFollowedBy(Padding(s, p, removeEmptyLines), p)
  {
    var t := TrimLineEnds(s);
    var u := if removeEmptyLines then HalveNewlines(HalveNewlines(t)) else t;
    var body := ReplaceAll(u, "\n", "\n" + p);
    IndentFollowsNewlines(u, p);
    assert Padding(s, p, removeEmptyLines) == p + body;
    var r := p + body;
    assert r[..|p|] == p;
    forall k | 0 <= k < |r| && r[k] == '\n'
      ensures HasPrefixAt(r, k + 1, p)
    {
      assert k >= |p|;
      assert body[k - |p|] == '\n';
      assert r[k + 1..k + 1 + |p|] == body[k - |p| + 1..k - |p| + 1 + |p|];
    }
  }

  /** Without `remove_empty_lines`, padding keeps the number of line breaks. */
  lemma PaddingKeepsNewlines(s: string, p: string)
    requires '\n' !in p
    ensures Count(Padding(s, p, false), '\n') == Count(s, '\n')
  {
    var t := TrimLineEnds(s);
    TrimKeepsNewlines(s);
    ReplaceCharCount(t, '\n', "\n" + p, '\n');
    CountAppend("\n", p, '\n');
    assert "\n"[1..] == [];
    CountAbsentChar(p, '\n');
    CountAppend(p, ReplaceAll(t, "\n", "\n" + p), '\n');
  }

  /** A character not in `s` is counted zero times. */
  lemma {:induction false} CountAbsentChar(s: string, c: char)
    requires c !in s
    ensures Count(s, c) == 0
  {
    if s != [] {
      assert s[0] != c;
      assert forall k :: 0 <= k < |s[1..]| ==> s[1..][k] == s[k + 1];
      CountAbsentChar(s[1..], c);
    }
  }

  /** The items of the index in `group`, in their original order. */
  function InGroup(index: seq<Entity>, group: string): (r: seq<Entity>)
    ensures |r| <= |index|
    ensures forall e :: e in r <==> e in index && e.group == group
  {
    if index == [] then []
    else InGroup(index[..|index| - 1], group) + (if index[|index| - 1].group == group then [index[|index| - 1]] else [])
  }

  /** Filtering distributes over concatenation: the relative order of the kept items is the order of the index. */
  lemma {:induction false} InGroupAppend(a: seq<Entity>, b: seq<Entity>, group: string)
    ensures InGroup(a + b, group) == InGroup(a, group) + InGroup(b, group)
    decreases |b|
  {
    if b == [] {
      assert a + b == a;
    } else {
      var b' := b[..|b| - 1];
      assert (a + b)[..|a + b| - 1] == a + b';
      InGroupAppend(a, b', group);
      AppendAssoc(InGroup(a, group), InGroup(b', group),
        if b[|b| - 1].group == group then [b[|b| - 1]] else []);
    }
  }

  /** Filtering twice by the same group is filtering once. */
  lemma {:induction false} InGroupIdempotent(index: seq<Entity>, group: string)
    ensures InGroup(InGroup(index, group), group) == InGroup(index, group)
  {
    if index != [] {
      var init := index[..|index| - 1];
      var last := index[|index| - 1];
      InGroupIdempotent(init, group);
      var tail := if last.group == group then [last] else [];
      InGroupAppend(InGroup(init, group), tail, group);
      if last.group == group {
        assert InGroup(tail, group) == InGroup([], group) + [last];
      }
    }
  }

  /** `filterIndex`. */
  method FilterIndex(index: seq<Entity>, group: string) returns (filtered: seq<Entity>)
    ensures filtered == InGroup(index, group)
  {
    filtered := [];
    for i := 0 to |index|
      invariant filtered == InGroup(index[..i], group)
    {
      assert index[..i + 1][..i] == index[..i];
      if index[i].group == group {
        filtered := filtered + [index[i]];
      }
    }
    assert index[..|index|] == index;
  }

  /** The groups used in the index. */
  function Groups(index: seq<Entity>): (gs: set<string>)
    ensures forall g :: g in gs <==> exists i :: 0 <= i < |index| && index[i].group == g
  {
    set i | 0 <= i < |index| :: index[i].group
  }

  /** `groupList`: every group of the index, each once, in the unspecified order of a Python set. */
  method GroupList(index: seq<Entity>) returns (groups: seq<string>)
    ensures forall i, j :: 0 <= i < j < |groups| ==> groups[i] != groups[j]
    ensures forall g :: g in groups <==> g in Groups(index)
  {
    var all: seq<string> := [];
    for i := 0 to |index|
      invariant |all| == i && forall k :: 0 <= k < i ==> all[k] == index[k].group
    {
      all := all + [index[i].group];
    }
    var remaining := set g | g in all;
    groups := [];
    while remaining != {}
      invariant forall g :: g in groups || g in remaining <==> g in Groups(index)
      invariant forall g :: g in groups ==> g !in remaining
      invariant forall i, j :: 0 <= i < j < |groups| ==> groups[i] != groups[j]
      decreases |remaining|
    {
      var g :| g in remaining;
      groups := groups + [g];
      remaining := remaining - {g};
    }
  }
}
