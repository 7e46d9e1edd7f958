/**
  `re.sub(pattern, repl, s)` for patterns that always consume input: the text
  is scanned from left to right; where the pattern matches, the match is
  replaced by `repl` and the scan goes on after it; elsewhere one character
  is copied. Anchors (`^`, `\b`) look at the original text, so a matcher
  receives the whole text and a position.
 */
module Rewrite {
  import opened Strings
  import opened Optional

  /** A pattern that, tried at position `i`, either fails or ends a non-empty match at an index after `i`. */
  type Matcher = f: (string, nat) -> Option<nat> | forall s: string, i: nat :: f(s, i).Some? ==> i < f(s, i).value <= |s|
    witness (s: string, i: nat) => None

  /** The text from position `i` on, rewritten. */
  function SubFrom(m: Matcher, rep: string, s: string, i: nat): string
    requires i <= |s|
    decreases |s| - i
  {
    if i == |s| then []
    else
      match m(s, i)
      case Some(e) => rep + SubFrom(m, rep, s, e)
      case None => [s[i]] + SubFrom(m, rep, s, i + 1)
  }

  /** `re.sub(pattern, rep, s)`. */
  function Sub(m: Matcher, rep: string, s: string): string {
    SubFrom(m, rep, s, 0)
  }

  /** The pattern matches at no position of `s` from `i` on. */
  predicate NoMatchFrom(m: Matcher, s: string, i: nat) {
    forall j :: i <= j < |s| ==> m(s, j).None?
  }

  /** From `i` on, text without a match is rewritten to itself. */
  lemma {:induction false} SubFromNoMatch(m: Matcher, rep: string, s: string, i: nat)
    requires i <= |s|
    requires NoMatchFrom(m, s, i)
    ensures SubFrom(m, rep, s, i) == s[i..]
    decreases |s| - i
  {
    if i < |s| {
      SubFromNoMatch(m, rep, s, i + 1);
      assert s[i..] == [s[i]] + s[i + 1..];
    }
  }

  /** A stretch of text in which the pattern matches nowhere is copied as it is. */
  lemma {:induction false} SubFromKeep(m: Matcher, rep: string, s: string, i: nat, j: nat)
    requires i <= j <= |s|
    requires forall k :: i <= k < j ==> m(s, k).None?
    ensures SubFrom(m, rep, s, i) == s[i..j] + SubFrom(m, rep, s, j)
    decreases j - i
  {
    if i < j {
      assert m(s, i).None?;
      assert SubFrom(m, rep, s, i) == [s[i]] + SubFrom(m, rep, s, i + 1);
      SubFromKeep(m, rep, s, i + 1, j);
      assert s[i..j] == [s[i]] + s[i + 1..j];
    }
  }

  /** A text whose only match is one at its start loses that match and keeps the rest. */
  lemma SubSingleLeadingMatch(m: Matcher, rep: string, s: string, e: nat)
    requires m(s, 0) == Some(e)
    requires NoMatchFrom(m, s, e)
    ensures Sub(m, rep, s) == rep + s[e..]
  {
    SubFromNoMatch(m, rep, s, e);
  }

  /** Text in which the pattern never matches comes back unchanged. */
  lemma SubNoMatch(m: Matcher, rep: string, s: string)
    requires NoMatchFrom(m, s, 0)
    ensures Sub(m, rep, s) == s
  {
    SubFromNoMatch(m, rep, s, 0);
  }

  /** From `i` on, deleting matches never lengthens the text. */
  lemma {:induction false} SubFromDeleteShrinks(m: Matcher, s: string, i: nat)
    requires i <= |s|
    ensures |SubFrom(m, "", s, i)| <= |s| - i
    decreases |s| - i
  {
    if i < |s| {
      match m(s, i)
      case Some(e) => SubFromDeleteShrinks(m, s, e);
      case None => SubFromDeleteShrinks(m, s, i + 1);
    }
  }

  /** Deleting the matches of a pattern never makes the text longer. */
  lemma SubDeleteShrinks(m: Matcher, s: string)
    ensures |Sub(m, "", s)| <= |s|
  {
    SubFromDeleteShrinks(m, s, 0);
  }

  /** `^` under `re.MULTILINE`: the start of the text or just after a `'\n'`. */
  predicate LineStart(s: string, i: nat) {
    i == 0 || (0 < i <= |s| && s[i - 1] == '\n')
  }

  /** `$` under `re.MULTILINE`: the end of the text or just before a `'\n'`. */
  predicate LineEndAt(s: string, i: nat) {
    i == |s| || (i < |s| && s[i] == '\n')
  }

  /** The characters of `\w`, restricted to ASCII. */
  predicate IsWordChar(c: char) {
    IsAsciiLetter(c) || ('0' <= c <= '9') || c == '_'
  }

  /** `\b`: a word character on exactly one side of position `i`. */
  predicate Boundary(s: string, i: nat) {
    (0 < i <= |s| && IsWordChar(s[i - 1])) != (i < |s| && IsWordChar(s[i]))
  }

  /** `^\s*///` at `i`. */
  function TripleSlashAt(s: string, i: nat): (r: Option<nat>)
    ensures r.Some? ==> i < r.value <= |s|
  {
    if i <= |s| && LineStart(s, i) && HasPrefixAt(s, i + SpaceRun(s, i), "///")
    then Some(i + SpaceRun(s, i) + 3) else None
  }

  /** `^\s*\*( |$)` at `i`: the alternative `' '` is tried before `$`. */
  function StarAt(s: string, i: nat): (r: Option<nat>)
    ensures r.Some? ==> i < r.value <= |s|
    ensures r.Some? ==> LineStart(s, i) && s[r.value - 1] in {'*', ' '}
    ensures r.Some? <==> i <= |s| && LineStart(s, i) && i + SpaceRun(s, i) < |s| && s[i + SpaceRun(s, i)] == '*'
                         && ((i + SpaceRun(s, i) + 1 < |s| && s[i + SpaceRun(s, i) + 1] == ' ') || LineEndAt(s, i + SpaceRun(s, i) + 1))
  {
    if i <= |s| && LineStart(s, i) then
      var e := i + SpaceRun(s, i);
      if e < |s| && s[e] == '*' then
        if e + 1 < |s| && s[e + 1] == ' ' then Some(e + 2)
        else if LineEndAt(s, e + 1) then Some(e + 1)
        else None
      else None
    else None
  }

  /** `\b` + key + `\b` at `i`, the key taken literally; the empty key, which matches empty text, is not a matcher (see `Comments.MacroApplied`). */
  function WholeWordAt(key: string, s: string, i: nat): (r: Option<nat>)
    ensures r.Some? ==> i < r.value <= |s|
    ensures r.Some? ==> r.value == i + |key|
  {
    if key != [] && HasPrefixAt(s, i, key) && Boundary(s, i) && Boundary(s, i + |key|)
    then Some(i + |key|) else None
  }

  /**
    `(^|\s+)using\s+` at `i` (without `re.MULTILINE`, so `^` is only the
    start of the text): the first alternative is tried before the second.
   */
  function UsingAt(s: string, i: nat): (r: Option<nat>)
    ensures r.Some? ==> i < r.value <= |s|
  {
    if i > |s| then None
    else if i == 0 && HasPrefixAt(s, 0, "using") && SpaceRun(s, 5) > 0 then Some(5 + SpaceRun(s, 5))
    else
      var k := i + SpaceRun(s, i);
      if SpaceRun(s, i) > 0 && HasPrefixAt(s, k, "using") && SpaceRun(s, k + 5) > 0
      then Some(k + 5 + SpaceRun(s, k + 5))
      else None
  }

  /** `\s*@brief\s*` at `i`. */
  function BriefAt(s: string, i: nat): (r: Option<nat>)
    ensures r.Some? ==> i < r.value <= |s|
  {
    if i <= |s| && HasPrefixAt(s, i + SpaceRun(s, i), "@brief") then
      var e := i + SpaceRun(s, i) + 6;
      Some(e + SpaceRun(s, e))
    else None
  }

  /** The matcher of `\bkey\b`. */
  function WholeWord(key: string): Matcher {
    assert forall s: string, i: nat :: WholeWordAt(key, s, i).Some? ==> i < WholeWordAt(key, s, i).value <= |s|;
    (s: string, i: nat) => WholeWordAt(key, s, i)
  }

  const TripleSlash: Matcher := TripleSlashAt
  const Star: Matcher := StarAt
  const Using: Matcher := UsingAt
  const Brief: Matcher := BriefAt
}
