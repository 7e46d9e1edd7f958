/**
  The table of documentation-tag rules of the comment parser and the regular
  expression search that each rule performs.

  Every pattern of the table has one of two shapes:
  - a command keyword `[@\\](?:w1|w2|...)\s+`, optionally followed by a
    captured argument `(\S+)`;
  - a delimited span `\s*? OPEN (.*?) \s+? CLOSE \s*?` (the `?` marking parts
    only some rules have), with the lazy group captured.
  For each shape the functions below compute what Python's `re.search`
  finds with the flags `MULTILINE | DOTALL`: the leftmost position at which
  the pattern matches, and at that position the match that the backtracking
  engine reports first (alternatives in order, greedy runs as long as
  possible, the lazy group as short as possible).
 */
module Patterns {
  import opened Strings
  import opened Optional

  /** A literal piece of a pattern, or `[@\\]word`: either command character followed by a word. */
  datatype Token = Lit(text: string) | Cmd(word: string)

  /** Number of characters a token spans. */
  function TokenLen(t: Token): nat {
    match t
    case Lit(x) => |x|
    case Cmd(w) => 1 + |w|
  }

  /** The class `[@\\]` that introduces a command. */
  predicate IsCommandChar(c: char) {
    c == '@' || c == '\\'
  }

  /** Token `t` occurs in `s` at `i`. */
  predicate TokenAt(s: string, i: nat, t: Token) {
    match t
    case Lit(x) => HasPrefixAt(s, i, x)
    case Cmd(w) => i < |s| && IsCommandChar(s[i]) && HasPrefixAt(s, i + 1, w)
  }

  datatype Shape =
    | Keyword(words: seq<string>, capture: bool)
    | Delimited(leading: bool, open: Token, close: Token, spaceBeforeClose: bool, trailing: bool)

  /** One row of the rule table: a pattern, the tag kind it produces, and whether group 1 is its payload. */
  datatype Rule = Rule(shape: Shape, kind: string, hasPayload: bool)

  /** A token that is non-empty and does not begin with whitespace. */
  predicate Solid(t: Token) {
    match t
    case Lit(x) => |x| > 0 && !IsSpace(x[0])
    case Cmd(_) => true
  }

  /**
    Every token is solid. So a pattern consumes at least one character, and a
    greedy whitespace run before a token never has to give characters back.
   */
  predicate WellFormed(sh: Shape) {
    match sh
    case Keyword(_, _) => true
    case Delimited(_, open, close, _, _) => Solid(open) && Solid(close)
  }

  /** A match found in a string of length `n`: `[start, end)` is the whole match, `[groupStart, groupEnd)` group 1. */
  datatype Hit = Hit(start: nat, end: nat, groupStart: nat, groupEnd: nat)

  /** The match and its group lie in order inside the text. */
  predicate ValidHit(h: Hit, n: nat) {
    h.start < h.end <= n && h.start <= h.groupStart <= h.groupEnd <= h.end
  }

  /** The table, in priority order. */
  function Rules(): (rs: seq<Rule>)
    ensures |rs| == 21
    ensures forall i :: 0 <= i < |rs| ==> WellFormed(rs[i].shape)
    ensures forall i :: 0 <= i < |rs| ==> rs[i].hasPayload == Captures(rs[i].shape)
  {
    InlineRules() + CommandRules()
  }

  /** The first rows: references, code and math, the only rows with delimited spans. */
  function InlineRules(): (rs: seq<Rule>)
    ensures |rs| == 7
    ensures forall i :: 0 <= i < |rs| ==> WellFormed(rs[i].shape)
    ensures forall i :: 0 <= i < |rs| ==> rs[i].hasPayload == Captures(rs[i].shape)
  {
    [ Rule(Keyword(["c"], true), "inlinecode", true),
      Rule(Keyword(["ref"], true), "ref", true),
      Rule(Delimited(true, Cmd("code"), Cmd("endcode"), true, true), "blockcode", true),
      Rule(Delimited(false, Lit("\\f\\("), Lit("\\f\\)"), false, false), "inlinemath", true),
      Rule(Delimited(false, Lit("\\f$"), Lit("\\f$"), false, false), "inlinemath", true),
      Rule(Delimited(false, Lit("$"), Lit("$"), false, false), "inlinemath", true),
      Rule(Delimited(true, Lit("\\f["), Lit("\\f]"), false, true), "blockmath", true) ]
  }

  /** The remaining rows: commands that name an entity kind, a parameter or a section. */
  function CommandRules(): (rs: seq<Rule>)
    ensures |rs| == 14
    ensures forall i :: 0 <= i < |rs| ==> WellFormed(rs[i].shape)
    ensures forall i :: 0 <= i < |rs| ==> rs[i].hasPayload == Captures(rs[i].shape)
  {
    [ Rule(Keyword(["concept"], false), "concept", false),
      Rule(Keyword(["class"], false), "class", false),
      Rule(Keyword(["struct"], false), "struct", false),
      Rule(Keyword(["fn"], false), "function", false),
      Rule(Keyword(["enum"], false), "enum", false),
      Rule(Keyword(["typedef"], false), "typedef", false),
      Rule(Keyword(["param"], true), "param", true),
      Rule(Keyword(["tparam"], true), "tparam", true),
      Rule(Keyword(["throws", "throw", "exceptions", "exception"], true), "exceptions", true),
      Rule(Keyword(["details", "remark"], false), "details", false),
      Rule(Keyword(["threadsafe", "threadsafety"], false), "threadsafety", false),
      Rule(Keyword(["note"], false), "note", false),
      Rule(Keyword(["see", "sa"], false), "note", false),
      Rule(Keyword(["returns", "return"], false), "return", false) ]
  }

  /** The pattern has a capturing group. */
  predicate Captures(sh: Shape) {
    match sh
    case Keyword(_, capture) => capture
    case Delimited(_, _, _, _, _) => true
  }

  /** The keyword alternatives from `words[k..]`, tried in order at the position after the command character. */
  function KeywordAt(words: seq<string>, capture: bool, s: string, p: nat, k: nat): (r: Option<Hit>)
    requires p < |s|
    requires k <= |words|
    ensures r.Some? ==> r.value.start == p && ValidHit(r.value, |s|)
    decreases |words| - k
  {
    if k == |words| then None
    else
      var w := words[k];
      var after := p + 1 + |w|;
      if HasPrefixAt(s, p + 1, w) && SpaceRun(s, after) > 0 then
        var arg := after + SpaceRun(s, after);
        if !capture then Some(Hit(p, arg, arg, arg))
        else if WordRun(s, arg) > 0 then Some(Hit(p, arg + WordRun(s, arg), arg, arg + WordRun(s, arg)))
        else KeywordAt(words, capture, s, p, k + 1)
      else KeywordAt(words, capture, s, p, k + 1)
  }

  /**
    The lazy group of a delimited pattern, tried from `k` on: the first `k` at
    which the closing part matches. Returns the end of the group and where the
    closing token starts.
   */
  function CloseFrom(s: string, k: nat, close: Token, spaced: bool): (r: Option<(nat, nat)>)
    requires k <= |s|
    ensures r.Some? ==> k <= r.value.0 <= r.value.1 && TokenAt(s, r.value.1, close)
    ensures r.Some? && spaced ==> r.value.0 < r.value.1
    decreases |s| - k
  {
    if k == |s| then None
    else if !spaced && TokenAt(s, k, close) then Some((k, k))
    else if spaced && IsSpace(s[k]) && TokenAt(s, k + SpaceRun(s, k), close) then Some((k, k + SpaceRun(s, k)))
    else CloseFrom(s, k + 1, close, spaced)
  }

  /** A token found at `i` fits in the text. */
  lemma TokenAtBound(s: string, i: nat, t: Token)
    requires TokenAt(s, i, t)
    ensures i + TokenLen(t) <= |s|
  {
  }

  /** The match of a pattern that starts exactly at `p`, if any. */
  function MatchAt(sh: Shape, s: string, p: nat): (r: Option<Hit>)
    requires WellFormed(sh)
    requires p <= |s|
    ensures r.Some? ==> r.value.start == p && ValidHit(r.value, |s|)
  {
    match sh
    case Keyword(words, capture) =>
      if p < |s| && IsCommandChar(s[p]) then KeywordAt(words, capture, s, p, 0) else None
    case Delimited(leading, open, close, spaced, trailing) =>
      var e := if leading then p + SpaceRun(s, p) else p;
      if !TokenAt(s, e, open) then None
      else
        TokenAtBound(s, e, open);
        var g := e + TokenLen(open);
        match CloseFrom(s, g, close, spaced)
        case None => None
        case Some((ge, c)) =>
          TokenAtBound(s, c, close);
          var end0 := c + TokenLen(close);
          var end := if trailing then end0 + SpaceRun(s, end0) else end0;
          Some(Hit(p, end, g, ge))
  }

  /** `re.search` from position `p` on: the leftmost position where the pattern matches. */
  function SearchFrom(sh: Shape, s: string, p: nat): (r: Option<Hit>)
    requires WellFormed(sh)
    requires p <= |s|
    ensures r.Some? ==> p <= r.value.start && ValidHit(r.value, |s|) && MatchAt(sh, s, r.value.start) == r
    decreases |s| - p
  {
    var m := MatchAt(sh, s, p);
    if m.Some? then m
    else if p == |s| then None
    else SearchFrom(sh, s, p + 1)
  }

  /** No position between `p` and the one reported matches; when nothing is reported, no position from `p` on matches. */
  lemma {:induction false} SearchFromLeftmost(sh: Shape, s: string, p: nat)
    requires WellFormed(sh)
    requires p <= |s|
    ensures var r := SearchFrom(sh, s, p);
            && (r.Some? ==> forall q :: p <= q < r.value.start ==> MatchAt(sh, s, q).None?)
            && (r.None? ==> forall q :: p <= q <= |s| ==> MatchAt(sh, s, q).None?)
    decreases |s| - p
  {
    var m := MatchAt(sh, s, p);
    if m.None? && p < |s| {
      SearchFromLeftmost(sh, s, p + 1);
      var r := SearchFrom(sh, s, p + 1);
      assert SearchFrom(sh, s, p) == r;
      var stop := if r.Some? then r.value.start else |s| + 1;
      forall q | p <= q < stop
        ensures MatchAt(sh, s, q).None?
      {
        if q == p {
          assert MatchAt(sh, s, q) == m;
        }
      }
    }
  }

  /** `re.search(pattern, s, re.MULTILINE | re.DOTALL)`. */
  function Search(sh: Shape, s: string): (r: Option<Hit>)
    requires WellFormed(sh)
    ensures r.Some? ==> ValidHit(r.value, |s|) && MatchAt(sh, s, r.value.start) == r
    ensures r.Some? ==> forall q :: 0 <= q < r.value.start ==> MatchAt(sh, s, q).None?
    ensures r.None? ==> forall q :: 0 <= q <= |s| ==> MatchAt(sh, s, q).None?
  {
    SearchFromLeftmost(sh, s, 0);
    SearchFrom(sh, s, 0)
  }

  /** The characters a pattern of the table can open on: the command characters and `$`. */
  predicate IsSpecial(c: char) {
    IsCommandChar(c) || c == '$'
  }

  /** Text without a character any pattern of the table can open on. */
  predicate NoSpecial(s: string) {
    '@' !in s && '\\' !in s && '$' !in s
  }

  /** The pattern can start matching at `e`: a command character and one of the keywords, or the opening token. */
  predicate Opens(sh: Shape, s: string, e: nat) {
    match sh
    case Keyword(words, _) => e < |s| && IsCommandChar(s[e]) && exists k :: 0 <= k < |words| && HasPrefixAt(s, e + 1, words[k])
    case Delimited(_, open, _, _, _) => TokenAt(s, e, open)
  }

  /** The pattern opens nowhere in `s`. */
  predicate Quiet(sh: Shape, s: string) {
    forall e :: 0 <= e < |s| ==> !Opens(sh, s, e)
  }

  /** The pattern opens only on a command character or `$`. */
  predicate OpensOnSpecial(sh: Shape) {
    match sh
    case Keyword(_, _) => true
    case Delimited(_, open, _, _, _) => open.Cmd? || (|open.text| > 0 && IsSpecial(open.text[0]))
  }

  /** Every pattern of the table opens only on a command character or `$`. */
  lemma RulesOpenOnSpecial()
    ensures forall i :: 0 <= i < |Rules()| ==> OpensOnSpecial(Rules()[i].shape)
  {
    var inl, cmd := InlineRules(), CommandRules();
    assert forall i :: 0 <= i < |inl| ==> OpensOnSpecial(inl[i].shape);
    assert forall i :: 0 <= i < |cmd| ==> cmd[i].shape.Keyword?;
  }

  /** An occurrence of `w` at `i` begins with the first character of `w`. */
  lemma PrefixHead(s: string, i: nat, w: string)
    requires HasPrefixAt(s, i, w) && |w| > 0
    ensures i < |s| && s[i] == w[0]
  {
    assert s[i..i + |w|][0] == s[i];
  }

  /** `w` does not occur at `i` if the text differs from it at some offset. */
  lemma NoPrefixWhereDiffers(s: string, i: nat, w: string, m: nat)
    requires m < |w| && i + m < |s| && s[i + m] != w[m]
    ensures !HasPrefixAt(s, i, w)
  {
  }

  /** A pattern opens on a command character or `$`. */
  lemma OpenerIsSpecial(sh: Shape, s: string, e: nat)
    requires OpensOnSpecial(sh) && Opens(sh, s, e)
    ensures e < |s| && IsSpecial(s[e])
  {
    if sh.Delimited? && sh.open.Lit? {
      PrefixHead(s, e, sh.open.text);
    }
  }

  /** A table pattern does not open on an ordinary character. */
  lemma NotOpensOnPlain(sh: Shape, s: string, e: nat)
    requires OpensOnSpecial(sh) && e < |s| && !IsSpecial(s[e])
    ensures !Opens(sh, s, e)
  {
    if sh.Delimited? && sh.open.Lit? && HasPrefixAt(s, e, sh.open.text) {
      PrefixHead(s, e, sh.open.text);
    }
  }

  /** Text without special characters gives a table pattern no place to open. */
  lemma QuietWithoutSpecial(sh: Shape, s: string)
    requires OpensOnSpecial(sh) && NoSpecial(s)
    ensures Quiet(sh, s)
  {
    forall e | 0 <= e < |s| ensures !Opens(sh, s, e) {
      assert s[e] in s;
      NotOpensOnPlain(sh, s, e);
    }
  }

  /** The keyword alternatives from `words[k..]` report a match only where one of those words follows. */
  lemma {:induction false} KeywordNeedsWord(words: seq<string>, capture: bool, s: string, p: nat, k: nat)
    requires p < |s| && k <= |words|
    requires KeywordAt(words, capture, s, p, k).Some?
    ensures exists m :: k <= m < |words| && HasPrefixAt(s, p + 1, words[m])
    decreases |words| - k
  {
    if !HasPrefixAt(s, p + 1, words[k]) {
      KeywordNeedsWord(words, capture, s, p, k + 1);
    }
  }

  /** A match at `q` needs the pattern to open at `q`, or, for a delimited pattern, at some later position. */
  lemma MatchNeedsOpener(sh: Shape, s: string, q: nat)
    requires WellFormed(sh) && q <= |s|
    requires MatchAt(sh, s, q).Some?
    ensures exists e :: q <= e < |s| && Opens(sh, s, e) && (sh.Keyword? ==> e == q)
  {
    match sh
    case Keyword(words, capture) =>
      KeywordNeedsWord(words, capture, s, q, 0);
      assert Opens(sh, s, q);
    case Delimited(leading, open, _, _, _) =>
      var e := if leading then q + SpaceRun(s, q) else q;
      TokenAtBound(s, e, open);
      assert Opens(sh, s, e);
  }

  /** A pattern that opens nowhere is not found. */
  lemma QuietNotFound(sh: Shape, s: string)
    requires WellFormed(sh) && Quiet(sh, s)
    ensures Search(sh, s).None?
  {
    if Search(sh, s).Some? {
      MatchNeedsOpener(sh, s, Search(sh, s).value.start);
    }
  }

  /** The search reports the match at `p` when no earlier position matches. */
  lemma FoundAt(sh: Shape, s: string, p: nat)
    requires WellFormed(sh) && p <= |s| && MatchAt(sh, s, p).Some?
    requires forall q :: 0 <= q < p ==> MatchAt(sh, s, q).None?
    ensures Search(sh, s) == MatchAt(sh, s, p)
  {
  }

  /** Whether a pattern opens in the second part of a text depends on that part alone. */
  lemma OpensShift(sh: Shape, a: string, b: string, e: nat)
    requires e < |b|
    ensures Opens(sh, a + b, |a| + e) <==> Opens(sh, b, e)
  {
    var s := a + b;
    assert s[|a| + e] == b[e];
    match sh
    case Keyword(words, _) =>
      forall k | 0 <= k < |words| ensures HasPrefixAt(s, |a| + e + 1, words[k]) <==> HasPrefixAt(b, e + 1, words[k]) {
        HasPrefixShift(a, b, e + 1, words[k]);
      }
    case Delimited(_, open, _, _, _) =>
      match open
      case Lit(x) => HasPrefixShift(a, b, e, x);
      case Cmd(w) => HasPrefixShift(a, b, e + 1, w);
  }

  /**
    A pattern that opens neither in the text `u` before a command `c`, nor at
    the command, nor after its first character, nor in the text `b` that
    follows, opens nowhere in `u + c + b`.
   */
  lemma QuietAround(sh: Shape, u: string, c: string, b: string)
    requires OpensOnSpecial(sh) && NoSpecial(u) && |c| > 0 && NoSpecial(c[1..])
    requires !Opens(sh, u + c + b, |u|)
    requires Quiet(sh, b)
    ensures Quiet(sh, u + c + b)
  {
    var s := u + c + b;
    forall e | 0 <= e < |s| ensures !Opens(sh, s, e) {
      if e < |u| {
        assert s[e] == u[e] && u[e] in u;
        NotOpensOnPlain(sh, s, e);
      } else if |u| < e < |u| + |c| {
        assert s[e] == c[1..][e - |u| - 1] && c[1..][e - |u| - 1] in c[1..];
        NotOpensOnPlain(sh, s, e);
      } else if e >= |u| + |c| {
        OpensShift(sh, u + c, b, e - |u| - |c|);
      }
    }
  }

  /** `w` and `x` differ at some offset both have. */
  predicate Diverge(w: string, x: string) {
    |w| > 0 && |x| > 0 && (w[0] != x[0] || Diverge(w[1..], x[1..]))
  }

  /** Where `x` occurs, a word that diverges from it does not. */
  lemma {:induction false} DivergeNoPrefix(s: string, i: nat, w: string, x: string)
    requires Diverge(w, x) && HasPrefixAt(s, i, x)
    ensures !HasPrefixAt(s, i, w)
    decreases |w|
  {
    PrefixHead(s, i, x);
    if w[0] != x[0] {
      NoPrefixWhereDiffers(s, i, w, 0);
    } else {
      assert HasPrefixAt(s, i + 1, x[1..]) by {
        assert s[i + 1..i + 1 + |x[1..]|] == s[i..i + |x|][1..];
      }
      DivergeNoPrefix(s, i + 1, w[1..], x[1..]);
    }
  }

  /**
    The pattern cannot open at an `@` followed by `next`: every keyword and a
    command opener diverge from `next`, and a literal opener does not begin with `@`.
   */
  predicate Avoids(sh: Shape, next: string) {
    match sh
    case Keyword(words, _) => forall k :: 0 <= k < |words| ==> Diverge(words[k], next)
    case Delimited(_, open, _, _, _) =>
      match open
      case Cmd(w) => Diverge(w, next)
      case Lit(x) => |x| > 0 && x[0] != '@'
  }

  /** A pattern that avoids `next` does not open at an `@` followed by `next`. */
  lemma AvoidsNotOpens(sh: Shape, s: string, e: nat, next: string)
    requires e < |s| && s[e] == '@' && HasPrefixAt(s, e + 1, next)
    requires Avoids(sh, next)
    ensures !Opens(sh, s, e)
  {
    match sh
    case Keyword(words, _) =>
      forall k | 0 <= k < |words| ensures !HasPrefixAt(s, e + 1, words[k]) {
        DivergeNoPrefix(s, e + 1, words[k], next);
      }
    case Delimited(_, open, _, _, _) =>
      match open
      case Cmd(w) => DivergeNoPrefix(s, e + 1, w, next);
      case Lit(x) => NoPrefixWhereDiffers(s, e, x, 0);
  }

  /** No rule before `param` (index 13) can open at `@param`. */
  lemma RulesBeforeParamAvoid()
    ensures forall j :: 0 <= j < 13 ==> Avoids(Rules()[j].shape, "param")
  {
    var inl, cmd := InlineRules(), CommandRules();
    assert forall j :: 0 <= j < 7 ==> Avoids(inl[j].shape, "param");
    assert forall j :: 0 <= j < 6 ==> Avoids(cmd[j].shape, "param");
  }

  /** No rule before `returns|return` (index 20) can open at `@return` and a blank. */
  lemma RulesBeforeReturnAvoid()
    ensures forall j :: 0 <= j < 20 ==> Avoids(Rules()[j].shape, "return ")
  {
    InlineRulesAvoidReturn();
    CommandRulesAvoidReturn();
  }

  /** At a `@return ` command, no rule before `returns|return` opens. */
  lemma RulesBeforeReturnClosed(s: string, e: nat)
    requires e < |s| && s[e] == '@' && HasPrefixAt(s, e + 1, "return ")
    ensures forall j :: 0 <= j < 20 ==> !Opens(Rules()[j].shape, s, e)
  {
    RulesBeforeReturnAvoid();
    forall j | 0 <= j < 20 ensures !Opens(Rules()[j].shape, s, e) {
      AvoidsNotOpens(Rules()[j].shape, s, e, "return ");
    }
  }

  /** The inline rows cannot open at `@return` and a blank. */
  lemma InlineRulesAvoidReturn()
    ensures forall j :: 0 <= j < 7 ==> Avoids(InlineRules()[j].shape, "return ")
  {
    var inl := InlineRules();
    assert inl[1].shape.words == ["ref"];
    assert Diverge("ref", "return ") by {
      assert "ref"[1..] == "ef" && "return "[1..] == "eturn ";
      assert "ef"[1..] == "f" && "eturn "[1..] == "turn ";
    }
  }

  /** The command rows before `returns|return` cannot open at `@return` and a blank. */
  lemma CommandRulesAvoidReturn()
    ensures forall j :: 0 <= j < 13 ==> Avoids(CommandRules()[j].shape, "return ")
  {
    var cmd := CommandRules();
    assert cmd[9].shape.words == ["details", "remark"];
    assert Diverge("remark", "return ") by {
      assert "remark"[1..] == "emark" && "return "[1..] == "eturn ";
      assert "emark"[1..] == "mark" && "eturn "[1..] == "turn ";
    }
  }

  /** The `param` row of the table. */
  lemma ParamRule()
    ensures Rules()[13] == Rule(Keyword(["param"], true), "param", true)
  {
  }

  /** The `returns|return` row of the table. */
  lemma ReturnRule()
    ensures Rules()[20] == Rule(Keyword(["returns", "return"], false), "return", false)
  {
  }

  /**
    A command character, the single keyword `w`, a run of `n > 0` blanks and
    (with `capture`) a word of `m > 0` characters: the keyword pattern matches
    all of it, and the word is group 1.
   */
  lemma SingleKeywordMatch(w: string, capture: bool, s: string, p: nat, n: nat, m: nat)
    requires p < |s| && IsCommandChar(s[p]) && HasPrefixAt(s, p + 1, w)
    requires n > 0 && SpaceRun(s, p + 1 + |w|) == n
    requires capture ==> m > 0 && WordRun(s, p + 1 + |w| + n) == m
    ensures var g := p + 1 + |w| + n;
            MatchAt(Keyword([w], capture), s, p) == Some(if capture then Hit(p, g + m, g, g + m) else Hit(p, g, g, g))
  {
  }

  /**
    `@param NAME` before whitespace or the end of the text: the `param`
    pattern matches the command with its blank and captures the name.
   */
  lemma ParamMatch(u: string, name: string, rest: string)
    requires name != [] && forall k :: 0 <= k < |name| ==> !IsSpace(name[k])
    requires rest == [] || IsSpace(rest[0])
    ensures var p := |u|;
            MatchAt(Keyword(["param"], true), u + ("@param " + name) + rest, p) == Some(Hit(p, p + 7 + |name|, p + 7, p + 7 + |name|))
  {
    var s, p := u + ("@param " + name) + rest, |u|;
    ParamHead(u, name, rest);
    ParamName(u, name, rest);
    SingleKeywordMatch("param", true, s, p, 1, |name|);
  }

  /** In `u + "@param " + NAME + rest`, the command and its single blank. */
  lemma ParamHead(u: string, name: string, rest: string)
    requires name != [] && !IsSpace(name[0])
    ensures var s, p := u + ("@param " + name) + rest, |u|;
            p < |s| && s[p] == '@' && HasPrefixAt(s, p + 1, "param") && SpaceRun(s, p + 6) == 1
  {
    var s, p := u + ("@param " + name) + rest, |u|;
    assert s[p..p + 7] == "@param ";
    assert s[p + 1..p + 6] == "param";
    assert s[p + 6] == ' ' && s[p + 7] == name[0];
    SpaceRunIs(s, p + 6, 1);
  }

  /** In `u + "@param " + NAME + rest`, the name is the run of non-blanks after the blank. */
  lemma ParamName(u: string, name: string, rest: string)
    requires forall k :: 0 <= k < |name| ==> !IsSpace(name[k])
    requires rest == [] || IsSpace(rest[0])
    ensures WordRun(u + ("@param " + name) + rest, |u| + 7) == |name|
  {
    var a, b := u + "@param ", name + rest;
    assert u + ("@param " + name) + rest == a + b by { ParamSplit(u, name, rest); }
    assert |a| == |u| + 7;
    WordRunShift(a, b, 0);
    NameRun(name, rest);
  }

  lemma ParamSplit(u: string, name: string, rest: string)
    ensures u + ("@param " + name) + rest == (u + "@param ") + (name + rest)
  {
  }

  /** A name free of whitespace, followed by nothing or by whitespace, is one whole run. */
  lemma NameRun(name: string, rest: string)
    requires forall k :: 0 <= k < |name| ==> !IsSpace(name[k])
    requires rest == [] || IsSpace(rest[0])
    ensures WordRun(name + rest, 0) == |name|
  {
    var b := name + rest;
    assert forall k :: 0 <= k < |name| ==> b[k] == name[k];
    WordRunIs(b, 0, |name|);
  }

  /**
    `@return` and one blank before a text that does not open with whitespace:
    `returns` fails on the blank, and `return` matches the command with its blank.
   */
  lemma ReturnMatch(u: string, rest: string)
    requires rest == [] || !IsSpace(rest[0])
    ensures var p := |u|;
            MatchAt(Keyword(["returns", "return"], false), u + "@return " + rest, p) == Some(Hit(p, p + 8, p + 8, p + 8))
  {
    var s, p := u + "@return " + rest, |u|;
    ReturnHead(u, rest);
    NoPrefixWhereDiffers(s, p + 1, "returns", 6);
    SpaceRunIs(s, p + 7, 1);
  }

  /** In `u + "@return " + rest`, the command, its blank, and what follows the blank. */
  lemma ReturnHead(u: string, rest: string)
    ensures var s, p := u + "@return " + rest, |u|;
            p + 8 <= |s| && s[p] == '@' && HasPrefixAt(s, p + 1, "return") && s[p + 7] == ' ' &&
            (p + 8 < |s| ==> s[p + 8] == rest[0])
  {
    var s, p := u + "@return " + rest, |u|;
    assert s[p..p + 8] == "@return ";
    assert s[p + 1..p + 7] == "return";
  }

  /** No pattern of the table matches text made only of whitespace: every pattern needs a non-space character. */
  lemma {:induction false} NoMatchInWhitespace(sh: Shape, s: string, p: nat)
    requires WellFormed(sh)
    requires AllSpaces(s)
    requires p <= |s|
    ensures MatchAt(sh, s, p).None?
  {
    match sh
    case Keyword(_, _) =>
      assert !(p < |s| && IsCommandChar(s[p]));
    case Delimited(leading, open, close, _, _) =>
      var e := if leading then p + SpaceRun(s, p) else p;
      assert e == |s| || IsSpace(s[e]);
  }
}
