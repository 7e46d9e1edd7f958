/**
  The documentation-comment parser (`parse_description`): it turns the text
  of a comment into an ordered sequence of text leaves and tag nodes.

  The first rule of the table, in table order, that matches anywhere in the
  text splits it into the text before the match, one tag node, and the text
  after the match; both sides are parsed again and the three parts are
  flattened into one sequence. Text that no rule matches stays a string.

  The parser is stated for any table whose patterns consume input; the
  tool's own table is `Patterns.Rules()`.
 */
module Descriptions {
  import opened Strings
  import opened Optional
  import opened Patterns
  import Common

  /** A content node: a text leaf, or a one-key mapping `{kind: payload}`. */
  datatype Node = Leaf(text: string) | Tag(kind: string, payload: string)

  /** What `parse_description` returns for a string: the string itself, or a list of nodes. */
  datatype Parsed = Unmatched(text: string) | Split(nodes: seq<Node>)

  /** An element of the list that the list branch of `parse_description` walks over. */
  datatype Piece = Text(text: string) | Given(node: Node)

  /** An entity's description: a plain string, a node list, or a copy directive naming another entity. */
  datatype Description = Plain(text: string) | Nodes(nodes: seq<Node>) | Copy(target: string)

  /**
    A pattern search: for a rule and a text, the leftmost match, if any. The
    parser below is stated for any search whose matches lie inside the text and
    consume at least one character; the tool's own is `Find`.
   */
  type Finder = f: (Rule, string) -> Option<Hit> | forall r, s :: f(r, s).Some? ==> ValidHit(f(r, s).value, |s|)
    witness (r: Rule, s: string) => None

  /** `re.search` for a rule's pattern. */
  function Find(r: Rule, s: string): (h: Option<Hit>)
    ensures h.Some? ==> ValidHit(h.value, |s|)
  {
    if WellFormed(r.shape) then Search(r.shape, s) else None
  }

  /** The rule table of the tool is searched with `Find`. */
  const TextSearch: Finder := Find

  type Table = seq<Rule>

  /** No rule of the table matches anywhere in `s`. */
  predicate NoRuleMatches(find: Finder, tbl: Table, s: string) {
    forall j :: 0 <= j < |tbl| ==> find(tbl[j], s).None?
  }

  /** The first rule at index `i` or later, in table order, whose pattern matches somewhere in `s`. */
  function FirstRuleFrom(find: Finder, tbl: Table, s: string, i: nat): (r: Option<(nat, Hit)>)
    requires i <= |tbl|
    ensures r.Some? ==> i <= r.value.0 < |tbl| && find(tbl[r.value.0], s) == Some(r.value.1)
    ensures r.Some? ==> forall j :: i <= j < r.value.0 ==> find(tbl[j], s).None?
    ensures r.None? ==> forall j :: i <= j < |tbl| ==> find(tbl[j], s).None?
    decreases |tbl| - i
  {
    if i == |tbl| then None
    else
      match find(tbl[i], s)
      case Some(h) => Some((i, h))
      case None => FirstRuleFrom(find, tbl, s, i + 1)
  }

  /**
    The rule `parse_description` uses: the first in table order that matches
    anywhere, not the one whose match starts leftmost in the text.
   */
  function FirstRule(find: Finder, tbl: Table, s: string): (r: Option<(nat, Hit)>)
    ensures r.Some? ==> r.value.0 < |tbl| && find(tbl[r.value.0], s) == Some(r.value.1)
    ensures r.Some? ==> forall j :: 0 <= j < r.value.0 ==> find(tbl[j], s).None?
    ensures r.None? <==> NoRuleMatches(find, tbl, s)
  {
    FirstRuleFrom(find, tbl, s, 0)
  }

  /** The payload of a tag: group 1 with its padding removed and stripped, or `''` for a rule flagged 0. */
  function Payload(rule: Rule, s: string, h: Hit): (p: string)
    requires ValidHit(h, |s|)
    ensures IsStripped(p)
    ensures !rule.hasPayload ==> p == ""
    ensures rule.hasPayload ==> p == Strip(Common.Dedent(s[h.groupStart..h.groupEnd]))
  {
    if rule.hasPayload then Strip(Common.Dedent(s[h.groupStart..h.groupEnd])) else ""
  }

  /** The contribution of a parsed piece to the enclosing list: empty strings vanish, other strings are stripped. */
  function Leaves(p: Parsed): seq<Node> {
    match p
    case Unmatched(t) => if |t| > 0 then [Leaf(Strip(t))] else []
    case Split(nodes) => nodes
  }

  /** The tag node a rule produces for a match. */
  function TagFor(rule: Rule, s: string, h: Hit): Node
    requires ValidHit(h, |s|)
  {
    Tag(rule.kind, Payload(rule, s, h))
  }

  /** The string branch of `parse_description`. */
  function Parse(find: Finder, tbl: Table, s: string): Parsed
    decreases |s|
  {
    match FirstRule(find, tbl, s)
    case None => Unmatched(s)
    case Some((i, h)) =>
      Split(Leaves(Parse(find, tbl, s[..h.start])) + [TagFor(tbl[i], s, h)] + Leaves(Parse(find, tbl, s[h.end..])))
  }

  /** `parse_description` with the tool's rule table, applied to the text of a comment. */
  function ParseDescription(s: string): (d: Description)
    ensures d.Plain? <==> NoRuleMatches(TextSearch, Rules(), s)
    ensures d.Plain? ==> d.text == s
    ensures !d.Copy?
  {
    match Parse(TextSearch, Rules(), s)
    case Unmatched(t) => Plain(t)
    case Split(nodes) => Nodes(nodes)
  }

  /** What one piece of the list adds: a parsed string's leaves, or the node itself. */
  function PieceNodes(find: Finder, tbl: Table, p: Piece): seq<Node> {
    match p
    case Text(t) => Leaves(Parse(find, tbl, t))
    case Given(n) => [n]
  }

  /** The list branch of `parse_description`: what `r` holds after the loop has seen `pieces`. */
  function FlattenPieces(find: Finder, tbl: Table, pieces: seq<Piece>): seq<Node> {
    if pieces == [] then []
    else FlattenPieces(find, tbl, pieces[..|pieces| - 1]) + PieceNodes(find, tbl, pieces[|pieces| - 1])
  }

  /** The loop of the list branch: strings are parsed and appended or spliced in, nodes are appended. */
  method ParseList(find: Finder, tbl: Table, pieces: seq<Piece>) returns (r: seq<Node>)
    ensures r == FlattenPieces(find, tbl, pieces)
  {
    r := [];
    for i := 0 to |pieces|
      invariant r == FlattenPieces(find, tbl, pieces[..i])
    {
      match pieces[i] {
        case Text(ss) =>
          var rr := Parse(find, tbl, ss);
          match rr {
            case Unmatched(t) =>
              if |t| > 0 {
                r := r + [Leaf(Strip(t))];
              }
            case Split(nodes) =>
              r := r + nodes;
          }
        case Given(n) =>
          r := r + [n];
      }
      assert pieces[..i + 1][..i] == pieces[..i];
    }
    assert pieces[..|pieces|] == pieces;
  }

  /**
    On a match, the result is what the list branch makes of the three-element
    list `[prefix, {kind: payload}, suffix]`.
   */
  lemma ParseMatchIsListOfThree(find: Finder, tbl: Table, s: string, i: nat, h: Hit)
    requires FirstRule(find, tbl, s) == Some((i, h))
    ensures Parse(find, tbl, s) == Split(FlattenPieces(find, tbl, [Text(s[..h.start]), Given(TagFor(tbl[i], s, h)), Text(s[h.end..])]))
  {
    var tag := TagFor(tbl[i], s, h);
    var ps := [Text(s[..h.start]), Given(tag), Text(s[h.end..])];
    var pre := Leaves(Parse(find, tbl, s[..h.start]));
    var suf := Leaves(Parse(find, tbl, s[h.end..]));
    assert ps[..2][..1] == ps[..1] && ps[..1][..0] == [];
    assert FlattenPieces(find, tbl, ps[..1]) == pre;
    assert FlattenPieces(find, tbl, ps[..2]) == pre + [tag];
    assert FlattenPieces(find, tbl, ps) == pre + [tag] + suf;
  }

  /** A tag node that some rule of the table produces: its kind is that rule's, and a rule flagged 0 gives `''`. */
  predicate TagFromTable(tbl: Table, n: Node)
    requires n.Tag?
  {
    exists i :: 0 <= i < |tbl| && tbl[i].kind == n.kind && (tbl[i].hasPayload || n.payload == "")
  }

  /** A node of a parse: leaves are stripped, tags come from the table and have stripped payloads. */
  predicate NodeWellFormed(tbl: Table, n: Node) {
    match n
    case Leaf(t) => IsStripped(t)
    case Tag(_, p) => TagFromTable(tbl, n) && IsStripped(p)
  }

  /** Every node of the list is well formed. */
  predicate AllWellFormed(tbl: Table, nodes: seq<Node>) {
    forall k :: 0 <= k < |nodes| ==> NodeWellFormed(tbl, nodes[k])
  }

  /** Parsing a string yields well-formed nodes only. */
  lemma {:induction false} ParseNodesWellFormed(find: Finder, tbl: Table, s: string)
    ensures AllWellFormed(tbl, Leaves(Parse(find, tbl, s)))
    decreases |s|
  {
    match FirstRule(find, tbl, s)
    case None =>
    case Some((i, h)) =>
      ParseNodesWellFormed(find, tbl, s[..h.start]);
      ParseNodesWellFormed(find, tbl, s[h.end..]);
      var tag := TagFor(tbl[i], s, h);
      assert TagFromTable(tbl, tag);
      var pre := Leaves(Parse(find, tbl, s[..h.start]));
      var suf := Leaves(Parse(find, tbl, s[h.end..]));
      assert Leaves(Parse(find, tbl, s)) == pre + [tag] + suf;
      WellFormedAround(tbl, pre, tag, suf);
  }

  /** Well-formed nodes on both sides of a well-formed tag make a well-formed list. */
  lemma WellFormedAround(tbl: Table, pre: seq<Node>, tag: Node, suf: seq<Node>)
    requires AllWellFormed(tbl, pre) && NodeWellFormed(tbl, tag) && AllWellFormed(tbl, suf)
    ensures AllWellFormed(tbl, pre + [tag] + suf)
  {
    var nodes := pre + [tag] + suf;
    forall k | 0 <= k < |nodes| ensures NodeWellFormed(tbl, nodes[k]) {
      if k < |pre| {
        assert nodes[k] == pre[k];
      } else if k > |pre| {
        assert nodes[k] == suf[k - |pre| - 1];
      }
    }
  }

  /** `t` is the stripped form of a non-empty stretch of `s` in which no rule matches. */
  ghost predicate LeafFrom(find: Finder, tbl: Table, t: string, s: string) {
    exists i, j :: 0 <= i < j <= |s| && NoRuleMatches(find, tbl, s[i..j]) && t == Strip(s[i..j])
  }

  /** A leaf that comes from a stretch of `s` comes from `s`. */
  lemma SubLeaf(find: Finder, tbl: Table, t: string, s: string, a: nat, b: nat)
    requires a <= b <= |s|
    requires LeafFrom(find, tbl, t, s[a..b])
    ensures LeafFrom(find, tbl, t, s)
  {
    var i, j :| 0 <= i < j <= b - a && NoRuleMatches(find, tbl, s[a..b][i..j]) && t == Strip(s[a..b][i..j]);
    SliceOfSlice(s, a, b, i, j);
  }

  /** Every text leaf among `nodes` comes from `s`. */
  ghost predicate LeavesFrom(find: Finder, tbl: Table, nodes: seq<Node>, s: string) {
    forall k :: 0 <= k < |nodes| && nodes[k].Leaf? ==> LeafFrom(find, tbl, nodes[k].text, s)
  }

  /** Leaves that come from a stretch of `s` come from `s`. */
  lemma LeavesFromWider(find: Finder, tbl: Table, nodes: seq<Node>, s: string, a: nat, b: nat)
    requires a <= b <= |s|
    requires LeavesFrom(find, tbl, nodes, s[a..b])
    ensures LeavesFrom(find, tbl, nodes, s)
  {
    forall k | 0 <= k < |nodes| && nodes[k].Leaf? ensures LeafFrom(find, tbl, nodes[k].text, s) {
      SubLeaf(find, tbl, nodes[k].text, s, a, b);
    }
  }

  /** Leaves from `s` on both sides of a tag are leaves from `s`. */
  lemma LeavesFromSplit(find: Finder, tbl: Table, pre: seq<Node>, tag: Node, suf: seq<Node>, s: string)
    requires tag.Tag?
    requires LeavesFrom(find, tbl, pre, s) && LeavesFrom(find, tbl, suf, s)
    ensures LeavesFrom(find, tbl, pre + [tag] + suf, s)
  {
    var nodes := pre + [tag] + suf;
    forall k | 0 <= k < |nodes| && nodes[k].Leaf? ensures LeafFrom(find, tbl, nodes[k].text, s) {
      if k < |pre| {
        assert nodes[k] == pre[k];
      } else {
        assert nodes[k] == suf[k - |pre| - 1];
      }
    }
  }

  /**
    Every text leaf of a parse is the stripped form of a non-empty stretch of
    the input in which no rule matches: leaves never hide an unparsed tag.
   */
  lemma {:induction false} ParseLeavesUnmatched(find: Finder, tbl: Table, s: string)
    ensures LeavesFrom(find, tbl, Leaves(Parse(find, tbl, s)), s)
    decreases |s|
  {
    match FirstRule(find, tbl, s)
    case None =>
      if |s| > 0 {
        assert s[0..|s|] == s;
        assert LeafFrom(find, tbl, Strip(s), s);
      }
    case Some((i, h)) =>
      var a, b := h.start, h.end;
      assert s[..a] == s[0..a] && s[b..] == s[b..|s|];
      ParseLeavesUnmatched(find, tbl, s[0..a]);
      ParseLeavesUnmatched(find, tbl, s[b..|s|]);
      var pre := Leaves(Parse(find, tbl, s[0..a]));
      var suf := Leaves(Parse(find, tbl, s[b..|s|]));
      LeavesFromWider(find, tbl, pre, s, 0, a);
      LeavesFromWider(find, tbl, suf, s, b, |s|);
      LeavesFromSplit(find, tbl, pre, TagFor(tbl[i], s, h), suf, s);
  }

  /** A stretch `[start, end)` of the parsed text. */
  datatype Span = Span(start: nat, end: nat)

  /** Every span moved `d` characters to the right. */
  function Shifted(o: seq<Span>, d: nat): seq<Span> {
    seq(|o|, k requires 0 <= k < |o| => Span(o[k].start + d, o[k].end + d))
  }

  /**
    The stretch of the input that each node of the parse comes from, in the
    order of the nodes: a text leaf comes from the text around the tags, a tag
    from its match.
   */
  function Origins(find: Finder, tbl: Table, s: string): seq<Span>
    decreases |s|
  {
    match FirstRule(find, tbl, s)
    case None => if |s| > 0 then [Span(0, |s|)] else []
    case Some((i, h)) =>
      Origins(find, tbl, s[..h.start]) + [Span(h.start, h.end)] + Shifted(Origins(find, tbl, s[h.end..]), h.end)
  }

  /** The spans are non-empty and follow each other without gap or overlap from `a` to `b`. */
  predicate Tiles(o: seq<Span>, a: nat, b: nat) {
    && (o == [] ==> a == b)
    && (o != [] ==> o[0].start == a && o[|o| - 1].end == b)
    && (forall k :: 0 <= k < |o| ==> o[k].start < o[k].end)
    && (forall k :: 0 <= k < |o| - 1 ==> o[k].end == o[k + 1].start)
  }

  /** Spans tiling `[a, m)` followed by spans tiling `[m, b)` tile `[a, b)`. */
  lemma TilesAppend(x: seq<Span>, y: seq<Span>, a: nat, m: nat, b: nat)
    requires Tiles(x, a, m) && Tiles(y, m, b)
    ensures Tiles(x + y, a, b)
  {
    var o := x + y;
    forall k | 0 <= k < |o| - 1 ensures o[k].end == o[k + 1].start {
      if k + 1 < |x| {
        assert o[k] == x[k] && o[k + 1] == x[k + 1];
      } else if k + 1 == |x| {
        assert o[k] == x[k] && o[k + 1] == y[0];
      } else {
        assert o[k] == y[k - |x|] && o[k + 1] == y[k + 1 - |x|];
      }
    }
    forall k | 0 <= k < |o| ensures o[k].start < o[k].end {
      if k < |x| {
        assert o[k] == x[k];
      } else {
        assert o[k] == y[k - |x|];
      }
    }
  }

  /** A tiling moved by `d` tiles the moved stretch. */
  lemma TilesShift(o: seq<Span>, a: nat, b: nat, d: nat)
    requires Tiles(o, a, b)
    ensures Tiles(Shifted(o, d), a + d, b + d)
  {
  }

  /** A tag node is the first rule's match in some stretch `s[c..d]` enclosing `sp`, and is what that rule makes of it. */
  ghost predicate TagMatched(find: Finder, tbl: Table, n: Node, sp: Span, s: string) {
    exists c: nat, d: nat, i: nat, h: Hit ::
      c <= d <= |s| && FirstRule(find, tbl, s[c..d]) == Some((i, h)) && ValidHit(h, d - c)
      && sp == Span(c + h.start, c + h.end) && n == TagFor(tbl[i], s[c..d], h)
  }

  /** `t` is the text `x`, in which no rule matches, stripped. */
  ghost predicate LeafOf(find: Finder, tbl: Table, t: string, x: string) {
    NoRuleMatches(find, tbl, x) && t == Strip(x)
  }

  /**
    Node `n` comes from the stretch `sp` of `s`: a leaf is that stretch
    stripped, and no rule matches in it; a tag is a rule's match there.
   */
  ghost predicate NodeFrom(find: Finder, tbl: Table, n: Node, sp: Span, s: string) {
    && sp.start < sp.end <= |s|
    && match n
       case Leaf(t) => LeafOf(find, tbl, t, s[sp.start..sp.end])
       case Tag(_, _) => TagMatched(find, tbl, n, sp, s)
  }

  /** Each node comes from the span at the same position. */
  ghost predicate NodesFrom(find: Finder, tbl: Table, nodes: seq<Node>, o: seq<Span>, s: string) {
    |nodes| == |o| && forall k :: 0 <= k < |o| ==> NodeFrom(find, tbl, nodes[k], o[k], s)
  }

  /** A node from a stretch of `s[a..b]` comes from the same stretch, moved by `a`, of `s`. */
  lemma NodeFromWider(find: Finder, tbl: Table, n: Node, sp: Span, s: string, a: nat, b: nat)
    requires a <= b <= |s| && NodeFrom(find, tbl, n, sp, s[a..b])
    ensures NodeFrom(find, tbl, n, Span(sp.start + a, sp.end + a), s)
  {
    if n.Leaf? {
      LeafFromWider(find, tbl, n.text, sp, s, a, b);
    } else {
      TagFromWider(find, tbl, n, sp, s, a, b);
    }
  }

  /** The leaf case of `NodeFromWider`. */
  lemma LeafFromWider(find: Finder, tbl: Table, t: string, sp: Span, s: string, a: nat, b: nat)
    requires a <= b <= |s| && sp.start < sp.end <= b - a
    requires LeafOf(find, tbl, t, s[a..b][sp.start..sp.end])
    ensures NodeFrom(find, tbl, Leaf(t), Span(sp.start + a, sp.end + a), s)
  {
    var x, y := s[a..b][sp.start..sp.end], s[sp.start + a..sp.end + a];
    assert x == y by {
      SliceOfSlice(s, a, b, sp.start, sp.end);
    }
    LeafNodeFrom(find, tbl, t, Span(sp.start + a, sp.end + a), s);
  }

  /** A leaf whose text comes from the stretch `sp` comes from that stretch. */
  lemma LeafNodeFrom(find: Finder, tbl: Table, t: string, sp: Span, s: string)
    requires sp.start < sp.end <= |s| && LeafOf(find, tbl, t, s[sp.start..sp.end])
    ensures NodeFrom(find, tbl, Leaf(t), sp, s)
  {
  }

  /** The tag case of `NodeFromWider`. */
  lemma TagFromWider(find: Finder, tbl: Table, n: Node, sp: Span, s: string, a: nat, b: nat)
    requires a <= b <= |s| && TagMatched(find, tbl, n, sp, s[a..b])
    ensures TagMatched(find, tbl, n, Span(sp.start + a, sp.end + a), s)
  {
    var c: nat, d: nat, i: nat, h: Hit :|
      c <= d <= |s[a..b]| && FirstRule(find, tbl, s[a..b][c..d]) == Some((i, h)) && ValidHit(h, d - c)
      && sp == Span(c + h.start, c + h.end) && n == TagFor(tbl[i], s[a..b][c..d], h);
    var x := s[a..b][c..d];
    assert x == s[a + c..a + d] by {
      SliceOfSlice(s, a, b, c, d);
    }
    assert FirstRule(find, tbl, s[a + c..a + d]) == Some((i, h)) && n == TagFor(tbl[i], s[a + c..a + d], h);
  }

  /** The nodes of a parse of `s[a..b]` come from the moved spans of `s`. */
  lemma NodesFromWider(find: Finder, tbl: Table, nodes: seq<Node>, o: seq<Span>, s: string, a: nat, b: nat)
    requires a <= b <= |s| && NodesFrom(find, tbl, nodes, o, s[a..b])
    ensures NodesFrom(find, tbl, nodes, Shifted(o, a), s)
  {
    forall k | 0 <= k < |o| ensures NodeFrom(find, tbl, nodes[k], Shifted(o, a)[k], s) {
      NodeFromWider(find, tbl, nodes[k], o[k], s, a, b);
    }
  }

  /** Node lists from their spans, concatenated, come from the concatenated spans. */
  lemma NodesFromAppend(find: Finder, tbl: Table, n1: seq<Node>, o1: seq<Span>, n2: seq<Node>, o2: seq<Span>, s: string)
    requires NodesFrom(find, tbl, n1, o1, s) && NodesFrom(find, tbl, n2, o2, s)
    ensures NodesFrom(find, tbl, n1 + n2, o1 + o2, s)
  {
    forall k | 0 <= k < |o1 + o2| ensures NodeFrom(find, tbl, (n1 + n2)[k], (o1 + o2)[k], s) {
      if k < |o1| {
        assert (n1 + n2)[k] == n1[k] && (o1 + o2)[k] == o1[k];
      } else {
        assert (n1 + n2)[k] == n2[k - |o1|] && (o1 + o2)[k] == o2[k - |o1|];
      }
    }
  }

  /**
    The parse keeps the order of the input: the stretches its nodes come
    from follow each other from the start of the text to its end, each leaf
    is its stretch stripped (a stretch in which no rule matches), and each tag
    is a rule's match at its place, between the stretches of its neighbours.
   */
  lemma {:induction false} ParseInOrder(find: Finder, tbl: Table, s: string)
    ensures Tiles(Origins(find, tbl, s), 0, |s|)
    ensures NodesFrom(find, tbl, Leaves(Parse(find, tbl, s)), Origins(find, tbl, s), s)
    decreases |s|
  {
    match FirstRule(find, tbl, s)
    case None =>
      if |s| > 0 {
        assert s[0..|s|] == s;
      }
    case Some((i, h)) =>
      ParseInOrder(find, tbl, s[..h.start]);
      ParseInOrder(find, tbl, s[h.end..]);
      MatchInOrder(find, tbl, s, i, h);
  }

  /** The nodes of the parse of `s` come, in order, from spans tiling `s`. */
  ghost predicate InOrder(find: Finder, tbl: Table, s: string) {
    Tiles(Origins(find, tbl, s), 0, |s|) && NodesFrom(find, tbl, Leaves(Parse(find, tbl, s)), Origins(find, tbl, s), s)
  }

  /** The step of `ParseInOrder` at a match: the tag's span sits between the two sides' tilings. */
  lemma MatchInOrder(find: Finder, tbl: Table, s: string, i: nat, h: Hit)
    requires FirstRule(find, tbl, s) == Some((i, h))
    requires InOrder(find, tbl, s[..h.start]) && InOrder(find, tbl, s[h.end..])
    ensures InOrder(find, tbl, s)
  {
    var a, b := h.start, h.end;
    var oP, oS := Origins(find, tbl, s[..a]), Origins(find, tbl, s[b..]);
    var nP, nS := Leaves(Parse(find, tbl, s[..a])), Leaves(Parse(find, tbl, s[b..]));
    SplitAtMatch(find, tbl, s, i, h);
    PrefixNodesFrom(find, tbl, nP, oP, s, a);
    SuffixNodesFrom(find, tbl, nS, oS, s, b);
    TagNodeFrom(find, tbl, s, i, h);
    NodesFromAround(find, tbl, nP, oP, TagFor(tbl[i], s, h), Span(a, b), nS, Shifted(oS, b), s);
    TilesShift(oS, 0, |s| - b, b);
    TilesAround(oP, Span(a, b), Shifted(oS, b), |s|);
  }

  /** At a match, the spans and the nodes are the prefix's, the match's, and the suffix's moved past the match. */
  lemma SplitAtMatch(find: Finder, tbl: Table, s: string, i: nat, h: Hit)
    requires FirstRule(find, tbl, s) == Some((i, h))
    ensures Origins(find, tbl, s) == Origins(find, tbl, s[..h.start]) + [Span(h.start, h.end)] + Shifted(Origins(find, tbl, s[h.end..]), h.end)
    ensures Leaves(Parse(find, tbl, s)) == Leaves(Parse(find, tbl, s[..h.start])) + [TagFor(tbl[i], s, h)] + Leaves(Parse(find, tbl, s[h.end..]))
  {
  }

  /** Nodes from spans of the prefix `s[..a]` come from the same spans of `s`. */
  lemma PrefixNodesFrom(find: Finder, tbl: Table, nodes: seq<Node>, o: seq<Span>, s: string, a: nat)
    requires a <= |s| && NodesFrom(find, tbl, nodes, o, s[..a])
    ensures NodesFrom(find, tbl, nodes, o, s)
  {
    assert s[..a] == s[0..a];
    assert Shifted(o, 0) == o;
    NodesFromWider(find, tbl, nodes, o, s, 0, a);
  }

  /** Nodes from spans of the suffix `s[b..]` come from those spans moved by `b` in `s`. */
  lemma SuffixNodesFrom(find: Finder, tbl: Table, nodes: seq<Node>, o: seq<Span>, s: string, b: nat)
    requires b <= |s| && NodesFrom(find, tbl, nodes, o, s[b..])
    ensures NodesFrom(find, tbl, nodes, Shifted(o, b), s)
  {
    assert s[b..] == s[b..|s|];
    NodesFromWider(find, tbl, nodes, o, s, b, |s|);
  }

  /** The tag of the first matching rule comes from the match's span. */
  lemma TagNodeFrom(find: Finder, tbl: Table, s: string, i: nat, h: Hit)
    requires FirstRule(find, tbl, s) == Some((i, h))
    ensures NodesFrom(find, tbl, [TagFor(tbl[i], s, h)], [Span(h.start, h.end)], s)
  {
    assert s[0..|s|] == s;
    assert TagMatched(find, tbl, TagFor(tbl[i], s, h), Span(h.start, h.end), s);
  }

  /** Nodes from their spans on both sides of a tag from its span come from the joined spans. */
  lemma NodesFromAround(find: Finder, tbl: Table, n1: seq<Node>, o1: seq<Span>, tag: Node, sp: Span, n2: seq<Node>, o2: seq<Span>, s: string)
    requires NodesFrom(find, tbl, n1, o1, s) && NodesFrom(find, tbl, [tag], [sp], s) && NodesFrom(find, tbl, n2, o2, s)
    ensures NodesFrom(find, tbl, n1 + [tag] + n2, o1 + [sp] + o2, s)
  {
    NodesFromAppend(find, tbl, n1, o1, [tag], [sp], s);
    NodesFromAppend(find, tbl, n1 + [tag], o1 + [sp], n2, o2, s);
  }

  /** A tiling of `[0, a)`, the span `[a, b)` and a tiling of `[b, e)` tile `[0, e)`. */
  lemma TilesAround(x: seq<Span>, sp: Span, y: seq<Span>, e: nat)
    requires sp.start < sp.end && Tiles(x, 0, sp.start) && Tiles(y, sp.end, e)
    ensures Tiles(x + [sp] + y, 0, e)
  {
    TilesAppend(x, [sp], 0, sp.start, sp.end);
    TilesAppend(x + [sp], y, 0, sp.end, e);
  }

  /** The rules before index `n` of the tool's table open nowhere in `s`. */
  predicate QuietBefore(s: string, n: nat)
    requires n <= |Rules()|
  {
    forall j :: 0 <= j < n ==> Quiet(Rules()[j].shape, s)
  }

  /** No rule among the first `m` opens when none among the first `n >= m` does. */
  lemma QuietBeforeFewer(s: string, n: nat, m: nat)
    requires m <= n <= |Rules()|
    requires QuietBefore(s, n)
    ensures QuietBefore(s, m)
  {
  }

  /** The rule at `i` is the first to match when it matches and no rule before it does. */
  lemma FirstRuleIs(find: Finder, tbl: Table, s: string, i: nat, h: Hit)
    requires i < |tbl| && find(tbl[i], s) == Some(h)
    requires forall j :: 0 <= j < i ==> find(tbl[j], s).None?
    ensures FirstRule(find, tbl, s) == Some((i, h))
  {
  }

  /** In text without special characters every rule of the table is quiet. */
  lemma PlainQuiet(s: string)
    requires NoSpecial(s)
    ensures QuietBefore(s, |Rules()|)
  {
    RulesOpenOnSpecial();
    forall j | 0 <= j < |Rules()| ensures Quiet(Rules()[j].shape, s) {
      QuietWithoutSpecial(Rules()[j].shape, s);
    }
  }

  /** Rules that open nowhere in `s` do not match in it. */
  lemma QuietRulesFail(s: string, n: nat)
    requires n <= |Rules()| && QuietBefore(s, n)
    ensures forall j :: 0 <= j < n ==> TextSearch(Rules()[j], s).None?
  {
    forall j | 0 <= j < n ensures TextSearch(Rules()[j], s).None? {
      QuietNotFound(Rules()[j].shape, s);
    }
  }

  /** Text without special characters is not split: it stays one string. */
  lemma PlainUnmatched(s: string)
    requires NoSpecial(s)
    ensures Parse(TextSearch, Rules(), s) == Unmatched(s)
  {
    PlainQuiet(s);
    QuietRulesFail(s, |Rules()|);
    assert NoRuleMatches(TextSearch, Rules(), s);
  }

  /** The rules before `n` stay quiet behind plain text and a command at which none of them opens. */
  lemma QuietBeforeAround(u: string, c: string, b: string, n: nat)
    requires n <= |Rules()|
    requires NoSpecial(u) && |c| > 0 && NoSpecial(c[1..])
    requires forall j :: 0 <= j < n ==> !Opens(Rules()[j].shape, u + c + b, |u|)
    requires QuietBefore(b, n)
    ensures QuietBefore(u + c + b, n)
  {
    RulesOpenOnSpecial();
    forall j | 0 <= j < n ensures Quiet(Rules()[j].shape, u + c + b) {
      QuietAround(Rules()[j].shape, u, c, b);
    }
  }

  /**
    In `u + "@param NAME" + rest`, with plain text before the command, a name
    without blanks or special characters, and no rule before `param` opening
    in `rest`, the first rule to match is `param`, at the command, with the
    name as group 1; and no rule before `param` opens in the whole text.
   */
  lemma ParamFirst(u: string, name: string, rest: string)
    requires NoSpecial(u) && NoSpecial(name)
    requires name != [] && forall k :: 0 <= k < |name| ==> !IsSpace(name[k])
    requires rest == [] || IsSpace(rest[0])
    requires QuietBefore(rest, 13)
    ensures var s, p := u + ("@param " + name) + rest, |u|;
            && FirstRule(TextSearch, Rules(), s) == Some((13, Hit(p, p + 7 + |name|, p + 7, p + 7 + |name|)))
            && QuietBefore(s, 13)
  {
    var s, p := u + ("@param " + name) + rest, |u|;
    ParamQuiet(u, name, rest);
    QuietRulesFail(s, 13);
    ParamFound(u, name, rest);
    FirstRuleIs(TextSearch, Rules(), s, 13, Hit(p, p + 7 + |name|, p + 7, p + 7 + |name|));
  }

  /** No rule before `param` opens in `u + "@param NAME" + rest`. */
  lemma ParamQuiet(u: string, name: string, rest: string)
    requires NoSpecial(u) && NoSpecial(name)
    requires name != [] && !IsSpace(name[0])
    requires QuietBefore(rest, 13)
    ensures QuietBefore(u + ("@param " + name) + rest, 13)
  {
    var c := "@param " + name;
    var s, p := u + c + rest, |u|;
    ParamHead(u, name, rest);
    RulesBeforeParamAvoid();
    forall j | 0 <= j < 13 ensures !Opens(Rules()[j].shape, s, p) {
      AvoidsNotOpens(Rules()[j].shape, s, p, "param");
    }
    assert c[1..] == "param " + name;
    QuietBeforeAround(u, c, rest, 13);
  }

  /** The `param` rule finds the command of `u + "@param NAME" + rest` and captures the name. */
  lemma ParamFound(u: string, name: string, rest: string)
    requires NoSpecial(u)
    requires name != [] && forall k :: 0 <= k < |name| ==> !IsSpace(name[k])
    requires rest == [] || IsSpace(rest[0])
    ensures var s, p := u + ("@param " + name) + rest, |u|;
            TextSearch(Rules()[13], s) == Some(Hit(p, p + 7 + |name|, p + 7, p + 7 + |name|))
  {
    var s, p := u + ("@param " + name) + rest, |u|;
    var sh := Keyword(["param"], true);
    ParamRule();
    ParamMatch(u, name, rest);
    forall q | 0 <= q < p ensures MatchAt(sh, s, q).None? {
      assert s[q] == u[q] && u[q] in u;
    }
    FoundAt(sh, s, p);
  }

  /**
    In `u + "@return " + rest`, with plain text before the command, a `rest`
    that does not open with whitespace and in which no rule before
    `returns|return` opens, the first rule to match is `returns|return`, and
    its match is the command with its blank.
   */
  lemma ReturnFirst(u: string, rest: string)
    requires NoSpecial(u)
    requires rest == [] || !IsSpace(rest[0])
    requires QuietBefore(rest, 20)
    ensures var s, p := u + "@return " + rest, |u|;
            && FirstRule(TextSearch, Rules(), s) == Some((20, Hit(p, p + 8, p + 8, p + 8)))
            && QuietBefore(s, 20)
  {
    var s, p := u + "@return " + rest, |u|;
    ReturnQuiet(u, rest);
    QuietRulesFail(s, 20);
    ReturnFound(u, rest);
    FirstRuleIs(TextSearch, Rules(), s, 20, Hit(p, p + 8, p + 8, p + 8));
  }

  /** No rule before `returns|return` opens in `u + "@return " + rest`. */
  lemma ReturnQuiet(u: string, rest: string)
    requires NoSpecial(u)
    requires QuietBefore(rest, 20)
    ensures QuietBefore(u + "@return " + rest, 20)
  {
    var c := "@return ";
    var s, p := u + c + rest, |u|;
    assert s[p] == '@' && HasPrefixAt(s, p + 1, "return ") by {
      assert s[p..p + 8] == c;
    }
    RulesBeforeReturnClosed(s, p);
    assert NoSpecial(c[1..]) by {
      assert c[1..] == "return ";
    }
    QuietBeforeAround(u, c, rest, 20);
  }

  /** The `returns|return` rule finds the command of `u + "@return " + rest`. */
  lemma ReturnFound(u: string, rest: string)
    requires NoSpecial(u)
    requires rest == [] || !IsSpace(rest[0])
    ensures var s, p := u + "@return " + rest, |u|;
            TextSearch(Rules()[20], s) == Some(Hit(p, p + 8, p + 8, p + 8))
  {
    var s, p := u + "@return " + rest, |u|;
    var sh := Keyword(["returns", "return"], false);
    ReturnRule();
    ReturnMatch(u, rest);
    forall q | 0 <= q < p ensures MatchAt(sh, s, q).None? {
      assert s[q] == u[q] && u[q] in u;
    }
    FoundAt(sh, s, p);
  }

  /** A `@param NAME` command splits the text into what precedes it, a `param` tag holding the name, and what follows. */
  lemma ParseParam(u: string, name: string, rest: string)
    requires NoSpecial(u) && NoSpecial(name)
    requires name != [] && forall k :: 0 <= k < |name| ==> !IsSpace(name[k])
    requires rest == [] || IsSpace(rest[0])
    requires QuietBefore(rest, 13)
    ensures QuietBefore(u + ("@param " + name) + rest, 13)
    ensures Parse(TextSearch, Rules(), u + ("@param " + name) + rest)
         == Split(Leaves(Parse(TextSearch, Rules(), u)) + [Tag("param", name)] + Leaves(Parse(TextSearch, Rules(), rest)))
  {
    var s, p := u + ("@param " + name) + rest, |u|;
    var h := Hit(p, p + 7 + |name|, p + 7, p + 7 + |name|);
    ParamFirst(u, name, rest);
    ParamPieces(u, name, rest);
  }

  /** The pieces of `u + "@param NAME" + rest` around the `param` match, and the tag it makes. */
  lemma ParamPieces(u: string, name: string, rest: string)
    requires name != [] && forall k :: 0 <= k < |name| ==> !IsSpace(name[k])
    ensures var s, p := u + ("@param " + name) + rest, |u|;
            var h := Hit(p, p + 7 + |name|, p + 7, p + 7 + |name|);
            && ValidHit(h, |s|) && s[..p] == u && s[h.end..] == rest
            && TagFor(Rules()[13], s, h) == Tag("param", name)
  {
    var s, p := u + ("@param " + name) + rest, |u|;
    var h := Hit(p, p + 7 + |name|, p + 7, p + 7 + |name|);
    ParamRule();
    assert s[..p] == u && s[h.end..] == rest && s[h.groupStart..h.groupEnd] == name;
    Common.DedentUnindentedLine(name);
  }

  /** A `@return` command splits the text into what precedes it, a `return` tag with no payload, and what follows. */
  lemma ParseReturn(u: string, rest: string)
    requires NoSpecial(u)
    requires rest == [] || !IsSpace(rest[0])
    requires QuietBefore(rest, 20)
    ensures QuietBefore(u + "@return " + rest, 20)
    ensures Parse(TextSearch, Rules(), u + "@return " + rest)
         == Split(Leaves(Parse(TextSearch, Rules(), u)) + [Tag("return", "")] + Leaves(Parse(TextSearch, Rules(), rest)))
  {
    var s, p := u + "@return " + rest, |u|;
    ReturnFirst(u, rest);
    ReturnRule();
    assert s[..p] == u && s[p + 8..] == rest;
  }

  /** A split around a tag whose text before it gives one node: that node, the tag, then the nodes after it. */
  lemma ParsedAround(find: Finder, tbl: Table, u: string, c: string, rest: string, a: Node, t: Node, after: seq<Node>)
    requires Parse(find, tbl, u + c + rest) == Split(Leaves(Parse(find, tbl, u)) + [t] + Leaves(Parse(find, tbl, rest)))
    requires Leaves(Parse(find, tbl, u)) == [a]
    requires Leaves(Parse(find, tbl, rest)) == after
    ensures Parse(find, tbl, u + c + rest) == Split([a, t] + after)
    ensures Leaves(Parse(find, tbl, u + c + rest)) == [a, t] + after
  {
    assert [a] + [t] + after == [a, t] + after;
  }

  /** Seven nodes, appended pair by pair. */
  lemma SevenNodes(n1: Node, n2: Node, n3: Node, n4: Node, n5: Node, n6: Node, n7: Node)
    ensures [n1, n2] + ([n3, n4] + ([n5, n6] + [n7])) == [n1, n2, n3, n4, n5, n6, n7]
  {
  }

  /** Plain text between blanks is one leaf holding the text without the blanks. */
  lemma PlainLeaf(w1: string, x: string, w2: string)
    requires NoSpecial(x) && AllSpaces(w1) && AllSpaces(w2)
    requires x != [] && !IsSpace(x[0]) && !IsSpace(x[|x| - 1])
    ensures NoSpecial(w1 + x + w2)
    ensures Leaves(Parse(TextSearch, Rules(), w1 + x + w2)) == [Leaf(x)]
  {
    PaddedPlain(w1, x, w2);
    PlainUnmatched(w1 + x + w2);
    StripAround(w1, x, w2);
  }

  /** Padding a text with whitespace adds no command character. */
  lemma PaddedPlain(w1: string, x: string, w2: string)
    requires NoSpecial(x) && AllSpaces(w1) && AllSpaces(w2)
    ensures NoSpecial(w1 + x + w2)
  {
    var s := w1 + x + w2;
    forall c | c in s && c !in x ensures IsSpace(c) {
      var k :| 0 <= k < |s| && s[k] == c;
      if k < |w1| { assert w1[k] == c; } else { assert w2[k - |w1| - |x|] == c; }
    }
  }

  /** Text with at least one character, none of them blank at either end, and no command character. */
  predicate Word(x: string) {
    NoSpecial(x) && x != [] && !IsSpace(x[0]) && !IsSpace(x[|x| - 1])
  }

  /** A parameter name: no command character and no blank. */
  predicate Name(x: string) {
    NoSpecial(x) && x != [] && forall k :: 0 <= k < |x| ==> !IsSpace(x[k])
  }

  /** A comment text: a summary line, two `@param` lines and a `@return` line. */
  function ParamsReturnText(summary: string, a: string, da: string, b: string, db: string, ret: string): string {
    summary + "\n" + ("@param " + a) + (" " + da + "\n" + ("@param " + b) + (" " + db + "\n" + "@return " + ret))
  }

  /** The `@return` line after a parameter's description: the description, the tag, and what is returned. */
  lemma ReturnLineParsed(db: string, ret: string)
    requires Word(db) && Word(ret)
    ensures QuietBefore(" " + db + "\n" + "@return " + ret, 20)
    ensures Leaves(Parse(TextSearch, Rules(), " " + db + "\n" + "@return " + ret)) == [Leaf(db), Tag("return", "")] + [Leaf(ret)]
  {
    var u := " " + db + "\n";
    PlainLeaf(" ", db, "\n");
    assert Leaves(Parse(TextSearch, Rules(), ret)) == [Leaf(ret)] by {
      assert ret == [] + ret + [];
      PlainLeaf([], ret, []);
    }
    PlainQuiet(ret);
    ParseReturn(u, ret);
    ParsedAround(TextSearch, Rules(), u, "@return ", ret, Leaf(db), Tag("return", ""), [Leaf(ret)]);
  }

  /** A `@param` line after a parameter's description: the description, the tag with the name, and what follows. */
  lemma ParamLineParsed(da: string, b: string, rest: string, after: seq<Node>)
    requires Word(da) && Name(b)
    requires rest == [] || IsSpace(rest[0])
    requires QuietBefore(rest, 13)
    requires Leaves(Parse(TextSearch, Rules(), rest)) == after
    ensures QuietBefore(" " + da + "\n" + ("@param " + b) + rest, 13)
    ensures Leaves(Parse(TextSearch, Rules(), " " + da + "\n" + ("@param " + b) + rest)) == [Leaf(da), Tag("param", b)] + after
  {
    var u := " " + da + "\n";
    PlainLeaf(" ", da, "\n");
    ParseParam(u, b, rest);
    ParsedAround(TextSearch, Rules(), u, "@param " + b, rest, Leaf(da), Tag("param", b), after);
  }

  /** The summary line and the first `@param` line: the summary, the tag with the name, and what follows. */
  lemma SummaryParsed(summary: string, a: string, rest: string, after: seq<Node>)
    requires Word(summary) && Name(a)
    requires rest == [] || IsSpace(rest[0])
    requires QuietBefore(rest, 13)
    requires Leaves(Parse(TextSearch, Rules(), rest)) == after
    ensures Parse(TextSearch, Rules(), summary + "\n" + ("@param " + a) + rest) == Split([Leaf(summary), Tag("param", a)] + after)
  {
    var u := summary + "\n";
    assert u == [] + summary + "\n";
    PlainLeaf([], summary, "\n");
    ParseParam(u, a, rest);
    ParsedAround(TextSearch, Rules(), u, "@param " + a, rest, Leaf(summary), Tag("param", a), after);
  }

  /**
    A comment text made of a summary line, two `@param NAME description`
    lines and a `@return value` line becomes, in order: the summary, each
    parameter's tag followed by its description, and the `return` tag
    followed by what is returned.
   */
  lemma ParamsAndReturn(summary: string, a: string, da: string, b: string, db: string, ret: string)
    requires Word(summary) && Word(da) && Word(db) && Word(ret)
    requires Name(a) && Name(b)
    ensures ParseDescription(ParamsReturnText(summary, a, da, b, db, ret))
         == Nodes([Leaf(summary), Tag("param", a), Leaf(da), Tag("param", b), Leaf(db), Tag("return", ""), Leaf(ret)])
  {
    var t2 := " " + db + "\n" + "@return " + ret;
    var t1 := " " + da + "\n" + ("@param " + b) + t2;
    var n2 := [Leaf(db), Tag("return", "")] + [Leaf(ret)];
    var n1 := [Leaf(da), Tag("param", b)] + n2;
    ReturnLineParsed(db, ret);
    QuietBeforeFewer(t2, 20, 13);
    ParamLineParsed(da, b, t2, n2);
    SummaryParsed(summary, a, t1, n1);
    SevenNodes(Leaf(summary), Tag("param", a), Leaf(da), Tag("param", b), Leaf(db), Tag("return", ""), Leaf(ret));
  }

  /** The comment "Adds two numbers." with parameters `a` and `b` and a return value, written line by line. */
  lemma ParamsAndReturnExample()
    ensures ParseDescription("Adds two numbers.\n" + "@param a first\n" + "@param b second\n" + "@return sum")
         == Nodes([Leaf("Adds two numbers."), Tag("param", "a"), Leaf("first"), Tag("param", "b"), Leaf("second"), Tag("return", ""), Leaf("sum")])
  {
    ExampleText();
    ExampleWords();
    ParamsAndReturn("Adds two numbers.", "a", "first", "b", "second", "sum");
  }

  /** The example comment is the text of a summary, two parameters and a return value. */
  lemma ExampleText()
    ensures ParamsReturnText("Adds two numbers.", "a", "first", "b", "second", "sum")
         == "Adds two numbers.\n" + "@param a first\n" + "@param b second\n" + "@return sum"
  {
    ParamsReturnLines("Adds two numbers.", "a", "first", "b", "second", "sum");
    assert "Adds two numbers." + "\n" == "Adds two numbers.\n";
    assert "@param " + "a" + " " + "first" + "\n" == "@param a first\n";
    assert "@param " + "b" + " " + "second" + "\n" == "@param b second\n";
    assert "@return " + "sum" == "@return sum";
  }

  /** The text of a summary, two parameters and a return value, line by line. */
  lemma ParamsReturnLines(summary: string, a: string, da: string, b: string, db: string, ret: string)
    ensures ParamsReturnText(summary, a, da, b, db, ret)
         == (summary + "\n") + ("@param " + a + " " + da + "\n") + ("@param " + b + " " + db + "\n") + ("@return " + ret)
  {
  }

  /** The pieces of the example comment are words and names. */
  lemma ExampleWords()
    ensures Word("Adds two numbers.") && Word("first") && Word("second") && Word("sum")
    ensures Name("a") && Name("b")
  {
    SummaryWord();
  }

  /** The summary of the example comment is a word. */
  lemma SummaryWord()
    ensures Word("Adds two numbers.")
  {
  }

  /** No rule of the tool's search matches text made only of whitespace. */
  lemma WhitespaceMatchesNoRule(tbl: Table, t: string)
    requires AllSpaces(t)
    ensures NoRuleMatches(TextSearch, tbl, t)
  {
    forall j | 0 <= j < |tbl| ensures Find(tbl[j], t).None? {
      var sh := tbl[j].shape;
      if WellFormed(sh) && Search(sh, t).Some? {
        NoMatchInWhitespace(sh, t, Search(sh, t).value.start);
      }
    }
  }

  /**
    A non-empty whitespace-only piece of the list is not dropped: it becomes
    one leaf holding the empty string.
   */
  lemma WhitespacePieceBecomesEmptyLeaf(tbl: Table, t: string)
    requires t != [] && AllSpaces(t)
    ensures PieceNodes(TextSearch, tbl, Text(t)) == [Leaf("")]
  {
    WhitespaceMatchesNoRule(tbl, t);
  }
}
