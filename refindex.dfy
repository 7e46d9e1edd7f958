/**
  The alphabetical reference index of `generator_markdown.py`: every entity
  of the tree, nested members included, is listed in pre-order, sorted by
  its name (letters first, case ignored), and one link is written per run of
  equal names under a heading per initial letter.
 */
module RefIndex {
  import opened Strings
  import opened Optional
  import opened Entities
  import opened Markdown
  import Site

  // ----- traverse -----

  /** An entity followed by its members, recursively: pre-order. */
  function Flatten(e: Entity): (r: seq<Entity>)
    ensures |r| >= 1 && r[0] == e
    decreases e, 1
  {
    [e] + (if e.content.Members? then FlattenMembers(e, |e.content.entries|) else [])
  }

  /** The first `n` members of `owner`, each flattened, in order. */
  function FlattenMembers(owner: Entity, n: nat): seq<Entity>
    requires owner.content.Members? && n <= |owner.content.entries|
    decreases owner, 0, n
  {
    if n == 0 then [] else FlattenMembers(owner, n - 1) + Flatten(owner.content.entries[n - 1])
  }

  /** A list of entities, each flattened, in order. */
  function FlattenAll(es: seq<Entity>): seq<Entity> {
    if es == [] then [] else FlattenAll(es[..|es| - 1]) + Flatten(es[|es| - 1])
  }

  /** Flattening a concatenation flattens each part. */
  lemma {:induction false} FlattenAllAppend(a: seq<Entity>, b: seq<Entity>)
    ensures FlattenAll(a + b) == FlattenAll(a) + FlattenAll(b)
    decreases |b|
  {
    if b == [] {
      assert a + b == a;
    } else {
      var b' := b[..|b| - 1];
      assert (a + b)[..|a + b| - 1] == a + b';
      FlattenAllAppend(a, b');
      AppendAssoc(FlattenAll(a), FlattenAll(b'), Flatten(b[|b| - 1]));
    }
  }

  /** Entities without members are listed as they are. */
  lemma {:induction false} FlattenAllLeaves(es: seq<Entity>)
    requires forall i :: 0 <= i < |es| ==> !es[i].content.Members? || es[i].content.entries == []
    ensures FlattenAll(es) == es
  {
    if es != [] {
      FlattenAllLeaves(es[..|es| - 1]);
      var e := es[|es| - 1];
      if e.content.Members? {
        assert FlattenMembers(e, 0) == [];
      }
      assert Flatten(e) == [e];
      assert es == es[..|es| - 1] + [e];
    }
  }

  /** Everything listed for the `j`-th entity is listed for the whole list. */
  lemma {:induction false} FlattenAllIncludes(es: seq<Entity>, j: nat, x: Entity)
    requires j < |es| && x in Flatten(es[j])
    ensures x in FlattenAll(es)
  {
    var n := |es| - 1;
    if j < n {
      FlattenAllIncludes(es[..n], j, x);
      assert es[..n][j] == es[j];
    }
  }

  /** Everything listed for the `j`-th member is listed for its owner. */
  lemma {:induction false} FlattenIncludesMember(owner: Entity, n: nat, j: nat, x: Entity)
    requires owner.content.Members? && j < n <= |owner.content.entries|
    requires x in Flatten(owner.content.entries[j])
    ensures x in FlattenMembers(owner, n)
    decreases n
  {
    if j < n - 1 {
      FlattenIncludesMember(owner, n - 1, j, x);
    }
  }

  /**
    Every top-level entity, every member of a listed entity, and so every
    entity of the tree, is listed.
   */
  lemma MemberListed(es: seq<Entity>, j: nat, k: nat, x: Entity)
    requires j < |es| && es[j].content.Members? && k < |es[j].content.entries|
    requires x in Flatten(es[j].content.entries[k])
    ensures es[j] in FlattenAll(es)
    ensures x in FlattenAll(es)
  {
    FlattenAllIncludes(es, j, es[j]);
    FlattenIncludesMember(es[j], |es[j].content.entries|, k, x);
    FlattenAllIncludes(es, j, x);
  }

  /** The number of nodes of the tree under `e`, `e` included. */
  function Size(e: Entity): (n: nat)
    ensures n >= 1
    decreases e, 1
  {
    1 + (if e.content.Members? then SizeMembers(e, |e.content.entries|) else 0)
  }

  /** The number of nodes under the first `n` members of `owner`. */
  function SizeMembers(owner: Entity, n: nat): nat
    requires owner.content.Members? && n <= |owner.content.entries|
    decreases owner, 0, n
  {
    if n == 0 then 0 else SizeMembers(owner, n - 1) + Size(owner.content.entries[n - 1])
  }

  /** The number of nodes of a list of trees. */
  function SizeAll(es: seq<Entity>): nat {
    if es == [] then 0 else SizeAll(es[..|es| - 1]) + Size(es[|es| - 1])
  }

  /** Flattening lists exactly as many entities as the tree has nodes. */
  lemma {:induction false} FlattenSize(e: Entity)
    ensures |Flatten(e)| == Size(e)
    decreases e, 1
  {
    if e.content.Members? {
      FlattenMembersSize(e, |e.content.entries|);
    }
  }

  /** The members' part of `FlattenSize`. */
  lemma {:induction false} FlattenMembersSize(owner: Entity, n: nat)
    requires owner.content.Members? && n <= |owner.content.entries|
    ensures |FlattenMembers(owner, n)| == SizeMembers(owner, n)
    decreases owner, 0, n
  {
    if n > 0 {
      FlattenMembersSize(owner, n - 1);
      FlattenSize(owner.content.entries[n - 1]);
    }
  }

  /** The traversal of a list holds exactly as many entities as the trees have nodes. */
  lemma {:induction false} FlattenAllSize(es: seq<Entity>)
    ensures |FlattenAll(es)| == SizeAll(es)
  {
    if es != [] {
      FlattenAllSize(es[..|es| - 1]);
      FlattenSize(es[|es| - 1]);
    }
  }

  /** `x` is `e` or a node under one of its members. */
  ghost predicate InTree(x: Entity, e: Entity)
    decreases e
  {
    x == e || (e.content.Members? && exists i :: 0 <= i < |e.content.entries| && InTree(x, e.content.entries[i]))
  }

  /** Only nodes of the tree are listed. */
  lemma {:induction false} FlattenOnlyTree(e: Entity, x: Entity)
    requires x in Flatten(e)
    ensures InTree(x, e)
    decreases e, 1
  {
    if x != e {
      assert x in FlattenMembers(e, |e.content.entries|);
      FlattenMembersOnlyTree(e, |e.content.entries|, x);
    }
  }

  /** Only nodes under the first `n` members are listed for them. */
  lemma {:induction false} FlattenMembersOnlyTree(owner: Entity, n: nat, x: Entity)
    requires owner.content.Members? && n <= |owner.content.entries|
    requires x in FlattenMembers(owner, n)
    ensures exists i :: 0 <= i < n && InTree(x, owner.content.entries[i])
    decreases owner, 0, n
  {
    var last := owner.content.entries[n - 1];
    if x in FlattenMembers(owner, n - 1) {
      FlattenMembersOnlyTree(owner, n - 1, x);
    } else {
      FlattenOnlyTree(last, x);
    }
  }

  /** Everything the traversal of a list lists is a node of one of its trees. */
  lemma {:induction false} FlattenAllOnlyTrees(es: seq<Entity>, x: Entity)
    requires x in FlattenAll(es)
    ensures exists j :: 0 <= j < |es| && InTree(x, es[j])
  {
    var n := |es| - 1;
    if x in FlattenAll(es[..n]) {
      FlattenAllOnlyTrees(es[..n], x);
      var j :| 0 <= j < n && InTree(x, es[..n][j]);
      assert es[..n][j] == es[j];
    } else {
      FlattenOnlyTree(es[n], x);
    }
  }

  /** The list `traverse` appends to. */
  class EntryList {
    var items: seq<Entity>

    constructor()
      ensures items == []
    {
      items := [];
    }
  }

  /** `traverse(target_index, source_index)` for a top-level list. */
  method Traverse(target: EntryList, source: seq<Entity>)
    modifies target
    ensures target.items == old(target.items) + FlattenAll(source)
  {
    for i := 0 to |source|
      invariant target.items == old(target.items) + FlattenAll(source[..i])
    {
      var item := source[i];
      assert source[..i + 1][..i] == source[..i];
      target.items := target.items + [item];
      if item.content.Members? {
        TraverseMembers(target, item);
      }
      AppendAssoc(old(target.items), FlattenAll(source[..i]), Flatten(item));
    }
    assert source[..|source|] == source;
  }

  /** The recursive call of `traverse` on an item's `content`. */
  method TraverseMembers(target: EntryList, owner: Entity)
    requires owner.content.Members?
    modifies target
    ensures target.items == old(target.items) + FlattenMembers(owner, |owner.content.entries|)
    decreases owner
  {
    var entries := owner.content.entries;
    for i := 0 to |entries|
      invariant target.items == old(target.items) + FlattenMembers(owner, i)
    {
      var item := entries[i];
      target.items := target.items + [item];
      if item.content.Members? {
        TraverseMembers(target, item);
      }
      AppendAssoc(old(target.items), FlattenMembers(owner, i), Flatten(item));
    }
  }

  // ----- the sort key -----

  /** Every entity has a name: the sort key and the index read its first character. */
  predicate Named(es: seq<Entity>) {
    forall i :: 0 <= i < |es| ==> es[i].name != []
  }

  /** `(not name[0].isalpha(), name.lower())`. */
  datatype SortKey = SortKey(notAlpha: bool, lower: string)

  /** The sort key of an entity. */
  function Key(e: Entity): SortKey
    requires e.name != []
  {
    SortKey(!IsAsciiLetter(e.name[0]), Lower(e.name))
  }

  /** Python's `<` on strings: lexicographic by code point, a proper prefix first. */
  predicate StrLess(a: string, b: string) {
    if a == [] then b != []
    else if b == [] then false
    else if a[0] != b[0] then a[0] < b[0]
    else StrLess(a[1..], b[1..])
  }

  /** Python's `<` on the key tuples: `False` before `True`, then the lower-cased names. */
  predicate KeyLess(a: SortKey, b: SortKey) {
    (!a.notAlpha && b.notAlpha) || (a.notAlpha == b.notAlpha && StrLess(a.lower, b.lower))
  }

  /** No string is less than itself. */
  lemma {:induction false} StrLessIrreflexive(a: string)
    ensures !StrLess(a, a)
  {
    if a != [] {
      StrLessIrreflexive(a[1..]);
    }
  }

  /** String order is transitive. */
  lemma {:induction false} StrLessTransitive(a: string, b: string, c: string)
    requires StrLess(a, b) && StrLess(b, c)
    ensures StrLess(a, c)
  {
    if a != [] && b != [] && c != [] && a[0] == b[0] && b[0] == c[0] {
      StrLessTransitive(a[1..], b[1..], c[1..]);
    }
  }

  /** Two different strings are ordered one way or the other. */
  lemma {:induction false} StrLessTotal(a: string, b: string)
    requires a != b
    ensures StrLess(a, b) || StrLess(b, a)
  {
    if a != [] && b != [] && a[0] == b[0] {
      assert a == [a[0]] + a[1..];
      assert b == [b[0]] + b[1..];
      StrLessTotal(a[1..], b[1..]);
    }
  }

  /** The key order is a strict total order on keys: irreflexive, transitive and total. */
  lemma KeyOrder(a: SortKey, b: SortKey, c: SortKey)
    ensures !KeyLess(a, a)
    ensures KeyLess(a, b) && KeyLess(b, c) ==> KeyLess(a, c)
    ensures a != b ==> KeyLess(a, b) || KeyLess(b, a)
  {
    StrLessIrreflexive(a.lower);
    if KeyLess(a, b) && KeyLess(b, c) && a.notAlpha == b.notAlpha && b.notAlpha == c.notAlpha {
      StrLessTransitive(a.lower, b.lower, c.lower);
    }
    if a != b && a.notAlpha == b.notAlpha {
      StrLessTotal(a.lower, b.lower);
    }
  }

  // ----- sorting -----

  /** Each entity's key is not smaller than the one before it. */
  predicate Sorted(s: seq<Entity>)
    requires Named(s)
  {
    forall i :: 0 < i < |s| ==> !KeyLess(Key(s[i]), Key(s[i - 1]))
  }

  /** Insert `x` after the leading entities whose key is not greater. */
  function InsertByKey(s: seq<Entity>, x: Entity): (r: seq<Entity>)
    requires Named(s) && x.name != []
    ensures |r| == |s| + 1 && Named(r)
    ensures r[0] == x || (s != [] && r[0] == s[0])
    ensures multiset(r) == multiset(s) + multiset{x}
  {
    if s == [] then [x]
    else if KeyLess(Key(x), Key(s[0])) then [x] + s
    else
      assert s == [s[0]] + s[1..];
      [s[0]] + InsertByKey(s[1..], x)
  }

  /** The tail of a sorted list is sorted. */
  lemma SortedTail(s: seq<Entity>)
    requires Named(s) && s != [] && Sorted(s)
    ensures Named(s[1..]) && Sorted(s[1..])
  {
    var tail := s[1..];
    forall i | 0 < i < |tail|
      ensures !KeyLess(Key(tail[i]), Key(tail[i - 1]))
    {
      assert tail[i] == s[i + 1] && tail[i - 1] == s[i];
    }
  }

  /** Putting an entity with a smaller key than the head in front keeps a list sorted. */
  lemma SortedCons(x: Entity, s: seq<Entity>)
    requires Named(s) && x.name != [] && Sorted(s)
    requires s == [] || !KeyLess(Key(s[0]), Key(x))
    ensures Named([x] + s) && Sorted([x] + s)
  {
    var r := [x] + s;
    forall i | 0 < i < |r|
      ensures !KeyLess(Key(r[i]), Key(r[i - 1]))
    {
      if i > 1 {
        assert r[i] == s[i - 1] && r[i - 1] == s[i - 2];
      }
    }
  }

  /** Insertion keeps a sorted list sorted. */
  lemma {:induction false} InsertSorted(s: seq<Entity>, x: Entity)
    requires Named(s) && x.name != [] && Sorted(s)
    ensures Sorted(InsertByKey(s, x))
  {
    if s != [] {
      if KeyLess(Key(x), Key(s[0])) {
        KeyOrder(Key(x), Key(s[0]), Key(x));
        SortedCons(x, s);
      } else {
        SortedTail(s);
        InsertSorted(s[1..], x);
        var rest := InsertByKey(s[1..], x);
        if rest[0] == x {
          KeyOrder(Key(x), Key(s[0]), Key(x));
        }
        SortedCons(s[0], rest);
      }
    }
  }

  /** `sortedIndex.sort(key=...)`: each entity inserted in turn into the sorted list of those before it. */
  function SortByKey(s: seq<Entity>): (r: seq<Entity>)
    requires Named(s)
    ensures |r| == |s| && Named(r) && Sorted(r) && multiset(r) == multiset(s)
  {
    if s == [] then []
    else
      var init := s[..|s| - 1];
      assert s == init + [s[|s| - 1]];
      var sorted := SortByKey(init);
      InsertSorted(sorted, s[|s| - 1]);
      InsertByKey(sorted, s[|s| - 1])
  }

  /** "Not smaller" is transitive, as the key order is total. */
  lemma NotLessTransitive(a: SortKey, b: SortKey, c: SortKey)
    requires !KeyLess(b, a) && !KeyLess(c, b)
    ensures !KeyLess(c, a)
  {
    KeyOrder(a, b, c);
    KeyOrder(c, a, b);
  }

  /** In a sorted list no later entity has a smaller key than an earlier one. */
  lemma {:induction false} SortedChain(s: seq<Entity>, i: nat, j: nat)
    requires Named(s) && Sorted(s) && i < j < |s|
    ensures !KeyLess(Key(s[j]), Key(s[i]))
    decreases j - i
  {
    if i + 1 < j {
      SortedChain(s, i, j - 1);
      NotLessTransitive(Key(s[i]), Key(s[j - 1]), Key(s[j]));
    }
  }

  /** The sorted list holds the same entities, and no entity comes after one with a smaller key. */
  lemma SortByKeyOrdered(s: seq<Entity>)
    requires Named(s)
    ensures multiset(SortByKey(s)) == multiset(s)
    ensures forall i, j :: 0 <= i < j < |s| ==> !KeyLess(Key(SortByKey(s)[j]), Key(SortByKey(s)[i]))
  {
    var r := SortByKey(s);
    forall i, j | 0 <= i < j < |s|
      ensures !KeyLess(Key(r[j]), Key(r[i]))
    {
      SortedChain(r, i, j);
    }
  }

  /** Names starting with a letter come before all others, whatever the rest of the names. */
  lemma LettersFirst(s: seq<Entity>, i: nat, j: nat)
    requires Named(s) && i < |s| && j < |s|
    requires IsAsciiLetter(SortByKey(s)[j].name[0]) && !IsAsciiLetter(SortByKey(s)[i].name[0])
    ensures j < i
  {
    if i < j {
      SortedChain(SortByKey(s), i, j);
    } else if i == j {
      assert false;
    }
  }

  // ----- generate_index -----

  /** `name[0].capitalize()`: the upper-cased initial. */
  function Initial(name: string): string
    requires name != []
  {
    [Upper(name[0])]
  }

  /** The name the loop compares with: the previous entity's, or empty at the start. */
  function PreviousName(items: seq<Entity>, i: nat): string
    requires i <= |items|
  {
    if i == 0 then "" else items[i - 1].name
  }

  /** The `i`-th entity gets a link: its name differs from the previous one. */
  predicate Linked(items: seq<Entity>, i: nat)
    requires i < |items|
  {
    items[i].name != PreviousName(items, i)
  }

  /** The initial of the last linked entity before `i`, or empty. */
  function LastLetter(items: seq<Entity>, i: nat): string
    requires Named(items) && i <= |items|
  {
    if i == 0 then ""
    else if Linked(items, i - 1) then Initial(items[i - 1].name)
    else LastLetter(items, i - 1)
  }

  /** The link to an entity's section; `slug` stands for `slugify(..., '-')`. */
  function Link(ix: Doc, item: Entity, slug: string -> string): (r: string)
    ensures "[" <= r
  {
    var title := MakeTitle(item, ix.namespace, true);
    "[" + title + "](" + Site.GroupFor(item, ix) + ".md#" + slug(title) + ")\n\n"
  }

  /** The link of an entity in the index of `ix`. */
  function LinkTo(ix: Doc, slug: string -> string): Entity -> string {
    item => Link(ix, item, slug)
  }

  /** A letter's heading line, followed by a blank line. */
  function Heading(l: string): string {
    "## " + l + "\n\n"
  }

  /** A heading is a second-level Markdown heading of the letter. */
  lemma HeadingShape(l: string)
    ensures "## " <= Heading(l) && Heading(l)[3..3 + |l|] == l
  {
  }

  /** What the `i`-th entity contributes: nothing, or its link after a letter heading when the letter changes. */
  function Chunk(items: seq<Entity>, i: nat, link: Entity -> string): string
    requires Named(items) && i < |items|
  {
    if Linked(items, i) then
      var l := Initial(items[i].name);
      (if l != LastLetter(items, i) then Heading(l) else "") + link(items[i])
    else ""
  }

  /** The contributions of the first `n` entities. */
  function IndexMarkdown(items: seq<Entity>, n: nat, link: Entity -> string): string
    requires Named(items) && n <= |items|
  {
    if n == 0 then "" else IndexMarkdown(items, n - 1, link) + Chunk(items, n - 1, link)
  }

  /** An entity named like the one before it adds nothing: overloads share one link. */
  lemma RepeatedNameAddsNothing(items: seq<Entity>, n: nat, link: Entity -> string)
    requires Named(items) && 0 < n < |items| && items[n].name == items[n - 1].name
    ensures IndexMarkdown(items, n + 1, link) == IndexMarkdown(items, n, link)
  {
  }

  /** The index opens with the first entity's letter heading and link. */
  lemma FirstEntryHeaded(items: seq<Entity>, link: Entity -> string)
    requires Named(items) && items != []
    ensures IndexMarkdown(items, 1, link) == Heading(Initial(items[0].name)) + link(items[0])
  {
    assert IndexMarkdown(items, 1, link) == "" + Chunk(items, 0, link);
  }

  /** Whether a chunk opens with `## ` is decided by its heading, as a link opens with `[`. */
  lemma HeadingPrefix(h: string, k: string)
    requires h == [] || "## " <= h
    requires "[" <= k
    ensures "## " <= h + k <==> h != []
  {
    if h == [] {
      assert (h + k)[0] == '[';
    } else {
      assert (h + k)[..3] == h[..3];
    }
  }

  /** A linked entity's chunk opens with a heading exactly when its initial differs from the last heading's. */
  lemma HeadingIffNewLetter(items: seq<Entity>, i: nat, link: Entity -> string)
    requires Named(items) && i < |items| && Linked(items, i)
    requires "[" <= link(items[i])
    ensures "## " <= Chunk(items, i, link) <==> Initial(items[i].name) != LastLetter(items, i)
  {
    var l := Initial(items[i].name);
    var h := if l != LastLetter(items, i) then Heading(l) else "";
    HeadingShape(l);
    HeadingPrefix(h, link(items[i]));
  }

  /**
    `generate_index`: the loop with its `letter` and `item_header` variables;
    `link` formats an entity's line, `LinkTo` in the script.
   */
  method GenerateIndex(items: seq<Entity>, link: Entity -> string) returns (md: string)
    requires Named(items)
    ensures md == IndexMarkdown(items, |items|, link)
  {
    md := "";
    var letter := "";
    var header := "";
    for i := 0 to |items|
      invariant md == IndexMarkdown(items, i, link)
      invariant letter == LastLetter(items, i)
      invariant header == PreviousName(items, i)
    {
      var item := items[i];
      IndexStep(items, i, link);
      ghost var before := md;
      if item.name != header {
        header := item.name;
        var l := Initial(item.name);
        ghost var heading := if l != letter then Heading(l) else "";
        assert Chunk(items, i, link) == heading + link(item);
        if l != letter {
          md := md + Heading(l);
          letter := l;
        }
        assert md == before + heading;
        md := md + link(item);
        AppendAssoc(before, heading, link(item));
      }
    }
  }

  /** One more entity: its chunk is appended, and the last letter moves on when it is linked. */
  lemma IndexStep(items: seq<Entity>, i: nat, link: Entity -> string)
    requires Named(items) && i < |items|
    ensures IndexMarkdown(items, i + 1, link) == IndexMarkdown(items, i, link) + Chunk(items, i, link)
    ensures LastLetter(items, i + 1) == if Linked(items, i) then Initial(items[i].name) else LastLetter(items, i)
    ensures !Linked(items, i) ==> IndexMarkdown(items, i + 1, link) == IndexMarkdown(items, i, link)
  {
  }

  /**
    The page the `--refindex` option writes: every entity of the tree in
    pre-order, sorted by key, indexed under the `# Index` title; `None` when an
    entity has no name, where the sort key's `name[0]` raises.
   */
  function RefIndexPage(ix: Doc, slug: string -> string): Option<string> {
    var all := FlattenAll(ix.entries);
    if Named(all) then Some("# Index\n\n" + IndexMarkdown(SortByKey(all), |all|, LinkTo(ix, slug)))
    else None
  }

  /** The `--refindex` branch. */
  method GenerateRefIndex(ix: Doc, slug: string -> string) returns (page: Option<string>)
    ensures page == RefIndexPage(ix, slug)
  {
    var target := new EntryList();
    Traverse(target, ix.entries);
    var all := target.items;
    assert all == [] + FlattenAll(ix.entries);
    assert all == FlattenAll(ix.entries);
    if !Named(all) {
      return None;
    }
    var sorted := SortByKey(all);
    var md := GenerateIndex(sorted, LinkTo(ix, slug));
    page := Some("# Index\n\n" + md);
  }
}
