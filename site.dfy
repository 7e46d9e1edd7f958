/**
  The page loop of `generator_markdown.py`: every top-level entity is
  rendered into the page of its group, a page is opened with a header the
  first time its group comes up, and with automatic groups every new page
  is entered into a nested table of contents keyed by the parts of its path.
 */
module Site {
  import opened Strings
  import opened Optional
  import opened Entities
  import opened Markdown

  /** `group_for`. */
  function GroupFor(item: Entity, ix: Doc): (g: string)
    ensures ix.groups == AutoGroups ==> g == item.file
    ensures ix.groups == NamedGroups ==> g != [] && (item.group != [] ==> g == item.group)
    ensures ix.groups == NamedGroups && item.group == [] ==> g == "default"
  {
    if ix.groups == AutoGroups then item.file
    else if item.group != "" then item.group
    else "default"
  }

  /** `path_for`. */
  function PathFor(group: string): (path: string)
    ensures HasPrefixAt(path, 0, "auto/") && |path| == |group| + 8
    ensures path[5..5 + |group|] == group && path[5 + |group|..] == ".md"
  {
    "auto/" + group + ".md"
  }

  /** Different groups are written to different pages. */
  lemma PathForInjective(a: string, b: string)
    requires PathFor(a) == PathFor(b)
    ensures a == b
  {
    assert a == PathFor(a)[5..5 + |a|];
    assert b == PathFor(b)[5..5 + |b|];
  }

  /** Python's `s.split(c)` for a one-character separator. */
  function Split(s: string, c: char): (parts: seq<string>)
    ensures |parts| >= 1
    decreases |s|
  {
    var k := IndexOf(s, c);
    if k == |s| then [s]
    else [s[..k]] + Split(s[k + 1..], c)
  }

  /** The parts hold no separator and joined with it give the text back. */
  lemma {:induction false} SplitJoin(s: string, c: char)
    ensures forall i :: 0 <= i < |Split(s, c)| ==> c !in Split(s, c)[i]
    ensures Join(Split(s, c), [c]) == s
    decreases |s|
  {
    var k := IndexOf(s, c);
    if k < |s| {
      var rest := Split(s[k + 1..], c);
      SplitJoin(s[k + 1..], c);
      var parts := [s[..k]] + rest;
      assert parts[1..] == rest;
      assert s == s[..k] + [c] + s[k + 1..];
    }
  }

  /** A text without the separator is one part. */
  lemma SplitNoSeparator(s: string, c: char)
    requires c !in s
    ensures Split(s, c) == [s]
  {
  }

  /** A table of contents: a page path, or a section of named entries. */
  datatype TocNode = Page(path: string) | Section(children: map<string, TocNode>)

  type Toc = map<string, TocNode>

  /**
    `current = toc; for key in spath[:-1]: current = current.setdefault(key, {})`
    followed by `current[spath[-1]] = gpath`. A page met on the way is not a
    dictionary and the script stops with an exception: `None`.
   */
  function TocInsert(toc: Toc, path: seq<string>, page: string): (r: Option<Toc>)
    requires |path| >= 1
    decreases |path|
  {
    if |path| == 1 then Some(toc[path[0] := Page(page)])
    else
      var sub := if path[0] in toc then toc[path[0]] else Section(map[]);
      match sub
      case Page(_) => None
      case Section(children) =>
        match TocInsert(children, path[1..], page)
        case None => None
        case Some(c) => Some(toc[path[0] := Section(c)])
  }

  /** The entry reached by following `path`. */
  function TocLookup(toc: Toc, path: seq<string>): Option<TocNode>
    requires |path| >= 1
    decreases |path|
  {
    if path[0] !in toc then None
    else if |path| == 1 then Some(toc[path[0]])
    else match toc[path[0]]
      case Page(_) => None
      case Section(children) => TocLookup(children, path[1..])
  }

  /** A page on the way: some proper prefix of `path` leads to a page. */
  predicate PageOnTheWay(toc: Toc, path: seq<string>)
    requires |path| >= 1
    decreases |path|
  {
    |path| > 1 && path[0] in toc &&
    match toc[path[0]]
    case Page(_) => true
    case Section(children) => PageOnTheWay(children, path[1..])
  }

  /** Insertion fails exactly when a page stands on the way; otherwise the path then leads to the new page. */
  lemma {:induction false} TocInsertLookup(toc: Toc, path: seq<string>, page: string)
    requires |path| >= 1
    ensures TocInsert(toc, path, page).None? <==> PageOnTheWay(toc, path)
    ensures TocInsert(toc, path, page).Some? ==> TocLookup(TocInsert(toc, path, page).value, path) == Some(Page(page))
    decreases |path|
  {
    if |path| > 1 {
      var sub := if path[0] in toc then toc[path[0]] else Section(map[]);
      if sub.Section? {
        TocInsertLookup(sub.children, path[1..], page);
        if path[0] !in toc {
          PageOnTheWayEmpty(path[1..]);
        }
      }
    }
  }

  /** An empty table of contents has no page on any path. */
  lemma PageOnTheWayEmpty(path: seq<string>)
    requires |path| >= 1
    ensures !PageOnTheWay(map[], path)
  {
  }

  /** Entries under another first key are left alone. */
  lemma TocInsertKeepsOthers(toc: Toc, path: seq<string>, page: string, key: string)
    requires |path| >= 1 && key != path[0]
    requires TocInsert(toc, path, page).Some?
    ensures key in toc ==> key in TocInsert(toc, path, page).value && TocInsert(toc, path, page).value[key] == toc[key]
    ensures key !in toc ==> key !in TocInsert(toc, path, page).value
  {
  }

  /** The pages written so far, in the order they were opened, the table of contents and the header cell. */
  datatype SiteState = SiteState(pages: map<string, string>, order: seq<string>, toc: Toc, cell: string)

  /** The page title: `File `g`` with automatic groups, the group's name otherwise. */
  function PageTitle(ix: Doc, g: string): string {
    if ix.groups == AutoGroups then "File `" + g + "`" else g
  }

  /** Opening the page of a group seen for the first time; `None` when the table of contents cannot take it. */
  function OpenPage(ix: Doc, st: SiteState, g: string): Option<SiteState> {
    var pages := st.pages[g := Header(PageTitle(ix, g))];
    if ix.groups == AutoGroups then
      match TocInsert(st.toc, Split(g, '/'), PathFor(g))
      case None => None
      case Some(t) => Some(SiteState(pages, st.order + [g], t, st.cell))
    else Some(SiteState(pages, st.order + [g], st.toc, st.cell))
  }

  /**
    A new page starts with its header and is listed last; with named groups
    it always opens, with automatic groups it fails exactly when a page
    stands on the way of its path, and otherwise the path leads to it.
   */
  lemma OpenPageSpec(ix: Doc, st: SiteState, g: string)
    ensures var r := OpenPage(ix, st, g);
      && (r.Some? ==> r.value.pages == st.pages[g := Header(PageTitle(ix, g))] && r.value.order == st.order + [g])
      && (r.Some? ==> r.value.cell == st.cell)
      && (ix.groups == NamedGroups ==> r.Some? && r.value.toc == st.toc)
      && (ix.groups == AutoGroups ==> (r.None? <==> PageOnTheWay(st.toc, Split(g, '/'))))
      && (ix.groups == AutoGroups && r.Some? ==> TocLookup(r.value.toc, Split(g, '/')) == Some(Page(PathFor(g))))
  {
    TocInsertLookup(st.toc, Split(g, '/'), PathFor(g));
  }

  /** The page of group `g`, opened when it is not there yet. */
  function Place(ix: Doc, st: SiteState, g: string): (r: Option<SiteState>)
    ensures r.Some? ==> g in r.value.pages && st.pages.Keys <= r.value.pages.Keys
  {
    if g in st.pages then Some(st) else OpenPage(ix, st, g)
  }

  /** An item's Markdown appended to the page of `g`, and the cell it leaves. */
  function Append(st: SiteState, g: string, rendered: (string, string)): SiteState
    requires g in st.pages
  {
    st.(pages := st.pages[g := st.pages[g] + rendered.0], cell := rendered.1)
  }

  /** `generate_item(index, item)` at the top level, as a value: the Markdown and the cell it leaves. */
  type Renderer = (Entity, string) -> (string, string)

  /** The renderer of top-level items of `ix`. */
  function ItemRenderer(ix: Doc, format: string -> string): Renderer {
    (item: Entity, cell: string) => RenderItem(ix, item, 0, cell, false, format)
  }

  /** One turn of the page loop. */
  function Step(ix: Doc, st: SiteState, item: Entity, render: Renderer): Option<SiteState> {
    var g := GroupFor(item, ix);
    match Place(ix, st, g)
    case None => None
    case Some(s) => Some(Append(s, g, render(item, s.cell)))
  }

  /** The loop over the top-level entities from the `i`-th on, from state `st`; `None` once an exception is raised. */
  function Pages(ix: Doc, i: nat, st: SiteState, render: Renderer): Option<SiteState>
    requires i <= |ix.entries|
    decreases |ix.entries| - i
  {
    if i == |ix.entries| then Some(st)
    else match Step(ix, st, ix.entries[i], render)
      case None => None
      case Some(next) => Pages(ix, i + 1, next, render)
  }

  /** No entry of `s` occurs twice. */
  ghost predicate NoDuplicates<T>(s: seq<T>) {
    s == [] || (s[|s| - 1] !in s[..|s| - 1] && NoDuplicates(s[..|s| - 1]))
  }

  /** The entries of `s`, as a set. */
  ghost function Elements<T>(s: seq<T>): set<T> {
    if s == [] then {} else Elements(s[..|s| - 1]) + {s[|s| - 1]}
  }

  /** The elements of a list are its members. */
  lemma {:induction false} ElementsIn<T>(s: seq<T>, x: T)
    ensures x in Elements(s) <==> x in s
  {
    if s != [] {
      ElementsIn(s[..|s| - 1], x);
      assert s == s[..|s| - 1] + [s[|s| - 1]];
    }
  }

  /** Pages are listed once each, in the order they were opened. */
  ghost predicate Consistent(st: SiteState) {
    NoDuplicates(st.order) && st.pages.Keys == Elements(st.order)
  }

  /** Placing a group keeps the pages listed once each; with named groups it always succeeds. */
  lemma PlaceConsistent(ix: Doc, st: SiteState, g: string)
    requires Consistent(st)
    ensures ix.groups == NamedGroups ==> Place(ix, st, g).Some?
    ensures Place(ix, st, g).Some? ==> Consistent(Place(ix, st, g).value) && st.pages.Keys <= Place(ix, st, g).value.pages.Keys
  {
    if g !in st.pages {
      var r := OpenPage(ix, st, g);
      OpenPageLists(ix, st, g);
      if r.Some? {
        OpenedConsistent(st, g, r.value.pages[g], r.value);
      }
    }
  }

  /** Opening a page adds the group to the pages and to the end of their order; with named groups it always succeeds. */
  lemma OpenPageLists(ix: Doc, st: SiteState, g: string)
    ensures var r := OpenPage(ix, st, g);
      && (r.Some? ==> r.value.pages == st.pages[g := r.value.pages[g]] && r.value.order == st.order + [g])
      && (ix.groups == NamedGroups ==> r.Some?)
  {
    OpenPageSpec(ix, st, g);
  }

  /** Listing a group that has no page yet, together with its new page, keeps the pages listed once each. */
  lemma OpenedConsistent(st: SiteState, g: string, page: string, after: SiteState)
    requires Consistent(st) && g !in st.pages
    requires after.pages == st.pages[g := page] && after.order == st.order + [g]
    ensures Consistent(after)
  {
    var order := after.order;
    assert order[..|order| - 1] == st.order;
    ElementsIn(st.order, g);
  }

  /** One turn of the loop keeps the pages consistent and gives the item's group its page. */
  lemma StepConsistent(ix: Doc, st: SiteState, item: Entity, render: Renderer)
    requires Consistent(st)
    ensures ix.groups == NamedGroups ==> Step(ix, st, item, render).Some?
    ensures Step(ix, st, item, render).Some? ==> Consistent(Step(ix, st, item, render).value)
    ensures Step(ix, st, item, render).Some? ==> GroupFor(item, ix) in Step(ix, st, item, render).value.pages
    ensures Step(ix, st, item, render).Some? ==> st.pages.Keys <= Step(ix, st, item, render).value.pages.Keys
  {
    PlaceConsistent(ix, st, GroupFor(item, ix));
  }

  /** Each top-level entity from the `i`-th on has the page of its group. */
  ghost predicate PlacedFrom(ix: Doc, i: nat, pages: map<string, string>)
    requires i <= |ix.entries|
  {
    forall k :: i <= k < |ix.entries| ==> GroupFor(ix.entries[k], ix) in pages
  }

  /** An item whose group has a page before the rest of the loop keeps it after. */
  lemma PlacedGrows(ix: Doc, i: nat, st: SiteState, after: map<string, string>)
    requires i < |ix.entries|
    requires PlacedFrom(ix, i + 1, after) && st.pages.Keys <= after.Keys && GroupFor(ix.entries[i], ix) in st.pages
    ensures PlacedFrom(ix, i, after)
  {
  }

  /** With named groups every page opens, so the loop never stops early. */
  lemma {:induction false} PagesNamedComplete(ix: Doc, i: nat, st: SiteState, render: Renderer)
    requires i <= |ix.entries| && ix.groups == NamedGroups
    ensures Pages(ix, i, st, render).Some?
    decreases |ix.entries| - i
  {
    if i < |ix.entries| {
      var g := GroupFor(ix.entries[i], ix);
      if g !in st.pages {
        OpenPageSpec(ix, st, g);
      }
      var next := Step(ix, st, ix.entries[i], render);
      PagesNamedComplete(ix, i + 1, next.value, render);
    }
  }

  /**
    The loop keeps the pages consistent, every entity it goes through gets
    the page of its group and no page is dropped.
   */
  lemma {:induction false} PagesConsistent(ix: Doc, i: nat, st: SiteState, render: Renderer)
    requires i <= |ix.entries| && Consistent(st)
    ensures Pages(ix, i, st, render).Some? ==>
      var r := Pages(ix, i, st, render).value;
      Consistent(r) && PlacedFrom(ix, i, r.pages) && st.pages.Keys <= r.pages.Keys
    decreases |ix.entries| - i
  {
    if i < |ix.entries| {
      var next := Step(ix, st, ix.entries[i], render);
      if next.Some? {
        assert Consistent(next.value) && GroupFor(ix.entries[i], ix) in next.value.pages && st.pages.Keys <= next.value.pages.Keys by {
          StepConsistent(ix, st, ix.entries[i], render);
        }
        PagesConsistent(ix, i + 1, next.value, render);
        var r := Pages(ix, i + 1, next.value, render);
        if r.Some? {
          PlacedThrough(ix, i, st, next.value, r.value);
        }
      }
    }
  }

  /** What one turn places and keeps, followed by what the rest of the loop places and keeps. */
  lemma PlacedThrough(ix: Doc, i: nat, st: SiteState, next: SiteState, r: SiteState)
    requires i < |ix.entries|
    requires GroupFor(ix.entries[i], ix) in next.pages && st.pages.Keys <= next.pages.Keys
    requires PlacedFrom(ix, i + 1, r.pages) && next.pages.Keys <= r.pages.Keys
    ensures PlacedFrom(ix, i, r.pages) && st.pages.Keys <= r.pages.Keys
  {
    PlacedGrows(ix, i, next, r.pages);
  }

  /** The page files after the closing footer is appended to each. */
  function WithFooters(ix: Doc, pages: map<string, string>): (r: map<string, string>)
    ensures r.Keys == pages.Keys
    ensures forall g :: g in pages ==> r[g] == pages[g] + Footer(ix)
  {
    map g | g in pages :: pages[g] + Footer(ix)
  }

  /** The loop over the open files that writes the footer to each, one page at a time. */
  method WriteFooters(ix: Doc, pages: map<string, string>) returns (r: map<string, string>)
    ensures r == WithFooters(ix, pages)
  {
    r := pages;
    var todo := pages.Keys;
    while todo != {}
      invariant todo <= pages.Keys && r.Keys == pages.Keys
      invariant forall g :: g in pages ==> r[g] == if g in todo then pages[g] else pages[g] + Footer(ix)
      decreases |todo|
    {
      var g :| g in todo;
      r := r[g := r[g] + Footer(ix)];
      todo := todo - {g};
    }
  }

  /** The block that opens a page the first time its group comes up, entering it into the table of contents. */
  method OpenGroup(ix: Doc, st: SiteState, g: string) returns (r: Option<SiteState>)
    ensures r == Place(ix, st, g)
  {
    if g in st.pages {
      return Some(st);
    }
    var pages := st.pages[g := Header(PageTitle(ix, g))];
    var order := st.order + [g];
    var toc := st.toc;
    if ix.groups == AutoGroups {
      var t := TocInsert(toc, Split(g, '/'), PathFor(g));
      if t.None? {
        return None;
      }
      toc := t.value;
    }
    r := Some(SiteState(pages, order, toc, st.cell));
  }

  /** One turn of the `__main__` loop: open the group's page if needed, then append the item. */
  method AddItem(ix: Doc, st: SiteState, item: Entity, render: Renderer) returns (r: Option<SiteState>)
    ensures r == Step(ix, st, item, render)
  {
    var g := GroupFor(item, ix);
    var placed := OpenGroup(ix, st, g);
    if placed.None? {
      return None;
    }
    var s := placed.value;
    var md, cell := render(item, s.cell).0, render(item, s.cell).1;
    r := Some(s.(pages := s.pages[g := s.pages[g] + md], cell := cell));
  }

  /**
    The `__main__` loop over the top-level entities, for a given item
    renderer and initial header cell. `None` stands for the exception a page
    in the way of the table of contents raises.
   */
  method WritePages(ix: Doc, cell: string, render: Renderer) returns (r: Option<SiteState>)
    ensures r == Pages(ix, 0, SiteState(map[], [], map[], cell), render)
  {
    var st := SiteState(map[], [], map[], cell);
    for i := 0 to |ix.entries|
      invariant Pages(ix, i, st, render) == Pages(ix, 0, SiteState(map[], [], map[], cell), render)
    {
      var next := AddItem(ix, st, ix.entries[i], render);
      if next.None? {
        return None;
      }
      st := next.value;
    }
    r := Some(st);
  }

  /**
    The script: the page loop with `generate_item` (whose shared header cell
    starts empty), then the footer written to every page.
   */
  method GeneratePages(ix: Doc, format: string -> string) returns (r: Option<SiteState>)
    ensures r == (match Pages(ix, 0, SiteState(map[], [], map[], ""), ItemRenderer(ix, format))
      case None => None
      case Some(st) => Some(st.(pages := WithFooters(ix, st.pages))))
  {
    r := WritePages(ix, "", ItemRenderer(ix, format));
    if r.Some? {
      var pages := WriteFooters(ix, r.value.pages);
      r := Some(r.value.(pages := pages));
    }
  }
}
