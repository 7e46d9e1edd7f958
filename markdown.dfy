/**
  The Markdown renderer (`generator_markdown.py`): descriptions become
  Markdown text, entities become sections with a title, a formatted
  definition, the description, an optional source block and their members.
 */
module Markdown {
  import opened Strings
  import opened Optional
  import opened Descriptions
  import opened Entities
  import opened Generator
  import Common

  /** `markdown_safe`: every `>` becomes `\>`. */
  function MarkdownSafe(s: string): string {
    ReplaceAll(s, ">", "\\>")
  }

  /** Escaping adds one character per `>` and neither adds nor removes any `>`. */
  lemma MarkdownSafeCounts(s: string)
    ensures |MarkdownSafe(s)| == |s| + Count(s, '>')
    ensures Count(MarkdownSafe(s), '>') == Count(s, '>')
  {
    ReplaceCharLength(s, '>', "\\>");
    ReplaceCharCount(s, '>', "\\>", '>');
    assert Count("\\>", '>') == 1 by { assert "\\>"[1..] == ">"; assert ">"[1..] == []; }
  }

  /** The inverse reading: every `\>` becomes `>`. */
  function Unescape(s: string): string {
    ReplaceAll(s, "\\>", ">")
  }

  /** Escaping, one character at a time. */
  lemma MarkdownSafeStep(s: string)
    requires s != []
    ensures MarkdownSafe(s) == (if s[0] == '>' then "\\>" else [s[0]]) + MarkdownSafe(s[1..])
  {
    ReplaceCharStep(s, '>', "\\>");
  }

  /** An escaped text never starts with `>`: the only `>` it holds follow a backslash. */
  lemma MarkdownSafeHead(s: string)
    requires s != []
    ensures MarkdownSafe(s)[0] != '>'
  {
    MarkdownSafeStep(s);
  }

  /** Escaping loses nothing: reading `\>` back as `>` gives the original text. */
  lemma {:induction false} UnescapeMarkdownSafe(s: string)
    ensures Unescape(MarkdownSafe(s)) == s
  {
    if s != [] {
      MarkdownSafeStep(s);
      UnescapeMarkdownSafe(s[1..]);
      var rest := MarkdownSafe(s[1..]);
      if s[0] == '>' {
        var t := "\\>" + rest;
        assert t[..2] == "\\>";
        assert t[2..] == rest;
      } else {
        var t := [s[0]] + rest;
        assert t[1..] == rest;
        if |t| >= 2 {
          // A backslash of the original is followed by a character that is not `>`.
          if s[0] == '\\' {
            MarkdownSafeHead(s[1..]);
            assert t[1] != '>';
          }
          assert t[..2] != "\\>";
        }
        assert s == [s[0]] + s[1..];
      }
    }
  }

  /** `labels`. */
  function Label(key: string): (r: Option<string>)
    ensures r.Some? <==> key in ["exceptions", "details", "note", "threadsafety"]
  {
    if key == "exceptions" then Some("Exceptions")
    else if key == "details" then Some("Details")
    else if key == "note" then Some("Note")
    else if key == "threadsafety" then Some("Thread safety")
    else None
  }

  /** Tags that describe the documented entity itself and render nothing. */
  predicate IsStructural(kind: string) {
    kind in ["concept", "class", "struct", "function", "typedef", "enum"]
  }

  /** One character as `repr` writes it inside quotes `quote`. */
  function ReprChar(c: char, quote: char): string {
    if c == '\\' then "\\\\"
    else if c == '\n' then "\\n"
    else if c == '\r' then "\\r"
    else if c == '\t' then "\\t"
    else if c == quote then ['\\', c]
    else [c]
  }

  /** The text between the quotes of `repr`. */
  function ReprBody(s: string, quote: char): string {
    if s == [] then [] else ReprChar(s[0], quote) + ReprBody(s[1..], quote)
  }

  /** Python's `repr` of a string: single quotes, unless the text holds `'` and no `"`. */
  function Repr(s: string): (r: string)
    ensures |r| >= 2 && r[0] == r[|r| - 1] && r[0] in "'\""
  {
    var q := if '\'' in s && '"' !in s then '"' else '\'';
    [q] + ReprBody(s, q) + [q]
  }

  /** The Markdown of one node of a description. */
  function RenderNode(n: Node): (md: string)
    ensures n.Leaf? ==> md == MarkdownSafe(n.text)
    ensures n.Tag? && IsStructural(n.kind) ==> md == []
  {
    match n
    case Leaf(t) => MarkdownSafe(t)
    case Tag(k, p) =>
      if IsStructural(k) then ""
      else if k == "inlinecode" then " `" + p + "` "
      else if k == "inlinemath" then " $" + p + "$ "
      else if k == "param" then "<br/>\n**Param** `" + MarkdownSafe(p) + "` "
      else if k == "return" then "<br/>\n**Returns** "
      else if k == "see" then "<br/>\n**See** "
      else if k == "tparam" then "<br/>\n**Template param** `" + MarkdownSafe(p) + "` "
      else if Label(k).Some? then "<br/>\n**" + MarkdownSafe(Label(k).value) + "** "
      else if k == "blockmath" then "\n\n$$\n" + Common.Dedent(MarkdownSafe(p)) + "\n$$\n\n"
      else if k == "blockcode" then "\n```c++\n" + Common.Dedent(MarkdownSafe(p)) + "\n```\n"
      else "(UNKNOWN ID: (" + Repr(k) + ", " + Repr(p) + "))"
  }

  /** The kinds the renderer has a case for. */
  predicate IsRendered(kind: string) {
    IsStructural(kind) || Label(kind).Some?
    || kind in ["inlinecode", "inlinemath", "param", "return", "see", "tparam", "blockmath", "blockcode"]
  }

  /** A tag without a case of its own is printed as the Python tuple of its key and payload. */
  lemma UnknownTagRendered(k: string, p: string)
    requires !IsRendered(k)
    ensures RenderNode(Tag(k, p)) == "(UNKNOWN ID: (" + Repr(k) + ", " + Repr(p) + "))"
  {
  }

  /** The `ref` tag of the parser's table is one of them. */
  lemma RefTagIsUnknown(p: string)
    ensures RenderNode(Tag("ref", p)) == "(UNKNOWN ID: ('ref', " + Repr(p) + "))"
  {
    assert !IsRendered("ref");
    UnknownTagRendered("ref", p);
    ReprOfRef();
  }

  /** A character that `repr` writes as itself inside the quotes. */
  predicate PlainChar(c: char) {
    c != '\\' && c != '\n' && c != '\r' && c != '\t' && c != '\'' && c != '"'
  }

  /** Text of plain characters is written between single quotes as it is. */
  lemma ReprPlain(s: string)
    requires forall k :: 0 <= k < |s| ==> PlainChar(s[k])
    ensures Repr(s) == "'" + s + "'"
  {
    ReprBodyPlain(s, '\'');
  }

  /** Plain characters are written inside the quotes as they are. */
  lemma {:induction false} ReprBodyPlain(s: string, q: char)
    requires q == '\'' || q == '"'
    requires forall k :: 0 <= k < |s| ==> PlainChar(s[k])
    ensures ReprBody(s, q) == s
  {
    if s != [] {
      assert PlainChar(s[0]);
      ReprBodyPlain(s[1..], q);
      assert s == [s[0]] + s[1..];
    }
  }

  /** The key `ref` is written `'ref'`. */
  lemma ReprOfRef()
    ensures Repr("ref") == "'ref'"
  {
    var r := "ref";
    assert PlainChar(r[0]) && PlainChar(r[1]) && PlainChar(r[2]);
    ReprPlain(r);
  }

  /** The renderings of the nodes, concatenated in order. */
  function RenderNodes(ns: seq<Node>): string {
    if ns == [] then "" else RenderNodes(ns[..|ns| - 1]) + RenderNode(ns[|ns| - 1])
  }

  /** The rendering of a node list is the concatenation of the renderings of its parts. */
  lemma {:induction false} RenderNodesAppend(a: seq<Node>, b: seq<Node>)
    ensures RenderNodes(a + b) == RenderNodes(a) + RenderNodes(b)
    decreases |b|
  {
    if b == [] {
      assert a + b == a;
    } else {
      var b' := b[..|b| - 1];
      assert (a + b)[..|a + b| - 1] == a + b';
      RenderNodesAppend(a, b');
      AppendAssoc(RenderNodes(a), RenderNodes(b'), RenderNode(b[|b| - 1]));
    }
  }

  /** Structural tags can be dropped from a description without changing its Markdown. */
  lemma {:induction false} StructuralTagsVanish(a: seq<Node>, k: string, p: string, b: seq<Node>)
    requires IsStructural(k)
    ensures RenderNodes(a + [Tag(k, p)] + b) == RenderNodes(a + b)
  {
    var t: seq<Node> := [Tag(k, p)];
    var at := a + t;
    RenderNodesAppend(at, b);
    RenderNodesAppend(a, t);
    RenderNodesAppend(a, b);
    assert t[..0] == [];
    assert RenderNodes(t) == RenderNodes([]) + RenderNode(Tag(k, p));
    assert RenderNodes(at) == RenderNodes(a);
  }

  /**
    `generate_descriptions`: a string is a one-element list; a copy mapping
    that was not resolved is iterated by key and yields its key, `copy`.
   */
  function RenderDescription(d: Description): string {
    match d
    case Plain(t) => MarkdownSafe(t)
    case Nodes(ns) => RenderNodes(ns)
    case Copy(_) => MarkdownSafe("copy")
  }

  /** An unresolved copy directive renders as the word `copy`. */
  lemma UnresolvedCopyRendersKey(target: string)
    ensures RenderDescription(Copy(target)) == "copy"
  {
    ReplaceCharAbsent("copy", '>', "\\>");
  }

  /** The loop of `generate_descriptions`, accumulating `md`. */
  method GenerateDescriptions(d: Description) returns (md: string)
    ensures md == RenderDescription(d)
  {
    var parts: seq<Node>;
    match d {
      case Plain(t) => return MarkdownSafe(t);
      case Copy(_) => return MarkdownSafe("copy");
      case Nodes(ns) => parts := ns;
    }
    md := "";
    for i := 0 to |parts|
      invariant md == RenderNodes(parts[..i])
    {
      assert parts[..i + 1][..i] == parts[..i];
      md := md + RenderNode(parts[i]);
    }
    assert parts[..|parts|] == parts;
  }

  /** The part of `index` the renderer reads besides the entities. */
  datatype GroupMode = AutoGroups | NamedGroups
  datatype Doc = Doc(namespace: Option<string>, entries: seq<Entity>, repository: string, gitTag: string, groups: GroupMode)

  /** `str.removeprefix`. */
  function RemovePrefix(s: string, p: string): (r: string)
    ensures HasPrefixAt(s, 0, p) ==> s == p + r
    ensures !HasPrefixAt(s, 0, p) ==> r == s
  {
    if HasPrefixAt(s, 0, p) then s[|p|..] else s
  }

  /** `re.match(r'\(word.*\)', s)`: `s` starts with `(word` and a `)` follows on the same line. */
  predicate OpensGroup(s: string, word: string) {
    HasPrefixAt(s, 0, "(" + word)
    && exists j :: 1 + |word| <= j < |s| && s[j] == ')' && '\n' !in s[1 + |word|..j]
  }

  /** `clean_name`. */
  function CleanName(name: string, namespace: Option<string>): (r: string)
    ensures var n := if namespace.Some? then RemovePrefix(name, namespace.value) else name;
      && (OpensGroup(n, "unnamed") ==> r == "(unnamed)")
      && (!OpensGroup(n, "unnamed") && OpensGroup(n, "anonymous") ==> r == "(anonymous)")
      && (!OpensGroup(n, "unnamed") && !OpensGroup(n, "anonymous") ==> r == n)
  {
    var n := if namespace.Some? then RemovePrefix(name, namespace.value) else name;
    var n' := if OpensGroup(n, "unnamed") then "(unnamed)" else n;
    if OpensGroup(n', "anonymous") then "(anonymous)" else n'
  }

  /** A name that does not start with `(` is only stripped of the namespace prefix. */
  lemma CleanPlainName(name: string, namespace: Option<string>)
    requires var n := if namespace.Some? then RemovePrefix(name, namespace.value) else name; n == [] || n[0] != '('
    ensures CleanName(name, namespace) == if namespace.Some? then RemovePrefix(name, namespace.value) else name
  {
  }

  /** `(unnamed ...)` and `(anonymous ...)` names collapse to a fixed spelling. */
  lemma CleanAnonymousName(name: string, j: nat)
    requires HasPrefixAt(name, 0, "(anonymous") && 10 <= j < |name| && name[j] == ')' && '\n' !in name[10..j]
    ensures CleanName(name, None) == "(anonymous)"
  {
    assert !OpensGroup(name, "unnamed") by {
      assert name[..8] != "(unnamed" by { assert name[1] == 'a'; }
    }
    assert OpensGroup(name, "anonymous");
  }

  /** `make_title`. */
  function MakeTitle(item: Entity, namespace: Option<string>, long: bool): (t: string)
    ensures t != [] && t[0] == '`'
  {
    var name := CleanName(item.name, namespace);
    var qn := CleanName(item.qualifiedName, namespace);
    if long && name != qn then "`" + name + "` " + KindName(item.kind) + " (`" + qn + "`)"
    else "`" + qn + "` " + KindName(item.kind)
  }

  /** The long and the short title agree when the cleaned names do, as for every top-level entity. */
  lemma TitleShortWhenNamesAgree(item: Entity, namespace: Option<string>)
    requires CleanName(item.name, namespace) == CleanName(item.qualifiedName, namespace)
    ensures MakeTitle(item, namespace, true) == MakeTitle(item, namespace, false)
    ensures MakeTitle(item, namespace, true) == "`" + CleanName(item.qualifiedName, namespace) + "` " + KindName(item.kind)
  {
  }

  /**
    The long form names the entity and its qualified name; it differs from the
    short form exactly when the cleaned names differ.
   */
  lemma TitleLongWhenNamesDiffer(item: Entity, namespace: Option<string>)
    ensures var name, qn := CleanName(item.name, namespace), CleanName(item.qualifiedName, namespace);
      name != qn ==> MakeTitle(item, namespace, true) == "`" + name + "` " + KindName(item.kind) + " (`" + qn + "`)"
    ensures MakeTitle(item, namespace, false) == "`" + CleanName(item.qualifiedName, namespace) + "` " + KindName(item.kind)
    ensures MakeTitle(item, namespace, true) != MakeTitle(item, namespace, false)
        <==> CleanName(item.name, namespace) != CleanName(item.qualifiedName, namespace)
  {
    var name, qn := CleanName(item.name, namespace), CleanName(item.qualifiedName, namespace);
    if name != qn {
      assert |MakeTitle(item, namespace, true)| > |MakeTitle(item, namespace, false)|;
    }
  }

  /** `'    ' * indent`. */
  function Indent(n: nat): (p: string)
    ensures |p| == 4 * n && '\n' !in p
    ensures forall k :: 0 <= k < |p| ==> p[k] == ' '
  {
    if n == 0 then "" else "    " + Indent(n - 1)
  }

  /** The index of the first top-level entity with the qualified name `qn`, if any. */
  function FirstNamed(entries: seq<Entity>, qn: string): (r: Option<nat>)
    ensures r.Some? ==> r.value < |entries| && entries[r.value].qualifiedName == qn
    ensures r.Some? ==> forall j :: 0 <= j < r.value ==> entries[j].qualifiedName != qn
    ensures r.None? ==> forall j :: 0 <= j < |entries| ==> entries[j].qualifiedName != qn
  {
    if entries == [] then None
    else if entries[0].qualifiedName == qn then Some(0)
    else match FirstNamed(entries[1..], qn)
      case None => None
      case Some(i) => Some(i + 1)
  }

  /**
    The description actually rendered for an item: a copy directive takes the
    description of the first top-level entity with that qualified name and
    is kept as it is when there is none; the copied description is not
    resolved again.
   */
  function Resolved(ix: Doc, d: Description): (r: Description)
    ensures !d.Copy? ==> r == d
    ensures d.Copy? && FirstNamed(ix.entries, d.target).None? ==> r == d
    ensures d.Copy? && FirstNamed(ix.entries, d.target).Some? ==> r == ix.entries[FirstNamed(ix.entries, d.target).value].description
  {
    if d.Copy? then
      match FirstNamed(ix.entries, d.target)
      case None => d
      case Some(i) => ix.entries[i].description
    else d
  }

  /** The `for ... break` search of `generate_item` for the copy source. */
  method ResolveCopy(ix: Doc, d: Description) returns (description: Description)
    ensures description == Resolved(ix, d)
  {
    description := d;
    if d.Copy? {
      var i := 0;
      while i < |ix.entries|
        invariant 0 <= i <= |ix.entries|
        invariant forall j :: 0 <= j < i ==> ix.entries[j].qualifiedName != d.target
      {
        if ix.entries[i].qualifiedName == d.target {
          description := ix.entries[i].description;
          return;
        }
        i := i + 1;
      }
    }
  }

  /** The link to an item's source: `{FILE}` and `{LINE}` in the repository pattern filled in. */
  function SourceUrl(repository: string, file: string, line: int): string {
    ReplaceAll(ReplaceAll(repository, "{FILE}", file), "{LINE}", IntToString(line))
  }

  /** The fenced definition, the description and the source block of an item, indented by `p`. */
  function ItemBody(ix: Doc, item: Entity, p: string, format: string -> string): string {
    var definition :=
      if item.kind != EnumeratorEntity then Padding("```c++\n" + format(item.definition) + "\n```\n\n", p, false) + "\n" else "";
    var description := Padding(RenderDescription(Resolved(ix, item.description)), p, false) + "\n\n";
    var source :=
      if item.kind != EnumeratorEntity && item.source != "" then
        var url := SourceUrl(ix.repository, item.file, item.line);
        p + "??? abstract \"Source code\"\n"
        + Padding("```c++\n" + item.source + "\n```\n", p + "    ", false) + "\n"
        + p + "    " + "[" + url + "](" + url + ")\n"
        + "\n\n"
      else "";
    definition + description + source
  }

  /** Everything but an enumerator opens with its indented, fenced definition. */
  lemma ItemBodyStart(ix: Doc, item: Entity, p: string, format: string -> string)
    requires item.kind != EnumeratorEntity && '\n' !in p
    ensures HasPrefixAt(ItemBody(ix, item, p, format), 0, p + "`")
  {
    var code := "```c++\n" + format(item.definition) + "\n```\n\n";
    PaddingFirstChar(code, p);
    var body := ItemBody(ix, item, p, format);
    var definition := Padding(code, p, false) + "\n";
    assert HasPrefixAt(definition, 0, p + "`");
    assert body[..|p| + 1] == definition[..|p| + 1];
  }

  /** Padding keeps the first character of a text that starts with neither a blank nor a line break. */
  lemma PaddingFirstChar(s: string, p: string)
    requires s != [] && !IsBlank(s[0]) && s[0] != '\n' && '\n' !in p
    ensures HasPrefixAt(Padding(s, p, false), 0, p + [s[0]])
  {
    TrimFromNoBlankBeforeNewline(s, 0);
    var t := TrimLineEnds(s);
    ReplaceCharStep(t, '\n', "\n" + p);
    var r := Padding(s, p, false);
    assert r == p + ([t[0]] + ReplaceAll(t[1..], "\n", "\n" + p));
    assert r[..|p| + 1] == p + [s[0]];
  }

  /** The section title line, printed only when the title differs from the previous one. */
  function HeaderLine(title: string, cell: string, p: string, subitem: bool): string {
    if title != cell then p + (if subitem then "### " else "## ") + title + "\n\n" else ""
  }

  /**
    `generate_item`: the Markdown of an item and its members, and the title
    left in the shared `item_header` cell. `format` stands for `clang_format`.
   */
  function RenderItem(ix: Doc, item: Entity, indent: nat, cell: string, subitem: bool, format: string -> string): (r: (string, string))
    decreases item, 1
  {
    var p := Indent(indent);
    var title := MakeTitle(item, ix.namespace, true);
    var md := (if subitem then "" else "---\n") + HeaderLine(title, cell, p, subitem) + ItemBody(ix, item, p, format);
    if item.content.Members? then
      var members := RenderMembers(ix, item, |item.content.entries|, indent, title, format);
      (md + members.0 + "\n", members.1)
    else
      (md, title)
  }

  /** The first `n` members of `owner`, rendered one after the other through the shared cell. */
  function RenderMembers(ix: Doc, owner: Entity, n: nat, indent: nat, cell: string, format: string -> string): (r: (string, string))
    requires owner.content.Members? && n <= |owner.content.entries|
    decreases owner, 0, n
  {
    if n == 0 then ("", cell)
    else
      var before := RenderMembers(ix, owner, n - 1, indent, cell, format);
      var last := RenderItem(ix, owner.content.entries[n - 1], indent, before.1, true, format);
      (before.0 + last.0, last.1)
  }

  /** The title an item leaves in the cell: that of its last member, recursively, or its own. */
  function LastTitle(ix: Doc, item: Entity): string
    decreases item
  {
    if item.content.Members? && item.content.entries != [] then
      LastTitle(ix, item.content.entries[|item.content.entries| - 1])
    else MakeTitle(item, ix.namespace, true)
  }

  /** Rendering an item leaves the title of its last rendered entity in the cell. */
  lemma {:induction false} RenderItemCell(ix: Doc, item: Entity, indent: nat, cell: string, subitem: bool, format: string -> string)
    ensures RenderItem(ix, item, indent, cell, subitem, format).1 == LastTitle(ix, item)
    decreases item, 1
  {
    if item.content.Members? {
      var title := MakeTitle(item, ix.namespace, true);
      RenderMembersCell(ix, item, |item.content.entries|, indent, title, format);
    }
  }

  /** Rendering members leaves the last member's last title in the cell, or the cell as it was. */
  lemma {:induction false} RenderMembersCell(ix: Doc, owner: Entity, n: nat, indent: nat, cell: string, format: string -> string)
    requires owner.content.Members? && n <= |owner.content.entries|
    ensures RenderMembers(ix, owner, n, indent, cell, format).1 == if n == 0 then cell else LastTitle(ix, owner.content.entries[n - 1])
    decreases owner, 0, n
  {
    if n > 0 {
      var before := RenderMembers(ix, owner, n - 1, indent, cell, format);
      RenderItemCell(ix, owner.content.entries[n - 1], indent, before.1, true, format);
    }
  }

  /**
    Whatever the starting value of the shared cell, after an item is rendered
    it holds the title of the last item rendered: the item's own, or that of
    its last member, recursively.
   */
  lemma CellHoldsLastTitle(ix: Doc, item: Entity, indent: nat, cell: string, subitem: bool, format: string -> string)
    ensures RenderItem(ix, item, indent, cell, subitem, format).1 == LastTitle(ix, item)
    ensures !item.content.Members? || item.content.entries == [] ==>
      RenderItem(ix, item, indent, cell, subitem, format).1 == MakeTitle(item, ix.namespace, true)
  {
    RenderItemCell(ix, item, indent, cell, subitem, format);
  }

  /**
    For everything but an enumerator, the section starts with the title line
    exactly when the title differs from the one in the cell: overloads that
    follow each other share one heading.
   */
  lemma RenderItemStart(ix: Doc, item: Entity, indent: nat, cell: string, subitem: bool, format: string -> string)
    ensures var p := Indent(indent);
      HasPrefixAt(RenderItem(ix, item, indent, cell, subitem, format).0, 0,
        (if subitem then "" else "---\n") + HeaderLine(MakeTitle(item, ix.namespace, true), cell, p, subitem) + ItemBody(ix, item, p, format))
  {
    var p := Indent(indent);
    var start := (if subitem then "" else "---\n") + HeaderLine(MakeTitle(item, ix.namespace, true), cell, p, subitem) + ItemBody(ix, item, p, format);
    var md := RenderItem(ix, item, indent, cell, subitem, format).0;
    if item.content.Members? {
      var members := RenderMembers(ix, item, |item.content.entries|, indent, MakeTitle(item, ix.namespace, true), format);
      assert md == start + (members.0 + "\n");
    }
    assert md[..|start|] == start;
  }

  /**
    For everything but an enumerator, the section starts with the title line
    exactly when the title differs from the one in the cell: overloads that
    follow each other share one heading.
   */
  lemma HeaderIffNewTitle(ix: Doc, item: Entity, indent: nat, cell: string, subitem: bool, format: string -> string)
    requires item.kind != EnumeratorEntity
    ensures var head := (if subitem then "" else "---\n") + Indent(indent) + (if subitem then "### " else "## ") + MakeTitle(item, ix.namespace, true);
      HasPrefixAt(RenderItem(ix, item, indent, cell, subitem, format).0, 0, head) <==> MakeTitle(item, ix.namespace, true) != cell
  {
    var p := Indent(indent);
    var title := MakeTitle(item, ix.namespace, true);
    RenderItemStart(ix, item, indent, cell, subitem, format);
    ItemBodyStart(ix, item, p, format);
    HeaderIff(RenderItem(ix, item, indent, cell, subitem, format).0, if subitem then "" else "---\n", p,
      if subitem then "### " else "## ", title, cell, subitem, ItemBody(ix, item, p, format));
  }

  /** A rendered item starts with a heading exactly when its title differs from the cell. */
  lemma HeaderIff(md: string, sep: string, p: string, hashes: string, title: string, cell: string, subitem: bool, body: string)
    requires hashes == (if subitem then "### " else "## ")
    requires HasPrefixAt(md, 0, sep + HeaderLine(title, cell, p, subitem) + body)
    requires HasPrefixAt(body, 0, p + "`")
    ensures HasPrefixAt(md, 0, sep + p + hashes + title) <==> title != cell
  {
    var head := sep + p + hashes + title;
    var start := sep + HeaderLine(title, cell, p, subitem) + body;
    if title != cell {
      assert start == head + "\n\n" + body;
      assert start[..|head|] == head;
      assert md[..|head|] == start[..|head|];
    } else {
      assert start == sep + body;
      PrefixClash(md, sep, p, hashes, title, body);
    }
  }

  /** A text that continues with `` ` `` after `sep + p` cannot start with `sep + p + "#..."`. */
  lemma PrefixClash(md: string, sep: string, p: string, hashes: string, title: string, body: string)
    requires HasPrefixAt(md, 0, sep + body) && HasPrefixAt(body, 0, p + "`")
    requires hashes != [] && hashes[0] == '#'
    ensures !HasPrefixAt(md, 0, sep + p + hashes + title)
  {
    var k := |sep| + |p|;
    assert body[..|p| + 1][|p|] == '`';
    assert md[..|sep + body|][k] == (sep + body)[k] == body[|p|];
  }

  /** `footer`'s `re.sub(r'^([^\#]+).*', r'\1', s)`: from the first `#` to the end of its line is cut, when text precedes it. */
  function StripFragment(s: string): (r: string)
    ensures s == [] || s[0] == '#' || '#' !in s ==> r == s
  {
    if s == [] || s[0] == '#' then s
    else
      var h := IndexOf(s, '#');
      if h == |s| then s
      else s[..h] + s[IndexOfFrom(s, '\n', h)..]
  }

  /** A repository link with a one-line fragment loses the fragment. */
  lemma FragmentDropped(base: string, fragment: string)
    requires base != [] && '#' !in base && '\n' !in fragment
    ensures StripFragment(base + "#" + fragment) == base
  {
    var s := base + "#" + fragment;
    assert s[|base|] == '#';
    assert forall k :: 0 <= k < |base| ==> s[k] == base[k];
    assert IndexOf(s, '#') == |base|;
    assert forall k :: |base| < k < |s| ==> s[k] == fragment[k - |base| - 1];
    assert IndexOfFrom(s, '\n', |base|) == |s|;
    assert s[..|base|] == base;
  }

  /** `footer`. */
  function Footer(ix: Doc): string {
    var repository := ReplaceAll(ReplaceAll(ix.repository, "{FILE}", ""), "{LINE}", "");
    var link := StripFragment(repository);
    "\n----\n" + "<small>Auto-generated from sources, Revision " + ix.gitTag + ", [" + link + "](" + link + ")</small>"
  }

  /** `header`. */
  function Header(title: string): string {
    "# " + title + "\n" + "\n\n"
  }

  /** The `item_header=['']` default: one mutable cell shared by every call. */
  class HeaderCell {
    var title: string

    /** The default value `['']`. */
    constructor()
      ensures title == ""
    {
      title := "";
    }
  }

  /** `RenderItem` unfolded once: the start, then the members and a closing line break. */
  lemma RenderItemParts(ix: Doc, item: Entity, indent: nat, cell: string, subitem: bool, format: string -> string, start: string)
    requires start == (if subitem then "" else "---\n") + HeaderLine(MakeTitle(item, ix.namespace, true), cell, Indent(indent), subitem) + ItemBody(ix, item, Indent(indent), format)
    ensures !item.content.Members? ==> RenderItem(ix, item, indent, cell, subitem, format) == (start, MakeTitle(item, ix.namespace, true))
    ensures item.content.Members? ==>
      var members := RenderMembers(ix, item, |item.content.entries|, indent, MakeTitle(item, ix.namespace, true), format);
      RenderItem(ix, item, indent, cell, subitem, format) == (start + members.0 + "\n", members.1)
  {
  }

  /** One more member: its rendering is appended and it leaves its title in the cell. */
  lemma RenderMembersStep(ix: Doc, owner: Entity, n: nat, indent: nat, cell: string, format: string -> string, before: (string, string), last: (string, string))
    requires owner.content.Members? && n < |owner.content.entries|
    requires before == RenderMembers(ix, owner, n, indent, cell, format)
    requires last == RenderItem(ix, owner.content.entries[n], indent, before.1, true, format)
    ensures RenderMembers(ix, owner, n + 1, indent, cell, format) == (before.0 + last.0, last.1)
  {
  }

  /** `generate_item`, updating the shared cell as it goes. */
  method GenerateItem(ix: Doc, item: Entity, indent: nat, cell: HeaderCell, subitem: bool, format: string -> string) returns (md: string)
    modifies cell
    ensures (md, cell.title) == RenderItem(ix, item, indent, old(cell.title), subitem, format)
    decreases item
  {
    var p := Indent(indent);
    var sep := if subitem then "" else "---\n";
    var title := MakeTitle(item, ix.namespace, true);
    var header := "";
    if title != cell.title {
      header := p + (if subitem then "### " else "## ") + title + "\n\n";
      cell.title := title;
    }
    assert header == HeaderLine(title, old(cell.title), p, subitem);
    md := sep + header + ItemBody(ix, item, p, format);
    RenderItemParts(ix, item, indent, old(cell.title), subitem, format, md);
    if item.content.Members? {
      var entries := item.content.entries;
      var members := "";
      assert cell.title == title;
      for i := 0 to |entries|
        invariant (members, cell.title) == RenderMembers(ix, item, i, indent, title, format)
      {
        ghost var before := (members, cell.title);
        var m := GenerateItem(ix, entries[i], indent, cell, true, format);
        RenderMembersStep(ix, item, i, indent, title, format, before, (m, cell.title));
        members := members + m;
      }
      md := md + members + "\n";
    }
  }
}
