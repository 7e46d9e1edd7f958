/**
  Entity extraction (`parse_index`, `parse`): the declarations of a
  translation unit, as clang reports them, become the entries of the
  documentation index.

  A declaration with a brief comment becomes an entity whose shape depends on
  its cursor kind; friend declarations and kinds the tool does not know end
  the walk at that node. Classes and enums collect the entities of their
  documented descendants in their own `content` list; every other entity is
  followed, in the same list, by those of its descendants. Only children
  located in the translation unit's own file are visited.
 */
module Entities {
  import opened Strings
  import opened Optional
  import opened Rewrite
  import opened Descriptions
  import opened Comments

  /** The cursor kinds the walk distinguishes; every other kind is `OtherKind`. */
  datatype CursorKind =
    | FunctionTemplate | FunctionDecl | CxxMethod | Constructor | Destructor | ConversionFunction | UsingDeclaration
    | ClassTemplate | ClassDecl | StructDecl | ClassTemplatePartialSpecialization
    | EnumDecl | EnumConstantDecl
    | TypedefDecl | TypeAliasDecl | TypeAliasTemplateDecl
    | VarDecl | UnexposedDecl | FieldDecl
    | Namespace | ConceptDecl | FriendDecl
    | TemplateTypeParameter | TemplateNonTypeParameter
    | TranslationUnit
    | OtherKind(name: string)

  /**
    A cursor of clang's tree. `comment` is the raw comment when the cursor has
    a brief comment; `source` is the cursor's source text as the tool reads it
    from the file; `file` is the name of the file the cursor is located in
    (`''` when there is none).
   */
  datatype Decl = Decl(
    kind: CursorKind,
    spelling: string,
    displayName: string,
    comment: Option<string>,
    source: string,
    file: string,
    line: int,
    children: seq<Decl>)

  /** The `type` field of an entity. */
  datatype EntityKind = FunctionEntity | ClassEntity | EnumEntity | EnumeratorEntity | TypedefEntity | VariableEntity | NamespaceEntity | ConceptEntity

  /** The `type` string of an entity kind. */
  function KindName(k: EntityKind): (s: string)
    ensures s != []
    ensures k == FunctionEntity <==> s == "function"
    ensures k == ClassEntity <==> s == "class"
    ensures k == EnumEntity <==> s == "enum"
    ensures k == EnumeratorEntity <==> s == "enumerator"
    ensures k == TypedefEntity <==> s == "typedef"
    ensures k == VariableEntity <==> s == "variable"
    ensures k == NamespaceEntity <==> s == "namespace"
    ensures k == ConceptEntity <==> s == "concept"
  {
    match k
    case FunctionEntity => "function"
    case ClassEntity => "class"
    case EnumEntity => "enum"
    case EnumeratorEntity => "enumerator"
    case TypedefEntity => "typedef"
    case VariableEntity => "variable"
    case NamespaceEntity => "namespace"
    case ConceptEntity => "concept"
  }

  /** The `content` key of an entity: absent, or the list of its members' entities. */
  datatype Content = NoContent | Members(entries: seq<Entity>)

  /** An entry of the index; `content` is present exactly for classes and enums. */
  datatype Entity = Entity(
    kind: EntityKind,
    name: string,
    qualifiedName: string,
    definition: string,
    source: string,
    file: string,
    line: int,
    description: Description,
    group: string,
    content: Content)

  /** Classes and enums hold their members in `content`. */
  predicate IsContainer(k: EntityKind) {
    k == ClassEntity || k == EnumEntity
  }

  /** The cursor kinds that `parse_index` documents as classes. */
  predicate IsClassKind(k: CursorKind) {
    k == ClassTemplate || k == ClassDecl || k == StructDecl || k == ClassTemplatePartialSpecialization
  }

  /** The kind dispatch: the entity kind of a documented cursor, or `None` when the walk stops there. */
  function Classify(k: CursorKind): (r: Option<EntityKind>)
    ensures r.None? <==> k == FriendDecl || k == TemplateTypeParameter || k == TemplateNonTypeParameter || k == TranslationUnit || k.OtherKind?
    ensures r == Some(ClassEntity) <==> IsClassKind(k)
    ensures r == Some(EnumEntity) <==> k == EnumDecl
  {
    match k
    case FunctionTemplate => Some(FunctionEntity)
    case FunctionDecl => Some(FunctionEntity)
    case CxxMethod => Some(FunctionEntity)
    case Constructor => Some(FunctionEntity)
    case Destructor => Some(FunctionEntity)
    case ConversionFunction => Some(FunctionEntity)
    case UsingDeclaration => Some(FunctionEntity)
    case ClassTemplate => Some(ClassEntity)
    case ClassDecl => Some(ClassEntity)
    case StructDecl => Some(ClassEntity)
    case ClassTemplatePartialSpecialization => Some(ClassEntity)
    case EnumDecl => Some(EnumEntity)
    case EnumConstantDecl => Some(EnumeratorEntity)
    case TypedefDecl => Some(TypedefEntity)
    case TypeAliasDecl => Some(TypedefEntity)
    case TypeAliasTemplateDecl => Some(TypedefEntity)
    case VarDecl => Some(VariableEntity)
    case UnexposedDecl => Some(VariableEntity)
    case FieldDecl => Some(VariableEntity)
    case Namespace => Some(NamespaceEntity)
    case ConceptDecl => Some(ConceptEntity)
    case _ => None
  }

  /** The scope path handed to the children: entering a namespace, class or enum appends the path to itself. */
  function ChildScope(d: Decl, ns: string): string {
    if d.kind == Namespace || IsClassKind(d.kind) || d.kind == EnumDecl then ns + ns + "::" + d.spelling else ns
  }

  /** The child scope extends the parent's: it keeps it as a prefix, and when it grows, it ends with the cursor's spelling. */
  lemma ChildScopeExtends(d: Decl, ns: string)
    ensures HasPrefixAt(ChildScope(d, ns), 0, ns)
    ensures var r := ChildScope(d, ns);
      r != ns ==> |r| == 2 * |ns| + 2 + |d.spelling| && r[|r| - |d.spelling|..] == d.spelling
  {
  }

  /** `re.sub('^::', '', s)`: one leading `::` is removed. */
  function DropLeadingScope(s: string): (r: string)
    ensures s == (if HasPrefixAt(s, 0, "::") then "::" else "") + r
  {
    if HasPrefixAt(s, 0, "::") then s[2..] else s
  }

  /** The qualified name of an entity named `name` in scope `ns`. */
  function QualifiedName(ns: string, name: string): string {
    DropLeadingScope(ns + "::" + name)
  }

  /** At the top of a file the scope is empty and an entity's qualified name is its name. */
  lemma TopLevelQualifiedName(name: string)
    ensures QualifiedName("", name) == name
  {
    assert ("" + "::" + name)[..2] == "::";
    assert ("" + "::" + name)[2..] == name;
  }

  /**
    Because the path is appended to itself, an entity nested two scopes deep
    gets the first scope twice: member `m` of class `c` in namespace `a` is
    qualified as `a::a::c::m`, not `a::c::m`.
   */
  lemma NestedScopeDoubled(a: string, c: string, m: string)
    ensures QualifiedName(("" + "" + "::" + a) + ("" + "" + "::" + a) + "::" + c, m) == a + "::" + a + "::" + c + "::" + m
  {
    var s := ("" + "" + "::" + a) + ("" + "" + "::" + a) + "::" + c + "::" + m;
    assert s == "::" + (a + "::" + a + "::" + c + "::" + m);
    assert s[..2] == "::";
  }

  /** The cursor kinds of a template's parameters. */
  predicate IsTemplateParam(k: CursorKind) {
    k == TemplateTypeParameter || k == TemplateNonTypeParameter
  }

  /** The template parameters of a class, in order: the source of each template-parameter child. */
  function TemplateParams(cs: seq<Decl>): (r: seq<string>)
    ensures |r| <= |cs|
    ensures r == [] <==> forall i :: 0 <= i < |cs| ==> !IsTemplateParam(cs[i].kind)
  {
    if cs == [] then []
    else
      var last := cs[|cs| - 1];
      TemplateParams(cs[..|cs| - 1])
      + (if IsTemplateParam(last.kind) then [last.source] else [])
  }

  /** The loop of `class_name`: the source of each template-parameter child is appended, in order. */
  method CollectTemplateParams(cs: seq<Decl>) returns (r: seq<string>)
    ensures r == TemplateParams(cs)
  {
    r := [];
    for i := 0 to |cs|
      invariant r == TemplateParams(cs[..i])
    {
      assert cs[..i + 1][..i] == cs[..i];
      if IsTemplateParam(cs[i].kind) {
        r := r + [cs[i].source];
      }
    }
    assert cs[..|cs|] == cs;
  }

  /** One child contributes its source exactly when it is a template parameter. */
  lemma TemplateParamsOfOne(c: Decl)
    ensures TemplateParams([c]) == if IsTemplateParam(c.kind) then [c.source] else []
  {
    assert [c][..0] == [];
  }

  /** The parameters of consecutive children are those of each part, in order. */
  lemma {:induction false} TemplateParamsAppend(a: seq<Decl>, b: seq<Decl>)
    ensures TemplateParams(a + b) == TemplateParams(a) + TemplateParams(b)
    decreases |b|
  {
    if b == [] {
      assert a + b == a;
    } else {
      var last := b[|b| - 1];
      assert (a + b)[..|a + b| - 1] == a + b[..|b| - 1];
      TemplateParamsAppend(a, b[..|b| - 1]);
    }
  }

  /** `class_name`: the spelling, preceded by `template <P1, P2, ...>` when the class has template parameters. */
  function ClassName(d: Decl): (r: string)
    ensures |d.spelling| <= |r| && r[|r| - |d.spelling|..] == d.spelling
    ensures (forall i :: 0 <= i < |d.children| ==> !IsTemplateParam(d.children[i].kind)) ==> r == d.spelling
    ensures (exists i :: 0 <= i < |d.children| && IsTemplateParam(d.children[i].kind)) ==> HasPrefixAt(r, 0, "template <")
  {
    var ps := TemplateParams(d.children);
    if ps == [] then d.spelling else "template <" + Join(ps, ", ") + ">" + d.spelling
  }

  /**
    A class with two template parameters, among other children that are not
    parameters, is named `template <P, Q>C`.
   */
  lemma ClassNameTwoParams(d: Decl, p: Decl, q: Decl, a: seq<Decl>, b: seq<Decl>, c: seq<Decl>)
    requires d.children == a + [p] + b + [q] + c
    requires IsTemplateParam(p.kind) && IsTemplateParam(q.kind)
    requires forall i :: 0 <= i < |a| ==> !IsTemplateParam(a[i].kind)
    requires forall i :: 0 <= i < |b| ==> !IsTemplateParam(b[i].kind)
    requires forall i :: 0 <= i < |c| ==> !IsTemplateParam(c[i].kind)
    ensures ClassName(d) == "template <" + p.source + ", " + q.source + ">" + d.spelling
  {
    var ps := [p.source, q.source];
    assert TemplateParams(a + [p]) == [p.source] by {
      assert TemplateParams(a) == [];
      TemplateParamsOfOne(p);
      TemplateParamsAppend(a, [p]);
    }
    assert TemplateParams(a + [p] + b) == [p.source] by {
      assert TemplateParams(b) == [];
      TemplateParamsAppend(a + [p], b);
    }
    assert TemplateParams(a + [p] + b + [q]) == ps by {
      TemplateParamsOfOne(q);
      TemplateParamsAppend(a + [p] + b, [q]);
    }
    assert TemplateParams(d.children) == ps by {
      assert TemplateParams(c) == [];
      TemplateParamsAppend(a + [p] + b + [q], c);
    }
    assert Join([p.source, q.source], ", ") == p.source + ", " + q.source;
  }

  /**
    What the walk needs besides the cursor: the file of the translation unit,
    the group, the hidden tokens, `relpath`, and the reading of a raw comment
    into a description, which `parse` fixes to `Describe` (the walk does not
    depend on how a comment is read).
   */
  datatype Env = Env(rootLocation: string, group: string, macros: Macros, relPath: string -> string, describe: string -> Description)

  /** The entity made from a documented cursor, before its content is filled in. */
  function MakeEntity(d: Decl, raw: string, k: EntityKind, env: Env, ns: string, includeSource: bool): (e: Entity)
    ensures e.kind == k
    ensures e.qualifiedName == QualifiedName(ns, e.name)
    ensures e.content == (if IsContainer(k) then Members([]) else NoContent)
    ensures !includeSource ==> e.source == ""
    ensures e.group == env.group
    ensures e.description == env.describe(raw)
    ensures e.name == if k == NamespaceEntity || k == ConceptEntity then d.displayName else d.spelling
    ensures e.file == env.relPath(d.file) && e.line == d.line
    ensures e.definition ==
      if k == ClassEntity then ClassName(d)
      else if k == TypedefEntity then StripUsing(SourceToDefinition(MacrosApplied(d.source, env.macros)))
      else SourceToDefinition(MacrosApplied(d.source, env.macros))
    ensures includeSource && (k == NamespaceEntity || k == ConceptEntity) ==>
      e.source == SourceToDefinition(MacrosApplied(d.source, env.macros)) + " { ... }"
    ensures includeSource && !(k == NamespaceEntity || k == ConceptEntity) ==> e.source == d.source
  {
    var definition := SourceToDefinition(MacrosApplied(d.source, env.macros));
    var name := if k == NamespaceEntity || k == ConceptEntity then d.displayName else d.spelling;
    var def :=
      if k == ClassEntity then ClassName(d)
      else if k == TypedefEntity then StripUsing(definition)
      else definition;
    var source :=
      if !includeSource then ""
      else if k == NamespaceEntity || k == ConceptEntity then definition + " { ... }"
      else d.source;
    Entity(k, name, QualifiedName(ns, name), def, source, env.relPath(d.file), d.line, env.describe(raw), env.group,
           if IsContainer(k) then Members([]) else NoContent)
  }

  /**
    The entities that visiting `d` adds to the list the walk is filling: none
    for a documented friend or unknown cursor; one class or enum holding its
    descendants' entities; or the cursor's own entity, if documented,
    followed by its descendants' entities.
   */
  function Extract(d: Decl, env: Env, ns: string, includeSource: bool): (r: seq<Entity>)
    ensures d.comment.Some? && Classify(d.kind).None? ==> r == []
    ensures d.comment.Some? && Classify(d.kind).Some? ==>
      |r| >= 1 && r[0].kind == Classify(d.kind).value && r[0].qualifiedName == QualifiedName(ns, r[0].name)
      && (IsContainer(r[0].kind) <==> |r| == 1 && r[0].content.Members?)
    ensures d.comment.None? ==> r == ExtractChildren(d, |d.children|, env, ChildScope(d, ns))
    ensures d.comment.Some? && Classify(d.kind).Some? ==>
      r[0].(content := NoContent) == MakeEntity(d, d.comment.value, Classify(d.kind).value, env, ns, includeSource).(content := NoContent)
    ensures d.comment.Some? && Classify(d.kind).Some? && IsContainer(Classify(d.kind).value) ==>
      r[0].content == Members(ExtractChildren(d, |d.children|, env, ChildScope(d, ns)))
    ensures d.comment.Some? && Classify(d.kind).Some? && !IsContainer(Classify(d.kind).value) ==>
      r[1..] == ExtractChildren(d, |d.children|, env, ChildScope(d, ns))
    decreases d, 1
  {
    match d.comment
    case None => ExtractChildren(d, |d.children|, env, ChildScope(d, ns))
    case Some(raw) =>
      match Classify(d.kind)
      case None => []
      case Some(k) =>
        var e := MakeEntity(d, raw, k, env, ns, includeSource);
        var kids := ExtractChildren(d, |d.children|, env, ChildScope(d, ns));
        if IsContainer(k) then [e.(content := Members(kids))] else [e] + kids
  }

  /** The children loop: each child in the translation unit's file is visited, in order, without `include_source`. */
  function ExtractChildren(parent: Decl, n: nat, env: Env, ns: string): seq<Entity>
    requires n <= |parent.children|
    decreases parent, 0, n
  {
    if n == 0 then []
    else
      var c := parent.children[n - 1];
      ExtractChildren(parent, n - 1, env, ns)
      + (if c.file == env.rootLocation then Extract(c, env, ns, false) else [])
  }

  /** Concatenation is associative. */
  lemma AppendAssoc<T>(a: seq<T>, b: seq<T>, c: seq<T>)
    ensures (a + b) + c == a + (b + c)
  {
  }

  /**
    `parse_index`: appends to `index` what visiting `d` adds. A class or enum
    receives its descendants' entities in its own list, which then becomes its
    `content`.
   */
  method ParseIndex(index: seq<Entity>, d: Decl, env: Env, ns: string, includeSource: bool) returns (r: seq<Entity>)
    ensures r == index + Extract(d, env, ns, includeSource)
    decreases d, 1
  {
    var scope := ChildScope(d, ns);
    if d.comment.None? {
      r := VisitChildren(index, d, env, scope);
      return;
    }
    var k := Classify(d.kind);
    if k.None? {
      return index;
    }
    var e := MakeEntity(d, d.comment.value, k.value, env, ns, includeSource);
    if IsContainer(k.value) {
      var content := VisitChildren([], d, env, scope);
      r := index + [e.(content := Members(content))];
      assert content == ExtractChildren(d, |d.children|, env, scope);
    } else {
      r := VisitChildren(index + [e], d, env, scope);
      AppendAssoc(index, [e], ExtractChildren(d, |d.children|, env, scope));
    }
  }

  /** The children loop of `parse_index`: each child located in the translation unit's file is visited in turn. */
  method VisitChildren(index: seq<Entity>, d: Decl, env: Env, scope: string) returns (r: seq<Entity>)
    ensures r == index + ExtractChildren(d, |d.children|, env, scope)
    decreases d, 0
  {
    r := index;
    for i := 0 to |d.children|
      invariant r == index + ExtractChildren(d, i, env, scope)
    {
      var c := d.children[i];
      if c.file == env.rootLocation {
        r := ParseIndex(r, c, env, scope, false);
        AppendAssoc(index, ExtractChildren(d, i, env, scope), Extract(c, env, scope, false));
      } else {
        assert ExtractChildren(d, i + 1, env, scope) == ExtractChildren(d, i, env, scope) + [];
      }
    }
  }

  /** Every entity, at every depth, has content exactly when it is a class or enum, and carries `group`. */
  predicate Shaped(es: seq<Entity>, group: string) {
    forall i :: 0 <= i < |es| ==> ShapedEntity(es[i], group)
  }

  /** One entity, and its members, in `group`, with content only when it is a container. */
  predicate ShapedEntity(e: Entity, group: string) {
    (e.content.Members? <==> IsContainer(e.kind)) && e.group == group
    && (e.content.Members? ==> forall i :: 0 <= i < |e.content.entries| ==> ShapedEntity(e.content.entries[i], group))
  }

  /** Every entity, at every depth, has an empty `source`. */
  predicate Sourceless(es: seq<Entity>) {
    forall i :: 0 <= i < |es| ==> SourcelessEntity(es[i])
  }

  /** One entity, and its members, with an empty `source`. */
  predicate SourcelessEntity(e: Entity) {
    e.source == ""
    && (e.content.Members? ==> forall i :: 0 <= i < |e.content.entries| ==> SourcelessEntity(e.content.entries[i]))
  }

  /** Shaped lists stay shaped when concatenated. */
  lemma ShapedAppend(a: seq<Entity>, b: seq<Entity>, group: string)
    requires Shaped(a, group) && Shaped(b, group)
    ensures Shaped(a + b, group)
  {
    forall i | 0 <= i < |a + b| ensures (a + b)[i] == if i < |a| then a[i] else b[i - |a|] { }
  }

  /** Sourceless lists stay sourceless when concatenated. */
  lemma SourcelessAppend(a: seq<Entity>, b: seq<Entity>)
    requires Sourceless(a) && Sourceless(b)
    ensures Sourceless(a + b)
  {
    forall i | 0 <= i < |a + b| ensures (a + b)[i] == if i < |a| then a[i] else b[i - |a|] { }
  }

  /** The walk keeps content for classes and enums only, and puts every entity in the file's group. */
  lemma {:induction false} ExtractShaped(d: Decl, env: Env, ns: string, includeSource: bool)
    ensures Shaped(Extract(d, env, ns, includeSource), env.group)
    decreases d, 1
  {
    var scope := ChildScope(d, ns);
    ExtractChildrenShaped(d, |d.children|, env, scope);
    var kids := ExtractChildren(d, |d.children|, env, scope);
    match d.comment
    case None =>
    case Some(raw) =>
      match Classify(d.kind)
      case None =>
      case Some(k) =>
        var e := MakeEntity(d, raw, k, env, ns, includeSource);
        if !IsContainer(k) {
          ShapedAppend([e], kids, env.group);
        }
  }

  /** The members collected for a parent are shaped. */
  lemma {:induction false} ExtractChildrenShaped(parent: Decl, n: nat, env: Env, ns: string)
    requires n <= |parent.children|
    ensures Shaped(ExtractChildren(parent, n, env, ns), env.group)
    decreases parent, 0, n
  {
    if n > 0 {
      var c := parent.children[n - 1];
      ExtractChildrenShaped(parent, n - 1, env, ns);
      if c.file == env.rootLocation {
        ExtractShaped(c, env, ns, false);
        ShapedAppend(ExtractChildren(parent, n - 1, env, ns), Extract(c, env, ns, false), env.group);
      } else {
        assert ExtractChildren(parent, n, env, ns) == ExtractChildren(parent, n - 1, env, ns) + [];
      }
    }
  }

  /**
    `include_source` is not passed down the recursion: below the cursor the
    walk starts from, every entity has an empty source.
   */
  lemma {:induction false} ExtractChildrenSourceless(parent: Decl, n: nat, env: Env, ns: string)
    requires n <= |parent.children|
    ensures Sourceless(ExtractChildren(parent, n, env, ns))
    decreases parent, 0, n
  {
    if n > 0 {
      var c := parent.children[n - 1];
      ExtractChildrenSourceless(parent, n - 1, env, ns);
      if c.file == env.rootLocation {
        ExtractSourceless(c, env, ns);
        SourcelessAppend(ExtractChildren(parent, n - 1, env, ns), Extract(c, env, ns, false));
      } else {
        assert ExtractChildren(parent, n, env, ns) == ExtractChildren(parent, n - 1, env, ns) + [];
      }
    }
  }

  /** Without `include_source`, no extracted entity keeps its source. */
  lemma {:induction false} ExtractSourceless(d: Decl, env: Env, ns: string)
    ensures Sourceless(Extract(d, env, ns, false))
    decreases d, 1
  {
    var scope := ChildScope(d, ns);
    ExtractChildrenSourceless(d, |d.children|, env, scope);
    var kids := ExtractChildren(d, |d.children|, env, scope);
    match d.comment
    case None =>
    case Some(raw) =>
      match Classify(d.kind)
      case None =>
      case Some(k) =>
        var e := MakeEntity(d, raw, k, env, ns, false);
        if !IsContainer(k) {
          SourcelessAppend([e], kids);
        }
  }

  /**
    From an undocumented root, `include_source` changes nothing: the option
    only applies to the root's own entity, so every entity the walk produces
    has an empty source, whatever the option says.
   */
  lemma UndocumentedRootSourceless(d: Decl, env: Env, includeSource: bool)
    requires d.comment.None?
    ensures Sourceless(Extract(d, env, "", includeSource))
  {
    ExtractChildrenSourceless(d, |d.children|, env, ChildScope(d, ""));
  }

  /** Children located in other files (included headers) add nothing. */
  lemma {:induction false} ForeignChildrenSkipped(parent: Decl, n: nat, env: Env, ns: string)
    requires n <= |parent.children|
    requires forall i :: 0 <= i < n ==> parent.children[i].file != env.rootLocation
    ensures ExtractChildren(parent, n, env, ns) == []
    decreases n
  {
    if n > 0 {
      ForeignChildrenSkipped(parent, n - 1, env, ns);
    }
  }

  /** A documented cursor directly below the translation unit gets its own name as qualified name. */
  lemma TopLevelEntityName(tu: Decl, d: Decl, env: Env, includeSource: bool)
    requires tu.kind == TranslationUnit && d.comment.Some? && Classify(d.kind).Some?
    ensures Extract(d, env, ChildScope(tu, ""), includeSource)[0].qualifiedName == Extract(d, env, ChildScope(tu, ""), includeSource)[0].name
  {
    TopLevelQualifiedName(Extract(d, env, "", includeSource)[0].name);
  }

  /**
    The doubled scope as the walk builds it: a member `m` of class `c` in a
    namespace `a` at the top of a file is qualified `a::a::c::m`.
   */
  lemma MemberOfClassInNamespace(tu: Decl, a: Decl, c: Decl, m: string)
    requires tu.kind == TranslationUnit && a.kind == Namespace && IsClassKind(c.kind)
    ensures QualifiedName(ChildScope(c, ChildScope(a, ChildScope(tu, ""))), m)
      == a.spelling + "::" + a.spelling + "::" + c.spelling + "::" + m
  {
    NestedScopeDoubled(a.spelling, c.spelling, m);
  }

  /** `x` is `d` itself or a descendant reached through children located in file `root`. */
  ghost predicate Reaches(d: Decl, x: Decl, root: string)
    decreases d
  {
    x == d || exists i :: 0 <= i < |d.children| && d.children[i].file == root && Reaches(d.children[i], x, root)
  }

  /** `e` is, up to its content, the entity made from some documented cursor at or below `d`. */
  ghost predicate FromDocumented(e: Entity, d: Decl, env: Env) {
    exists x: Decl, ns: string, inc: bool ::
      Reaches(d, x, env.rootLocation) && x.comment.Some? && Classify(x.kind).Some?
      && e.(content := NoContent) == MakeEntity(x, x.comment.value, Classify(x.kind).value, env, ns, inc).(content := NoContent)
  }

  /** `e` and, at every depth, its members come from documented cursors at or below `d`. */
  ghost predicate AllFromDocumented(e: Entity, d: Decl, env: Env) {
    FromDocumented(e, d, env)
    && (e.content.Members? ==> forall i :: 0 <= i < |e.content.entries| ==> AllFromDocumented(e.content.entries[i], d, env))
  }

  /** What comes from below a root-file child of `p` comes from below `p`. */
  lemma {:induction false} FromChildFromParent(e: Entity, p: Decl, i: nat, env: Env)
    requires i < |p.children| && p.children[i].file == env.rootLocation
    requires AllFromDocumented(e, p.children[i], env)
    ensures AllFromDocumented(e, p, env)
    decreases e
  {
    var x: Decl, ns: string, inc: bool :|
      Reaches(p.children[i], x, env.rootLocation) && x.comment.Some? && Classify(x.kind).Some?
      && e.(content := NoContent) == MakeEntity(x, x.comment.value, Classify(x.kind).value, env, ns, inc).(content := NoContent);
    assert Reaches(p, x, env.rootLocation);
    if e.content.Members? {
      forall j | 0 <= j < |e.content.entries|
        ensures AllFromDocumented(e.content.entries[j], p, env)
      {
        FromChildFromParent(e.content.entries[j], p, i, env);
      }
    }
  }

  /** Every entity of `es`, at every depth, comes from a documented cursor at or below `d`. */
  ghost predicate ListFromDocumented(es: seq<Entity>, d: Decl, env: Env) {
    forall k :: 0 <= k < |es| ==> AllFromDocumented(es[k], d, env)
  }

  /** The list form of `FromChildFromParent`. */
  lemma ListFromChildFromParent(es: seq<Entity>, c: Decl, p: Decl, i: nat, env: Env)
    requires i < |p.children| && c == p.children[i] && c.file == env.rootLocation
    requires ListFromDocumented(es, c, env)
    ensures ListFromDocumented(es, p, env)
  {
    forall k | 0 <= k < |es| ensures AllFromDocumented(es[k], p, env) {
      FromChildFromParent(es[k], p, i, env);
    }
  }

  /** Lists of entities from documented cursors stay so when concatenated. */
  lemma ListFromDocumentedAppend(a: seq<Entity>, b: seq<Entity>, d: Decl, env: Env)
    requires ListFromDocumented(a, d, env) && ListFromDocumented(b, d, env)
    ensures ListFromDocumented(a + b, d, env)
  {
    forall k | 0 <= k < |a + b| ensures (a + b)[k] == if k < |a| then a[k] else b[k - |a|] { }
  }

  /**
    Only documented declarations become entities: every entity the walk
    produces, at every depth, is the entity of a documented cursor of a known
    kind at or below the visited one, located in the translation unit's file.
   */
  lemma {:induction false} ExtractOnlyDocumented(d: Decl, env: Env, ns: string, includeSource: bool)
    ensures ListFromDocumented(Extract(d, env, ns, includeSource), d, env)
    decreases d, 1
  {
    var scope := ChildScope(d, ns);
    ExtractChildrenOnlyDocumented(d, |d.children|, env, scope);
    var kids := ExtractChildren(d, |d.children|, env, scope);
    match d.comment
    case None =>
    case Some(raw) =>
      match Classify(d.kind)
      case None =>
      case Some(k) =>
        var r := Extract(d, env, ns, includeSource);
        assert FromDocumented(r[0], d, env) by {
          assert Reaches(d, d, env.rootLocation);
        }
        if !IsContainer(k) {
          assert r == [r[0]] + kids;
          ListFromDocumentedAppend([r[0]], kids, d, env);
        }
  }

  /** Every entity collected for the first `n` children comes from a documented cursor below `parent`. */
  lemma {:induction false} ExtractChildrenOnlyDocumented(parent: Decl, n: nat, env: Env, ns: string)
    requires n <= |parent.children|
    ensures ListFromDocumented(ExtractChildren(parent, n, env, ns), parent, env)
    decreases parent, 0, n
  {
    if n > 0 {
      var c := parent.children[n - 1];
      ExtractChildrenOnlyDocumented(parent, n - 1, env, ns);
      if c.file == env.rootLocation {
        ExtractOnlyDocumented(c, env, ns, false);
      }
      ChildrenStep(parent, n, env, ns);
    }
  }

  /** One more child of the children loop keeps every collected entity from a documented cursor below `parent`. */
  lemma ChildrenStep(parent: Decl, n: nat, env: Env, ns: string)
    requires 0 < n <= |parent.children|
    requires ListFromDocumented(ExtractChildren(parent, n - 1, env, ns), parent, env)
    requires parent.children[n - 1].file == env.rootLocation ==>
      ListFromDocumented(Extract(parent.children[n - 1], env, ns, false), parent.children[n - 1], env)
    ensures ListFromDocumented(ExtractChildren(parent, n, env, ns), parent, env)
  {
    var c := parent.children[n - 1];
    var before := ExtractChildren(parent, n - 1, env, ns);
    if c.file == env.rootLocation {
      var mine := Extract(c, env, ns, false);
      ListFromChildFromParent(mine, c, parent, n - 1, env);
      assert ExtractChildren(parent, n, env, ns) == before + mine;
      ListFromDocumentedAppend(before, mine, parent, env);
    } else {
      assert ExtractChildren(parent, n, env, ns) == before + [];
    }
  }

  /** The index just after the last `'/'` of `p`, or 0 when there is none (`p.rfind('/') + 1`). */
  function AfterLastSlash(p: string): (i: nat)
    ensures i <= |p|
    ensures i > 0 ==> p[i - 1] == '/'
    ensures forall k :: i <= k < |p| ==> p[k] != '/'
  {
    if p == [] then 0
    else if p[|p| - 1] == '/' then |p|
    else AfterLastSlash(p[..|p| - 1])
  }

  /** `os.path.basename` (POSIX). */
  function Basename(p: string): (r: string)
    ensures forall k :: 0 <= k < |r| ==> r[k] != '/'
    ensures |r| <= |p| && r == p[|p| - |r|..]
    ensures |r| == |p| || p[|p| - |r| - 1] == '/'
  {
    p[AfterLastSlash(p)..]
  }

  /** The text without its trailing `'/'` characters. */
  function TrimTrailingSlashes(h: string): (r: string)
    ensures |r| <= |h| && r == h[..|r|]
    ensures r == [] || r[|r| - 1] != '/'
    ensures forall k :: |r| <= k < |h| ==> h[k] == '/'
  {
    if h != [] && h[|h| - 1] == '/' then TrimTrailingSlashes(h[..|h| - 1]) else h
  }

  /** A non-empty text made only of `'/'`. */
  predicate AllSlashes(h: string) {
    forall k :: 0 <= k < |h| ==> h[k] == '/'
  }

  /** `os.path.dirname` (POSIX): the text up to the last `'/'`, without trailing slashes unless it is all slashes. */
  function Dirname(p: string): (r: string)
    ensures |r| <= |p| && r == p[..|r|]
    ensures |r| <= AfterLastSlash(p)
    ensures forall k :: |r| <= k < AfterLastSlash(p) ==> p[k] == '/'
    ensures r == [] <==> AfterLastSlash(p) == 0
    ensures r != [] && r[|r| - 1] == '/' ==> AllSlashes(r) && |r| == AfterLastSlash(p)
  {
    var head := p[..AfterLastSlash(p)];
    if head != [] && !AllSlashes(head) then TrimTrailingSlashes(head) else head
  }

  /** The characters `[a-zA-Z0-9_-]` of a group name. */
  predicate IsGroupChar(c: char) {
    IsAsciiLetter(c) || ('0' <= c <= '9') || c == '_' || c == '-'
  }

  /** Length of the run of group-name characters at `i`. */
  function GroupNameRun(s: string, i: nat): (n: nat)
    requires i <= |s|
    ensures i + n <= |s|
    ensures forall k :: i <= k < i + n ==> IsGroupChar(s[k])
    ensures i + n == |s| || !IsGroupChar(s[i + n])
    decreases |s| - i
  {
    if i < |s| && IsGroupChar(s[i]) then 1 + GroupNameRun(s, i + 1) else 0
  }

  /** `@addtogroup\s+([a-zA-Z0-9_-]+)` at `i`: a group character cannot be a space, so the greedy run of spaces is the only one to try. */
  predicate AddToGroupAt(s: string, i: nat) {
    i + 11 <= |s| && HasPrefixAt(s, i, "@addtogroup") && SpaceRun(s, i + 11) > 0
    && GroupNameRun(s, i + 11 + SpaceRun(s, i + 11)) > 0
  }

  /** The name captured by an `@addtogroup` at `j`. */
  function GroupNameAt(s: string, j: nat): (name: string)
    requires AddToGroupAt(s, j)
  {
    var b := j + 11 + SpaceRun(s, j + 11);
    s[b..b + GroupNameRun(s, b)]
  }

  /** The group named by the leftmost `@addtogroup` from `i` on. */
  function AddToGroupFrom(s: string, i: nat): (r: Option<string>)
    requires i <= |s|
    ensures r.Some? ==> r.value != [] && forall k :: 0 <= k < |r.value| ==> IsGroupChar(r.value[k])
    ensures r.None? <==> forall j :: i <= j <= |s| ==> !AddToGroupAt(s, j)
    ensures r.Some? ==> exists j :: i <= j <= |s| && AddToGroupAt(s, j) && r.value == GroupNameAt(s, j)
                                 && forall q :: i <= q < j ==> !AddToGroupAt(s, q)
    decreases |s| - i
  {
    if AddToGroupAt(s, i) then
      Some(GroupNameAt(s, i))
    else if i == |s| then None
    else AddToGroupFrom(s, i + 1)
  }

  /** The group of a file: the first `@addtogroup` name in its text, else the name of its directory. */
  function GroupFor(fileName: string, text: string): (g: string)
    ensures AddToGroupFrom(text, 0).Some? ==> g == AddToGroupFrom(text, 0).value
    ensures AddToGroupFrom(text, 0).None? ==> g == Basename(Dirname(fileName))
  {
    match AddToGroupFrom(text, 0)
    case Some(name) => name
    case None => Basename(Dirname(fileName))
  }

  /** Without `@addtogroup`, a file `.../g/f` goes to group `g`. */
  lemma GroupFromDirectory(pre: string, g: string, f: string, text: string)
    requires pre == [] || pre[|pre| - 1] == '/'
    requires g != [] && forall k :: 0 <= k < |g| ==> g[k] != '/'
    requires forall k :: 0 <= k < |f| ==> f[k] != '/'
    requires forall j :: 0 <= j <= |text| ==> !AddToGroupAt(text, j)
    ensures GroupFor(pre + g + "/" + f, text) == g
  {
    DirnameOfFile(pre, g, f);
    AfterLastSlashIs(pre + g, |pre|);
    assert (pre + g)[|pre|..] == g;
  }

  /** The directory of `.../g/f` is `.../g`. */
  lemma DirnameOfFile(pre: string, g: string, f: string)
    requires pre == [] || pre[|pre| - 1] == '/'
    requires g != [] && forall k :: 0 <= k < |g| ==> g[k] != '/'
    requires forall k :: 0 <= k < |f| ==> f[k] != '/'
    ensures Dirname(pre + g + "/" + f) == pre + g
  {
    var p := pre + g + "/" + f;
    var n := |pre| + |g| + 1;
    assert p[n - 1] == '/';
    AfterLastSlashIs(p, n);
    var head := p[..n];
    assert head == (pre + g) + "/";
    assert head[|head| - 2] == g[|g| - 1];
    assert !AllSlashes(head);
    assert TrimTrailingSlashes(head) == TrimTrailingSlashes(pre + g);
    assert TrimTrailingSlashes(pre + g) == pre + g;
  }

  /** `AfterLastSlash` is the position after the last slash. */
  lemma AfterLastSlashIs(p: string, n: nat)
    requires n <= |p| && (n == 0 || p[n - 1] == '/')
    requires forall k :: n <= k < |p| ==> p[k] != '/'
    ensures AfterLastSlash(p) == n
  {
  }

  /** An input file: its name, its text, and the cursor of its translation unit. */
  datatype SourceFile = SourceFile(name: string, text: string, unit: Decl)

  /** The walk's parameters for one file: its translation unit's file name and its group. */
  function FileEnv(f: SourceFile, macros: Macros, relPath: string -> string): (env: Env)
    ensures env.rootLocation == f.unit.displayName
    ensures env.group == GroupFor(f.name, f.text)
  {
    Env(f.unit.displayName, GroupFor(f.name, f.text), macros, relPath, Describe)
  }

  /** What `parse` appends for the files, in order. */
  function ExtractFiles(files: seq<SourceFile>, macros: Macros, relPath: string -> string, includeSource: bool): seq<Entity>
  {
    if files == [] then []
    else
      var f := files[|files| - 1];
      ExtractFiles(files[..|files| - 1], macros, relPath, includeSource)
      + Extract(f.unit, FileEnv(f, macros, relPath), "", includeSource)
  }

  /**
    A translation unit's cursor is either undocumented, and `include_source`
    is not passed below it, or documented, and its unknown kind stops the walk:
    no entity of any file keeps its source.
   */
  lemma {:induction false} ExtractFilesSourceless(files: seq<SourceFile>, macros: Macros, relPath: string -> string, includeSource: bool)
    requires forall i :: 0 <= i < |files| ==> files[i].unit.kind == TranslationUnit
    ensures Sourceless(ExtractFiles(files, macros, relPath, includeSource))
  {
    if files != [] {
      var f := files[|files| - 1];
      ExtractFilesSourceless(files[..|files| - 1], macros, relPath, includeSource);
      if f.unit.comment.None? {
        UndocumentedRootSourceless(f.unit, FileEnv(f, macros, relPath), includeSource);
      }
      SourcelessAppend(ExtractFiles(files[..|files| - 1], macros, relPath, includeSource),
        Extract(f.unit, FileEnv(f, macros, relPath), "", includeSource));
    }
  }

  /** The index `parse` fills: a list that only grows. */
  class Indexer {
    var entries: seq<Entity>

    /** An index that already holds `entries`. */
    constructor(entries: seq<Entity>)
      ensures this.entries == entries
    {
      this.entries := entries;
    }

    /** `parse`: each file is walked from its translation unit's cursor, with an empty scope, and its entities appended. */
    method Parse(files: seq<SourceFile>, macros: Macros, relPath: string -> string, includeSource: bool)
      modifies this
      ensures entries == old(entries) + ExtractFiles(files, macros, relPath, includeSource)
    {
      for i := 0 to |files|
        invariant entries == old(entries) + ExtractFiles(files[..i], macros, relPath, includeSource)
      {
        var f := files[i];
        assert files[..i + 1][..i] == files[..i];
        var env := FileEnv(f, macros, relPath);
        entries := ParseIndex(entries, f.unit, env, "", includeSource);
        AppendAssoc(old(entries), ExtractFiles(files[..i], macros, relPath, includeSource), Extract(f.unit, env, "", includeSource));
      }
      assert files[..|files|] == files;
    }
  }
}
