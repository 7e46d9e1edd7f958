# cxxdox in Dafny

cxxdox documents a C++ library in two passes:

- **Parsing** (`cparser.py`, `common.py`). This walks the declarations clang finds in each header and keeps those with a documentation comment. Each kept declaration becomes an *entity*: kind, name, qualified name, definition, source, file, line, group and description. The comment is cleaned of its markers and dedented. Macros are removed. A `@copybrief` directive becomes a reference to another entity. Any other text is split by a table of 21 regular-expression rules into text leaves and tagged nodes.
- **Rendering** (`generator_markdown.py`, `generator.py`). The index is turned into Markdown. There is one page per group, with a header and a footer. Each entity gets a section with a title, a fenced definition, its rendered description and an optional source block, and its members follow. With automatic groups, a table of contents is kept. An optional alphabetical reference index links every entity at any depth.

The model follows the program's files:

| module | file | models |
|---|---|---|
| `Strings` | strings.dfy | the Python string built-ins the core relies on (`strip`, `splitlines`, `join`, `replace`, `str`, `lower`) |
| `Rewrite` | rewrite.dfy | `re.sub` over a matcher, and the small fixed patterns of `clean_comment`, `replace_macros`, the typedef `using` strip and `@brief` |
| `Common` | common.dfy | `remove_padding`: a specification function and the loop as a method |
| `Patterns` | patterns.dfy | the rule table of `cparser.py` and a leftmost-first search for each rule's pattern |
| `Descriptions` | descriptions.dfy | `parse_description`, string and list branches |
| `Comments` | comments.dfy | `clean_text`, `clean_comment`, `replace_macros`, `source_to_definition`, the description built from a raw comment |
| `Entities` | entities.dfy | `parse_index` over an abstract declaration tree, `class_name`, the file's group, and `parse` as a class whose index grows |
| `Generator` | generator.dfy | `padding`, `filterIndex`, `groupList` |
| `Markdown` | markdown.dfy | `markdown_safe`, `generate_descriptions`, `clean_name`, `make_title`, `generate_item` with its shared header cell, `header`, `footer` |
| `Site` | site.dfy | `group_for`, `path_for`, the page loop of the script with its table of contents, and the footers |
| `RefIndex` | refindex.dfy | `traverse`, the sort key, `generate_index` and the `--refindex` page |

Each loop of the source that updates variables is a method proved equal to a specification function, and the properties are then proved about that function. One walk is the exception: the `setdefault` descent into the table of contents (`generator_markdown.py:207-208`) is the recursive function `Site.TocInsert` on values, and no method. The loop of `class_name` is `Entities.CollectTemplateParams`, proved equal to `Entities.TemplateParams`. The footer loop is `Site.WriteFooters`, proved equal to the map `Site.WithFooters`. Examples are: a parse leaves only stripped text and tags from the table; escaping `>` loses nothing; a page exists for every item's group; the index is sorted by the key and a permutation of the entities; a letter heading appears exactly when the initial changes.

Some behaviours of the code as written differ from what its documentation suggests. The model follows the code and states these behaviours as lemmas:

- **Doubled scopes.** A nested scope is doubled: `ns += ns + '::' + spelling`. A member `m` of class `c` in namespace `a` is qualified `a::a::c::m` (`MemberOfClassInNamespace`).
- **`include_source` is not passed on.** The recursive call drops it, and the translation unit's own cursor is of a kind the walk does not record. So every stored entity has an empty `source` (`ExtractFilesSourceless`), and no source block is ever rendered.
- **Comments opening with `/**<`.** They are sliced with `s[4::-2]`, which keeps at most three characters (`TrailingBlockCommentLosesText`). The comment `/**< text */` becomes `*/`.
- **`ref` tags.** The `ref` rule's tag has no case in the renderer and prints as `(UNKNOWN ID: ('ref', ...))` (`RefTagIsUnknown`).
- **Unresolved `@copybrief`.** A copy directive whose target is not found renders as the word `copy`. The loop iterates the dictionary's key (`UnresolvedCopyRendersKey`).
- **Shared header cell.** The default `item_header=['']` is one cell shared by every call, across pages. This is modelled as the `HeaderCell` class and threaded through the page loop.
- **`remove_padding` caps and re-runs.** It caps the indentation it removes at 100 blanks (`DeepIndentUnchanged`). It is not idempotent (`DedentNotIdempotent`).
- **Member indentation.** Members are rendered with the same indentation as their owner.
- **The table has 21 rules.**
- **Empty leaves.** A whitespace-only piece of a split text yields the leaf `''`: it is stripped after the emptiness test (`WhitespacePieceBecomesEmptyLeaf`).

## Model

| member | source | states |
|---|---|---|
| Strings.Strip | cparser.py:114 | the result has no whitespace at either end and is the stretch of the input that follows its leading whitespace; whitespace-only text gives `''`; text already stripped is unchanged |
| Strings.ReplaceAll | generator_markdown.py:15 | text in which the pattern occurs nowhere comes back unchanged |
| Strings.ReplaceCharLength | generator.py:18 | replacing a character by `rep` adds `|rep| - 1` characters per occurrence |
| Strings.ReplaceCharCount | generator.py:18 | after the replacement, another character occurs as often as before plus its occurrences in each inserted copy |
| Strings.ReplaceCharAbsent | generator.py:18 | a text without the character is left unchanged |
| Strings.IntToString | generator_markdown.py:110 | `str` of the line number: a minus sign exactly for negative numbers, then decimal digits whose value is the number's absolute value |
| Strings.Upper | generator_markdown.py:161 | a lower-case ASCII letter becomes the corresponding upper-case letter, which lower-cases back to it; other characters are kept |
| Strings.Lower | generator_markdown.py:253 | same length, each character ASCII lower-cased: no upper-case ASCII letter remains, and text without one is unchanged |
| Rewrite.Sub | cparser.py:120 | `re.sub` with a pattern given as a matcher tried leftmost-first, each match replaced and the scan resumed after it; definition; its properties are `Rewrite.SubNoMatch`, `Rewrite.SubDeleteShrinks` |
| Rewrite.SubNoMatch | cparser.py:128 | `re.sub` on text where the pattern matches nowhere returns the text unchanged |
| Rewrite.SubDeleteShrinks | cparser.py:120 | deleting every match never makes the text longer |
| Rewrite.StarAt | cparser.py:122 | `^\s*\*( \|$)` matches exactly at a line start whose leading whitespace is followed by `*` and then a blank or the end of the line; the match ends on the star or on the blank after it |
| Rewrite.TripleSlashAt | cparser.py:120 | `^\s*///` under `re.MULTILINE`: at a line start, blanks then three slashes; definition; its properties are `Comments.TripleSlashRemoved`, `Comments.TripleSlashLines` |
| Rewrite.WholeWordAt | cparser.py:128 | `\b` key `\b`: the key at `i` with a word boundary on both sides, ending right after the key; its properties are `Comments.EmptyKeyMarksBoundaries`, `Comments.GluedKeyKept`, `Comments.AbsentMacroUnchanged` |
| Rewrite.UsingAt | cparser.py:185 | the `using` pattern: `using` at the start of the text or after blanks, followed by blanks; definition; its properties are `Comments.UsingAliasStripped`, `Comments.NoUsingUnchanged` |
| Rewrite.BriefAt | cparser.py:225 | `\s*@brief\s*`: `@brief` with the blanks around it; definition; its property is `Comments.BriefMarkerRemoved` |
| Common.LeadingBlanks | common.py:7 | the number of leading `' '` of a line: all blanks before it, a non-blank or the end after it |
| Common.RemovePadding | common.py:2-12 | the loop computes what the specification function `Dedent` says |
| Common.Dedent | common.py:2-12 | `remove_padding` as a function: every line of `splitlines` loses the smallest indent of the non-empty lines, and the lines are joined by `\n`; the text comes back as it is when that indent is 100 or more; definition; its properties are `Common.RemovePadding`, `Common.MinPaddingIsMinimum`, `Common.NoTextUnchanged`, `Common.DeepIndentUnchanged`, `Common.DedentRemovesCommonBlanks`, `Common.NoCommonIndentRejoins`, `Common.DedentUnindentedLine`, `Common.DedentNotIdempotent` |
| Common.MinPaddingIsMinimum | common.py:4-8 | the computed padding is at most 100 and at most the leading blanks of every non-empty line; it is attained by such a line unless it is 100 |
| Common.NoTextUnchanged | common.py:8-9 | a text whose lines are all empty comes back unchanged |
| Common.DeepIndentUnchanged | common.py:8-9 | if every non-empty line has at least 100 leading blanks, the text comes back unchanged |
| Common.DedentRemovesCommonBlanks | common.py:2-12 | whenever the text changes, the blanks removed are common to every non-empty line, one line has exactly that many, and the lines are rejoined with `'\n'` |
| Common.NoCommonIndentRejoins | common.py:11-12 | with an unindented non-empty line, no blank is removed: the lines are only rejoined with `'\n'` |
| Common.DedentUnindentedLine | common.py:2-12 | a single line that does not open with a blank comes back unchanged |
| Common.DedentNotIdempotent | common.py:2-12 | dedenting `"  a\n  "` gives `"a\n"`, and dedenting that again gives `"a"` |
| Patterns.Rules | cparser.py:20-45 | the table has 21 rows; each pattern is well formed, and a row has a payload exactly when its pattern captures a group |
| Patterns.InlineRules | cparser.py:21-27 | the seven rows for `c`, `ref`, code and math, each well formed, payload iff capture |
| Patterns.CommandRules | cparser.py:29-44 | the fourteen command rows, each well formed, payload iff capture |
| Patterns.KeywordAt | cparser.py:29-44 | an alternative of a command keyword matches starting at the command character, inside the text |
| Patterns.CloseFrom | cparser.py:23-27 | a close found for a lazy `.*?` span is a closing token at or after `k`, after at least one whitespace character when the pattern demands `\s+` |
| Patterns.MatchAt | cparser.py:50 | a match found at a position starts there and lies inside the text |
| Patterns.SearchFrom | cparser.py:50 | a reported match starts at or after the given position and is the match at its start |
| Patterns.SearchFromLeftmost | cparser.py:50 | no position before the reported one matches; when nothing is reported, no position matches |
| Patterns.Search | cparser.py:50 | `re.search`: the leftmost match, or none when no position matches |
| Patterns.NoMatchInWhitespace | cparser.py:20-45 | no pattern of the table matches whitespace-only text |
| Descriptions.Find | cparser.py:50 | a rule's search result lies inside the text |
| Descriptions.FirstRuleFrom | cparser.py:49-51 | the first rule in table order, from a given row, that matches; the rows before it do not match |
| Descriptions.FirstRule | cparser.py:49-57 | the first matching rule of the table, and none exactly when no rule matches |
| Descriptions.Payload | cparser.py:53 | for a rule flagged 1 the payload is the captured group, dedented and stripped; for a rule flagged 0 it is empty |
| Descriptions.ParseDescription | cparser.py:47-57 | a description stays plain text exactly when no rule matches, and it is then the text itself |
| Descriptions.Parse | cparser.py:47-70 | `parse_description` on a string: the first rule that matches splits the text into the parse of what precedes the match, the rule's tag and the parse of what follows; without a match the text is returned; definition; its properties are `Descriptions.ParseMatchIsListOfThree`, `Descriptions.ParseNodesWellFormed`, `Descriptions.ParseLeavesUnmatched`, `Descriptions.ParseInOrder`, `Descriptions.ParsedAround`, `Descriptions.ParamsAndReturn` |
| Descriptions.ParseList | cparser.py:58-70 | the loop of the list branch computes the flattened nodes of the pieces |
| Descriptions.ParseMatchIsListOfThree | cparser.py:51-55 | a match turns the string into the parse of the list prefix, tag, postfix |
| Descriptions.ParseNodesWellFormed | cparser.py:47-70 | every leaf of a parse is stripped; every tag comes from the table with a stripped payload |
| Descriptions.ParseLeavesUnmatched | cparser.py:47-70 | every text leaf of a parse is the stripped form of a non-empty stretch of the input in which no rule matches |
| Descriptions.ParseInOrder | cparser.py:47-70 | the nodes keep the order of the text: they come from stretches that follow each other from the start of the text to its end; each leaf is its stretch stripped, a stretch where no rule matches; each tag is the match of the first matching rule in its stretch |
| Descriptions.PlainUnmatched | cparser.py:20-57 | text without `@`, `\` or `$` matches no rule of the table and is returned as it is |
| Descriptions.ParseParam | cparser.py:20-70 | at a `@param NAME` command preceded by plain text, the text splits into the parse of what precedes it, a `param` tag holding the name, and the parse of what follows |
| Descriptions.ParseReturn | cparser.py:20-70 | at a `@return ` command preceded by plain text, the text splits into the parse of what precedes it, a `return` tag with no payload, and the parse of what follows |
| Descriptions.ParsedAround | cparser.py:55-67 | a split whose text before the tag gives one node yields that node, the tag, then the nodes after it |
| Descriptions.ParamsAndReturn | cparser.py:47-70 | a summary line, two `@param NAME description` lines and a `@return value` line become, in order: the summary, each parameter's tag followed by its description, and the `return` tag followed by the value |
| Descriptions.ParamsAndReturnExample | cparser.py:47-70 | the comment `Adds two numbers.` / `@param a first` / `@param b second` / `@return sum` becomes `Adds two numbers.`, `{param: a}`, `first`, `{param: b}`, `second`, `{return: ''}`, `sum` |
| Descriptions.WhitespaceMatchesNoRule | cparser.py:20-45 | text made only of whitespace matches no rule |
| Descriptions.WhitespacePieceBecomesEmptyLeaf | cparser.py:61-65 | a non-empty whitespace-only piece yields the leaf `''`, since stripping follows the emptiness test |
| Comments.ExpandTabs | cparser.py:76 | replacing tabs leaves no tab and adds three characters per tab |
| Comments.DropReturns | cparser.py:77 | removing `'\r'` leaves none and shortens the text by their number |
| Comments.CleanText | cparser.py:75-78 | no tab or carriage return remains; the length grows by three per tab and shrinks by one per return; clean text is unchanged |
| Comments.DiffersAt | cparser.py:113-123 | a text that differs from a prefix at some position does not start with it |
| Comments.CleanComment | cparser.py:113-123 | `clean_comment`: the stripped comment by its opening (`///<`, `/**<`, `///`, `/**` or none), with the markers removed and the text dedented; definition; its properties are `Comments.OnlyFirstLineStart`, `Comments.LineCommentOneLine`, `Comments.TripleSlashRemoved`, `Comments.TripleSlashLines`, `Comments.LineCommentLines`, `Comments.BlockCommentOneLine`, `Comments.TrailingBlockCommentLosesText`, `Comments.TrailingBlockCommentBecomesCloser`, `Comments.TrailingLineComment`, `Comments.CleanOneBlankLineComment` |
| Comments.OnlyFirstLineStart | cparser.py:120 | in a one-line text only position 0 is a line start for `^` under MULTILINE |
| Comments.LineCommentOneLine | cparser.py:119-120 | a one-line `///` comment loses its marker and is dedented |
| Comments.TripleSlashRemoved | cparser.py:120 | removing `^\s*///` from a one-line comment leaves exactly its text |
| Comments.TripleSlashLines | cparser.py:120 | on text made of lines of blanks, `///` and text, `re.sub(r'^\s*///', '', s, flags=re.M)` leaves the texts of the lines joined by line breaks |
| Comments.LineCommentLines | cparser.py:113-123 | a comment made only of `///` lines is cleaned to the dedented texts of its lines, joined by line breaks |
| Comments.BlockCommentOneLine | cparser.py:121-122 | a one-line `/** ... */` comment without stars loses its markers and is dedented |
| Comments.TrailingBlockCommentLosesText | cparser.py:117-118 | a `/**<` comment is reduced to three characters: the fifth, `*` and `/` |
| Comments.TrailingBlockCommentBecomesCloser | cparser.py:117-118 | a `/**< text */` comment whose text starts with a blank becomes `*/` |
| Comments.DedentOneIndentedLine | common.py:2-12 | one line indented by one blank loses exactly that blank |
| Comments.TrailingLineComment | cparser.py:115-116 | a `///<` comment is its text after the marker, dedented |
| Comments.ReplaceMacros | cparser.py:126-129 | the loop applies the macros one after the other, in order |
| Comments.MacrosApplied | cparser.py:126-129 | the macros applied in order, each key as a whole word replaced by its value (the empty key at every word boundary); definition; its properties are `Comments.ReplaceMacros`, `Comments.DeletingMacrosShrinks`, `Comments.AbsentMacroUnchanged`, `Comments.EmptyKeyMarksBoundaries`, `Comments.GluedKeyKept` |
| Comments.EmptyKeyMarksBoundaries | cparser.py:128 | an empty key with a value inserts the value at every word boundary: `ab` with value `X` gives `XabX` |
| Comments.DeletingMacrosShrinks | cparser.py:361 | with every value empty, as the script configures them, the text never grows |
| Comments.AbsentMacroUnchanged | cparser.py:128 | a non-empty key that occurs nowhere as a whole word leaves the text unchanged, and so does the empty key with an empty value |
| Comments.GluedKeyKept | cparser.py:128 | an occurrence glued to a word character is not replaced |
| Comments.SourceToDefinition | cparser.py:150-152 | the definition is the text before the first `{`, stripped, or the whole text stripped when there is no `{`; it holds no `{` |
| Comments.StripUsing | cparser.py:185 | removing `using` never lengthens a definition |
| Comments.NoUsingUnchanged | cparser.py:185 | a definition where no `using` is introduced by whitespace or the start is unchanged |
| Comments.UsingAliasStripped | cparser.py:185 | an alias `using T ...` whose rest holds no other `using` loses exactly the keyword and its blank |
| Comments.NameRun | cparser.py:219 | the greedy run of `[a-zA-Z0-9:._-]` at a position |
| Comments.CopyTarget | cparser.py:219-222 | a target is found exactly when the text starts with `@copybrief` or `\copybrief`, blanks and a name character follow; the target is the longest run of name characters after those blanks |
| Comments.DescribeCleaned | cparser.py:217-226 | a copy exactly when the directive is found, with its target; otherwise the parse of the text with `@brief` removed, which stays plain exactly when no rule matches |
| Comments.Describe | cparser.py:217-226 | the description of a raw comment: cleaned text, then cleaned comment, then the copy directive or the parsed description; definition; its properties are `Comments.DescribeCleaned`, `Comments.CopyBriefLineComment` |
| Comments.BriefMarkerRemoved | cparser.py:225 | a description opening with `@brief ` and holding no other `@brief` loses exactly the marker and its blank |
| Comments.CopyNeedsName | cparser.py:219 | the directive with only whitespace after it names nothing |
| Comments.CopyTargetOfDirective | cparser.py:219-223 | the directive followed by a name yields exactly that name |
| Comments.DirectiveIsOneStrippedLine | cparser.py:219-220 | such a directive is a single line left as it is by `strip` |
| Comments.CleanOneBlankLineComment | cparser.py:113-123 | `/// TEXT` on one line is cleaned to `TEXT` |
| Comments.CopyBriefLineComment | cparser.py:217-223 | a one-line `/// @copybrief NAME` comment describes a copy of `NAME` |
| Entities.KindName | cparser.py:164-199 | the `type` string of each kind: `function`, `class`, `enum`, `enumerator`, `typedef` and the others, one per kind |
| Entities.Classify | cparser.py:164-206 | the kind dispatch: friends, template parameters, the translation unit and unknown kinds stop the walk; the class and enum kinds are recognised exactly |
| Entities.TopLevelQualifiedName | cparser.py:208 | in the empty scope the qualified name is the name |
| Entities.QualifiedName | cparser.py:208 | the scope, `::` and the name, with one leading `::` removed; definition; its properties are `Entities.TopLevelQualifiedName`, `Entities.TopLevelEntityName`, `Entities.MemberOfClassInNamespace` |
| Entities.NestedScopeDoubled | cparser.py:237-244 | two nested scopes give the doubled qualified name `a::a::c::m` |
| Entities.ChildScopeExtends | cparser.py:237-244 | the scope handed to the children keeps the parent's scope as a prefix, and when it grows it ends with the cursor's spelling and has length twice the parent's plus two plus the spelling |
| Entities.ChildScope | cparser.py:237-244 | the scope of a namespace's, class's or enum's children: the scope doubled, `::` and the spelling, and the scope unchanged for other kinds; definition; its properties are `Entities.ChildScopeExtends`, `Entities.NestedScopeDoubled` |
| Entities.TemplateParams | cparser.py:138-141 | empty exactly when no child is a template parameter |
| Entities.TemplateParamsOfOne | cparser.py:138-141 | one child gives its source when it is a template parameter, and nothing otherwise |
| Entities.TemplateParamsAppend | cparser.py:138-141 | the parameters of consecutive children are those of each part in order: the sources of the template-parameter children, in child order |
| Entities.CollectTemplateParams | cparser.py:138-141 | the loop appends exactly the template parameters of the children, in order |
| Entities.ClassName | cparser.py:136-147 | the name ends with the spelling; it is the spelling alone when no child is a template parameter, and starts with `template <` otherwise |
| Entities.ClassNameTwoParams | cparser.py:136-147 | a class with two template-parameter children `p` and `q`, in that order, is named `template <p, q>` followed by its spelling |
| Entities.MakeEntity | cparser.py:157-232 | the entity has the dispatched kind; the display name for namespaces and concepts and the spelling otherwise; the scoped qualified name; the file's relative path and the line; the definition of its kind (the class name, the `using`-stripped typedef, or the text before `{`); the source only with `include_source`; content exactly for containers; the file's group and the description of the raw comment |
| Entities.Extract | cparser.py:155-248 | an undocumented declaration yields only what its children yield; a documented one of a known kind yields its entity first, qualified in the scope; a container holds its members, another entity is followed by them; unknown kinds yield nothing |
| Entities.ExtractOnlyDocumented | cparser.py:155-248 | only documented declarations become entities: every entity, at every depth, is the entity of a documented cursor of a known kind at or below the visited one, in the root file |
| Entities.ExtractChildrenOnlyDocumented | cparser.py:246-248 | the same for the entities collected from the children |
| Entities.ExtractChildren | cparser.py:246-248 | the entities of the first `n` children whose file is the root's, in order; definition; its properties are `Entities.VisitChildren`, `Entities.ExtractChildrenShaped`, `Entities.ExtractChildrenSourceless`, `Entities.ExtractChildrenOnlyDocumented`, `Entities.ForeignChildrenSkipped` |
| Entities.ParseIndex | cparser.py:155-248 | the recursive visit appends exactly what `Extract` describes |
| Entities.VisitChildren | cparser.py:246-248 | the children loop appends exactly what the children contribute |
| Entities.ExtractShaped | cparser.py:230-235 | every entity, at every depth, is in the file's group and has content exactly when it is a class or enum |
| Entities.ExtractChildrenShaped | cparser.py:246-248 | members collected for a parent have the same shape |
| Entities.ExtractChildrenSourceless | cparser.py:246-248 | members are visited without `include_source`, so their source is empty |
| Entities.ExtractSourceless | cparser.py:212-213 | without `include_source` no entity keeps its source |
| Entities.UndocumentedRootSourceless | cparser.py:246-248 | from an undocumented root every entity has an empty source |
| Entities.ForeignChildrenSkipped | cparser.py:246-248 | children located in other files add nothing |
| Entities.TopLevelEntityName | cparser.py:208 | an entity directly below the translation unit is qualified by its own name |
| Entities.MemberOfClassInNamespace | cparser.py:237-244 | the walk qualifies member `m` of class `c` in namespace `a` as `a::a::c::m` |
| Entities.AfterLastSlash | cparser.py:263 | the position after the last `/`, with no `/` after it |
| Entities.Basename | cparser.py:263 | `os.path.basename`: the suffix after the last `/`, holding no `/` |
| Entities.TrimTrailingSlashes | cparser.py:263 | a prefix without a trailing `/`; only slashes were removed |
| Entities.Dirname | cparser.py:263 | `os.path.dirname`: the path up to its last `/`, without the trailing slashes unless only slashes remain; empty exactly when there is no `/` |
| Entities.DirnameOfFile | cparser.py:263 | the directory of `pre/g/f` is `pre/g` |
| Entities.GroupNameRun | cparser.py:259 | the greedy run of `[a-zA-Z0-9_-]` at a position |
| Entities.AddToGroupFrom | cparser.py:259-261 | a group is found exactly when `@addtogroup NAME` occurs; the name is that of the leftmost occurrence, non-empty and made of group characters |
| Entities.GroupFor | cparser.py:256-263 | the name of the leftmost `@addtogroup`, else the base name of the file's directory |
| Entities.GroupFromDirectory | cparser.py:262-263 | without `@addtogroup`, a file `.../g/f` belongs to group `g` |
| Entities.FileEnv | cparser.py:256-280 | a file is walked from its translation unit's name, in its group |
| Entities.ExtractFilesSourceless | cparser.py:251-280 | for files walked from their translation units, no stored entity has a source: an undocumented unit does not pass `include_source` on, and a documented one is of a kind the walk does not record |
| Entities.Indexer.constructor | cparser.py:251 | the index starts with the given entries |
| Entities.Indexer.Parse | cparser.py:251-281 | the index is the old one followed by every file's entities, in file order |
| Generator.BlankRun | generator.py:14 | the greedy run of `[ \t]` at a position |
| Generator.TrimLineEnds | generator.py:14 | `re.sub(r'[ \t]+\n', '\n', s)`; definition; its properties are `Generator.TrimLeavesNoBlankBeforeNewline`, `Generator.TrimKeepsNewlines` |
| Generator.HalveNewlines | generator.py:16 | `replace('\n\n', '\n')`, never longer than its input; its properties are `Generator.HalveIsReplace`, `Generator.HalveRun`, `Generator.HalveSplit`, `Generator.HalveAround` |
| Generator.TrimFromNoBlankBeforeNewline | generator.py:14 | the rewritten text has no blank before a line break |
| Generator.TrimLeavesNoBlankBeforeNewline | generator.py:14 | after trimming no line ends in a blank |
| Generator.MatchHasOneNewline | generator.py:14 | a match holds exactly one line break |
| Generator.TrimFromKeepsNewlines | generator.py:14 | rewriting from a position keeps the number of line breaks |
| Generator.TrimKeepsNewlines | generator.py:14 | trimming removes no line break |
| Generator.HalveRun | generator.py:16 | one `replace('\n\n', '\n')` turns a run of `n` line breaks into `(n + 1) / 2` |
| Generator.HalveIsReplace | generator.py:16 | the character-level pass equals the generic left-to-right `replace('\n\n', '\n')` |
| Generator.HalveSplit | generator.py:16 | where no pair of line breaks straddles a place in the text, the pass rewrites each side on its own |
| Generator.HalveAround | generator.py:16 | one pass halves a whole run of line breaks inside text, rounding up, and rewrites the text around it on its own |
| Generator.CollapseShortRuns | generator.py:15-17 | two passes reduce runs of up to four line breaks to one, and a run of five to two |
| Generator.CollapseRunInText | generator.py:15-17 | two passes turn a whole run of `n` line breaks anywhere in a text into `ceil(ceil(n / 2) / 2)`: a run of two to four becomes one line break |
| Generator.IndentFollowsNewlines | generator.py:18 | after the replacement every line break is followed by the padding |
| Generator.Padding | generator.py:6-19 | `padding`: trailing blanks of lines removed, doubled line breaks halved twice when asked, and `p` put before every line; definition; its properties are `Generator.PaddingIndentsEveryLine`, `Generator.PaddingKeepsNewlines`, `Generator.CollapseShortRuns`, `Generator.CollapseRunInText`, `Markdown.PaddingFirstChar` |
| Generator.PaddingIndentsEveryLine | generator.py:6-19 | the padded text starts with the padding and every line break is followed by it |
| Generator.PaddingKeepsNewlines | generator.py:14-18 | without removing empty lines, padding keeps the number of line breaks |
| Generator.InGroup | generator.py:22-29 | the items kept are exactly those of the index in the group |
| Generator.InGroupAppend | generator.py:25-27 | filtering distributes over concatenation, keeping the index order |
| Generator.InGroupIdempotent | generator.py:22-29 | filtering twice is filtering once |
| Generator.FilterIndex | generator.py:22-29 | the loop keeps what `InGroup` describes |
| Generator.Groups | generator.py:32-38 | a group is listed exactly when some item has it |
| Generator.GroupList | generator.py:32-38 | every group of the index, each once, and nothing else |
| Markdown.MarkdownSafeCounts | generator_markdown.py:14-15 | escaping adds one character per `>` and keeps the number of `>` |
| Markdown.MarkdownSafeHead | generator_markdown.py:14-15 | escaped text never starts with `>` |
| Markdown.UnescapeMarkdownSafe | generator_markdown.py:14-15 | reading `\>` back as `>` gives the original text |
| Markdown.MarkdownSafe | generator_markdown.py:14-15 | every `>` escaped as `\>`; definition; its properties are `Markdown.MarkdownSafeCounts`, `Markdown.MarkdownSafeHead`, `Markdown.UnescapeMarkdownSafe` |
| Markdown.Label | generator_markdown.py:17-22 | a label exists exactly for the four keys of the table |
| Markdown.Repr | generator_markdown.py:55 | Python's `repr` is quoted by the same quote at both ends |
| Markdown.RenderNode | generator_markdown.py:29-55 | text is escaped; structural tags render nothing |
| Markdown.UnknownTagRendered | generator_markdown.py:54-55 | a tag without a case prints as the tuple of its key and payload |
| Markdown.RefTagIsUnknown | generator_markdown.py:54-55 | the parser's `ref` tag prints as `(UNKNOWN ID: ('ref', ...))` |
| Markdown.ReprPlain | generator_markdown.py:55 | text of plain characters is written between single quotes as it is |
| Markdown.RenderNodesAppend | generator_markdown.py:28-55 | the rendering of a list is the concatenation of its parts' renderings |
| Markdown.RenderNodes | generator_markdown.py:28-55 | the rendering of each node, concatenated in order; definition; its properties are `Markdown.RenderNodesAppend`, `Markdown.StructuralTagsVanish` |
| Markdown.RenderDescription | generator_markdown.py:24-56 | `generate_descriptions`: a plain string escaped, a node list node by node, an unresolved copy as its key `copy`; definition; its properties are `Markdown.GenerateDescriptions`, `Markdown.UnresolvedCopyRendersKey` |
| Markdown.StructuralTagsVanish | generator_markdown.py:33-34 | dropping a structural tag does not change the Markdown |
| Markdown.UnresolvedCopyRendersKey | generator_markdown.py:25-32 | an unresolved copy directive renders as `copy` |
| Markdown.GenerateDescriptions | generator_markdown.py:24-56 | the loop builds the rendering of the description |
| Markdown.RemovePrefix | generator_markdown.py:65 | `removeprefix`: the remainder after the prefix, or the text unchanged |
| Markdown.CleanName | generator_markdown.py:63-70 | after the namespace prefix is removed, a name opening `(unnamed` becomes `(unnamed)`; otherwise one opening `(anonymous` becomes `(anonymous)`; any other name is kept as it is |
| Markdown.CleanPlainName | generator_markdown.py:63-70 | a name not starting with `(` only loses the namespace prefix |
| Markdown.CleanAnonymousName | generator_markdown.py:68-69 | `(anonymous ...)` becomes `(anonymous)` |
| Markdown.MakeTitle | generator_markdown.py:72-78 | a title opens with a backquoted name |
| Markdown.TitleShortWhenNamesAgree | generator_markdown.py:75-78 | when the cleaned names agree, the long title is the short one |
| Markdown.TitleLongWhenNamesDiffer | generator_markdown.py:72-78 | when the cleaned names differ, the long title is the backquoted name, the type and the backquoted qualified name in parentheses; the short title is the backquoted qualified name and the type; the two differ exactly when the names do |
| Markdown.Indent | generator_markdown.py:82 | four blanks per level: `4 * n` characters, each a blank |
| Markdown.FirstNamed | generator_markdown.py:98-101 | the first top-level entity with the qualified name, or none when no entity has it |
| Markdown.Resolved | generator_markdown.py:96-101 | a copy becomes the description of the first entity it names; other descriptions and unresolved copies are kept |
| Markdown.ResolveCopy | generator_markdown.py:97-101 | the search loop with `break` resolves as `Resolved` says |
| Markdown.SourceUrl | generator_markdown.py:109-110 | the repository pattern with `{FILE}` and then `{LINE}` replaced; definition, used by `Markdown.ItemBody`; no lemma of its own |
| Markdown.ItemBody | generator_markdown.py:92-112 | the fenced definition (not for enumerators), the rendered description and the source block with its link (when there is source text), each indented by `p`; definition; its property is `Markdown.ItemBodyStart` |
| Markdown.ItemBodyStart | generator_markdown.py:92-94 | the body of a non-enumerator starts with the padding and the code fence |
| Markdown.PaddingFirstChar | generator.py:6-19 | padding keeps the first character of a text that starts with neither a blank nor a line break |
| Markdown.RenderItem | generator_markdown.py:80-117 | `generate_item`: separator, header line when the title changes, body, then the members with the cell threaded through; definition; its properties are `Markdown.RenderItemCell`, `Markdown.RenderMembersCell`, `Markdown.CellHoldsLastTitle`, `Markdown.RenderItemStart`, `Markdown.HeaderIffNewTitle`, `Markdown.RenderItemParts`, `Markdown.GenerateItem` |
| Markdown.RenderItemCell | generator_markdown.py:80-117 | rendering leaves the title of its last rendered entity in the cell |
| Markdown.RenderMembersCell | generator_markdown.py:113-115 | members leave the last member's last title, or the cell as it was |
| Markdown.CellHoldsLastTitle | generator_markdown.py:80-117 | the cell ends with the item's title when it has no members, else its last member's |
| Markdown.RenderItemStart | generator_markdown.py:84-94 | a top-level item starts with `---`, then its heading when the title changed, then its body |
| Markdown.HeaderIffNewTitle | generator_markdown.py:89-91 | an item's Markdown starts with its heading exactly when its title differs from the cell |
| Markdown.StripFragment | generator_markdown.py:130 | text with no `#`, or starting with it, is kept |
| Markdown.FragmentDropped | generator_markdown.py:126-130 | a repository link loses its one-line fragment |
| Markdown.Header | generator_markdown.py:119-123 | `# `, the title and three line breaks; definition; a new page starts with it by `Site.OpenPageSpec` |
| Markdown.Footer | generator_markdown.py:125-131 | the rule, the revision and the repository link without placeholders and fragment; definition; its properties are `Markdown.FragmentDropped` (the link) and `Site.WriteFooters` (every page ends with it) |
| Markdown.HeaderCell.constructor | generator_markdown.py:80 | the cell starts as `''` |
| Markdown.RenderItemParts | generator_markdown.py:80-117 | an item is its start followed, for containers, by its members and a line break |
| Markdown.RenderMembersStep | generator_markdown.py:113-115 | each member's rendering is appended and leaves its title in the cell |
| Markdown.GenerateItem | generator_markdown.py:80-117 | the method produces the item's Markdown and leaves the cell as `RenderItem` says |
| Site.GroupFor | generator_markdown.py:142-143 | the file with automatic groups; with named groups the item's group, or `default` when it has none |
| Site.PathFor | generator_markdown.py:145-146 | the page path is `auto/`, the group and `.md` |
| Site.PathForInjective | generator_markdown.py:145-146 | different groups get different page paths |
| Site.Split | generator_markdown.py:204 | `split('/')` yields at least one part |
| Site.SplitJoin | generator_markdown.py:204 | the parts hold no separator and joined with it give the group back |
| Site.SplitNoSeparator | generator_markdown.py:204 | a group without `/` is one part |
| Site.TocInsert | generator_markdown.py:205-209 | the `setdefault` walk and the final assignment, `None` when a page stands on the path; definition; its properties are `Site.TocInsertLookup`, `Site.PageOnTheWayEmpty`, `Site.TocInsertKeepsOthers` |
| Site.TocInsertLookup | generator_markdown.py:205-209 | insertion fails exactly when a page stands on the way; otherwise the path then leads to the new page |
| Site.PageOnTheWayEmpty | generator_markdown.py:186 | the empty table of contents never blocks an insertion |
| Site.TocInsertKeepsOthers | generator_markdown.py:206-209 | entries under another first key are untouched |
| Site.OpenPageSpec | generator_markdown.py:198-209 | opening a page writes its header, lists it last, keeps the cell, and enters it into the table of contents when groups are automatic |
| Site.OpenPage | generator_markdown.py:198-209 | a group's first page: its header, its place last in the order and, with automatic groups, its entry in the table of contents; definition; its property is `Site.OpenPageSpec` |
| Site.Place | generator_markdown.py:198-209 | after placing, the group has a page and no page was removed |
| Site.PlaceConsistent | generator_markdown.py:198-209 | placing keeps pages listed once each; with named groups it always succeeds |
| Site.Step | generator_markdown.py:194-211 | one turn of the page loop: the item's group page, opened when new, then the item's Markdown appended; definition; its property is `Site.StepConsistent` |
| Site.Pages | generator_markdown.py:194-211 | the page loop over the top-level entities, stopping at the first exception; definition; its properties are `Site.PagesNamedComplete`, `Site.PagesConsistent`, `Site.WritePages` |
| Site.StepConsistent | generator_markdown.py:194-211 | one turn keeps consistency and gives the item's group its page |
| Site.PagesNamedComplete | generator_markdown.py:194-211 | with named groups the loop never stops early |
| Site.PagesConsistent | generator_markdown.py:194-211 | after the loop every item's group has a page, pages are listed once each, and none was removed |
| Site.WithFooters | generator_markdown.py:224-225 | every page, and only those, gets the footer appended |
| Site.WriteFooters | generator_markdown.py:224-225 | the loop over the open pages leaves each page, and no other, closed by the footer |
| Site.OpenGroup | generator_markdown.py:198-209 | the method opens the page as `Place` says |
| Site.AddItem | generator_markdown.py:195-211 | one turn of the loop as `Step` says |
| Site.WritePages | generator_markdown.py:194-211 | the loop computes `Pages` |
| Site.GeneratePages | generator_markdown.py:194-225 | the pages of the loop, each closed by the footer |
| RefIndex.Flatten | generator_markdown.py:148-152 | an entity is listed first, before its members |
| RefIndex.FlattenAll | generator_markdown.py:148-152 | `traverse` into an empty list: each entity followed by the traversal of its members, in order; definition; its properties are `RefIndex.FlattenAllAppend`, `RefIndex.FlattenAllLeaves`, `RefIndex.FlattenAllIncludes`, `RefIndex.FlattenAllSize`, `RefIndex.FlattenAllOnlyTrees`, `RefIndex.Traverse` |
| RefIndex.FlattenSize | generator_markdown.py:148-152 | the traversal of one entity lists exactly as many entities as its tree has nodes |
| RefIndex.FlattenAllSize | generator_markdown.py:148-152 | the traversal of a list lists exactly as many entities as its trees have nodes |
| RefIndex.FlattenOnlyTree | generator_markdown.py:148-152 | only nodes of the tree are listed |
| RefIndex.FlattenAllOnlyTrees | generator_markdown.py:148-152 | everything the traversal of a list lists is a node of one of its trees; with `RefIndex.FlattenAllIncludes`, the listed entities are exactly the nodes |
| RefIndex.FlattenAllAppend | generator_markdown.py:148-152 | traversing a concatenation traverses each part |
| RefIndex.FlattenAllLeaves | generator_markdown.py:148-152 | entities without members are listed as they are |
| RefIndex.FlattenAllIncludes | generator_markdown.py:148-152 | every entity at every depth is listed |
| RefIndex.MemberListed | generator_markdown.py:148-152 | a container and its members are all listed |
| RefIndex.EntryList.constructor | generator_markdown.py:251 | the list starts empty |
| RefIndex.Traverse | generator_markdown.py:148-152 | the target grows by the traversal of the source, in order |
| RefIndex.TraverseMembers | generator_markdown.py:151-152 | the target grows by the traversal of the members |
| RefIndex.StrLessIrreflexive | generator_markdown.py:253 | no string sorts before itself |
| RefIndex.StrLessTransitive | generator_markdown.py:253 | string order is transitive |
| RefIndex.StrLessTotal | generator_markdown.py:253 | different strings are ordered |
| RefIndex.Key | generator_markdown.py:253 | the sort key: whether the name does not start with a letter, then the lower-cased name; definition; its properties are `RefIndex.KeyOrder`, `RefIndex.LettersFirst`, `RefIndex.SortByKey` |
| RefIndex.KeyOrder | generator_markdown.py:253 | the key order is irreflexive, transitive and total on different keys |
| RefIndex.InsertByKey | generator_markdown.py:253 | insertion adds exactly the entity: one more element, the same multiset plus it |
| RefIndex.InsertSorted | generator_markdown.py:253 | insertion into a sorted list keeps it sorted |
| RefIndex.SortByKey | generator_markdown.py:253 | the result is sorted by the key and a permutation of the input |
| RefIndex.SortedChain | generator_markdown.py:253 | in a sorted list no later key is smaller |
| RefIndex.SortByKeyOrdered | generator_markdown.py:253 | every pair of the result is in key order, and the result is a permutation |
| RefIndex.LettersFirst | generator_markdown.py:253 | names starting with a letter come before the others |
| RefIndex.Link | generator_markdown.py:165-166 | a link opens with `[`, which no heading does |
| RefIndex.HeadingShape | generator_markdown.py:163 | a heading is `## ` followed by the letter |
| RefIndex.Chunk | generator_markdown.py:159-166 | what one entity adds: nothing for a repeated name, else a heading when the initial is new, then the link; definition; its properties are `RefIndex.RepeatedNameAddsNothing`, `RefIndex.HeadingIffNewLetter`, `RefIndex.IndexStep` |
| RefIndex.IndexMarkdown | generator_markdown.py:154-167 | `generate_index` as a function: the chunks of the entities in order; definition; its properties are `RefIndex.FirstEntryHeaded`, `RefIndex.IndexStep`, `RefIndex.GenerateIndex` |
| RefIndex.RepeatedNameAddsNothing | generator_markdown.py:159-160 | an entity named like the one before it adds nothing |
| RefIndex.FirstEntryHeaded | generator_markdown.py:154-167 | the index opens with the first letter's heading and the first link |
| RefIndex.HeadingIffNewLetter | generator_markdown.py:161-164 | a linked entity's part starts with a heading exactly when its initial differs from the last one |
| RefIndex.IndexStep | generator_markdown.py:158-166 | each entity appends its part; the last letter changes only on a link |
| RefIndex.GenerateIndex | generator_markdown.py:154-167 | the loop builds the index Markdown |
| RefIndex.RefIndexPage | generator_markdown.py:249-259 | the reference page: `# Index` and the index of the sorted traversal, `None` when a name is empty; definition; its property is `RefIndex.GenerateRefIndex` |
| RefIndex.GenerateRefIndex | generator_markdown.py:249-259 | the page is `# Index` followed by the index of the sorted traversal |

## Left out

- clang and libclang are not part of this model. The translation unit is an abstract declaration tree (`Decl`): kind, spelling, display name, comment, file, line, source text and children.
- `get_source` and file reading (`codecs.open`, the file cache) are not modelled. A declaration carries its source text. `get_location` and `get_location_line` become fields.
- `clang_format` (a subprocess) is a parameter `format`. `slugify` is a parameter `slug`.
- Standard I/O, `argparse`, YAML and JSON reading and writing, `glob`, git, `print`, `exit` and file writes are left out. Pages are a map from group to text. The table of contents is a value. The mkdocs navigation rewrite (lines 213-222) is not modelled.
- `convert_config` and the configuration defaults of `cparser.py` are not modelled. Macros arrive as a list of key and value pairs.
- The walk takes the description of a raw comment as a parameter of its environment (`Entities.Env`); `Entities.FileEnv` sets it to `Comments.Describe`, the model of lines 217-226 of `cparser.py`.
- Paths are POSIX only. `os.path.relpath` is a parameter. The `\` to `/` conversion is not modelled.
- Python sets and dict orders are not modelled. `Generator.GroupList` states the set and not its order; the table of contents is an unordered map.
- Site.TocInsert: the `setdefault` walk (`generator_markdown.py:207-208`) is a recursive function on values and not a loop over shared dictionaries. It rebuilds each section on the path; the aliasing through which the script's `current` writes into `toc` is not modelled.
- Python's `isalpha`, `lower`, `upper` and `capitalize` are approximated by their ASCII behaviour.
- `Markdown.Repr` escapes backslash, quote, `\n`, `\r` and `\t` only. Other non-printable characters are written as they are.
- `RefIndex.SortByKey` does not state stability. It is a stable insertion sort, and its result is proved sorted and a permutation.
- Python exceptions are modelled as `None`: a page path blocked in the table of contents, or an entity with an empty name in the reference index. `RefIndex.GenerateIndex` requires non-empty names, which its caller checks.
- `generate_group` and the commented-out page loop that calls it are not used by the script and are not modelled.
- The regular-expression engine is not modelled in general. Each pattern of the core has a matcher written for its shape, searched leftmost-first.
- Markdown.Repr: states only the matching quotes; the quoting of plain text is `Markdown.ReprPlain`.
- RefIndex.Link: states only the opening `[`, which `RefIndex.HeadingIffNewLetter` needs; the link's text and target are its definition.
- Markdown.MakeTitle: states only the opening backquote. The short form is given by `Markdown.TitleShortWhenNamesAgree`, the long form by `Markdown.TitleLongWhenNamesDiffer`.
- Strings.ReplaceAll: states the unchanged case only. The counting facts used for one-character patterns are in `Strings.ReplaceCharLength` and `Strings.ReplaceCharCount`.
- Comments.ReplaceMacros: keys are matched literally, as text; Python compiles each key as a regular expression, so a key such as `a.b` would also match `axb`. Word characters for `\b` are ASCII letters, digits and `_`, where Python's `\w` is Unicode. The value is inserted literally, while `re.sub` reads it as a template (backslash escapes, `\g<...>` group references); this changes nothing here, because every value the core passes is `''` (`cparser.py:361`).
- Comments.StripUsing: states only that removing `using` never lengthens a definition. What is removed is stated by `Comments.UsingAliasStripped` and `Comments.NoUsingUnchanged`.
- Generator.CollapseShortRuns: states a text that is a single run. A run inside other text is `Generator.CollapseRunInText`.
