# Branch-tree test scaffolding, modelled in Dafny

This project models the core of `src/generator.ts` of ts-spec-bootstrapper, a
tool that scans TypeScript sources and appends skeletal Jasmine/Jest `describe`
blocks to each file's companion `.spec.ts`, one nested group per branch of the
`if` / `else if` / `else` / implicit-else structure of each function, with one
pending `xit` placeholder per leaf.

The pipeline has four stages, each a module:

- **Extraction** (`extraction.dfy`, over the statement tree of `syntax.dfy`):
  `DeepTraverseConditionals` turns one `if` into a then branch carrying the
  condition text `C` and an else-shaped branch carrying the literal text
  `!(C)`; `DeepTraverseBlock` wraps the extraction of every `if` matched by
  the selector `IfStatement > Block > IfStatement` below a then/else
  statement; `FindInFunction` concatenates the extraction of the `if`
  statements standing directly in a function body.
- **Sanitization** (`sanitizer.dfy`): `SanitizeBranch` splices away a child
  whose condition equals its parent's and sanitizes the resulting children.
- **Rendering** (`rendering.dfy`): `IndentedTestString`,
  `IndentedTestForBranch`, `IndentedTestsForBranches` and
  `IndentedTestForFunction` build the text; an outline (a list of
  open/placeholder/close lines with their depths) is proved to flatten to
  exactly that text, which gives the indentation and placeholder-count
  properties.
- **Visibility, filtering and appending** (`declarations.dfy`, `writer.dfy`):
  the three `handle*` functions, `getTestTreeForFile`, the two write filters,
  `WriteTestTreeToFile` (a loop appending the rendered blocks to the old spec
  content) and the pure part of `generateTestsForFile`.

The TypeScript syntax tree is replaced by `Syntax.Stmt`: `If(cond, thenS,
elseS)` with the condition's source text, `Block(body)`, and `Other(inner)` for
every other statement together with the statements nested in it. The
configuration (`testPrivate`, `testProtected`, `itContent`) and the
indentation unit `SPACER` are the parameters in `Configuration.Settings`; the
"already tested" regex check is an oracle parameter `(name, specContent) ->
bool`.

Behaviours of the code that a reader might not expect, each stated by a lemma:

- The selector used by `deepTraverseBlock` is not limited to direct children:
  an `if` two levels down (inside the then block of a nested `if`) is matched
  too, so its branches appear both under the nested `if` and again directly
  under the outer one (`Scenarios.DeepIfExtraction`,
  `Scenarios.DeepIfSanitized`). An `if` directly inside a loop body is not
  matched (`Scenarios.IfInLoopNotDescended`).
- An `else if` chain nests one level per link rather than producing sibling
  branches (`Extraction.ChainExtraction`).
- Sanitization is not idempotent and can drop leaves
  (`Scenarios.SanitizeNotIdempotent`, `Scenarios.SanitizeDropsLeaf`,
  `Scenarios.ElseIfSameConditionLosesLeaf`); leaf count is preserved only when every
  child repeating its parent's condition has children
  (`Sanitizer.SanitizeKeepsLeaves`).
- An `else` that is neither an `if` nor a block (e.g. `else return;`) gives no
  else-shaped branch at all.
- A protected member with protected testing off keeps an empty forest but is
  not filtered at writing, so it still gets a block with one placeholder
  (`Writer.ProtectedStillRendered`).

## Model

| member | source | states |
|---|---|---|
| `Syntax.IfBlockIfs` | src/generator.ts:17-18 | every match of `IfStatement > Block > IfStatement` is an `if` and a strict part of the subtree searched (or the root itself when it sits in a block under an `if`) |
| `Syntax.NestedIfs` | src/generator.ts:17-18 | run from a then/else statement, every match is an `if` strictly inside that statement |
| `Syntax.DirectIfsMatched` | src/generator.ts:17-18 | every `if` standing directly in a then/else block is among the matches |
| `Syntax.TopLevelIfs` | src/generator.ts:97 | the function-body selector yields only `if` statements, and none exactly when the body has no `if` directly in it |
| `Extraction.DeepTraverseBlock` | src/generator.ts:14-25 | one branch per match, in match order, each carrying `lastCondition`, with the match's own extraction as its (non-empty) children |
| `Extraction.DeepTraverseConditionals` | src/generator.ts:27-62 | the then branch comes first with exactly `C`; an else-shaped branch `!(C)` exists unless the else is of another kind; it is childless with no else and non-empty for an else-if |
| `Extraction.Negated` | src/generator.ts:31 | definition: the condition text wrapped in `!(` and `)` |
| `Extraction.NegatedShape` | src/generator.ts:31 | the negated text is three characters longer, starts with `!(`, ends with `)` and holds exactly the condition in between |
| `Extraction.Forest` | src/generator.ts:73-78 | the concatenated extraction of n matched `if`s has between n and 2n roots |
| `Extraction.FindInFunction` | src/generator.ts:70-81 | a function's forest is empty exactly when its body has no top-level `if`, and has one or two roots per top-level `if` |
| `Extraction.FindInFunctionAppend` | src/generator.ts:73-78 | the forest of a body is the forest of its first statements followed by that of the rest: each top-level `if` contributes its own roots |
| `Extraction.FindInSingleIf` | src/generator.ts:70-81 | a body made of one `if` has exactly that `if`'s branches as its forest |
| `Extraction.ChainExtraction` | src/generator.ts:43-48 | an `if` with N `else if` links and no `else` extracts to a spine nesting one level per link, ending in a childless `!(C)`, with N + 2 leaves |
| `Sanitizer.SanitizeBranch` | src/generator.ts:155-191 | the node keeps its condition, and has one sanitized child per entry of the spliced child list |
| `Sanitizer.Spliced` | src/generator.ts:172-185 | the spliced list, where a child carrying the parent's condition is replaced by its own children, is never larger than the child list, nor is any of its entries |
| `Sanitizer.SplicedLaws` | src/generator.ts:174-185 | splicing distributes over concatenation of the child list, and a single child is replaced by its children exactly when its condition equals the parent's |
| `Sanitizer.SplicedFrom` | src/generator.ts:174-185 | every entry of the spliced list is a child or a grandchild of the node |
| `Sanitizer.SanitizeIdentity` | src/generator.ts:172-190 | on a tree where no child repeats its parent's condition, sanitization changes nothing |
| `Sanitizer.SanitizeKeepsLeaves` | src/generator.ts:172-190 | the leaf count is preserved when every child repeating its parent's condition has children of its own |
| `Sanitizer.SplicedNoRepeats` | src/generator.ts:174-185 | when no child carries the parent's condition, the spliced list is the child list itself |
| `Scenarios.DocCommentExample` | src/generator.ts:159-170 | `c1[c1[c2, !(c2)]]` sanitizes to `c1[c2, !(c2)]` |
| `Scenarios.SanitizeNotIdempotent` | src/generator.ts:174-189 | `a[a[a[x]]]` sanitizes to `a[a[x]]` and then to `a[x]` |
| `Scenarios.SanitizeDropsLeaf` | src/generator.ts:176-177 | `a[a[], x[]]` sanitizes to `a[x[]]`, losing a leaf |
| `Scenarios.PlainIf` | src/generator.ts:55-58 | `if (C) {}` extracts to a then leaf `C` and an implicit-else leaf `!(C)` |
| `Scenarios.NestedIfExample` | src/generator.ts:36-41 | `if (a) { if (b) {} }` extracts to `a[a[b, !(b)]], !(a)` and sanitizes to `a[b, !(b)], !(a)` |
| `Scenarios.ElseIfSameConditionExtraction` | src/generator.ts:27-62 | `if (a) {} else if (a) { if (b) {} }` extracts to `a` and `!(a)`, the latter holding the else-if's own forest `a[a[b, !(b)]], !(a)` |
| `Scenarios.ElseIfSameConditionSanitized` | src/generator.ts:172-190 | sanitizing that `!(a)` branch keeps `a[b, !(b)]` and drops the inner implicit else `!(a)` |
| `Scenarios.ElseIfSameConditionLosesLeaf` | src/generator.ts:174-189 | that sanitizing step turns 3 pending tests into 2 |
| `Scenarios.IfInLoopNotDescended` | src/generator.ts:18 | an `if` inside a loop in a then block is not a child of the outer branch |
| `Scenarios.DeepIfExtraction` | src/generator.ts:17-22 | an `if` two blocks down is matched as well, giving `a` a second child `a[c, !(c)]` |
| `Scenarios.DeepIfSanitized` | src/generator.ts:172-190 | after sanitization `c` and `!(c)` stand both under `b` and directly under `a` |
| `Text.Split` | src/generator.ts:225 | `split` yields at least one piece and no piece holds the separator |
| `Text.JoinSplit` | src/generator.ts:225 | joining the pieces of a split gives back the text |
| `Text.SplitJoin` | src/generator.ts:229-231 | splitting a join of separator-free lines gives back the lines |
| `Text.IndexOf` | src/generator.ts:307 | the result is the first occurrence at or after the start, or none exists |
| `Text.ReplaceFirst` | src/generator.ts:307 | with no occurrence the text is unchanged; otherwise exactly the first occurrence is replaced |
| `Rendering.IndentedTestString` | src/generator.ts:220-232 | the placeholder starts and ends with a newline |
| `Rendering.PlaceholderShape` | src/generator.ts:223-231 | read back line by line, the placeholder is its header, the body lines and its closer, each prefixed by the indent and the body lines by one more unit |
| `Rendering.PlaceholderShapeAtDepth` | src/generator.ts:223-231 | when the indentation unit has no line break, the placeholder at any nesting depth has that line shape, with the depth's indentation |
| `Rendering.IndentedTestForBranch` | src/generator.ts:234-249 | a branch block opens with a newline, the indent and the `describe` call titled `when (C)`, and ends with the indent and the closing `});` line |
| `Rendering.IndentedTestsForBranches` | src/generator.ts:240-243 | sibling blocks start with the first sibling's opening line |
| `Rendering.IndentedTestForFunction` | src/generator.ts:251-266 | a function block opens with a newline and the `describe` call titled with the function name at no indent, and ends with the closing `});` line |
| `Rendering.BranchRendersOutline` | src/generator.ts:234-249 | a branch at depth d renders exactly as its outline: every line indented by d units, children one unit deeper, a leaf's placeholder one unit deeper |
| `Rendering.BranchesRenderOutline` | src/generator.ts:240-243 | siblings render as the concatenation of their outlines |
| `Rendering.FunctionRendersOutline` | src/generator.ts:251-266 | a function block renders exactly as its outline |
| `Rendering.BranchPendingCount` | src/generator.ts:237-244 | a branch block holds one placeholder per leaf |
| `Rendering.BranchesPendingCount` | src/generator.ts:240-243 | sibling blocks hold one placeholder per leaf of the siblings |
| `Rendering.FunctionPendingCount` | src/generator.ts:254-261 | a function block holds as many placeholders as its forest has leaves, or exactly one for an empty forest |
| `Rendering.BranchOutlineNesting` | src/generator.ts:235-246 | a branch block opens and closes at its own depth and everything between is strictly deeper |
| `Declarations.HandleMethodDeclaration` | src/generator.ts:83-106 | a private method with private testing off, or a protected one with protected testing off, gets an empty forest; otherwise the body's forest; name, privacy and tested flag are recorded |
| `Declarations.HandleArrowFunction` | src/generator.ts:108-137 | no record exactly when the parent is neither a variable nor a property declaration; otherwise the same gating on the parent's modifiers |
| `Declarations.Handle` | src/generator.ts:199-208 | dispatch on the declaration kind: no record exactly for a dropped arrow function; otherwise the record carries the declaration's name, the oracle's answer for it and privacy from its own modifiers |
| `Declarations.HandleFunctionDeclaration` | src/generator.ts:139-153 | a free function is never private and its forest is always the forest of its body, empty exactly when the body has no top-level `if` |
| `Declarations.SanitizeForest` | src/generator.ts:212 | each root keeps its condition and its position |
| `Declarations.Record` | src/generator.ts:199-213 | a kept declaration's record carries its name, its tested flag from the oracle and its privacy from its own modifiers; its forest is empty when its visibility is switched off and otherwise is its body's forest with every root sanitized |
| `Declarations.Contribution` | src/generator.ts:209-214 | a declaration contributes nothing exactly when it is an arrow function outside a variable or property declaration, and its one record otherwise |
| `Declarations.GetTestTreeForFile` | src/generator.ts:193-218 | at most one record per declaration, and none exactly when every declaration is an arrow function outside a declaration |
| `Declarations.GetTestTreeForFileOne` | src/generator.ts:198-214 | one declaration yields its record, or nothing when it is dropped |
| `Declarations.GetTestTreeForFileAppend` | src/generator.ts:196-214 | the tree of two consecutive declaration lists is the concatenation of their trees, so records appear in declaration order |
| `Declarations.GetTestTreeForFileMembers` | src/generator.ts:196-214 | a record is in the tree exactly when it is the record of some kept declaration |
| `Writer.SkipTested` | src/generator.ts:268-275 | keeps exactly the records not flagged tested |
| `Writer.ApplySkippedTestsFilter` | src/generator.ts:268-275 | definition: a record passes when it is not flagged tested |
| `Writer.ApplyPrivateTestsFilter` | src/generator.ts:277-288 | definition: a record passes when private testing is on or it is not private |
| `Writer.SkipPrivate` | src/generator.ts:277-288 | keeps exactly the records that are not private, or all when private testing is on |
| `Writer.Survivors` | src/generator.ts:293-295 | a record survives exactly when untested and (private testing on or not private); none survive exactly when no record qualifies |
| `Writer.SkipTestedLaws` | src/generator.ts:268-275 | the skip-tested filter distributes over concatenation and keeps a single record exactly when it is untested, so it keeps order and multiplicity |
| `Writer.SkipPrivateLaws` | src/generator.ts:277-288 | the private filter distributes over concatenation and keeps a single record exactly when private testing is on or it is not private |
| `Writer.SurvivorsLaws` | src/generator.ts:292-295 | both filters together distribute over concatenation and keep a single record exactly when it survives, so survivors stay in tree order |
| `Writer.RenderAll` | src/generator.ts:296 | the appended text is empty exactly when no record is rendered |
| `Writer.WriteTestTreeToFile` | src/generator.ts:290-302 | the new content is the old content followed by the survivors' blocks in tree order; the old content is a prefix; a write happens exactly when the content differs, i.e. when some record survives |
| `Writer.TestedNeverRendered` | src/generator.ts:268-275 | a record flagged tested never contributes a block |
| `Writer.PrivateRenderedIff` | src/generator.ts:277-288 | an untested private record is rendered exactly when private testing is on |
| `Writer.ProtectedStillRendered` | src/generator.ts:94-98 | an untested protected method with protected testing off survives the filters and renders as one block with a single placeholder |
| `Writer.SpecFilePath` | src/generator.ts:307 | turning the first `.spec.ts` of the spec path back into `.ts` gives the source path, so distinct sources get distinct spec paths |
| `Writer.SpecTsRoundTrip` | src/generator.ts:307 | for every path, replacing the first `.ts` by `.spec.ts` and then the first `.spec.ts` by `.ts` restores it |
| `Writer.SpecFilePathPlain` | src/generator.ts:307 | `src/a.ts` maps to `src/a.spec.ts` |
| `Writer.SpecFilePathFirstOnly` | src/generator.ts:307 | only the first `.ts` of `src/x.tsutil/a.ts` is replaced, giving `src/x.spec.tsutil/a.ts` |
| `Writer.GenerateTestsForFile` | src/generator.ts:304-316 | a missing spec file counts as empty; the new content is the old one followed by the survivors' blocks, and a write is due exactly when some record survives |
| `Writer.RenderedFound` | src/generator.ts:292-295 | after the blocks of a list of records are appended to any content, an oracle that keeps finding names under appending and recognises a rendered block finds every record of the list |
| `Writer.RecordSettled` | src/generator.ts:268-288 | a kept declaration's record does not survive a rerun on extended content when it was tested, is a hidden private record, or its name is found in the extended content |
| `Writer.RerunWritesNothing` | src/generator.ts:290-316 | running again on the content the first run produced leaves no survivor, so the second run writes nothing, provided the oracle keeps finding names under appending and recognises a rendered block |

## Left out

- File I/O: reading the source and spec files, the existence check and the write (src/generator.ts:299, 304-316) are not modelled; the model returns the new content and whether a write is due.
- Parsing TypeScript and the tsquery selector engine: the declarations of a file and their bodies are inputs (`Declarations.Declaration`, `Syntax.Stmt`); the two selectors are modelled as defined functions over `Stmt`.
- Statements inside expressions (for instance an arrow-function callback inside a condition or an expression statement) and nested function literals inside a body are not represented. Because tsquery searches the whole subtree, each of the three body selectors also matches `if` statements that are not the function's own:
  - `ArrowFunction > Block > IfStatement` matches the top-level `if` statements of an arrow function nested anywhere in the body;
  - `FunctionDeclaration > Block > IfStatement` matches the top-level `if` statements of a function declared inside the body (a statement that `Stmt` can only encode as `Other`, whose `if` statements the model does not collect);
  - `MethodDeclaration > Block > IfStatement` matches the top-level `if` statements of the methods of a class or object literal inside the body.
  In the model, a function's forest is the forest of its own top-level `if` statements only.
- The "already tested" regex check (src/generator.ts:64-68) is an oracle parameter; its case-insensitive regex semantics are not modelled.
- Writer.RerunWritesNothing: assumes an oracle that recognises every rendered block. The real pattern (src/generator.ts:65) puts the name into the regular expression unescaped, so a name containing `$` (the one regular-expression metacharacter an identifier can hold) is never recognised and a second run appends its block again. The pattern is also a case-insensitive prefix match, so a group for `getAll` marks `get` as tested.
- The statistics counters and the start time (src/globals/stats.ts) are observational global state and are left out, as is the verbose-mode warning of `sanitizeBranch`.
- `CONFIG` and `SPACER` come from files that are not part of this model; they are parameters (`Configuration.Settings`). The modifier kind names are abstracted as the constructors `PrivateKeyword` and `ProtectedKeyword` of `Declarations.Modifier`.
- Declarations.HandleFunctionDeclaration: every declaration carries its name as a plain string, whereas the source reads `node.name.escapedText` (src/generator.ts:88, 101, 119, 132, 145). A nameless `export default function () {}` makes the source throw at line 145, and nothing in src/main.ts catches it, so the whole run stops. TypeScript's escaping prefixes a name starting with `__` with another `_`, so such a group is titled with the escaped name and never matches an existing group for the plain name. Neither behaviour is modelled.
- The `indent` and `conditions` arguments threaded through `deepTraverseConditionals` and `deepTraverseBlock` never reach the output and are dropped; `hasThenStatement` is always true for a parsed `if`, so the then statement is not optional.
- `src/main.ts` (banner and orchestration) and `src/helper/file-finder.ts` (directory walk) are filesystem plumbing and not part of this model.
- `Text.ReplaceFirst`: the special `$` patterns of JavaScript's `replace` are not modelled; the only replacement used, `.spec.ts`, contains none.
