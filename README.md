# jsthis member discovery, modelled in Dafny

This project models the core of a VS Code extension that suggests completions after `this.`
in JavaScript. It finds an object's members by scanning the syntax tree of the edited file.
It records three kinds of pattern:

- assignments to `<anything>.prototype.<name>`;
- accesses `this.<name>`;
- accesses `<alias>.<name>` through a configured alias of `this`, such as `self`.

Alias records are kept only if some `var <alias> = ...` declares the alias. Each record is a
Field, a Method (inserting `name()`) or an Enum (an all-upper-case name). The first access that
names a label wins; later ones are dropped.

The model has two parts:

- `Utils` (`utils.dfy`) is the last-valid-tree cache. It holds one module-wide slot. A successful
  parse replaces the tree in the slot; a failed parse returns the tree already there.
  `SyntaxTreeCache` has the slot as its field. `ResolveAst` and `LoadSyntaxTree` are its
  methods. The parser is an oracle: each method takes the parse outcome as an `Option<Node>`.
- `ThisCompletion` (`provider.dfy`) is the provider. The class `CompletionItemProvider` holds
  the source's module-level variables as fields. Its handler methods push onto them. Its
  recursive `Visit` method walks the tree in pre-order and passes each node its parent.
  `Visit` is proved equal to the pure fold `Discovery.Walk` (`discovery.dfy`). `Walk` is in
  turn proved equal to a left fold of the `enter` callback over `EsTree.Entries`, the list of
  every node of the tree in traversal order together with its parent and whether it is a callee.
  The lemmas state what discovery computes in terms of that list:
  - the whole result, in order: prototype records and first `this` accesses interleaved as the
    traversal meets them, then the alias records (`Discovery.CollectRecords`);
  - the prototype records: one per prototype assignment, in order (`Discovery.PrototypeRecords`);
  - the access records: for each name accessed through `this` or an alias, the record of its
    first such access, in the direct list when that access is through `this` and in the alias
    list otherwise (`Discovery.DiscoveredAccessRecords`, `Discovery.CollectAccessRecords`);
  - that no two access records share a label (`Discovery.DiscoveredAccessNames`);
  - when alias records are merged (`Discovery.AliasGating`);
  - how each record is classified (`completion.dfy`).

`examples.dfy` works through small trees. `estree.dfy` holds the tree datatype.

Behaviour of the code that the model keeps:

- `this.m = function () {}` on its own yields a Field, not a Method. Only the parent node of the
  access decides the kind, and here the parent is the assignment. A Method comes only from a
  prototype assignment of a function expression, or from a call `this.m(...)`
  (`Examples.AssignedFunctionOnThisIsField`).
- The prototype rule accepts any base object: `a.b.prototype.m = ...` also counts.
- An alias access can claim a label even when its alias is never declared. Its record is then
  dropped, and a later `this.<same name>` is not offered either
  (`Examples.UndeclaredAliasShadowsThisAccess`).
- The cache is one slot for the whole extension, not one per document.
- The trigger test compares only the word before the cursor with `this` and the aliases. It does
  not look for a dot.
- A prototype record and an access record can share a label. The prototype rule never consults
  or extends the processed labels, so `C.prototype.m = function () {}; this.m();` yields `m()`
  twice (`Examples.PrototypeAndAccessShareLabel`).

## Model

| member | source | states |
|---|---|---|
| `EsTree.Children` | src/ThisCompletionItemProvider.js:36-48 | the traversal enters object before property, left before right, callee before arguments, id before init; the callee of a call is its first child |
| `Utils.SyntaxTreeCache.constructor` | src/Utils.js:8 | the slot starts empty |
| `Utils.SyntaxTreeCache.ResolveAst` | src/Utils.js:9-18 | a successful parse returns its tree and leaves it in the slot; a failed parse returns the slot's earlier tree (possibly none) and leaves the slot unchanged |
| `Utils.SyntaxTreeCache.LoadSyntaxTree` | src/Utils.js:20-25 | afterwards the slot is empty for a non-JavaScript document, and for a JavaScript document holds the parse of its text, or nothing if that parse failed |
| `Utils.ReplayKeepsLastSuccessful` | src/Utils.js:9-18 | after any run of parses the slot holds the tree of the last successful one, or its initial content if none succeeded |
| `Utils.LastSuccessfulAfterFirst` | src/Utils.js:9-18 | the first parse of a run can be folded into the slot before looking for the last success |
| `Utils.FailuresKeepLastTree` | src/Utils.js:14-16 | appending failing parses to a run does not change the slot |
| `Completion.ToUpper` | src/ThisCompletionItemProvider.js:124 | definition; no contract of its own: `toUpperCase`, on ASCII letters |
| `Completion.UpperFixedIffNoLowercase` | src/ThisCompletionItemProvider.js:124 | upper-casing leaves a label unchanged exactly when it has no lower-case letter |
| `Completion.ResolveTypeOfProperty` | src/ThisCompletionItemProvider.js:122-128 | the kind is never Method; it is Enum exactly when the label has no lower-case letter (so `MY_CONSTANT` and `_` are Enum), otherwise Field |
| `Completion.PrototypeItem` | src/ThisCompletionItemProvider.js:63-74 | the record carries the member name; it is a Method inserting `name()` exactly when the right side is a function expression; it is an Enum exactly when the right side is an identifier and the name has no lower-case letter; otherwise it is a Field inserting the bare name |
| `Completion.AccessItem` | src/ThisCompletionItemProvider.js:98-117 | the record carries the accessed name; it is a Method inserting `name()` exactly when the access is the callee of its parent call; it is an Enum exactly when the parent is a member expression, or a call taking the access as an argument, and the name has no lower-case letter |
| `Completion.CreateItem` | src/ThisCompletionItemProvider.js:96-120 | a label not yet processed is appended to the processed labels and yields its record; a label already processed yields nothing and changes nothing |
| `Completion.IndexOf` | src/ThisCompletionItemProvider.js:32 | `indexOf` returns -1 exactly when the value is absent; otherwise an index holding the value with no earlier occurrence |
| `Completion.ShouldComplete` | src/ThisCompletionItemProvider.js:32 | computed with `indexOf` as the source does; completion runs exactly when the previous word is `this` or one of the aliases |
| `Completion.PreviousWordOffset` | src/ThisCompletionItemProvider.js:30 | the shift is negative and lands one column before the start of the word under the cursor, or one column before the cursor when no word is there; the landed column is negative exactly when that start is column 0 |
| `Discovery.DeclaratorStep` | src/ThisCompletionItemProvider.js:54-58 | the flag becomes set when the declared identifier is an alias name; nothing else changes |
| `Discovery.AssignmentStep` | src/ThisCompletionItemProvider.js:60-77 | a prototype member assignment appends exactly its record to the direct list; it never consults or extends the processed labels; every other assignment changes nothing |
| `Discovery.MemberStep` | src/ThisCompletionItemProvider.js:79-94 | an access that is neither a non-computed `this.x` nor `<alias>.x`, or whose label was already processed, changes nothing; a first-seen `this.x` appends its record to the direct list (marked as not from a prototype) and `x` to the processed labels; a first-seen `<alias>.x` appends its record to the alias list and `x` to the processed labels; nothing else changes |
| `Discovery.Enter` | src/ThisCompletionItemProvider.js:37-47 | definition; no contract of its own: the `enter` callback dispatches a declarator, an assignment or a member expression to its step, and leaves every other node alone |
| `Discovery.Walk` | src/ThisCompletionItemProvider.js:36-48 | definition; no contract of its own: enter the node, then traverse its children in order with the node as their parent |
| `Discovery.WalkChildren` | src/ThisCompletionItemProvider.js:36-48 | definition; no contract of its own: traverse the first `n` children; the first child of a call is its callee |
| `Discovery.Assemble` | src/ThisCompletionItemProvider.js:49-51 | definition; no contract of its own: the direct records, followed by the alias records when the flag is set |
| `Discovery.Discover` | src/ThisCompletionItemProvider.js:36-48 | definition; no contract of its own: the state after one traversal from the root, which has no parent, starting from the reset state |
| `Discovery.Collect` | src/ThisCompletionItemProvider.js:131-146 | definition; no contract of its own: the records a request returns for a tree, from an empty state |
| `Discovery.EnterAll` | src/ThisCompletionItemProvider.js:36-48 | definition; no contract of its own: the `enter` callback applied to a list of entries in order |
| `Discovery.FirstAccesses` | src/ThisCompletionItemProvider.js:79-102 | definition; no contract of its own: the records of the first access of each name through `this` or an alias, keeping those through the chosen base |
| `Discovery.HeadAccess` | src/ThisCompletionItemProvider.js:79-102 | definition; no contract of its own: the record of one entry if it is a first-seen access through the chosen base |
| `Discovery.SeenAfter` | src/ThisCompletionItemProvider.js:101-102 | definition; no contract of its own: the names processed after one entry |
| `Discovery.DirectAccessItems` | src/ThisCompletionItemProvider.js:82-86 | definition; no contract of its own: the direct records that came from `this` accesses |
| `EsTree.Entries` | src/ThisCompletionItemProvider.js:36-48 | definition; no contract of its own: every node of a subtree in traversal order, each with its parent and whether it is the callee of that parent |
| `EsTree.EntriesChildren` | src/ThisCompletionItemProvider.js:36-48 | definition; no contract of its own: the same for the first `n` children |
| `Utils.AfterParse` | src/Utils.js:9-18 | definition; no contract of its own: the slot after one parse |
| `Utils.Replay` | src/Utils.js:9-18 | definition; no contract of its own: the slot after a run of parses |
| `Utils.LastSuccessful` | src/Utils.js:9-18 | definition; no contract of its own: the tree of the last successful parse of a run, or the initial slot |
| `EsTree.NodesOfAppend` | src/ThisCompletionItemProvider.js:36-48 | the nodes of two lists of entries are those of the first followed by those of the second |
| `EsTree.EntriesArePreorder` | src/ThisCompletionItemProvider.js:36-48 | the entries of a subtree list exactly its nodes in traversal order |
| `EsTree.EntriesChildrenArePreorder` | src/ThisCompletionItemProvider.js:36-48 | the same for a run of children |
| `Discovery.FreshInv` | src/ThisCompletionItemProvider.js:22-26 | the empty starting state satisfies the discovery invariant |
| `Discovery.AccessLabelsProcessed` | src/ThisCompletionItemProvider.js:101-102 | every label of a record made from an access is among the processed labels |
| `Discovery.AddDirectAccessKeepsInv` | src/ThisCompletionItemProvider.js:82-86 | appending a first-seen `this` access keeps all records well-formed and all access labels distinct |
| `Discovery.AddAliasAccessKeepsInv` | src/ThisCompletionItemProvider.js:87-91 | appending a first-seen alias access keeps all records well-formed and all access labels distinct |
| `Discovery.EnterKeepsInv` | src/ThisCompletionItemProvider.js:37-47 | each handler keeps the discovery invariant |
| `Discovery.WalkKeepsInv` | src/ThisCompletionItemProvider.js:35-48 | the whole traversal keeps the discovery invariant |
| `Discovery.WalkChildrenKeepsInv` | src/ThisCompletionItemProvider.js:35-48 | traversing a run of children keeps the discovery invariant |
| `Discovery.EnterInert` | src/ThisCompletionItemProvider.js:37-47 | a node that no handler acts on changes nothing |
| `Discovery.WalkOverQuietChildren` | src/ThisCompletionItemProvider.js:35-48 | a node whose subtrees have no alias declarator, prototype assignment or tracked access has only its own handler's effect |
| `Discovery.WalkChildrenQuiet` | src/ThisCompletionItemProvider.js:35-48 | a run of such subtrees changes nothing |
| `Discovery.WalkIncludeAlias` | src/ThisCompletionItemProvider.js:54-58 | after traversing a subtree the flag is set exactly when it was set before or the subtree has a declarator of an alias name |
| `Discovery.EnterAllIncludeAlias` | src/ThisCompletionItemProvider.js:54-58 | after entering a list of entries the flag is set exactly when it was set before or one of them is a declarator of an alias name |
| `Discovery.AliasGating` | src/ThisCompletionItemProvider.js:49-51 | the result is the direct records followed by all alias records when some declarator in the tree binds an alias name, and the direct records alone otherwise |
| `Discovery.TrackedNamesAppend` | src/ThisCompletionItemProvider.js:79-94 | the accessed names of two stretches of the traversal are the union of each stretch's names |
| `Discovery.EnterProcessed` | src/ThisCompletionItemProvider.js:79-102 | entering a node adds its accessed name, if it is a tracked access, to the processed labels and nothing else |
| `Discovery.WalkProcessed` | src/ThisCompletionItemProvider.js:79-102 | after traversing a subtree the processed labels are the earlier ones plus every name the subtree accesses through `this` or an alias |
| `Discovery.EnterAllProcessed` | src/ThisCompletionItemProvider.js:79-102 | after entering a list of entries the processed labels are the earlier ones plus every name they access through `this` or an alias |
| `Discovery.DiscoveredAccessNames` | src/ThisCompletionItemProvider.js:79-102 | the labels of the access records are exactly the names accessed through `this` or an alias anywhere in the tree, and no two access records, across both lists, share a label |
| `Discovery.EnterAllAppend` | src/ThisCompletionItemProvider.js:36-48 | entering two lists of entries one after the other is entering their concatenation |
| `Discovery.WalkIsEnterAll` | src/ThisCompletionItemProvider.js:36-48 | the traversal of a subtree is the `enter` callback applied to its entries in order |
| `Discovery.WalkChildrenIsEnterAll` | src/ThisCompletionItemProvider.js:36-48 | the same for a run of children |
| `Discovery.NextChildIsEnterAll` | src/ThisCompletionItemProvider.js:36-48 | the same for one more child, given it for the children before it |
| `Discovery.MaskedPush` | src/ThisCompletionItemProvider.js:75-90 | pushing one record adds it to the records of its origin and to no other |
| `Discovery.EnterAccesses` | src/ThisCompletionItemProvider.js:79-102 | one handler appends the record of a first-seen `this` access to the direct records from accesses, that of a first-seen alias access to the alias list, and nothing else to either |
| `Discovery.EnterAllAccesses` | src/ThisCompletionItemProvider.js:79-102 | entering a list of entries appends, to each list, the records of the first access of each not-yet-processed name through that list's base |
| `Discovery.EnterAllAccessesTail` | src/ThisCompletionItemProvider.js:79-102 | the same, once the first entry has been entered |
| `Discovery.DiscoveredAccessRecords` | src/ThisCompletionItemProvider.js:79-120 | after the traversal, the direct records from accesses are the first `this` access of each name, in traversal order, and the alias list is the first alias access of each name whose first tracked access is through an alias, each classified by its parent |
| `Discovery.CollectAccessRecords` | src/ThisCompletionItemProvider.js:49-51 | the records of the result that came from accesses are the first `this` accesses, followed by the first alias accesses exactly when some declarator in the tree binds an alias name |
| `Discovery.HeadDirect` | src/ThisCompletionItemProvider.js:60-86 | definition; no contract of its own: the direct record of one entry, from a prototype assignment or a first-seen `this` access |
| `Discovery.DirectRecords` | src/ThisCompletionItemProvider.js:60-86 | definition; no contract of its own: the direct records of a list of entries, in order |
| `Discovery.EnterDirect` | src/ThisCompletionItemProvider.js:37-47 | one handler appends to the direct list exactly the direct record of its entry, and adds its tracked name to the processed labels |
| `Discovery.EnterAllDirect` | src/ThisCompletionItemProvider.js:36-48 | entering a list of entries appends to the direct list exactly their direct records, in order |
| `Discovery.CollectRecords` | src/ThisCompletionItemProvider.js:35-52 | the whole result of a request, in order: prototype records and first `this` accesses interleaved as the traversal meets them, followed by the first alias accesses exactly when some declarator binds an alias name |
| `Discovery.PrototypeItemsAppend` | src/ThisCompletionItemProvider.js:60-77 | the prototype records of two stretches of the traversal are those of the first followed by those of the second |
| `Discovery.MaskedAppendUnflagged` | src/ThisCompletionItemProvider.js:49-51 | appending the alias records adds no prototype record, and adds all of them to the records from accesses |
| `Discovery.MaskedChain` | src/ThisCompletionItemProvider.js:60-77 | prototype records collected over consecutive stretches add up |
| `Discovery.EnterPrototype` | src/ThisCompletionItemProvider.js:60-77 | entering a node appends its prototype record, if it is a prototype assignment, and no other prototype record |
| `Discovery.WalkPrototype` | src/ThisCompletionItemProvider.js:60-77 | traversing a subtree appends one prototype record per prototype assignment in it, in traversal order |
| `Discovery.EnterAllPrototype` | src/ThisCompletionItemProvider.js:60-77 | entering a list of entries appends one prototype record per prototype assignment among them, in order, and no other prototype record |
| `Discovery.PrototypeRecords` | src/ThisCompletionItemProvider.js:60-77 | the prototype records of the result are exactly one per prototype assignment of the tree, in traversal order and never deduplicated |
| `Discovery.CollectWellFormed` | src/ThisCompletionItemProvider.js:63-74 | every record of the result inserts `label()` if it is a Method and its bare label otherwise |
| `Discovery.CollectAccessLabelsDistinct` | src/ThisCompletionItemProvider.js:101-102 | no two records of the result that came from `this` or alias accesses share a label |
| `ThisCompletion.CompletionItemProvider.constructor` | src/ThisCompletionItemProvider.js:22-26 | the module loads with the configured aliases and an empty discovery state |
| `ThisCompletion.CompletionItemProvider.ProcessVariableDeclarator` | src/ThisCompletionItemProvider.js:54-58 | the flag is set when the declared identifier is an alias name, as `DeclaratorStep` says |
| `ThisCompletion.CompletionItemProvider.ProcessAssignmentExpression` | src/ThisCompletionItemProvider.js:60-77 | appends exactly the prototype record of a prototype member assignment, as `AssignmentStep` says |
| `ThisCompletion.CompletionItemProvider.CreateCompletionItem` | src/ThisCompletionItemProvider.js:96-120 | returns the record and marks the label processed on first sight; returns nothing and changes nothing otherwise |
| `ThisCompletion.CompletionItemProvider.ProcessMemberExpression` | src/ThisCompletionItemProvider.js:79-94 | updates the lists as `MemberStep` says |
| `ThisCompletion.CompletionItemProvider.Visit` | src/ThisCompletionItemProvider.js:36-48 | the recursive traversal leaves the fields as the fold `Walk` of the old state |
| `ThisCompletion.CompletionItemProvider.PrepareCompletionItems` | src/ThisCompletionItemProvider.js:35-52 | resolves the tree through the cache, traverses it when there is one, and appends the alias records only when the flag is set |
| `ThisCompletion.CompletionItemProvider.ProvideCompletionItems` | src/ThisCompletionItemProvider.js:131-146 | resets the state and aliases; when the trigger test holds it returns the records of the resolved tree; otherwise it returns no records and reloads the cache, so no record is offered unless the previous word is `this` or an alias |
| `ThisCompletion.RepeatedRequestsAgree` | src/ThisCompletionItemProvider.js:132-136 | two requests on the same tree and aliases return the same list |
| `ThisCompletion.StaleTreeFallback` | src/Utils.js:14-16 | after a failed parse a request still returns the records of the last tree that parsed |
| `Examples.PrototypeFieldThenMethod` | src/ThisCompletionItemProvider.js:60-77 | `C.prototype.f = 0; C.prototype.m = function () {};` yields the Field `f` then the Method `m()` |
| `Examples.AssignedFunctionOnThisIsField` | src/ThisCompletionItemProvider.js:104-117 | `this.m = function () {};` alone yields the Field `m` |
| `Examples.CalleeIsMethodArgumentIsByCase` | src/ThisCompletionItemProvider.js:106-114 | `this.f(); g(this.C);` yields the Method `f()` and the Enum `C` |
| `Examples.AliasNeedsDeclaration` | src/ThisCompletionItemProvider.js:49-58 | `var a = this; a.x = 1;` yields `x`; without the declaration it yields nothing |
| `Examples.UndeclaredAliasShadowsThisAccess` | src/ThisCompletionItemProvider.js:87-102 | `a.x; this.x;` with `a` undeclared yields nothing |
| `Examples.PrototypeAndAccessShareLabel` | src/ThisCompletionItemProvider.js:60-102 | `C.prototype.m = function () {}; this.m();` yields the Method `m()` twice |
| `Examples.AccessThenPrototypeKeepOrder` | src/ThisCompletionItemProvider.js:60-86 | `this.a; C.prototype.m = function () {};` yields the Field `a` and then the Method `m()` |

## Left out

- src/main.js is not part of this model. It only registers the provider, re-loads the cache when the active editor changes, and parses once at activation.
- The alias names come from the editor configuration (`getThisVarNames`). Here they are a `seq<string>` parameter.
- The parser (`esprima.parse`) is an oracle. Its outcome on the document text is a parameter: `Some(tree)` or `None` when it throws.
- The traversal library (`estraverse.traverse`) is replaced by the recursion in `Walk`/`Visit`. The model assumes the standard ESTree child order. Node kinds that no handler inspects are folded into `Other`. A function expression's id, parameters and body are its children in that order.
- When no parse has ever succeeded, `resolveAst` hands `null` to the traversal library. The model then skips the traversal, and the request returns an empty list.
- A member expression at the root of the tree has no parent. If its base were `this` or an alias, the source would fail on `parent.type`. The model classifies it as a Field. A parser never produces such a root, because the root is always a Program.
- A prototype assignment whose member is not an identifier (`C.prototype['m'] = ...`) records nothing in the model. The source reads an undefined label there. It throws when upper-casing it only if the right side is an identifier. For any other right side it pushes a record labelled `undefined`, which inserts `undefined()` when the right side is a function expression.
- The host looks up the word before the cursor (`getWordRangeAtPosition`, `getText`, `translate`). That word is an input here. Only the column arithmetic and the comparison are modelled. When the landed column is negative (`PreviousWordOffset` says when), the host rejects the position passed to `translate` and the request fails. The model does not follow that failure.
- VS Code's `CompletionItem` and `CompletionList` are plain values. The list's "incomplete" flag, always false, is not kept.
- ResolveTypeOfProperty: upper-cases ASCII letters only. JavaScript's `toUpperCase` also upper-cases non-ASCII letters, so a label such as `é` is Enum here but Field in the source.
- Requests are assumed not to overlap. The source resets shared module state at entry, and the model inherits this.
- `fromPrototype` is a ghost field. It marks which direct records came from prototype assignments, and is used only to state the distinctness and prototype properties.
