# Verified model of go-racp's configuration tools and request guards

This project models the parts of go-racp with the most state and branching, and proves what
they are for:

- **Theme configuration types** (`cmd/themegen`). YAML documents are inferred to shape trees,
  the trees of all themes are merged to one union type, and in-place passes finish the type
  graph before Go structs are emitted. Types form an order: null is below everything, an
  element-less slice below every slice, and a struct may lack fields the larger one has. In
  that order `mergeShapes` computes least upper bounds and inference yields principal types.
  The passes work on mutable nodes; `Snap` takes the graph at one moment as a value, and the
  lemmas are about such values.
- **The rate limiter's bucket store** (`internal/platform/security/ratelimit.go`): a map and a
  doubly linked list, refined to a function of the call history (`Recency.Run`), and the exact
  condition under which a client gets its former limiter back.
- **The reference-data cache check** (`internal/platform/refdata/cache.go`) and **the reload
  guard** (`reload_guard.go`), the latter as a machine of atomic actions under any interleaving.
- **Access configuration and route registry** (`server/config/access.go`,
  `internal/platform/routes/registry.go`).
- **CSRF tokens** (`internal/platform/security/csrf.go`).

`dafny verify dfyconfig.toml` verifies the whole project.

## How the code is modelled

- Functions that only compute are Dafny functions; where the source computes them with loops,
  a method with the same loop is proved to return the function's value (`MergeLoops`,
  `InferLoops`, the methods of `SourceCache`, `AccessConfig`, `Emit`).
- The merged type becomes nodes in `Trees.Build`, and `Finalize.Finalize` runs the passes on them
  one after the other. A `Finalize.Run` holds the graph after each pass; the theorems in
  `Finalize` are about every such run.
- `visitWith` takes a callback. For callbacks that leave the edges alone, `VisitWith` returns
  the sequence of callback arguments and the caller loops over it. `applySliceCandidates`
  changes edges during the walk and is its own recursive method, `Resolve.ApplyWalk`.
- `sameShape` keeps no record of visited pairs and need not return on a cyclic graph. On finite
  types it is the function `SameShapes.SameShape`; on nodes it is followed for a number of nested
  calls (`GraphSameShape.SameShape`). `GraphSameShape.Compared` is its answer, or `None` if it never
  returns: one more call than there are pairs of nodes decides that. The collapsing pass counts the
  nodes it visits, grants each comparison that many calls, and so stops exactly at one that would go
  on for ever.
- What the generated file reads is defined on the file alone (`Reading.Reads`): a type is brackets
  and a name, and the name stands for the type declared under it or else for one of the language.
- `deduplicateStructs` is run for a given number of passes, because its passes need not end; when they do
  is a theorem about the states they lead through (`RenamingEnds`).
- Panics and errors are result values. Clocks, random bytes, the file system, loader results
  and HMAC are parameters. Go map iteration picks any remaining key.
- The bucket store's capacity is a parameter, at least 1; the source fixes it to 2000.

## What the proofs found

- The generated types may be unable to read the document of a theme, for two reasons.
  - Unknown elements. In `a: {x: [["s"]]}`, `b: {x: [[]], y: 1}`, `c: {x: [[1]], y: 1, z: 1}` the inner
    list of `b` has an unknown element, which `sameShape` equates with any. `a` takes over the fields of
    `b`, `b` those of `c`, then `a` those of `c`, so that the list of texts is written `[][]int`
    (`LostTheme.ThemeIsLost`). After one such step only the graph has lost the document, because an
    unknown element is written `any` (`LostTheme.FirstStepLoses`, `Reading.SameWritten`). A yes of
    `sameShape` is right about all documents exactly when the larger side has no element-less slice
    opposite a known element (`GraphSameShape.CoversExactly`); in a run in which every step passes that
    check the type graph keeps every theme (`Finalize.EveryThemeSurvives`).
  - Shared names. In `a: {x: {m: 1}}` beside `x: {n: 1}` two different structs are called `x`, only the
    first is written, and `n` is dropped, although nothing was collapsed (`TwinNames.TwinIsUnread`).
    The file reads all that the graph admits exactly if, followed side by side, no node clashes with
    the type written under its name (`Clashes.ReadsAllExactly`), as where visited structs of one name
    have the same lines (`Clashes.AgreeingNames`).
  - Without either, and if the root has kept its name, the type `Config` of the file reads every theme
    (`Finalize.ConfigReadsEveryTheme`).
- `shapeKey` tells structs apart by their fields as long as no field name holds a colon and no type name a
  semicolon (`Keys.KeysExactly`); a field called `a:s:int;b` has the key of two fields `a` and `b`
  (`Keys.KeysCanCollide`). With such plain names no renaming pass gives a struct the name of one that differs
  from it in a field, stale entries of `canonical` notwithstanding (`Keys.OnlyTwinsShareNames`).
- `finalize` may never return from `deduplicateStructs`. Entries of `canonical` outlive the names they were
  made for. In `qitem: {a: 1}`, `ritem: {b: 1}`, `pitem: {c: 1}`, `p: {items: [{a: 1}]}`,
  `q: {items: [{b: 1}]}`, `r: {items: [{c: 1}]}` the first pass stores `p`, `q` and `r` under keys that
  after it belong to `r`, `p` and `q`, and every later pass hands their names round
  (`EndlessNames.NamesNeverSettle`). The passes end exactly if no graph and map come back after a pass that
  changed something (`RenamingEnds.EndsExactly`).
- `finalize` may never return from `collapseSubsetStructs` either. `children: [{children: []}]` beside `other: 1` makes
  `resolveEmptySlices` fill the inner list with the struct it belongs to, and
  `collapseSubsetStructs` compares that struct with itself (`EndlessMenu.MenuNeverFinishes`).
  Whether a comparison returns, and with which answer, is decided within as many nested calls as there
  are pairs of nodes, and one more (`GraphSameShape.ReturnsExactly`); of a struct with itself it does
  exactly if the type is finite (`GraphSameShape.ReturnsOnItselfExactly`). The collapsing pass
  returns exactly if its steps do not lead to a graph in which the comparison next in order does not
  (`Collapse.ReturnsUnlessStuck`).
- Together: `finalize` returns exactly if neither happens (`Finalize.ReturnsExactly`).
- The root may lose the name `Config`, for which the generated file declares a variable:
  `s: {s: {m: 1}, items: [{k: 1}]}` beside `items: [{k: 2}]` ends with a root called `s`
  (`LostRoot.RootLosesItsName`). It keeps the name throughout exactly if no renaming pass finds its
  key stored for a struct of another name and no collapse makes it the smaller struct
  (`Finalize.RootKeptExactly`), and unless other structs bear that name before the collapses, its type
  stands first as `Config` exactly then (`Finalize.ConfigFirstExactly`).
- `verifySources` counts matches per listed path. It is exact for a list of paths exactly if no
  path is listed twice; otherwise it can also accept although a cached file is gone
  (`SourceCache.ExactIffNoRepeats`, `SourceCache.RepeatedPathHidesDeletion`). Against
  fingerprints taken from the same list of paths the check is exact for every list.
- A form posted as `multipart/form-data` never passes the CSRF check, although `tokenValid` admits the
  media type: `ParseForm` leaves such a body unread (`Csrf.HeaderlessPassesExactly`).
- `mergeAccessConfigs` also panics on a group that `access.yml` names without actions when the
  theme adds to it: cloning a nil map gives a nil map (`AccessConfig.EmptyRootGroupPanics`).
- `lastError` is empty after a failed reload whose error has an empty text, and a panicking
  loader leaves it as it was (`ReloadGuard.EmptyErrorExactly`).

## Model

| member | source | states |
|---|---|---|
| Merge.MergeIsLeastUpperBound | cmd/themegen/config_infer.go:120-207 | a successful merge has distinct field names, lies above every input and below every common upper bound with distinct names; a failed one means there is no such bound, for all inputs |
| Merge.MergeBounds | cmd/themegen/config_infer.go:120-134 | the types above all inputs are exactly those above the merge |
| Merge.MergeIgnoresOrder | cmd/themegen/config_infer.go:120-134 | order and repetition of the inputs change neither success nor, up to equivalence, the result |
| Merge.MergeIgnoresGrouping | cmd/themegen/config_infer.go:120-134 | merging two groups and then their results is merging everything at once |
| MergeOrder.MergedInOrder | cmd/themegen/config_infer.go:165-188 | of two merged fields the one comes first whose name appears first, in an earlier type or earlier in the same one |
| MergeOrder.ElementsAt | cmd/themegen/config_infer.go:190-201 | the known elements are merged in the order of their slices |
| MergeOrder.ItemsInOrder | cmd/themegen/config_infer.go:103-110 | the items of a list are inferred in order |
| MergeOrder.EntriesInOrder | cmd/themegen/config_infer.go:81-93 | the fields of a struct are its entries, in order |
| MergeOrder.ThemesInOrder | cmd/themegen/main.go:1424-1452 | themes are merged in order, an empty file counting as an empty struct |
| Merge.MergeOfOne | cmd/themegen/config_infer.go:120-207 | a single type with distinct field names is its own merge |
| MergeErrors.MergeFailureExplained | cmd/themegen/config_infer.go:120-207 | a failed merge reports two kinds or two scalars, in their order, that are in its input, under the names of the fields they lie in |
| MergeLoops.MergeShapes | cmd/themegen/config_infer.go:120-134 | the filtering and kind-checking loops compute the merge, errors included |
| MergeLoops.MergeByKind | cmd/themegen/config_infer.go:147-163 | the scalar loop reports the first scalar that differs, structs and slices go to their own merges |
| MergeLoops.GroupFields | cmd/themegen/config_infer.go:165-176 | after the nested loops order holds the distinct names by first appearance and groups the types of each name in order |
| MergeLoops.MergeStructFields | cmd/themegen/config_infer.go:165-188 | the grouping and merging loops compute the field-wise merge and stop at the first failing field |
| MergeLoops.MergeSliceElements | cmd/themegen/config_infer.go:190-207 | known elements are merged, and a slice stays element-less only if no element is known |
| Shapes.FitsMonotone | cmd/themegen/config_infer.go:14-32 | a larger type admits every document of a smaller one |
| Infer.PrincipalType | cmd/themegen/config_infer.go:56-118 | on documents without repeated keys, inference succeeds iff some type with distinct names admits the document, and returns the least such type |
| Infer.InferPrincipal | cmd/themegen/config_infer.go:56-118 | the distinct-name types that admit a document are exactly those above the inferred one, for every document |
| Infer.InferSound | cmd/themegen/config_infer.go:56-118 | an accepted document fits its inferred type, with no condition on the document |
| MergeErrors.InferFailureAt | cmd/themegen/config_infer.go:56-118 | a failed inference names the first item or entry that cannot be inferred, with its own failure, or a merge of items that all can |
| Infer.UnionIsLeast | cmd/themegen/main.go:1399-1411 | the union type admits every theme's document and is the least such type; it is missing only if no type admits them all |
| InferLoops.InferMapping | cmd/themegen/config_infer.go:79-96 | the loop over a mapping computes its inferred struct and stops at the first non-string key or failing value |
| InferLoops.InferSequence | cmd/themegen/config_infer.go:98-118 | the loop over a sequence infers all elements in order, then merges them |
| InferLoops.UnionThemes | cmd/themegen/main.go:1424-1452 | theme specifications are collected in order, an empty file counting as an empty struct, and merged |
| SameShapes.SameShapeIsEquivalent | cmd/themegen/config_infer.go:209-250 | on types without nulls and unknown elements sameShape holds iff each type is below the other, although it only checks one direction and the length |
| SameShapes.SameShapeIsAnEquivalenceRelation | cmd/themegen/config_infer.go:209-250 | there it is reflexive, symmetric and transitive |
| SameShapes.ReflexiveExactlyWithoutNulls | cmd/themegen/config_infer.go:209-229 | a type is the same shape as itself iff it contains no null |
| SameShapes.NotTransitive | cmd/themegen/config_infer.go:219-223 | an unknown element breaks transitivity |
| SameShapes.SafeToReplaceBy | cmd/themegen/config_infer.go:209-250 | every type equated with b is below b iff b has no unknown element where sameShape can reach one |
| SameShapes.SameShapeLosesADocument | cmd/themegen/config_infer.go:219-223 | two types sameShape equates of which only the first admits [[1]] |
| InferLoops.SameShape | cmd/themegen/config_infer.go:209-229 | the case distinction computes the comparison |
| InferLoops.IsSubset | cmd/themegen/config_infer.go:297-313 | the table of the larger struct, last field of a name winning, and the early exits compute the subset test |
| GraphSameShape.CompareTypes | cmd/themegen/config_infer.go:209-250 | the recursion with its table and its loop over the fields computes the comparison |
| GraphSameShape.LastTypeExactly | cmd/themegen/config_infer.go:235-238 | of several fields of one name the table holds the last |
| GraphSameShape.SameShapeOnTrees | cmd/themegen/config_infer.go:209-250 | on finite types the recursion ends within the type's depth with the answer of the tree comparison |
| GraphSameShape.ReturnsExactly | cmd/themegen/config_infer.go:209-250 | for any graph and any two nodes: the comparison returns for some number of nested calls iff it does within one more than there are pairs of nodes, and then with that answer |
| GraphSameShape.ReturnsIfFinite | cmd/themegen/config_infer.go:209-250 | it returns as soon as one side is a finite type, cycles on the other or not |
| GraphSameShape.ReturnsOnItselfExactly | cmd/themegen/config_infer.go:209-250 | without nulls, comparing a node with itself returns iff the type below it is finite |
| GraphSameShape.NeverReturns | cmd/themegen/config_infer.go:209-250 | comparing a struct that contains a list of itself with itself is still running after any number of nested calls |
| GraphSameShape.CoversExactly | cmd/themegen/config_infer.go:209-250 | a yes means that every document of the first node fits the second iff the second has no element-less slice opposite a known element, cyclic or not |
| EndlessMenu.MenuNeverFinishes | cmd/themegen/config_infer.go:254-261 | a document on which the renaming passes end and the first comparison the collapsing pass makes never returns |
| TypeGraph.VisitsExactlyTheReachable | cmd/themegen/config_infer.go:470-488 | the callback is called exactly once on each node reachable from the root, cycles or not, on no other, and on the root first |
| TypeGraph.VisitWith | cmd/themegen/config_infer.go:474-488 | the recursive walk with its shared seen set terminates on any finite graph and makes the calls of Walk |
| TypeGraph.AdmitsIsFits | cmd/themegen/config_infer.go:26-32 | a node that represents a finite type admits exactly the documents that fit the type |
| Trees.Build | cmd/themegen/config_infer.go:120-207 | the merged type becomes a tree of new nodes without names |
| Trees.WalkTree | cmd/themegen/config_infer.go:470-488 | in a tree the walk meets nothing twice and visits each node before what is below it |
| Naming.AssignNames | cmd/themegen/config_infer.go:363-391 | every struct under a field or in a list under a field gets exactly its name, all below two lists stay without, and nothing else changes |
| GivenNames.ElementNameExactly | cmd/themegen/config_infer.go:375-408 | a struct in a list is called p + c, where p is the struct around it (below the root the field) and c the field's name without a final s, or p + Item if c is p or empty; under Children it is called p |
| GivenNames.ChildrenShareName | cmd/themegen/config_infer.go:393-396 | every struct reached from a named one through lists under Children, at any depth, bears its name |
| GivenNames.FieldNameExactly | cmd/themegen/config_infer.go:370-374 | a struct that is a field's type is called as the field |
| Naming.ComputeShapeKey | cmd/themegen/config_infer.go:438-468 | the loops compute the key of a struct, following slices to their end |
| Keys.TagsExactly | cmd/themegen/config_infer.go:452-468 | two types have the same tag iff both are null, both the same scalar, structs of one name, slices without element, or slices of such types; whatever the names |
| Keys.KeysExactly | cmd/themegen/config_infer.go:438-450 | where no field name holds a colon and no type name a semicolon, two structs have the same key iff they have equally many fields, pairwise with the same name and tag |
| Keys.KeysCanCollide | cmd/themegen/config_infer.go:438-450 | with other names two different structs can have one key |
| Naming.DeduplicatePass | cmd/themegen/config_infer.go:412-433 | a pass makes the visits of its specification one after the other, changed flag and stored structs included |
| Naming.DeduplicateStructs | cmd/themegen/config_infer.go:410-436 | the passes follow one another until one changes nothing, or the number granted is used up |
| Naming.DeduplicatedExact | cmd/themegen/config_infer.go:410-436 | a run that has ended has changed names only, and visited structs with equal keys share a name |
| Keys.OnlyTwinsShareNames | cmd/themegen/config_infer.go:412-433 | with such names no visit of any pass gives a struct the name of one that differs from it in a field, names of nested structs apart |
| Keys.AlikeShareName | cmd/themegen/config_infer.go:410-436 | once the passes have ended, visited structs with the same fields, nested names included, bear one name |
| RenamingEnds.EndsExactly | cmd/themegen/config_infer.go:410-436 | some run of passes from a graph ends iff none comes back to a graph and a map after a pass that changed something |
| EndlessNames.NamesNeverSettle | cmd/themegen/config_infer.go:410-436 | a document on which every pass changes a name, however many are made |
| Naming.RootNameAfterPass | cmd/themegen/config_infer.go:418-430 | what a pass makes of the root's name, and that it stays iff no struct of another name is stored under the root's key |
| Naming.RootNamedThroughout | cmd/themegen/config_infer.go:410-436 | the root bears its name all along iff each pass leaves it |
| Naming.RenamedAdmits | cmd/themegen/config_infer.go:427-430 | renaming changes no node's documents |
| Resolve.CandidatesExact | cmd/themegen/config_infer.go:320-337 | a field name has a candidate iff a visited struct knows an element for it, the candidate is such an element, and the first one found stays |
| Resolve.CollectSliceCandidates | cmd/themegen/config_infer.go:320-337 | the nested loops compute the candidates of the walk |
| Resolve.ApplyToField | cmd/themegen/config_infer.go:344-357 | one field is filled, replaced by a new slice, or left alone; all other fields, kinds and known elements stay |
| Resolve.ApplyWalk | cmd/themegen/config_infer.go:339-360 | the walk that edits the edges it follows terminates, keeps the graph a resolved form of the original one, settles every struct it visits and misses none of the original children |
| Resolve.GrownAdmits | cmd/themegen/config_infer.go:339-360 | no document is lost at any node, even when cycles are closed |
| Resolve.ResolveEmptySlices | cmd/themegen/config_infer.go:315-318 | documents are kept, and no struct reachable afterwards has a null or element-less slice under a name that had a known element anywhere |
| Collapse.StepDropsDeficit | cmd/themegen/config_infer.go:284-286 | each change strictly lowers the sum of missing fields |
| Collapse.RunIsBounded | cmd/themegen/config_infer.go:271-294 | a run makes at most as many changes as fields are missing, whatever sameShape answers |
| Collapse.RunGrowsNames | cmd/themegen/config_infer.go:284-285 | every set of field names only grows; kinds, elements and other nodes stay |
| Collapse.HangsExactly | cmd/themegen/config_infer.go:297-313 | the comparison of two structs counts as not returning iff its loop over the fields runs on after any number of nested calls |
| Collapse.SoundExactly | cmd/themegen/config_infer.go:297-313 | sameShape was right about the fields of a step iff none of them has an element-less slice opposite a known element |
| Collapse.RunKeepsDocuments | cmd/themegen/config_infer.go:263-295 | with the source's comparison a run loses no document at any node if every step passes that check, as it does where every slice knows its element |
| Collapse.NameKeptExactly | cmd/themegen/config_infer.go:284-285 | a struct keeps its name throughout a run iff it is never the smaller one |
| Collapse.NameKeptAlone | cmd/themegen/config_infer.go:284-285 | where other structs of its name have no more fields at first, a struct bears it in the end iff it bore it and was never the smaller one, whatever was collapsed into it |
| Collapse.LeftApart | cmd/themegen/config_infer.go:274-282 | when the pass has ended, of two structs of different names the one with fewer fields has a field the other lacks or has with another shape; one without fields shares its name with all that have some |
| Collapse.StepJustified | cmd/themegen/config_infer.go:274-285 | every step is between structs of different names, the larger one having more fields and one of the same name and shape for each of the smaller one's |
| Collapse.NextIsForced | cmd/themegen/config_infer.go:271-294 | the order of the sweeps determines the next pair that is not rejected |
| Collapse.OnlyRun | cmd/themegen/config_infer.go:271-294 | there is at most one run that leaves no pair: its steps, its graph and where it stops are determined |
| Collapse.ReturnsUnlessStuck | cmd/themegen/config_infer.go:263-295 | a run that leaves no pair exists iff the steps do not lead to a graph in which the next comparison of the sweeps never returns |
| Collapse.CheckSubsetStruct | cmd/themegen/config_infer.go:297-313 | the loops decide the subset test, or that it never returns |
| Collapse.Pass | cmd/themegen/config_infer.go:271-292 | one sweep makes the steps its order prescribes, and reports none iff no pair collapses |
| Collapse.CollapseSubsetStructs | cmd/themegen/config_infer.go:263-295 | the pass makes the steps its sweeps prescribe until no two differently named reachable structs are left of which the one with fewer fields is a subset, or until the comparison next in order never returns; it ends iff a run that leaves no pair exists |
| Finalize.Finalize | cmd/themegen/config_infer.go:254-261 | the passes in order on the merged type: the outcome is a whole run and its emitted types, a comparison that never returns, or renaming passes still at work |
| Finalize.ReturnsExactly | cmd/themegen/config_infer.go:254-261 | once the empty slices are filled finalize returns iff the renaming passes never come back to a state and the collapses never lead to a comparison that does not return |
| Finalize.EveryThemeSurvives | cmd/themegen/config_infer.go:254-261 | after a whole run the graph admits every theme's document, if each collapse passed the check on unknown elements or no element is unknown |
| Finalize.FileReadsExactly | cmd/themegen/config_infer.go:490-504 | the file written after a whole run reads all the finished graph admits iff no names clash |
| Finalize.ConfigReadsEveryTheme | cmd/themegen/config_emit.go:8-37 | if moreover the root kept its name and no names clash, the type Config of the file reads every theme's document |
| Finalize.RootKeptExactly | cmd/themegen/config_infer.go:254-261 | the root is called Config all along iff no renaming pass and no collapse takes the name, each checked on the state before |
| Finalize.ConfigFirst | cmd/themegen/config_emit.go:39-55 | then its type is written first and the others in visiting order; in any case it stands first as Config iff the root is called so in the end |
| Finalize.ConfigFirstExactly | cmd/themegen/config_emit.go:39-55 | if no other struct is called Config before the collapses, it stands first as Config iff nothing took the root's name, whatever was collapsed into the root |
| Finalize.GoTypeReturnsAfterFinishing | cmd/themegen/config_emit.go:76-91 | goType returns on every node of the finished graph |
| LostTheme.ListsReturn | cmd/themegen/config_infer.go:254-261 | on this document every run whose first renaming pass is made can be finished |
| LostTheme.ThemeIsLost | cmd/themegen/config_infer.go:254-261 | after every finished run on it neither the graph admits nor the file reads it |
| LostTheme.FirstStepLoses | cmd/themegen/config_infer.go:219-223 | the first collapse on it, after which the graph has lost it and a file written then would still read it |
| TwinNames.TwinsReturn | cmd/themegen/config_infer.go:254-261 | on this document one renaming pass suffices and nothing collapses |
| TwinNames.TwinIsUnread | cmd/themegen/config_infer.go:490-504 | after every finished run on it the root has its name and no collapse was unsafe, and still the file does not read it |
| LostRoot.RootLosesItsName | cmd/themegen/config_infer.go:418-430 | a document after which the root is called s and no type Config is written |
| LostRoot.NestedReturns | cmd/themegen/config_infer.go:254-261 | on it three renaming passes suffice, and the collapsing pass finds nothing |
| Emit.CollectedExact | cmd/themegen/config_infer.go:490-504 | each struct name is emitted once, as a copy of a visited struct of that name, none is left out, and the root is first |
| Emit.CollectedFirst | cmd/themegen/config_infer.go:497-501 | of the visited structs of one name the first is emitted |
| Emit.CollectStructs | cmd/themegen/config_infer.go:490-504 | the loop with its seen set computes that collection |
| Emit.EmittedIsClosed | cmd/themegen/config_emit.go:57-91 | every struct name goType writes in a field of an emitted type is itself emitted |
| Emit.GoTypeMentions | cmd/themegen/config_emit.go:76-91 | a chain of k slices ending in a struct is written as k brackets and the struct's name |
| Emit.OrderTypes | cmd/themegen/config_emit.go:39-55 | the loop puts the last type called Config first and keeps the others in order |
| Emit.OrderIsPermutation | cmd/themegen/config_emit.go:39-55 | the reordering is a permutation iff at most one type is called Config |
| Reading.GoTypeWrites | cmd/themegen/config_emit.go:76-91 | goType returns the brackets and the name the model gives the node's type |
| Reading.FileExactly | cmd/themegen/config_infer.go:490-504 | the file declares exactly the names of the visited structs, each once, with the lines of such a struct |
| Reading.AgreedReads | cmd/themegen/config_emit.go:57-91 | where visited structs of one name have the same lines the file reads at each node exactly what the node's own fields would |
| Reading.SameWritten | cmd/themegen/config_emit.go:76-91 | there a yes of sameShape loses no document for the file in one step, unknown elements or not |
| Clashes.ReadsAllExactly | cmd/themegen/config_emit.go:57-91 | the file reads every document a node admits iff the node and its written type, followed side by side for as many steps as there are pairs, do not clash: a missing field, another scalar, no list, no struct |
| Clashes.AgreeingNames | cmd/themegen/config_infer.go:490-504 | nothing clashes where visited structs of one name have the same lines |
| Emit.EmittedOrder | cmd/themegen/config_emit.go:39-55 | nothing is lost and each name written once; the root's type comes first as Config iff the root is called so; a type Config is written iff a visited struct bears the name |
| SliceChains.TreeSeparates | cmd/themegen/config_infer.go:120-207 | in a tree no slice is both a field's type and an element, and chains of slices end |
| SliceChains.ResolvedChainsEnd | cmd/themegen/config_infer.go:339-360 | filling the empty slices of such a graph closes no cycle of slices alone |
| Recency.RunIsPrefix | internal/platform/security/ratelimit.go:162-252 | after any calls the list is a prefix of the distinct keys by most recent use |
| Recency.RunLength | internal/platform/security/ratelimit.go:162-183 | without sweeps its length is the smaller of the capacity and the number of distinct keys |
| Recency.RunBounded | internal/platform/security/ratelimit.go:173-175 | the list never exceeds the capacity |
| Recency.RunNewestFirst | internal/platform/security/ratelimit.go:166-171 | with a clock that does not go backwards lastSeen is non-increasing from head to tail |
| Recency.SweepIsFilter | internal/platform/security/ratelimit.go:243-252 | on such a list stopping at the first fresh tail removes exactly the stale entries and keeps the order of the rest |
| Recency.KeptExactly | internal/platform/security/ratelimit.go:162-252 | a key is kept iff fewer than capacity other keys were accessed since its last access and no sweep since had a later cutoff |
| Recency.SameEntryExactlyIfRetained | internal/platform/security/ratelimit.go:162-183 | bucket returns the very entry of the last call iff the key was retained, so that its limiter is not reset |
| RateLimiting.RateLimiter.PushFront | internal/platform/security/ratelimit.go:185-195 | links a new entry at the head, next and prev staying mutual reverses |
| RateLimiting.RateLimiter.Unlink | internal/platform/security/ratelimit.go:197-210 | cuts one entry out and keeps the order of the others |
| RateLimiting.RateLimiter.MoveToFront | internal/platform/security/ratelimit.go:212-218 | brings an entry to the head, keeping the order of the others |
| RateLimiting.RateLimiter.EvictOldest | internal/platform/security/ratelimit.go:220-227 | drops the tail from list and map, or does nothing on an empty list |
| RateLimiting.RateLimiter.SlotsInStep | internal/platform/security/ratelimit.go:38-58 | the map has exactly the keys on the list, each once, and as many |
| RateLimiting.RateLimiter.Bucket | internal/platform/security/ratelimit.go:162-183 | pointer structure, map and history stay in step, the entry is at the head, and it is the former entry of its key iff the key was retained |
| RateLimiting.RateLimiter.GcOnce | internal/platform/security/ratelimit.go:243-252 | the same for a sweep, which removes exactly the stale entries if the clock never went backwards |
| SourceCache.AcceptsExactly | internal/platform/refdata/cache.go:145-180 | for paths without repetition the check accepts iff existing and cached paths are the same set, each cached once, none fails to stat, and every file has its cached time and size or its cached hash |
| SourceCache.ExactIffNoRepeats | internal/platform/refdata/cache.go:145-180 | the check is exact for a list of paths, whatever is cached and whatever the files, iff no path is listed twice |
| SourceCache.RepeatedPathHidesDeletion | internal/platform/refdata/cache.go:151-179 | it can accept although a cached file is gone iff some path is listed twice |
| SourceCache.AcceptedIffUnchanged | internal/platform/refdata/cache.go:119-180 | fingerprints of one state are accepted in another iff every path is unchanged, for any list, order, repetition or missing files |
| SourceCache.SucceedsExactly | internal/platform/refdata/cache.go:119-143 | hashing, and so saving, succeeds iff every path is missing or a file that can be read |
| SourceCache.FirstFailureNamed | internal/platform/refdata/cache.go:122-132 | otherwise the first other path is reported, with what failed on it |
| SourceCache.HashSourcesExact | internal/platform/refdata/cache.go:119-143 | the fingerprints are sorted, one for each listed path that exists, with its time, size and hash, and no others |
| SourceCache.AtMostExactly | internal/platform/refdata/cache.go:140 | sorted means in byte order: a beginning of the other, or smaller at the first difference |
| SourceCache.VerifySources | internal/platform/refdata/cache.go:145-180 | the table, counter and early exits decide acceptance |
| SourceCache.ComputeHashSources | internal/platform/refdata/cache.go:119-143 | the loop skips missing files and stops at the first failing one |
| SourceCache.Load | internal/platform/refdata/cache.go:46-77 | a value is returned iff the file decodes and its sources are accepted |
| SourceCache.SaveThenLoad | internal/platform/refdata/cache.go:79-117 | saved and checked with unchanged files, the value is accepted |
| ReloadGuard.RunInv | internal/platform/refdata/reload_guard.go:25-83 | the invariant holds in every state any interleaving reaches |
| ReloadGuard.OneLoader | internal/platform/refdata/reload_guard.go:29-39 | at most one loader runs, and nobody else is past TryLock meanwhile |
| ReloadGuard.QuiescentState | internal/platform/refdata/reload_guard.go:50-53 | with nothing in flight the snapshot is the last published value and the error that of the last report |
| ReloadGuard.EmptyErrorExactly | internal/platform/refdata/reload_guard.go:70-83 | when lastError is empty, attempt by attempt |
| ReloadGuard.AttemptEffect | internal/platform/refdata/reload_guard.go:28-53 | an unsuccessful attempt leaves the snapshot it found, a successful one its own value |
| ReloadGuard.OthersChangeNothing | internal/platform/refdata/reload_guard.go:29-31 | a conflict changes nothing |
| ReloadGuard.InFlight | internal/platform/refdata/reload_guard.go:50-51 | what readers see during a reload, action by action |
| ReloadGuard.Guard.Reload | internal/platform/refdata/reload_guard.go:28-54 | an undisturbed call is the run of its actions and returns and records what its loader makes of it, text by text; a conflict leaves the guard as it is |
| AccessConfig.CheckRoles | server/config/access.go:233-261 | the checks on a role list accept exactly the valid ones, and a complaint holds of the entry |
| AccessConfig.ValidateAccessConfig | server/config/access.go:205-264 | validation passes exactly on valid configurations, and a complaint holds of some entry |
| AccessConfig.MergeAccessConfigs | server/config/access.go:149-174 | panics exactly on a shared action or a write to a nil group, naming one, otherwise returns the disjoint union in new maps, modifying neither input |
| AccessConfig.EmptyRootGroupPanics | server/config/access.go:152-167 | the second kind of panic happens without a duplicate action |
| RouteRegistry.ParseTagInverse | internal/platform/routes/registry.go:171-178 | parseTag and group + "." + action are inverse on non-empty dot-free names, and everything else is refused |
| RouteRegistry.TagDeterminesPair | internal/platform/routes/registry.go:193-194 | a tag built from a configured pair parses, if at all, to that pair |
| RouteRegistry.DecisionsAgree | internal/platform/routes/registry.go:95-138 | for an accepted configuration per-address limiting, public mounting, the key gate and Admin-only mounting are decided alike, by the names and tags of the entry |
| RouteRegistry.RoleMountExactly | internal/platform/routes/registry.go:113-169 | a gated mount carries one role for each configured name, in order, asks for verification iff neither Public nor Member is among them, is unrestricted iff tagged so, and hidden as asked |
| RouteRegistry.MemberAndVerified | server/config/access.go:49-57 | a Member entry lets in every logged-in account, a Verified one the verified ones |
| RouteRegistry.MountsExactly | internal/platform/routes/registry.go:95-168 | which accepted entries are mounted for roles, and exactly when a missing role list, an unknown role or a missing key gate panics |
| RouteRegistry.MountedWithoutEntry | internal/platform/routes/registry.go:90-101 | the admin group is Admin-only whatever is configured, and other tags are left to any account iff they are not configured |
| RouteRegistry.GatedExactly | internal/platform/routes/registry.go:90-101 | a tag is gated iff it is a group and an action and either the group is Admin or the pair is configured |
| RouteRegistry.Registry.Wrap | internal/platform/routes/registry.go:81-120 | records the route and mounts it as decided; registered and ungated stay functions of the recorded routes |
| RouteRegistry.Registry.MountConfigured | internal/platform/routes/registry.go:95-138 | the branches for a configured entry compute the decision |
| RouteRegistry.Registry.Finalize | internal/platform/routes/registry.go:188-219 | returns normally iff every route is in the admin group or configured and every configured pair outside ThemePages was registered; otherwise names exactly the offenders |
| Csrf.VerifiesExactly | internal/platform/security/csrf.go:114-125 | a token verifies iff it is a non-empty dot-free text, a dot and the text of its MAC |
| Csrf.SignatureBinds | internal/platform/security/csrf.go:114-125 | a signature that verifies beside one text and secret verifies beside another text or secret iff the MACs coincide |
| Csrf.BytesOfInjective | internal/platform/security/csrf.go:107-109 | texts of single bytes are signed as different messages if they differ |
| Csrf.MintedTokensDiffer | internal/platform/security/csrf.go:99-112 | tokens minted from different random bytes differ |
| Csrf.MintedVerifies | internal/platform/security/csrf.go:99-125 | a minted token verifies under the same secret |
| Csrf.SessionTokenIsNotAnonymous | internal/platform/security/csrf.go:77-82 | a session-bound token never verifies as an anonymous one |
| Csrf.DecodeEncode | internal/platform/security/csrf.go:105-109 | the unpadded base64url text determines the bytes |
| Csrf.VectorFooba | internal/platform/security/csrf.go:105-109 | a test vector of RFC 4648 |
| Csrf.VectorUrlSafe | internal/platform/security/csrf.go:105-109 | the two letters in which the URL-safe alphabet differs |
| Csrf.AnonymousTokenIsStable | internal/platform/security/csrf.go:76-97 | the token in a page is the one expected of every later request without session, whatever lies between |
| Csrf.LogoutChangesToken | internal/platform/security/csrf.go:76-97 | after the session ends its token is no longer expected |
| Csrf.SessionTokens | internal/platform/security/csrf.go:77-82 | two sessions expect the same token iff their fingerprints share a MAC |
| Csrf.PageTokenIsAccepted | internal/platform/security/csrf.go:45-73 | with a session or without, a later request is let through with the page's token iff its method is safe or it posts that token back in header or form |
| Csrf.HeaderlessPassesExactly | internal/platform/security/csrf.go:168-184 | without the header an unsafe request passes iff it is a POST, PUT or PATCH with the token in a url-encoded body; no multipart form does |
| Csrf.HeaderDecides | internal/platform/security/csrf.go:168-171 | a header decides alone: an unsafe request with a wrong one is refused even if its form is right |
| Csrf.UnsafeIsRefused | internal/platform/security/csrf.go:62-67 | a POST, PUT, PATCH or DELETE without the expected token, or of which none is expected, is refused |
| Csrf.MintsExactly | internal/platform/security/csrf.go:84-139 | a request without session and valid token is given a new one unless a page of another site makes it in the background, and then nothing unsafe passes |
| Csrf.CookieExactly | internal/platform/security/csrf.go:52-60 | the cookie is set iff a token is expected that the browser does not hold yet |
| Csrf.OtherSessionIsRefused | internal/platform/security/csrf.go:45-73 | the token of another session's page is accepted iff the sessions share a MAC |
| Csrf.ResponseWriter.ServeHTTP | internal/platform/security/csrf.go:45-73 | the handler sets the cookie and the outcome of Handle |
| Csrf.ResponseWriter.EnsureCSRFCookie | internal/platform/security/csrf.go:149-166 | a cookie is set iff the request does not already carry the token |

## Left out

- YAML parsing and the MappingValueNode case of `inferNode`: documents are trees of mappings, sequences, scalars and nulls.
- Finalize.ConfigFirstExactly: where another struct is called Config at some time, a root that has lost its name could be given it back; ConfigFirst then goes by the name in the end.
- Whether the generated Go compiles, for instance when a struct contains itself by value, and which field names Go exports: every written field counts as readable.
- Conversions the YAML decoder makes between kinds of scalars: a value is read into the type of its own kind only.
- `smaller.Fields = larger.Fields` shares a backing array in Go; field lists are values here, and no pass writes into them afterwards.
- Text emission, padding, file scanning and file writing of themegen.
- Token-bucket arithmetic, HTTP middleware around the limiter, key resolution and client addresses.
- Locks around the bucket store: each public method is one atomic step.
- Integer width: times, counters and sizes are unbounded.
- FNV, SHA-256 and HMAC internals, gob encoding, temporary files, and file changes between stat, hash and parse.
- Handlers, session checks and duplicate patterns of the HTTP mux; a mount is its decision only.
- YAML decoding of access entries, and the order in which panics of several bad entries are found.
- Cookie expiry, cookie parsing, body parsing and body limits in the CSRF check: the form value is a parameter.
