# Completion context in elvish's line editor

This project models `pkg/edit/complete/node_utils.go`, the part of elvish's
completer that decides what the cursor is in. It has four parts:

- **Path finding** (`findNodePath`). Walk down the parse tree from a root to
  the leaf whose closed range `[From, To]` contains the cursor. At each level,
  take the first covering child. Then walk the parent links back up and
  return the chain of nodes, leaf first. If a node with children has no
  covering child, return nil.
- **Matcher combinators** (`nodePath.match`, `typed`, `store`). A matcher
  consumes a prefix of such a path. A type matcher checks the kind of the
  head node. A store matcher also writes that node into a variable owned by
  the caller. A sequence of matchers is applied left to right, each to what
  the previous one left.
- **The simple-primary matcher and its sibling lookup**
  (`simplePrimaryMatcher.match`, `primaryInSimpleCompound`). Both recognise
  Primary → Indexing → Compound. Both ask a pure evaluator for the
  compound's value up to the end of the Indexing.
- **Argument words** (`purelyEvalForm`). The words of a command form are:
  - the head;
  - each argument that starts before a cut-off offset and evaluates without
    side effects;
  - then the seed being completed.

Modules:

- `SyntaxTree` (syntax_tree.dfy) is the parse tree as this code sees it.
  Nodes are numbered. Each node has a kind, a range and children. The kind
  stands for the node's Go type: the types the completer names, and any
  other type by its name. A parent map completes the tree. `Tree.Valid`
  states the well-formedness this model relies on:
  - parent and child links are inverse (the parser provides this);
  - a child's number exceeds its parent's. This is the model's own encoding,
    a preorder numbering, and it makes the tree acyclic.
- `NodePath` (node_path.dfy) holds `findNodePath`. It is a method with the
  labelled descent loop and the upward walk. It is proved equal to the ghost
  specification `NodePath`, which is built from `Descend` and
  `Tree.UpChain`.
- `PureEval` (pure_evaler.dfy) is the `PureEvaler` interface. An evaluator is
  a pair of total functions passed in by the caller.
- `Matchers` (matchers.dfy) has the following:
  - Store slots are the class `Slot`. The simple-primary matcher is the class
    `SimplePrimaryMatcher`, with the fields its `match` sets.
  - `nodePath.match` is the method `MatchPath`. It is proved against the pure
    fold `Run` for the result, and against `SlotAfter`/`CapturedAfter` for the
    state it leaves behind.
- `FormWords` (form_words.dfy) holds `purelyEvalForm`, a method with the
  early-exit loop. It is proved against `Cutoff` and `Evaluable`.
- `Scenarios` (scenarios.dfy) has worked examples on a concrete tree for a
  three-word command.

Some consequences of the code worth stating outright:

- The head word of a form is evaluated with end offset -1, which
  `pkg/edit/complete/node_utils.go:153` passes to the evaluator. What that
  offset means is up to the evaluator.
- `findNodePath` never checks the root's own range
  (`pkg/edit/complete/node_utils.go:37-45`). A root without children yields
  `[root]` whatever the offset; `FindNodePath` states this.
- The descent commits to the first covering child
  (`pkg/edit/complete/node_utils.go:38-41`). So the path can be nil even
  though some leaf covers the offset: a first covering child may have no
  covering child of its own while a later sibling, whose range touches it,
  leads to a covering leaf.

  `FindsLeafAtCursor` states what does hold: when ranges nest and siblings do
  not overlap, an offset after a leaf's start and up to its end gives that
  leaf's chain.

## Model

| member | source | states |
|---|---|---|
| SyntaxTree.Tree.UpChain | pkg/edit/complete/node_utils.go:46-54 | the chain from a node up to an ancestor starts at the node, ends at the ancestor and stays in the tree |
| SyntaxTree.UpChainLinked | pkg/edit/complete/node_utils.go:46-54 | each element of that chain after the first is the parent of the one before, and the elements strictly decrease, so the chain has no repeats |
| SyntaxTree.UpChainThroughParent | pkg/edit/complete/node_utils.go:46-54 | the chain up to a node's parent is the chain up to the node, then the parent |
| SyntaxTree.DescendantRangeWithin | pkg/edit/complete/node_utils.go:37-43 | when child ranges lie within their parent's, a descendant's range lies within every ancestor's |
| NodePath.FirstCovering | pkg/edit/complete/node_utils.go:38-43 | the child picked by the inner loop is one of the children and its closed range contains the offset |
| NodePath.FirstCoveringIsFirst | pkg/edit/complete/node_utils.go:38-43 | the child picked is the first covering one in child order; none is picked exactly when no child covers the offset |
| NodePath.FirstCoveringAt | pkg/edit/complete/node_utils.go:38-43 | conversely, the first covering child in order is the one picked |
| NodePath.NodePath | pkg/edit/complete/node_utils.go:34-55 | the value findNodePath returns: when not nil, a path of nodes of the tree that starts at a leaf and ends at the root |
| NodePath.Descend | pkg/edit/complete/node_utils.go:36-45 | the descent ends at a descendant of the start: a leaf when it is reached, a node with children when it gets stuck |
| NodePath.DescendStuck | pkg/edit/complete/node_utils.go:37-44 | the descent gets stuck only at a node with children, none of which covers the offset |
| NodePath.DescendCovers | pkg/edit/complete/node_utils.go:36-45 | every node the descent enters covers the offset; the starting node is never checked |
| NodePath.FindNodePath | pkg/edit/complete/node_utils.go:34-55 | the labelled descent and the upward walk return the ancestor chain of the leaf reached, or nil when the descent gets stuck; a root with no children gives `[root]` |
| NodePath.AncestorPath | pkg/edit/complete/node_utils.go:46-54 | appending each node while following parent links until the root collects exactly the chain from the leaf up to the root |
| NodePath.NodePathShape | pkg/edit/complete/node_utils.go:34-55 | a non-nil path starts at a leaf, ends at the root, links each element to its parent, and every element except the root covers the offset |
| NodePath.NodePathNil | pkg/edit/complete/node_utils.go:37-44 | the path is nil exactly when the descent reaches a node with children of which none covers the offset; that node lies below the root on a chain of covering nodes |
| NodePath.FindsLeafAtCursor | pkg/edit/complete/node_utils.go:34-55 | when ranges nest and siblings do not overlap, an offset after a leaf's start and up to its end yields that leaf's chain up to the root |
| Matchers.TypeMatch | pkg/edit/complete/node_utils.go:62-67 | a successful type match consumes exactly the head of a non-empty path |
| Matchers.Is | pkg/edit/complete/node_utils.go:15-17 | `is(a, b)` holds exactly when the type matcher for b's type accepts the one-node path `[a]`: it is the type test `typed` applies |
| Matchers.TypedMatchesIs | pkg/edit/complete/node_utils.go:60-67 | `typed(n)` accepts a path exactly when it is non-empty and its head `is` of n's type; in particular an empty path is rejected |
| Matchers.Slot.constructor | pkg/edit/complete/node_utils.go:86-89 | a slot stands for the caller's variable of one node type handed to `store`; it starts empty as such a variable does at its zero value, and `store` itself never clears it |
| Matchers.Slot.Match | pkg/edit/complete/node_utils.go:91-97 | a store match succeeds exactly when a type match would; on success the slot holds the head node and the tail is returned; on failure the result is nil and the slot is unchanged |
| Matchers.SimplePrimaryMatcher.constructor | pkg/edit/complete/node_utils.go:106-108 | `simplePrimaryExpr` keeps the evaluator and records nothing yet |
| Matchers.SimplePrimaryMatcher.Match | pkg/edit/complete/node_utils.go:110-132 | the match fails on fewer than three nodes, on kinds other than Primary, Indexing, Compound, and on an evaluation that is not ok, leaving the fields unchanged; on success it consumes three nodes and records the Primary, the Compound and the value up to the Indexing's end |
| Matchers.SimplePrimaryAsTypedSequence | pkg/edit/complete/node_utils.go:110-132 | the simple-primary matcher accepts exactly what aPrimary, aIndexing, aCompound accept in sequence, given a successful evaluation |
| Matchers.SimplePrimaryConsume | pkg/edit/complete/node_utils.go:110-131 | the remainder of simplePrimaryMatcher.match: it fails on fewer than three nodes, and on success the head is a Primary and exactly three nodes are consumed |
| Matchers.CaptureOf | pkg/edit/complete/node_utils.go:130 | what a successful simple-primary match records, given that the match succeeded: a node of kind Primary and a node of kind Compound, both taken from the path and lying in the tree |
| Matchers.Consume | pkg/edit/complete/node_utils.go:9-11 | a successful matcher returns the path without its first one node (type and store matchers) or three nodes (simple-primary matcher) |
| Matchers.Run | pkg/edit/complete/node_utils.go:21-30 | the remainder after a sequence of matchers stays inside the tree |
| Matchers.SlotAfter | pkg/edit/complete/node_utils.go:21-30 | the value a slot holds after a sequence of matchers: its old value, or a node of the matched path |
| Matchers.CapturedAfter | pkg/edit/complete/node_utils.go:21-30 | the fields of a simple-primary matcher after a sequence: unchanged, or a node of kind Primary and a node of kind Compound, both taken from the matched path |
| Matchers.MatchPath | pkg/edit/complete/node_utils.go:21-30 | `nodePath.match` reports success exactly when the sequence fold succeeds, succeeds with no matchers, and leaves every slot and simple-primary matcher as the fold of the matchers that ran prescribes |
| Matchers.RunAppend | pkg/edit/complete/node_utils.go:21-30 | running two sequences one after the other is running their concatenation |
| Matchers.SlotAfterAppend | pkg/edit/complete/node_utils.go:21-30 | the same for the value a slot holds |
| Matchers.CapturedAfterAppend | pkg/edit/complete/node_utils.go:21-30 | the same for the fields of a simple-primary matcher |
| Matchers.RunSucceedsIffEveryStep | pkg/edit/complete/node_utils.go:21-30 | a sequence succeeds exactly when every matcher succeeds on the remainder its predecessors left |
| Matchers.RunStopsAtFailure | pkg/edit/complete/node_utils.go:22-26 | at the first failing matcher the sequence fails, and neither it nor any later matcher changes a slot or a simple-primary matcher |
| Matchers.RunConsumes | pkg/edit/complete/node_utils.go:21-30 | a successful sequence consumes exactly the sum of its matchers' widths |
| Matchers.SlotUntouched | pkg/edit/complete/node_utils.go:91-97 | a slot that no store matcher of the sequence names keeps its value |
| Matchers.CapturedUntouched | pkg/edit/complete/node_utils.go:110-132 | a simple-primary matcher not in the sequence keeps its fields |
| Matchers.StoreRecordsNode | pkg/edit/complete/node_utils.go:91-97 | after a successful sequence, a slot holds the node at the offset where the last store matcher naming it ran |
| Matchers.PrimaryInSimpleCompound | pkg/edit/complete/node_utils.go:134-148 | the result is nil with an empty string, or the Compound that is the immediate parent of the Primary's immediate Indexing parent |
| Matchers.PrimaryLookupAgreesWithMatcher | pkg/edit/complete/node_utils.go:110-148 | on a path from a Primary along its parent links, the lookup succeeds exactly when the simple-primary matcher does, and returns the Compound and value the matcher records |
| FormWords.Cutoff | pkg/edit/complete/node_utils.go:155-158 | the number of leading arguments that start before `upto`: all of them start before it, and the next one, if any, does not |
| FormWords.Evaluable | pkg/edit/complete/node_utils.go:159-162 | the purely evaluable compounds contribute at most one word each |
| FormWords.PurelyEvalForm | pkg/edit/complete/node_utils.go:150-167 | the words are the head evaluated with end -1, then the values of the evaluable arguments before the cutoff in order, then the seed. There are between 2 and the argument count plus 2 words. A failed head gives "" when the evaluator yields "" on failure |
| FormWords.EvaluableAppend | pkg/edit/complete/node_utils.go:155-163 | argument words keep source order: the words of a concatenation are the concatenated words |
| FormWords.EvaluableWords | pkg/edit/complete/node_utils.go:159-162 | a string is among the words exactly when some argument evaluates to it successfully; failed arguments are skipped, not replaced |
| FormWords.EvaluableAllOk | pkg/edit/complete/node_utils.go:159-162 | when every argument evaluates, the words are their values position by position |
| FormWords.CutoffMonotone | pkg/edit/complete/node_utils.go:156-158 | a later `upto` never cuts off more arguments |
| FormWords.WordsGrowWithCursor | pkg/edit/complete/node_utils.go:155-163 | the argument words for an earlier `upto` are a prefix of those for a later one |
| Scenarios.CommandLine | pkg/edit/complete/node_utils.go:34-55 | the example tree for a three-word command is well formed |
| Scenarios.PathAtEndOfBa | pkg/edit/complete/node_utils.go:34-55 | in `echo foo ba`, with the cursor at the end, the path runs from the Primary of `ba` up to the Chunk |
| Scenarios.SimplePrimaryOnBa | pkg/edit/complete/node_utils.go:110-132 | on that path the simple-primary matcher consumes three nodes and records "ba" |
| Scenarios.WordsOfEchoFooBa | pkg/edit/complete/node_utils.go:150-167 | the words before `ba` with seed "ba" are echo, foo, ba |
| Scenarios.EchoVariableSkipped | pkg/edit/complete/node_utils.go:150-167 | on the same tree with the middle word unevaluable (as `$x` would be) and seed "fo", the middle word is skipped, giving echo, fo |
| Scenarios.CursorPastEnd | pkg/edit/complete/node_utils.go:37-44 | an offset past the end of the input gives a nil path, on which any non-empty matcher sequence fails |

## Left out

- Reflection (`reflect.TypeOf`, `reflect.Value.Set`): a node's dynamic type
  is its `Kind`. Types the completer does not name are `Other` with the
  type's name. A store target is a `Slot` object whose constant kind stands
  for the static type of the Go variable.
- The parse package (`parse.Children`, `parse.Parent`, `Range`, the node
  structs): the tree is an abstract well-formed `Tree`. `parse.Parent`
  returning nil for the root is a missing entry in the parent map.
- The `PureEvaler` implementation is not part of this model. Evaluators are
  arbitrary pairs of total functions.
- FormWords.PurelyEvalForm: that a failed head evaluation yields "" is a
  property of the evaluator, not of this code. It is stated only for
  evaluators satisfying `EmptyOnFailure`.
- Matchers.MatchPath: Go's variadic `...matcher` is a sequence of the three
  matcher kinds of this file. Other implementations of the `matcher`
  interface elsewhere in the package are not part of this model.
- The package-level matchers `aChunk` … `aSep` are constants `AChunk` …
  `ASep` with nothing further to state.
- Go's nil path and nil remainder are the empty sequence. They are never
  told apart from an empty non-nil slice, which the code does not do either.
