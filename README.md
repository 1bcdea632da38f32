# Game history timeline indexing

This project models the core of TripleA's game history (`History.java`). The
history keeps two things side by side. One is a tree: root, rounds, steps,
events, and event children. The other is the flat, ordered log of every
change the game made. On these it answers three questions:

- which node is the most recent one (`getLastNode`);
- where a node sits in the change log (`getLastChange`);
- which change takes the game from one node to another (`getDelta`).

The tree is an arena: a sequence of nodes whose entry 0 is the root. Parent
and child links are arena indices. A child always has a larger arena index
than its parent, because it is created later; this keeps the tree acyclic.
A recorded index of `-1` means "not set yet" and is read as the current
length of the change log. A single change is opaque (type parameter `C`).
A delta is `NoOp` (the Java `null`), `Forward(cs)` (a composite change) or
`Inverted(cs)` (that composite, inverted). A slice with bounds outside the
log is an error, `IndexOutOfBounds`, and is never clamped.

Files:

- `wrappers.dfy`: `Option` and `Result`.
- `history.dfy`: module `History`. It holds the data model, the three queries,
  and the lemmas about them.
- `delta_semantics.dfy`: module `DeltaSemantics`. It states what a delta does
  to a game state, given the effect of a change (`apply`) and of its inverse
  (`undo`). A composite applies its changes in log order. Its inverse undoes
  them in reverse order. The module proves that the delta between two nodes
  takes the state at the first node to the state at the second, and that
  going there and back restores any state.

A round or step whose start index is still `-1` resolves to the current log
length, like an open event: `History.java:86-88` replaces `-1` whatever the
node kind is, and so does `GetLastChange`. Only `-1` is a sentinel in the
code. Any other negative recorded index reaches `subList` and fails there,
and the model returns `IndexOutOfBounds` for it, unless the other node
resolves to the same value, in which case the delta is the no-op.

## Model

| member | source | states |
|---|---|---|
| History.NewHistory | src/games/strategy/engine/history/History.java:46-49 | a new history is a well-formed tree holding only the root, with an empty change log |
| History.FreshHistoryLastNodeIsRoot | src/games/strategy/engine/history/History.java:46-66 | on a freshly built history the last node is the root |
| History.LastChild | src/games/strategy/engine/history/History.java:61-66 | the descent from a node ends at a node without children, at or after it in creation order |
| History.GetLastNode | src/games/strategy/engine/history/History.java:56-59 | the most recent node has no children |
| History.Descent | src/games/strategy/engine/history/History.java:61-66 | the descent from a node follows a path that takes the last child at every step and ends at a childless node |
| History.ChainEndsAtLastChild | src/games/strategy/engine/history/History.java:61-66 | every such last-child path ends at the node the descent returns, so that node is unique |
| History.LastNodeIsEndOfRootChain | src/games/strategy/engine/history/History.java:56-66 | the last node is exactly the end of the last-child path from the root |
| History.GetLastChange | src/games/strategy/engine/history/History.java:73-89 | the root sits at 0; a recorded `-1` of any node kind reads as the log length; the sentinel never escapes; with recorded indices in range the position lies in the log |
| History.EventResolvesToEndIndex | src/games/strategy/engine/history/History.java:78-88 | a non-root event sits at its end index, or at the log length while that index is `-1` |
| History.RoundOrStepResolvesToStartIndex | src/games/strategy/engine/history/History.java:83-88 | a non-root round or step sits at its start index, or at the log length while that index is `-1` |
| History.EventChildResolvesToParent | src/games/strategy/engine/history/History.java:78-82 | an event child sits at the same log position as its parent event |
| History.SubList | src/games/strategy/engine/history/History.java:99 | the slice holds exactly the log entries from `from` up to `to`, in order, and fails, unclamped, when a bound lies outside the log |
| History.GetDelta | src/games/strategy/engine/history/History.java:91-112 | no-op exactly when both positions are equal; an error exactly when they differ and one lies outside the log; forward over the slice between them when moving later, inverted over the same slice when moving earlier |
| History.DeltaToSelfIsNoOp | src/games/strategy/engine/history/History.java:93-97 | the delta from a node to itself is the no-op |
| History.DeltaReversed | src/games/strategy/engine/history/History.java:99-109 | the delta from b to a uses the same slice as from a to b with the opposite orientation, and fails exactly when it does |
| History.DeltaDefinedWhenIndicesInRange | src/games/strategy/engine/history/History.java:86-99 | when every recorded index is `-1` or a log position, the delta between any two nodes exists |
| History.ResolveAfterAppend | src/games/strategy/engine/history/History.java:86-88 | after changes are appended, a node holding the sentinel (an open event) moves with the end of the log and every other node keeps its position |
| History.DeltaStableUnderAppend | src/games/strategy/engine/history/History.java:91-112 | the delta between two nodes with fixed positions does not change when changes are appended |
| History.DeltaFromRootToOpenEvent | src/games/strategy/engine/history/History.java:76-109 | from the root to an open event the delta is the whole log applied forward |
| History.RoundToClosedEventScenario | src/games/strategy/engine/history/History.java:56-109 | in a round holding a step and an event closed at 4, the event is the last node, the delta round-to-event is the first four changes forward, and event-to-round is those inverted |
| DeltaSemantics.UndoAfterApply | src/games/strategy/engine/history/History.java:101-108 | the inverted composite undoes the composite, when each change is undone by its inverse |
| DeltaSemantics.ApplyAfterUndo | src/games/strategy/engine/history/History.java:101-108 | the composite undoes the inverted composite, when each inverse is undone by its change |
| DeltaSemantics.DeltaReachesTarget | src/games/strategy/engine/history/History.java:91-112 | applied to the state at the start node's log position, the delta gives the state at the end node's position, in either direction |
| DeltaSemantics.DeltaRoundTrip | src/games/strategy/engine/history/History.java:91-112 | applying the delta from a to b and then the delta from b to a leaves any state as it was |

## Left out

- The Swing tree model the history extends, its tree-model events and Java serialization: they bind the tree to the user interface and to storage.
- `HistoryWriter` and `getHistoryWriter`: the writer that adds nodes and changes is not part of this model. `History.AppendChanges` stands in for its appending changes, and `History.WellFormed` states the tree shape it keeps.
- `getChanges`: a plain accessor for the log, which is the `changes` field of the model.
- `GameData`: the constructor ignores it.
- What a change does to the game and how `CompositeChange.invert()` is built: `CompositeChange` is not part of this model. The delta keeps its orientation as a tag. `DeltaSemantics` reads a composite as applying its changes in order and its inverse as undoing them in reverse order, with the effect of a change given as a parameter.
- Class-cast failures (a non-root bare node, an event child whose parent is not an event) are excluded by the precondition `History.Resolvable` rather than modelled as errors.
- Java's 32-bit `int`: indices are unbounded integers. A log longer than `Integer.MAX_VALUE` entries cannot exist, and no arithmetic on indices here can overflow.
- Node names other than the root's and the node-allows-children flag: nothing in the core reads them.
