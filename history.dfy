/** The game history: a tree of nodes (root, round, step, event, event child)
    kept beside the flat, ordered log of every change the game made, and the
    three queries over them: the most recent node, the position of a node in
    the change log, and the change that moves the game from one node to
    another. */
module History {
  import opened Wrappers

  /** The node classes the history tree is built from. `Plain` is a bare
      history node: the root is one. Rounds, steps and events are indexed
      nodes (they record a start index); an event also records an end index;
      an event child records nothing and takes its position from its parent. */
  datatype Kind = Plain | Round | Step | Event | EventChild

  /** The value `-1` stored as an index means "not set yet": it is read as
      the current length of the change log. */
  const Unset: int := -1

  /** A node of the tree. Nodes live in an arena and refer to each other by
      their arena index. `startIndex` is meaningful for rounds, steps and
      events, `endIndex` for events only. */
  datatype Node = Node(
    name: string,
    kind: Kind,
    parent: Option<nat>,
    children: seq<nat>,
    startIndex: int,
    endIndex: int)

  /** The tree (as an arena whose entry 0 is the root) and the change log.
      `C` is the type of a single recorded change, left opaque. */
  datatype History<C> = History(nodes: seq<Node>, changes: seq<C>)

  const Root: nat := 0

  /** The tree shape the history writer maintains: a root of the plain kind
      without a parent, every other node below an earlier node, and child
      lists that agree with the parent links. Children always have a larger
      arena index than their parent (they are created after it), which
      makes the tree acyclic. */
  ghost predicate WellFormed<C>(h: History<C>)
  {
    && |h.nodes| > 0
    && h.nodes[Root].kind == Plain
    && h.nodes[Root].parent == None
    && (forall n :: 0 < n < |h.nodes| ==> h.nodes[n].parent.Some? && h.nodes[n].parent.value < n)
    && (forall n, k :: 0 <= n < |h.nodes| && 0 <= k < |h.nodes[n].children| ==>
          n < h.nodes[n].children[k] < |h.nodes| &&
          h.nodes[h.nodes[n].children[k]].parent == Some(n))
  }

  function Last(s: seq<nat>): nat
    requires |s| > 0
  {
    s[|s| - 1]
  }

  /** A freshly constructed history: only the root, named "Game History",
      and an empty change log. */
  function NewHistory<C>(): (h: History<C>)
    ensures WellFormed(h)
    ensures |h.nodes| == 1 && h.nodes[Root].children == [] && h.changes == []
  {
    History([Node("Game History", Plain, None, [], Unset, Unset)], [])
  }

  // ----- The most recent node -----

  /** Descends from `n` to its last child, then to that node's last child,
      and so on, until a node without children. */
  function LastChild<C>(h: History<C>, n: nat): (r: nat)
    requires WellFormed(h) && n < |h.nodes|
    ensures n <= r < |h.nodes|
    ensures h.nodes[r].children == []
    decreases |h.nodes| - n
  {
    if |h.nodes[n].children| == 0 then n
    else LastChild(h, Last(h.nodes[n].children))
  }

  /** The most recent point in the recorded history. */
  function GetLastNode<C>(h: History<C>): (r: nat)
    requires WellFormed(h)
    ensures r < |h.nodes| && h.nodes[r].children == []
  {
    LastChild(h, Root)
  }

  /** `p` is a path that takes the last child at every step and stops at the
      first node that has no children. */
  ghost predicate IsLastChildChain<C>(h: History<C>, p: seq<nat>)
  {
    && |p| > 0
    && (forall i :: 0 <= i < |p| ==> p[i] < |h.nodes|)
    && (forall i :: 0 <= i < |p| - 1 ==>
          h.nodes[p[i]].children != [] && p[i + 1] == Last(h.nodes[p[i]].children))
    && h.nodes[p[|p| - 1]].children == []
  }

  /** The path the descent takes from `n`. */
  ghost function Descent<C>(h: History<C>, n: nat): (p: seq<nat>)
    requires WellFormed(h) && n < |h.nodes|
    ensures IsLastChildChain(h, p)
    ensures p[0] == n && p[|p| - 1] == LastChild(h, n)
    decreases |h.nodes| - n
  {
    if |h.nodes[n].children| == 0 then [n]
    else
      var rest := Descent(h, Last(h.nodes[n].children));
      assert forall i :: 0 < i < |[n] + rest| ==> ([n] + rest)[i] == rest[i - 1];
      [n] + rest
  }

  /** Every last-child chain ends where the descent from its first node
      ends: the descent is the only such path. */
  lemma {:induction false} ChainEndsAtLastChild<C>(h: History<C>, p: seq<nat>)
    requires WellFormed(h) && IsLastChildChain(h, p)
    ensures p[|p| - 1] == LastChild(h, p[0])
    decreases |p|
  {
    if |p| > 1 {
      var q := p[1..];
      assert forall i :: 0 <= i < |q| ==> q[i] == p[i + 1];
      assert IsLastChildChain(h, q);
      ChainEndsAtLastChild(h, q);
    }
  }

  /** `GetLastNode` returns exactly the node reached from the root by taking
      the last child at every level. */
  lemma LastNodeIsEndOfRootChain<C>(h: History<C>)
    requires WellFormed(h)
    ensures var p := Descent(h, Root); p[0] == Root && p[|p| - 1] == GetLastNode(h)
    ensures forall p :: IsLastChildChain(h, p) && p[0] == Root ==> p[|p| - 1] == GetLastNode(h)
  {
    forall p | IsLastChildChain(h, p) && p[0] == Root
      ensures p[|p| - 1] == GetLastNode(h)
    {
      ChainEndsAtLastChild(h, p);
    }
  }

  /** On a history that has just been created the last node is the root. */
  lemma FreshHistoryLastNodeIsRoot<C>()
    ensures GetLastNode(NewHistory<C>()) == Root
  {
  }

  // ----- Position of a node in the change log -----

  /** The nodes `GetLastChange` can be asked about without a class-cast
      failure: the root, an indexed node (round, step, event), or an event
      child whose parent is an event. */
  predicate Resolvable<C>(h: History<C>, n: nat)
  {
    && n < |h.nodes|
    && (|| n == Root
        || h.nodes[n].kind in {Round, Step, Event}
        || (&& h.nodes[n].kind == EventChild
            && h.nodes[n].parent.Some?
            && h.nodes[n].parent.value < |h.nodes|
            && h.nodes[h.nodes[n].parent.value].kind == Event))
  }

  /** The index a node has recorded, before the `-1` sentinel is replaced. */
  function RecordedIndex<C>(h: History<C>, n: nat): int
    requires Resolvable(h, n)
  {
    if n == Root then 0
    else if h.nodes[n].kind == Event then h.nodes[n].endIndex
    else if h.nodes[n].kind == EventChild then h.nodes[h.nodes[n].parent.value].endIndex
    else h.nodes[n].startIndex
  }

  /** Every index the tree records is either the sentinel or a position in
      the change log. */
  ghost predicate IndicesInRange<C>(h: History<C>)
  {
    forall n :: 0 <= n < |h.nodes| ==>
      && (h.nodes[n].startIndex == Unset || 0 <= h.nodes[n].startIndex <= |h.changes|)
      && (h.nodes[n].endIndex == Unset || 0 <= h.nodes[n].endIndex <= |h.changes|)
  }

  /** The position of node `n` in the change log. */
  function GetLastChange<C>(h: History<C>, n: nat): (r: int)
    requires Resolvable(h, n)
    ensures r != Unset
    ensures n == Root ==> r == 0
    ensures RecordedIndex(h, n) == Unset ==> r == |h.changes|
    ensures RecordedIndex(h, n) != Unset ==> r == RecordedIndex(h, n)
    ensures IndicesInRange(h) ==> 0 <= r <= |h.changes|
  {
    var recorded := RecordedIndex(h, n);
    if recorded == Unset then |h.changes| else recorded
  }

  /** A non-root event sits at its end index, or at the end of the log while
      that index is still `-1`. */
  lemma EventResolvesToEndIndex<C>(h: History<C>, n: nat)
    requires Resolvable(h, n) && n != Root && h.nodes[n].kind == Event
    ensures GetLastChange(h, n) ==
      if h.nodes[n].endIndex == Unset then |h.changes| else h.nodes[n].endIndex
  {
  }

  /** A non-root round or step sits at its start index, or at the end of the
      log while that index is still `-1`. */
  lemma RoundOrStepResolvesToStartIndex<C>(h: History<C>, n: nat)
    requires Resolvable(h, n) && n != Root && h.nodes[n].kind in {Round, Step}
    ensures GetLastChange(h, n) ==
      if h.nodes[n].startIndex == Unset then |h.changes| else h.nodes[n].startIndex
  {
  }

  /** An event child sits at the same position as the event above it. */
  lemma EventChildResolvesToParent<C>(h: History<C>, n: nat)
    requires WellFormed(h) && Resolvable(h, n)
    requires n != Root && h.nodes[n].kind == EventChild
    ensures Resolvable(h, h.nodes[n].parent.value)
    ensures GetLastChange(h, n) == GetLastChange(h, h.nodes[n].parent.value)
  {
  }

  // ----- The change between two nodes -----

  /** The change that moves the game from one node to another: nothing, the
      changes in between applied in order, or those changes undone. */
  datatype Delta<C> = NoOp | Forward(changes: seq<C>) | Inverted(changes: seq<C>)

  /** A slice of the change log with bounds outside it. */
  datatype DeltaError = IndexOutOfBounds(fromIndex: int, toIndex: int)

  function Min(a: int, b: int): int { if a <= b then a else b }
  function Max(a: int, b: int): int { if a <= b then b else a }

  /** The entries `[from, to)` of the log, in log order; a bound outside the
      log (or bounds in the wrong order) is an error and is never clamped. */
  function SubList<C>(log: seq<C>, from: int, to: int): (r: Result<seq<C>, DeltaError>)
    ensures r.Ok? <==> 0 <= from <= to <= |log|
    ensures r.Ok? ==> |r.value| == to - from
    ensures r.Ok? ==> forall k :: 0 <= k < |r.value| ==> r.value[k] == log[from + k]
    ensures r.Err? ==> r.error == IndexOutOfBounds(from, to)
  {
    if 0 <= from && from <= to && to <= |log| then Ok(log[from..to])
    else Err(IndexOutOfBounds(from, to))
  }

  /** The change from node `start` to node `end`. */
  function GetDelta<C>(h: History<C>, start: nat, end: nat): (r: Result<Delta<C>, DeltaError>)
    requires Resolvable(h, start) && Resolvable(h, end)
    ensures var i, j := GetLastChange(h, start), GetLastChange(h, end);
      && (r == Ok(NoOp) <==> i == j)
      && (r.Err? <==> i != j && (i < 0 || j < 0 || i > |h.changes| || j > |h.changes|))
      && (r.Ok? && r.value.Forward? <==> r.Ok? && i < j)
      && (r.Ok? && r.value.Forward? ==> r.value.changes == h.changes[i..j])
      && (r.Ok? && r.value.Inverted? ==> r.value.changes == h.changes[j..i])
  {
    var firstChange := GetLastChange(h, start);
    var lastChange := GetLastChange(h, end);
    if firstChange == lastChange then Ok(NoOp)
    else
      match SubList(h.changes, Min(firstChange, lastChange), Max(firstChange, lastChange))
      case Err(e) => Err(e)
      case Ok(changes) =>
        if lastChange >= firstChange then Ok(Forward(changes)) else Ok(Inverted(changes))
  }

  /** The same slice seen from the other end. */
  function Flip<C>(d: Delta<C>): Delta<C>
  {
    match d
    case NoOp => NoOp
    case Forward(cs) => Inverted(cs)
    case Inverted(cs) => Forward(cs)
  }

  /** From a node to itself there is nothing to do. */
  lemma DeltaToSelfIsNoOp<C>(h: History<C>, n: nat)
    requires Resolvable(h, n)
    ensures GetDelta(h, n, n) == Ok(NoOp)
  {
  }

  /** Going from `b` to `a` uses the same slice as going from `a` to `b`, in
      the opposite orientation; one fails exactly when the other does. */
  lemma DeltaReversed<C>(h: History<C>, a: nat, b: nat)
    requires Resolvable(h, a) && Resolvable(h, b)
    ensures GetDelta(h, a, b).Err? <==> GetDelta(h, b, a).Err?
    ensures GetDelta(h, a, b).Ok? ==> GetDelta(h, b, a) == Ok(Flip(GetDelta(h, a, b).value))
  {
  }

  /** On a history whose recorded indices all lie in the log, the delta
      between any two nodes exists. */
  lemma DeltaDefinedWhenIndicesInRange<C>(h: History<C>, a: nat, b: nat)
    requires Resolvable(h, a) && Resolvable(h, b) && IndicesInRange(h)
    ensures GetDelta(h, a, b).Ok?
  {
  }

  // ----- Growth of the log -----

  /** The history after the writer has appended `cs` to the change log and
      left the tree as it was. */
  function AppendChanges<C>(h: History<C>, cs: seq<C>): (h': History<C>)
    ensures |h'.changes| == |h.changes| + |cs|
    ensures h'.nodes == h.nodes && h'.changes[..|h.changes|] == h.changes
    ensures h'.changes == h.changes + cs
  {
    History(h.nodes, h.changes + cs)
  }

  /** A node that still holds the sentinel (an open event, say) moves with
      the end of the log; every other node keeps its position. */
  lemma ResolveAfterAppend<C>(h: History<C>, cs: seq<C>, n: nat)
    requires Resolvable(h, n)
    ensures Resolvable(AppendChanges(h, cs), n)
    ensures GetLastChange(AppendChanges(h, cs), n) ==
      if n != Root && RecordedIndex(h, n) == Unset then GetLastChange(h, n) + |cs|
      else GetLastChange(h, n)
  {
  }

  /** The delta between two nodes whose positions are fixed does not change
      when more changes are appended. */
  lemma DeltaStableUnderAppend<C>(h: History<C>, cs: seq<C>, a: nat, b: nat)
    requires Resolvable(h, a) && Resolvable(h, b)
    requires RecordedIndex(h, a) != Unset && RecordedIndex(h, b) != Unset
    requires GetDelta(h, a, b).Ok?
    ensures Resolvable(AppendChanges(h, cs), a) && Resolvable(AppendChanges(h, cs), b)
    ensures GetDelta(AppendChanges(h, cs), a, b) == GetDelta(h, a, b)
  {
    var h' := AppendChanges(h, cs);
    var i, j := GetLastChange(h, a), GetLastChange(h, b);
    assert GetLastChange(h', a) == i && GetLastChange(h', b) == j;
    if i < j {
      assert h'.changes[i..j] == h.changes[i..j];
    } else if j < i {
      assert h'.changes[j..i] == h.changes[j..i];
    }
  }

  /** From the root to an event that is still open is the whole log so far,
      applied forward. */
  lemma DeltaFromRootToOpenEvent<C>(h: History<C>, e: nat)
    requires WellFormed(h) && e < |h.nodes|
    requires h.nodes[e].kind == Event && h.nodes[e].endIndex == Unset
    requires |h.changes| > 0
    ensures GetDelta(h, Root, e) == Ok(Forward(h.changes))
  {
    assert h.changes[0..|h.changes|] == h.changes;
  }
  /** A five-change log under a round opened at position 0, holding one step
      and one event that covers positions 2 to 4. */
  function RoundWithClosedEvent(): History<int>
  {
    History(
      [ Node("Game History", Plain, None, [1], Unset, Unset),
        Node("Round 1", Round, Some(0), [2], 0, Unset),
        Node("Combat Move", Step, Some(1), [3], 0, Unset),
        Node("Buys 8 infantry", Event, Some(2), [], 2, 4) ],
      [10, 11, 12, 13, 14])
  }

  /** In that history the event is the last node, the delta from the round to
      the event is the first four changes forward, and the way back undoes
      them. */
  lemma RoundToClosedEventScenario()
    ensures WellFormed(RoundWithClosedEvent())
    ensures GetLastNode(RoundWithClosedEvent()) == 3
    ensures GetDelta(RoundWithClosedEvent(), 1, 3) == Ok(Forward([10, 11, 12, 13]))
    ensures GetDelta(RoundWithClosedEvent(), 3, 1) == Ok(Inverted([10, 11, 12, 13]))
  {
    var h := RoundWithClosedEvent();
    assert h.changes[0..4] == [10, 11, 12, 13];
  }
}
