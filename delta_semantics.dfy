/** What a delta does to the game. A single change is opaque; its effect is
    given by `apply` and its inverse by `undo`. A composite change applies
    its changes in log order, and its inverse undoes them in reverse order.
    With this reading, the delta between two nodes takes the game from the
    state at the first node to the state at the second. */
module DeltaSemantics {
  import opened History

  /** Applies `cs` in order, first to last. */
  function ApplyAll<C, S>(cs: seq<C>, apply: (C, S) -> S, s: S): S
  {
    if cs == [] then s
    else apply(cs[|cs| - 1], ApplyAll(cs[..|cs| - 1], apply, s))
  }

  /** Undoes `cs` in reverse order, last to first. */
  function UndoAll<C, S>(cs: seq<C>, undo: (C, S) -> S, s: S): S
  {
    if cs == [] then s
    else UndoAll(cs[..|cs| - 1], undo, undo(cs[|cs| - 1], s))
  }

  /** The effect of a delta. */
  function ApplyDelta<C, S>(d: Delta<C>, apply: (C, S) -> S, undo: (C, S) -> S, s: S): S
  {
    match d
    case NoOp => s
    case Forward(cs) => ApplyAll(cs, apply, s)
    case Inverted(cs) => UndoAll(cs, undo, s)
  }

  /** The state at log position `k`: the first `k` changes applied to the
      state the game started in. */
  function StateAt<C, S>(log: seq<C>, k: nat, apply: (C, S) -> S, s0: S): S
    requires k <= |log|
  {
    ApplyAll(log[..k], apply, s0)
  }

  /** Applying `x + y` is applying `x`, then `y`. */
  lemma {:induction false} ApplyAllConcat<C, S>(x: seq<C>, y: seq<C>, apply: (C, S) -> S, s: S)
    ensures ApplyAll(x + y, apply, s) == ApplyAll(y, apply, ApplyAll(x, apply, s))
    decreases |y|
  {
    if y != [] {
      var y' := y[..|y| - 1];
      assert (x + y)[..|x + y| - 1] == x + y';
      ApplyAllConcat(x, y', apply, s);
    } else {
      assert x + y == x;
    }
  }

  /** Undoing a sequence of changes right after applying it restores the
      state, provided each change is undone by its own inverse. */
  lemma {:induction false} UndoAfterApply<C, S>(cs: seq<C>, apply: (C, S) -> S, undo: (C, S) -> S, s: S)
    requires forall c: C, t: S :: undo(c, apply(c, t)) == t
    ensures UndoAll(cs, undo, ApplyAll(cs, apply, s)) == s
    decreases |cs|
  {
    if cs != [] {
      UndoAfterApply(cs[..|cs| - 1], apply, undo, s);
    }
  }

  /** Applying a sequence of changes right after undoing it restores the
      state, provided each inverse is undone by re-applying the change. */
  lemma {:induction false} ApplyAfterUndo<C, S>(cs: seq<C>, apply: (C, S) -> S, undo: (C, S) -> S, s: S)
    requires forall c: C, t: S :: apply(c, undo(c, t)) == t
    ensures ApplyAll(cs, apply, UndoAll(cs, undo, s)) == s
    decreases |cs|
  {
    if cs != [] {
      var last := cs[|cs| - 1];
      ApplyAfterUndo(cs[..|cs| - 1], apply, undo, undo(last, s));
    }
  }

  /** The delta from `a` to `b`, applied to the state at `a`'s position,
      gives the state at `b`'s position, in either direction. */
  lemma DeltaReachesTarget<C, S>(h: History<C>, a: nat, b: nat,
                                 apply: (C, S) -> S, undo: (C, S) -> S, s0: S)
    requires Resolvable(h, a) && Resolvable(h, b) && IndicesInRange(h)
    requires forall c: C, t: S :: undo(c, apply(c, t)) == t
    ensures GetDelta(h, a, b).Ok?
    ensures ApplyDelta(GetDelta(h, a, b).value, apply, undo,
                       StateAt(h.changes, GetLastChange(h, a), apply, s0))
         == StateAt(h.changes, GetLastChange(h, b), apply, s0)
  {
    DeltaDefinedWhenIndicesInRange(h, a, b);
    var i, j := GetLastChange(h, a), GetLastChange(h, b);
    var lo, hi := Min(i, j), Max(i, j);
    var log := h.changes;
    assert log[..hi] == log[..lo] + log[lo..hi];
    ApplyAllConcat(log[..lo], log[lo..hi], apply, s0);
    if j < i {
      UndoAfterApply(log[lo..hi], apply, undo, StateAt(log, lo, apply, s0));
    }
  }

  /** Going from `a` to `b` and back again leaves any state as it was. */
  lemma DeltaRoundTrip<C, S>(h: History<C>, a: nat, b: nat,
                             apply: (C, S) -> S, undo: (C, S) -> S, s: S)
    requires Resolvable(h, a) && Resolvable(h, b) && GetDelta(h, a, b).Ok?
    requires forall c: C, t: S :: undo(c, apply(c, t)) == t
    requires forall c: C, t: S :: apply(c, undo(c, t)) == t
    ensures GetDelta(h, b, a).Ok?
    ensures ApplyDelta(GetDelta(h, b, a).value, apply, undo,
                       ApplyDelta(GetDelta(h, a, b).value, apply, undo, s)) == s
  {
    DeltaReversed(h, a, b);
    match GetDelta(h, a, b).value
    case NoOp =>
    case Forward(cs) => UndoAfterApply(cs, apply, undo, s);
    case Inverted(cs) => ApplyAfterUndo(cs, apply, undo, s);
  }
}
