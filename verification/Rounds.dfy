/** Interleaved clocks: how many rounds, in each of which every clock ticks, a thing that
    always moves on takes to arrive. */
module Rounds {

  /** The state after a run of ticks. */
  function Run<W, T>(step: (W, T) -> W, w: W, ts: seq<T>): W
    decreases |ts|
  {
    if ts == [] then w else Run(step, step(w, ts[0]), ts[1..])
  }

  /** Whether something holds somewhere along a run. */
  predicate HoldsIn<W, T>(step: (W, T) -> W, holds: W -> bool, w: W, ts: seq<T>)
    decreases |ts|
  {
    holds(w) || (ts != [] && HoldsIn(step, holds, step(w, ts[0]), ts[1..]))
  }

  /** Every tick keeps the invariant and adds nothing to what is left; those that are of
      the right kind for it take one away; and when nothing is left it holds. */
  ghost predicate Approaches<W(!new), T(!new)>(
    step: (W, T) -> W, inv: W -> bool, holds: W -> bool, left: W -> nat, moves: (nat, T) -> bool)
  {
    && (forall w: W :: inv(w) && left(w) == 0 ==> holds(w))
    && (forall w: W, t: T {:trigger step(w, t)} :: inv(w) && !holds(w) ==>
          inv(step(w, t)) && left(step(w, t)) <= left(w) - (if moves(left(w), t) then 1 else 0))
  }

  predicate SomeMoves<T(==)>(moves: (nat, T) -> bool, d: nat, ts: seq<T>) {
    exists t :: t in ts && moves(d, t)
  }

  /** A stretch with a tick of the right kind whatever is left. */
  ghost predicate Complete<T(!new)>(moves: (nat, T) -> bool, ts: seq<T>) {
    forall d: nat :: d > 0 ==> SomeMoves(moves, d, ts)
  }

  lemma {:induction false} StretchMoves<W(!new), T(!new)>(
    step: (W, T) -> W, inv: W -> bool, holds: W -> bool, left: W -> nat, moves: (nat, T) -> bool,
    w: W, ts: seq<T>)
    requires Approaches(step, inv, holds, left, moves) && inv(w) && !HoldsIn(step, holds, w, ts)
    ensures inv(Run(step, w, ts)) && left(Run(step, w, ts)) <= left(w)
    ensures SomeMoves(moves, left(w), ts) ==> left(Run(step, w, ts)) < left(w)
    decreases |ts|
  {
    if ts != [] {
      var next := step(w, ts[0]);
      StretchMoves(step, inv, holds, left, moves, next, ts[1..]);
      if left(next) == left(w) && SomeMoves(moves, left(w), ts) {
        var t :| t in ts && moves(left(w), t);
        assert t in ts[1..];
      }
    }
  }

  lemma {:induction false} RunOver<W, T>(step: (W, T) -> W, holds: W -> bool, w: W, ts: seq<T>, us: seq<T>)
    ensures HoldsIn(step, holds, w, ts + us)
       <==> HoldsIn(step, holds, w, ts) || HoldsIn(step, holds, Run(step, w, ts), us)
    decreases |ts|
  {
    if ts == [] {
      assert ts + us == us;
    } else {
      assert (ts + us)[1..] == ts[1..] + us;
      RunOver(step, holds, step(w, ts[0]), ts[1..], us);
    }
  }

  function Joined<T>(rounds: seq<seq<T>>): seq<T> {
    if rounds == [] then [] else rounds[0] + Joined(rounds[1..])
  }

  /** As many rounds as there is left to do see it hold. */
  lemma {:induction false} RoundsArrive<W(!new), T(!new)>(
    step: (W, T) -> W, inv: W -> bool, holds: W -> bool, left: W -> nat, moves: (nat, T) -> bool,
    w: W, rounds: seq<seq<T>>)
    requires Approaches(step, inv, holds, left, moves) && inv(w)
    requires (forall r :: r in rounds ==> Complete(moves, r)) && left(w) <= |rounds|
    ensures HoldsIn(step, holds, w, Joined(rounds))
    decreases |rounds|
  {
    if left(w) > 0 {
      var first, rest := rounds[0], rounds[1..];
      RunOver(step, holds, w, first, Joined(rest));
      if !HoldsIn(step, holds, w, first) {
        assert Complete(moves, first) && SomeMoves(moves, left(w), first);
        StretchMoves(step, inv, holds, left, moves, w, first);
        RoundsArrive(step, inv, holds, left, moves, Run(step, w, first), rest);
      }
    }
  }
}
