/** The vertex queue of sim/gs/gs_ref.py: which vertices each primitive is drawn from.  A
    vertex that does not kick (XYZ3) is queued and draws nothing. */
module VertexQueue {

  datatype Prim = Point | List | Strip | Fan | Sprite

  /** Vertices are named by their place in the run. */
  datatype Drawn = Nothing | Pair(a: nat, b: nat) | Triple(a: nat, b: nat, c: nat)

  /** The queue and the primitive drawn when one more vertex arrives. */
  function Vertex(prim: Prim, vq: seq<nat>, v: nat, kick: bool): (seq<nat>, Drawn) {
    var q := vq + [v];
    var n := |q|;
    if !kick then (q, Nothing)
    else if prim.Sprite? && n >= 2 then ([], Pair(q[n - 2], q[n - 1]))
    else if (prim.List? || prim.Strip? || prim.Fan?) && n >= 3 then
      (if prim.List? then [] else if prim.Strip? then q[n - 2..] else [q[0], q[n - 1]],
       Triple(q[n - 3], q[n - 2], q[n - 1]))
    else if n > 8 then (q[n - 2..], Nothing)
    else (q, Nothing)
  }

  class Queue {
    var vq: seq<nat>
    var drawn: seq<Drawn>

    constructor ()
      ensures vq == [] && drawn == []
    {
      vq, drawn := [], [];
    }

    method Add(prim: Prim, v: nat, kick: bool)
      modifies this
      ensures vq == Vertex(prim, old(vq), v, kick).0
      ensures drawn == if Vertex(prim, old(vq), v, kick).1.Nothing? then old(drawn)
                       else old(drawn) + [Vertex(prim, old(vq), v, kick).1]
    {
      vq := vq + [v];
      if !kick {
        return;
      }
      var n := |vq|;
      if prim.Sprite? && n >= 2 {
        drawn := drawn + [Pair(vq[n - 2], vq[n - 1])];
        vq := [];
      } else if (prim.List? || prim.Strip? || prim.Fan?) && n >= 3 {
        drawn := drawn + [Triple(vq[n - 3], vq[n - 2], vq[n - 1])];
        if prim.List? {
          vq := [];
        } else if prim.Strip? {
          vq := vq[n - 2..];
        } else {
          vq := [vq[0], vq[n - 1]];
        }
      } else if n > 8 {
        vq := vq[n - 2..];
      }
    }
  }

  /** The queue after a run of vertices, from an empty one; ks says which of them kick. */
  function After(prim: Prim, ks: seq<bool>): seq<nat> {
    if ks == [] then []
    else Vertex(prim, After(prim, ks[..|ks| - 1]), |ks| - 1, ks[|ks| - 1]).0
  }

  /** What the last vertex of a run draws. */
  function Last(prim: Prim, ks: seq<bool>): Drawn
    requires ks != []
  {
    Vertex(prim, After(prim, ks[..|ks| - 1]), |ks| - 1, ks[|ks| - 1]).1
  }

  predicate Increasing(q: seq<nat>) { forall i, j :: 0 <= i < j < |q| ==> q[i] < q[j] }

  /** A fan's queue starts at the hub and ends at the newest vertex, and it is down to those
      two exactly when that vertex kicked. */
  predicate FanShaped(q: seq<nat>, n: nat, kicked: bool) {
    && Increasing(q) && (n > 0 ==> |q| > 0 && q[0] == 0 && q[|q| - 1] == n - 1)
    && (n <= 2 ==> |q| == n) && (n > 2 ==> |q| >= 2 && (|q| == 2 <==> kicked))
  }

  lemma FanNext(q: seq<nat>, n: nat, kicked: bool, kick: bool)
    requires FanShaped(q, n, kicked)
    ensures FanShaped(Vertex(Fan, q, n, kick).0, n + 1, kick)
  {
  }

  lemma {:induction false} FanQueue(ks: seq<bool>)
    ensures FanShaped(After(Fan, ks), |ks|, ks != [] && ks[|ks| - 1])
  {
    if ks != [] {
      var n := |ks| - 1;
      FanQueue(ks[..n]);
      FanNext(After(Fan, ks[..n]), n, n > 0 && ks[n - 1], ks[n]);
    }
  }

  /** A fan's triangle keeps the hub exactly when it is the first one or the vertex before
      it kicked too: behind an XYZ3 vertex the hub is left out. */
  lemma FanHubIff(ks: seq<bool>)
    requires |ks| > 2 && ks[|ks| - 1]
    ensures var (t, n) := (Last(Fan, ks), |ks|);
      && t.Triple? && t.c == n - 1 && t.b == n - 2
      && (t.a == 0 <==> n == 3 || ks[n - 2])
  {
    var before := ks[..|ks| - 1];
    FanQueue(before);
    FanQueue(before[..|before| - 1]);
  }

  predicate EndsWithNewest(q: seq<nat>, n: nat) {
    && (n < 2 ==> |q| == n) && (n >= 2 ==> |q| >= 2 && q[|q| - 2] == n - 2)
    && (n > 0 ==> |q| > 0 && q[|q| - 1] == n - 1)
  }

  lemma StripNext(q: seq<nat>, n: nat, kick: bool)
    requires EndsWithNewest(q, n)
    ensures EndsWithNewest(Vertex(Strip, q, n, kick).0, n + 1)
  {
  }

  /** A strip, mixed or not, draws each kicked vertex with the two before it. */
  lemma {:induction false} StripQueue(ks: seq<bool>)
    ensures EndsWithNewest(After(Strip, ks), |ks|)
  {
    if ks != [] {
      StripQueue(ks[..|ks| - 1]);
      StripNext(After(Strip, ks[..|ks| - 1]), |ks| - 1, ks[|ks| - 1]);
    }
  }

  lemma StripDraws(ks: seq<bool>)
    requires |ks| > 2 && ks[|ks| - 1]
    ensures Last(Strip, ks) == Triple(|ks| - 3, |ks| - 2, |ks| - 1)
  {
    StripQueue(ks[..|ks| - 1]);
  }

  /** A strip or a fan draws nothing at a vertex that does not kick, nor before its third. */
  lemma StripAndFanWait(ks: seq<bool>)
    requires ks != [] && (!ks[|ks| - 1] || |ks| < 3)
    ensures Last(Strip, ks) == Nothing && Last(Fan, ks) == Nothing
  {
    StripQueue(ks[..|ks| - 1]);
    FanQueue(ks[..|ks| - 1]);
  }

  // ---- primitives that share no vertex -----------------------------------------------------------

  /** How many vertices wait, when it takes so many to draw: a kicked one that makes up the
      number leaves none. */
  function Waiting(need: nat, ks: seq<bool>): (held: nat)
    ensures held <= |ks|
  {
    if ks == [] then 0
    else
      var held := Waiting(need, ks[..|ks| - 1]) + 1;
      if ks[|ks| - 1] && held >= need then 0 else held
  }

  /** A queue of so many vertices, the newest ones in order. */
  predicate Newest(q: seq<nat>, n: nat, held: nat) {
    |q| == held <= n && forall i :: 0 <= i < |q| ==> q[i] == n - held + i
  }

  lemma {:induction false} ListQueue(ks: seq<bool>)
    ensures Newest(After(List, ks), |ks|, Waiting(3, ks))
  {
    if ks != [] {
      ListQueue(ks[..|ks| - 1]);
    }
  }

  lemma {:induction false} SpriteQueue(ks: seq<bool>)
    ensures Newest(After(Sprite, ks), |ks|, Waiting(2, ks))
  {
    if ks != [] {
      SpriteQueue(ks[..|ks| - 1]);
    }
  }

  /** A list draws a kicked vertex with the two before it when those two were waiting, and
      otherwise draws nothing; a sprite likewise with one. */
  lemma ListDraws(ks: seq<bool>)
    requires ks != []
    ensures var n := |ks|;
      Last(List, ks) == if ks[n - 1] && Waiting(3, ks[..n - 1]) >= 2 then Triple(n - 3, n - 2, n - 1) else Nothing
  {
    ListQueue(ks[..|ks| - 1]);
  }

  lemma SpriteDraws(ks: seq<bool>)
    requires ks != []
    ensures var n := |ks|;
      Last(Sprite, ks) == if ks[n - 1] && Waiting(2, ks[..n - 1]) >= 1 then Pair(n - 2, n - 1) else Nothing
  {
    SpriteQueue(ks[..|ks| - 1]);
  }

  predicate AllKick(ks: seq<bool>) { forall i :: 0 <= i < |ks| ==> ks[i] }

  lemma {:induction false} WaitingKicked(ks: seq<bool>)
    requires AllKick(ks)
    ensures Waiting(3, ks) == |ks| % 3 && Waiting(2, ks) == |ks| % 2
  {
    if ks != [] {
      WaitingKicked(ks[..|ks| - 1]);
    }
  }

  /** When every vertex kicks, a list draws at every third vertex ... */
  lemma EveryThird(ks: seq<bool>)
    requires ks != [] && AllKick(ks)
    ensures var n := |ks|; Last(List, ks) == if n % 3 == 0 then Triple(n - 3, n - 2, n - 1) else Nothing
  {
    hide After, Waiting, Last, Vertex;
    WaitingKicked(ks[..|ks| - 1]);
    ListDraws(ks);
  }

  /** ... and a sprite at every second; the primitives with neither queue draw nothing. */
  lemma EverySecond(ks: seq<bool>)
    requires ks != [] && AllKick(ks)
    ensures var n := |ks|; Last(Sprite, ks) == if n % 2 == 0 then Pair(n - 2, n - 1) else Nothing
    ensures Last(Point, ks) == Nothing
  {
    PointDraws(ks);
    hide After, Waiting, Last, Vertex;
    WaitingKicked(ks[..|ks| - 1]);
    SpriteDraws(ks);
  }

  /** The queue nothing empties is cut to the newest two when it reaches nine. */
  lemma {:induction false} PointQueue(ks: seq<bool>)
    requires AllKick(ks)
    ensures var n := |ks|; Newest(After(Point, ks), n, if n <= 8 then n else 2 + (n - 9) % 7)
  {
    if ks != [] {
      PointQueue(ks[..|ks| - 1]);
    }
  }

  lemma PointDraws(ks: seq<bool>)
    requires ks != []
    ensures Last(Point, ks) == Nothing
  {
  }
}
