/** The toggle that crosses between two unrelated clocks (boards/c1100_gs.py,
    boards/c1100_ee.py): a request bit flipped on the near side, an
    acknowledgement that follows it on the far side, and a two-stage
    synchroniser each way.

    A synchroniser that samples a changing bit may see either value; every
    interleaving of the two clocks is considered, so both are. */
module ToggleLink {

  /** The six flip-flops, in the order a flip travels through them. */
  datatype Chain = Chain(req: bool, r1: bool, r2: bool, ack: bool, a1: bool, a2: bool)

  const QUIET := Chain(false, false, false, false, false, false)

  /** What the near side reads: the request has not been seen to come back. */
  predicate Busy(c: Chain) { c.req != c.a2 }

  /** What the far side reads: a request it has not acknowledged. */
  predicate Seen(c: Chain) { c.r2 != c.ack }

  /** A request flipped and not yet acknowledged. */
  predicate Outstanding(c: Chain) { c.req != c.ack }

  /** A near-side edge, which may flip the request. */
  function NearEdge(c: Chain, flip: bool): Chain {
    c.(req := if flip then !c.req else c.req, a1 := c.ack, a2 := c.a1)
  }

  /** A far-side edge, which may acknowledge what it has seen. */
  function FarEdge(c: Chain, take: bool): Chain {
    c.(r1 := c.req, r2 := c.r1, ack := if take then c.r2 else c.ack)
  }

  function Differ(a: bool, b: bool): nat { if a != b then 1 else 0 }

  /** Flips under way: the places where neighbouring flip-flops disagree. */
  function Flips(c: Chain): nat {
    Differ(c.req, c.r1) + Differ(c.r1, c.r2) + Differ(c.r2, c.ack) + Differ(c.ack, c.a1) + Differ(c.a1, c.a2)
  }

  /** Stages the one flip still has to pass before the near side sees it back. */
  function Distance(c: Chain): nat {
    if c.req != c.r1 then 5 else if c.r1 != c.r2 then 4 else if c.r2 != c.ack then 3
    else if c.ack != c.a1 then 2 else if c.a1 != c.a2 then 1 else 0
  }

  /** If the near side flips only when it is not busy, and the far side only
      acknowledges, there is never more than one flip under way: not busy means
      the far side has acknowledged everything. */
  lemma OneFlip(c: Chain, flip: bool, take: bool)
    requires Flips(c) <= 1
    ensures !Busy(c) <==> Flips(c) == 0
    ensures !Busy(c) ==> !Seen(c) && !Outstanding(c)
    ensures (flip ==> !Busy(c)) ==> Flips(NearEdge(c, flip)) <= 1
    ensures (take ==> Seen(c)) ==> Flips(FarEdge(c, take)) <= 1
    ensures Seen(c) ==> Outstanding(c)
  {
  }

  /** The flip never goes back, and moves one stage on every edge of the side it
      is on; only the acknowledgement waits for the far side to take it. */
  lemma FlipTravels(c: Chain, take: bool)
    requires Flips(c) <= 1 && (take ==> Seen(c))
    ensures Distance(FarEdge(c, take)) == Distance(c) - (if Distance(c) > 3 || take then 1 else 0)
    ensures Distance(NearEdge(c, false)) == Distance(c) - (if 0 < Distance(c) < 3 then 1 else 0)
    ensures Distance(c) == 0 <==> !Busy(c)
  {
  }
}
