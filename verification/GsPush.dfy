/** A GIF push across two clocks and a host: the handshake of boards/c1100_gs.py
    with the loop of tools/gs/gsrun.py on the other end. */
module GsPush {
  import opened ToggleLink
  import Rounds

  type Word = nat

  /** A 128-bit quadword as its four CSR words, low first. */
  type Quad = q: seq<Word> | |q| == 4 witness [0, 0, 0, 0]

  /** The registers of the crossing. */
  datatype Regs = Regs(link: Chain, words: Quad)

  /** What the host does to the register file on one system cycle. */
  datatype Access = Nothing | SetWord(k: nat, w: Word) | PushStrobe

  predicate InRange(a: Access) {
    a.SetWord? ==> a.k < 4
  }

  function SysEdge(g: Regs, a: Access): Regs
    requires InRange(a)
  {
    Regs(NearEdge(g.link, a.PushStrobe? && !Busy(g.link)),
         if a.SetWord? then g.words[a.k := a.w] else g.words)
  }

  predicate GifValid(g: Regs) { Seen(g.link) }

  function GsEdge(g: Regs, ready: bool): Regs {
    g.(link := FarEdge(g.link, GifValid(g) && ready))
  }

  class GSBringup {
    var pushReq: bool
    var pushReq1: bool
    var pushReqS: bool
    var pushAck: bool
    var pushAck1: bool
    var pushAckS: bool
    var gifWords: Quad

    ghost function Now(): Regs
      reads this
    {
      Regs(Chain(pushReq, pushReq1, pushReqS, pushAck, pushAck1, pushAckS), gifWords)
    }

    constructor ()
      ensures Now() == Regs(QUIET, [0, 0, 0, 0])
    {
      pushReq, pushReq1, pushReqS := false, false, false;
      pushAck, pushAck1, pushAckS := false, false, false;
      gifWords := [0, 0, 0, 0];
    }

    /** An edge of the system clock. */
    method SysTick(a: Access)
      requires InRange(a)
      modifies this
      ensures Now() == SysEdge(old(Now()), a)
    {
      var busy := pushReq != pushAckS;
      pushAck1, pushAckS := pushAck, pushAck1;
      match a {
        case Nothing =>
        case SetWord(k, w) => gifWords := gifWords[k := w];
        case PushStrobe => if !busy { pushReq := !pushReq; }
      }
    }

    /** An edge of the GS clock; reports the quadword the GIF took, if any. */
    method GsTick(ready: bool) returns (taken: bool, data: Quad)
      modifies `pushReq1, `pushReqS, `pushAck
      ensures Now() == GsEdge(old(Now()), ready)
      ensures taken == (GifValid(old(Now())) && ready) && data == gifWords
    {
      taken, data := pushReqS != pushAck && ready, gifWords;
      if taken { pushAck := pushReqS; }
      pushReq1, pushReqS := pushReq, pushReq1;
    }
  }

  // ---- the host -----------------------------------------------------------------

  /** Where `Card.push` is: polling busy, writing word `k`, or about to strobe. */
  datatype Place = Poll | Writing(k: nat) | Strobing

  /** The crossing with the host's program, and what has gone in and come out. */
  datatype World = World(g: Regs, at: Place, todo: seq<Quad>, pushed: seq<Quad>, accepted: seq<Quad>)

  /** One edge of either clock.  The host acts on some system edges and not on
      others; the GIF is ready on some GS edges and not on others. */
  datatype Tick = Sys(act: bool) | Gs(ready: bool)

  function HostAccess(w: World): (a: Access)
    ensures InRange(a)
  {
    match w.at
    case Poll => Nothing
    case Writing(k) => if k < 4 && w.todo != [] then SetWord(k, w.todo[0][k]) else Nothing
    case Strobing => PushStrobe
  }

  function HostMoves(w: World): World {
    match w.at
    case Poll => if w.todo != [] && !Busy(w.g.link) then w.(at := Writing(0)) else w
    case Writing(k) => w.(at := if k < 3 then Writing(k + 1) else Strobing)
    case Strobing =>
      if w.todo == [] then w.(at := Poll)
      else w.(at := Poll, pushed := w.pushed + [w.todo[0]], todo := w.todo[1..])
  }

  function Next(w: World, t: Tick): World {
    match t
    case Sys(act) =>
      if act then HostMoves(w).(g := SysEdge(w.g, HostAccess(w)))
      else w.(g := SysEdge(w.g, Nothing))
    case Gs(ready) =>
      w.(g := GsEdge(w.g, ready),
         accepted := w.accepted + (if GifValid(w.g) && ready then [w.g.words] else []))
  }

  function Run(w: World, ts: seq<Tick>): World { Rounds.Run(Next, w, ts) }

  function Start(todo: seq<Quad>): World {
    World(Regs(QUIET, [0, 0, 0, 0]), Poll, todo, [], [])
  }

  /** What is in flight is the last quadword pushed, still in its registers; the
      host touches those only when nothing is. */
  predicate Inv(w: World) {
    && Flips(w.g.link) <= 1
    && (if Outstanding(w.g.link)
        then w.pushed != [] && w.accepted == w.pushed[..|w.pushed| - 1] && w.g.words == w.pushed[|w.pushed| - 1]
        else w.accepted == w.pushed)
    && (w.at != Poll ==> w.todo != [] && Flips(w.g.link) == 0)
    && (match w.at
        case Poll => true
        case Writing(k) => k < 4 && w.g.words[..k] == w.todo[0][..k]
        case Strobing => w.g.words == w.todo[0])
  }

  lemma HostEdge(w: World)
    requires Inv(w)
    ensures Inv(Next(w, Sys(true)))
  {
    var v := Next(w, Sys(true));
    OneFlip(w.g.link, w.at.Strobing?, false);
    match w.at {
      case Poll =>
      case Writing(k) =>
        assert v.g.words[..k + 1] == w.todo[0][..k + 1];
        if k == 3 { assert v.g.words[..4] == v.g.words && w.todo[0][..4] == w.todo[0]; }
      case Strobing => assert v.pushed[..|v.pushed| - 1] == w.pushed;
    }
  }

  lemma GifEdge(w: World, ready: bool)
    requires Inv(w)
    ensures Inv(Next(w, Gs(ready)))
  {
    var take := GifValid(w.g) && ready;
    OneFlip(w.g.link, false, take);
    if take {
      assert w.pushed == w.pushed[..|w.pushed| - 1] + [w.pushed[|w.pushed| - 1]];
    }
  }

  lemma {:induction false} RunKeeps(w: World, ts: seq<Tick>)
    requires Inv(w)
    ensures Inv(Run(w, ts))
    decreases |ts|
  {
    if ts != [] {
      match ts[0] {
        case Sys(act) =>
          if act { HostEdge(w); } else { OneFlip(w.g.link, false, false); }
        case Gs(ready) => GifEdge(w, ready);
      }
      RunKeeps(Next(w, ts[0]), ts[1..]);
    }
  }

  lemma {:induction false} RunConserves(w: World, ts: seq<Tick>)
    ensures Run(w, ts).pushed + Run(w, ts).todo == w.pushed + w.todo
    decreases |ts|
  {
    if ts != [] {
      var v := Next(w, ts[0]);
      if w.todo != [] { assert w.todo == [w.todo[0]] + w.todo[1..]; }
      assert v.pushed + v.todo == w.pushed + w.todo;
      RunConserves(v, ts[1..]);
    }
  }

  /** For every interleaving of the two clocks, every stall of the GIF and every
      delay of the host: what the GIF has accepted is the quadwords the host
      was given to push, in order, once each, all but the one in flight. */
  lemma ExactlyOnce(todo: seq<Quad>, ts: seq<Tick>)
    ensures var w := Run(Start(todo), ts);
      && w.accepted <= w.pushed && w.pushed + w.todo == todo
      && |w.pushed| == |w.accepted| + (if Outstanding(w.g.link) then 1 else 0)
      && (!Busy(w.g.link) ==> w.accepted == w.pushed)
      && (GifValid(w.g) ==> |w.accepted| < |todo| && w.g.words == todo[|w.accepted|])
  {
    var w := Run(Start(todo), ts);
    RunKeeps(Start(todo), ts);
    RunConserves(Start(todo), ts);
    OneFlip(w.g.link, false, false);
    assert todo == [] + todo == w.pushed + w.todo;
  }

  /** In every run, while the GIF is offered a quadword the words do not move,
      whatever the host and the clocks do next, until the edge on which it is taken. */
  lemma DataStable(todo: seq<Quad>, ts: seq<Tick>, t: Tick)
    requires GifValid(Run(Start(todo), ts).g)
    ensures var w := Run(Start(todo), ts);
      && Next(w, t).g.words == w.g.words
      && (GifValid(Next(w, t).g) <==> t != Gs(true))
  {
    RunKeeps(Start(todo), ts);
    OneFlip(Run(Start(todo), ts).g.link, false, false);
  }

  // ---- how long busy lasts ----------------------------------------------------------

  /** Whether an edge is on the side that has to move a flip this far from home. */
  predicate Moves(d: nat, t: Tick) {
    match t
    case Sys(_) => 0 < d < 3
    case Gs(ready) => d > 3 || (d == 3 && ready)
  }

  predicate Down(w: World) { !Busy(w.g.link) }

  function Left(w: World): nat { Distance(w.g.link) }

  lemma EdgeTravels(w: World, t: Tick)
    requires Inv(w) && !Down(w)
    ensures Inv(Next(w, t)) && Left(Next(w, t)) == Left(w) - (if Moves(Left(w), t) then 1 else 0)
  {
    RunKeeps(w, [t]);
    OneFlip(w.g.link, false, false);
    FlipTravels(w.g.link, false);
    if Seen(w.g.link) { FlipTravels(w.g.link, true); }
  }

  lemma BusyApproachesDown()
    ensures Rounds.Approaches(Next, Inv, Down, Left, Moves)
  {
    forall w: World, t: Tick | Inv(w) && !Down(w)
      ensures Inv(Next(w, t)) && Left(Next(w, t)) <= Left(w) - (if Moves(Left(w), t) then 1 else 0)
    {
      EdgeTravels(w, t);
    }
    forall w: World | Inv(w) && Left(w) == 0 ensures Down(w) {
      FlipTravels(w.g.link, false);
    }
  }

  /** A stretch in which both clocks tick, with the GIF ready at some GS edge. */
  predicate Round(ts: seq<Tick>) {
    Gs(true) in ts && (Sys(true) in ts || Sys(false) in ts)
  }

  lemma RoundComplete(ts: seq<Tick>)
    requires Round(ts)
    ensures Rounds.Complete(Moves, ts)
  {
    forall d: nat | d > 0 ensures Rounds.SomeMoves(Moves, d, ts) {
      var t := if d >= 3 then Gs(true) else if Sys(true) in ts then Sys(true) else Sys(false);
      assert t in ts && Moves(d, t);
    }
  }

  /** From anywhere in any run, five rounds of the two clocks, each with the GIF
      ready once, see busy go down. */
  lemma BusyFalls(todo: seq<Quad>, ts: seq<Tick>, rounds: seq<seq<Tick>>)
    requires |rounds| >= 5 && forall r | r in rounds :: Round(r)
    ensures Rounds.HoldsIn(Next, Down, Run(Start(todo), ts), Rounds.Joined(rounds))
  {
    RunKeeps(Start(todo), ts);
    BusyApproachesDown();
    forall r | r in rounds ensures Rounds.Complete(Moves, r) {
      RoundComplete(r);
    }
    Rounds.RoundsArrive(Next, Inv, Down, Left, Moves, Run(Start(todo), ts), rounds);
  }
}
