/** The host's memory port of boards/c1100_ee.py, driven by the access routine of
    tools/ee/eerun.py: one toggle per access, over a block RAM whose read output
    is registered (rtl/ee/ee_bringup.vhd). */
module EeMemory {
  import opened ToggleLink
  import Rounds

  type Word = nat

  type Quad = q: seq<Word> | |q| == 4 witness [0, 0, 0, 0]

  /** One access the host wants: a read, or a write of a quadword. */
  datatype Op = Read(addr: nat) | Write(addr: nat, data: Quad)

  /** The block RAM, with the history of its write strobes. */
  datatype Ram = Ram(cells: seq<Quad>, stores: seq<Op>)

  /** The only way the RAM changes. */
  function Strobe(m: Ram, op: Op): Ram
    requires op.Write? && op.addr < |m.cells|
  {
    Ram(m.cells[op.addr := op.data], m.stores + [op])
  }

  /** The crossing's registers, the CSRs beside it, and the memory with the port's
      output register. */
  datatype Regs = Regs(
    link: Chain, pend: bool, hWe: bool, hold: Quad,
    addr: nat, we: bool, w: Quad,
    ram: Ram, rdata: Quad)

  datatype Access = Nothing | SetAddr(addr: nat) | SetWe(we: bool) | SetWord(k: nat, x: Word) | Go

  predicate Sound(g: Regs) { g.addr < |g.ram.cells| }

  predicate InRange(g: Regs, a: Access) {
    && (a.SetAddr? ==> a.addr < |g.ram.cells|)
    && (a.SetWord? ==> a.k < 4)
  }

  function SysEdge(g: Regs, a: Access): Regs
    requires InRange(g, a)
  {
    g.(link := NearEdge(g.link, a.Go? && !Busy(g.link)),
       addr := if a.SetAddr? then a.addr else g.addr,
       we := if a.SetWe? then a.we else g.we,
       w := if a.SetWord? then g.w[a.k := a.x] else g.w)
  }

  /** The access the CSRs ask for. */
  function Asked(g: Regs): Op {
    if g.we then Write(g.addr, g.w) else Read(g.addr)
  }

  /** Whether the far side starts an access on its next edge. */
  predicate Starts(g: Regs) { Seen(g.link) && !g.pend }

  /** The far side completes an access the cycle after it starts it. */
  function EeEdge(g: Regs): Regs
    requires Sound(g)
  {
    g.(link := FarEdge(g.link, g.pend),
       pend := Starts(g),
       hWe := Starts(g) && g.we,
       hold := if g.pend then g.rdata else g.hold,
       ram := if g.hWe then Strobe(g.ram, Write(g.addr, g.w)) else g.ram,
       rdata := g.ram.cells[g.addr])
  }

  class EEBringup {
    var memReq: bool
    var memReq1: bool
    var memReqS: bool
    var memAck: bool
    var memAck1: bool
    var memAckS: bool
    var memPend: bool
    var hWe: bool
    var hHold: Quad
    var memAddr: nat
    var memWe: bool
    var memW: Quad
    var mem: seq<Quad>
    var hRdata: Quad
    ghost var stores: seq<Op>

    ghost function Link(): Chain
      reads `memReq, `memReq1, `memReqS, `memAck, `memAck1, `memAckS
    {
      Chain(memReq, memReq1, memReqS, memAck, memAck1, memAckS)
    }

    ghost function Now(): Regs
      reads this
    {
      Regs(Link(), memPend, hWe, hHold,
           memAddr, memWe, memW, Ram(mem, stores), hRdata)
    }

    constructor (mem: seq<Quad>)
      ensures Now() == Powered(mem)
    {
      memReq, memReq1, memReqS := false, false, false;
      memAck, memAck1, memAckS := false, false, false;
      memPend, hWe, hHold := false, false, [0, 0, 0, 0];
      memAddr, memWe, memW := 0, false, [0, 0, 0, 0];
      this.mem, hRdata, stores := mem, [0, 0, 0, 0], [];
    }

    /** The request toggle and its synchroniser. */
    method Request(go: bool)
      modifies `memReq, `memAck1, `memAckS
      ensures Link() == NearEdge(old(Link()), go && !Busy(old(Link())))
    {
      var busy := memReq != memAckS;
      memAck1, memAckS := memAck, memAck1;
      if go && !busy { memReq := !memReq; }
    }

    method SysTick(a: Access)
      requires InRange(Now(), a)
      modifies `memReq, `memAck1, `memAckS, `memAddr, `memWe, `memW
      ensures Now() == SysEdge(old(Now()), a)
    {
      Request(a.Go?);
      hide NearEdge, Busy, Link;
      match a {
        case SetAddr(x) => memAddr := x;
        case SetWe(x) => memWe := x;
        case SetWord(k, x) => memW := memW[k := x];
        case _ =>
      }
    }

    /** The block RAM's port: read first, then write. */
    method PortEdge()
      requires Sound(Now())
      modifies `mem, `hRdata, `stores
      ensures var g := old(Now());
        Now() == g.(ram := if g.hWe then Strobe(g.ram, Write(g.addr, g.w)) else g.ram, rdata := g.ram.cells[g.addr])
    {
      hRdata := mem[memAddr];
      if hWe { mem, stores := mem[memAddr := memW], stores + [Write(memAddr, memW)]; }
    }

    /** The clocked block itself, `read` being what the port showed before the edge. */
    method Handshake(read: Quad)
      modifies `memAck, `memPend, `hWe, `hHold
      ensures memPend == (old(memReqS != memAck) && !old(memPend)) && hWe == (memPend && memWe)
      ensures hHold == (if old(memPend) then read else old(hHold))
      ensures memAck == (if old(memPend) then memReqS else old(memAck))
    {
      hWe := false;
      if memReqS != memAck && !memPend {
        hWe, memPend := memWe, true;
      } else if memPend {
        hHold, memPend, memAck := read, false, memReqS;
      }
    }

    method EeTick()
      requires Sound(Now())
      modifies `memReq1, `memReqS, `memAck, `memPend, `hWe, `hHold, `mem, `hRdata, `stores
      ensures Now() == EeEdge(old(Now()))
    {
      var read := hRdata;
      PortEdge();
      Handshake(read);
      memReq1, memReqS := memReq, memReq1;
    }
  }

  function Powered(mem: seq<Quad>): Regs {
    Regs(QUIET, false, false, [0, 0, 0, 0], 0, false, [0, 0, 0, 0], Ram(mem, []), [0, 0, 0, 0])
  }

  // ---- the host -------------------------------------------------------------------

  /** Where `mem_access` is. */
  datatype Place = Idle | Direct | Words(k: nat) | Settle | Launch | Await | Fetch(k: nat)

  /** The crossing with the host's program; `starts` is the accesses the far side
      has started, `got` the quadword being read back and `results` what the
      finished accesses returned. */
  datatype World = World(g: Regs, at: Place, todo: seq<Op>, finished: seq<Op>, starts: seq<Op>,
                         got: seq<Word>, results: seq<Quad>)

  datatype Tick = Sys(act: bool) | Ee

  function HostAccess(w: World): Access {
    match w.at
    case Idle => if w.todo != [] then SetAddr(w.todo[0].addr) else Nothing
    case Direct => if w.todo != [] then SetWe(w.todo[0].Write?) else Nothing
    case Words(k) => if w.todo != [] && w.todo[0].Write? && k < 4 then SetWord(k, w.todo[0].data[k]) else Nothing
    case Launch => Go
    case _ => Nothing
  }

  function HostMoves(w: World): World {
    match w.at
    case Idle => if w.todo != [] then w.(at := Direct) else w
    case Direct => w.(at := if w.todo != [] && w.todo[0].Write? then Words(0) else Settle)
    case Words(k) => w.(at := if k < 3 then Words(k + 1) else Settle)
    case Settle => if Busy(w.g.link) then w else w.(at := Launch)
    case Launch => w.(at := Await)
    case Await => if Busy(w.g.link) then w else w.(at := Fetch(0), got := [])
    case Fetch(k) =>
      if k < 3 then w.(at := Fetch(k + 1), got := w.got + [w.g.hold[k]])
      else if |w.got| == 3 && w.todo != [] then
        w.(at := Idle, got := [], results := w.results + [w.got + [w.g.hold[3]]],
           finished := w.finished + [w.todo[0]], todo := w.todo[1..])
      else w
  }

  predicate WorldSound(w: World) {
    && Sound(w.g)
    && forall op | op in w.todo :: op.addr < |w.g.ram.cells|
  }

  function Next(w: World, t: Tick): (v: World)
    requires WorldSound(w)
    ensures WorldSound(v)
  {
    match t
    case Sys(act) =>
      if act then HostMoves(w).(g := SysEdge(w.g, HostAccess(w)))
      else w.(g := SysEdge(w.g, Nothing))
    case Ee =>
      w.(g := EeEdge(w.g), starts := w.starts + (if Starts(w.g) then [Asked(w.g)] else []))
  }

  /** A step of any world; those of a run are sound. */
  function Edge(w: World, t: Tick): World { if WorldSound(w) then Next(w, t) else w }

  function Run(w: World, ts: seq<Tick>): World { Rounds.Run(Edge, w, ts) }

  function Start(mem: seq<Quad>, todo: seq<Op>): World {
    World(Powered(mem), Idle, todo, [], [], [], [])
  }

  // ---- what memory should be: one access at a time ----------------------------------

  function Applied(mem: seq<Quad>, op: Op): seq<Quad>
    requires op.addr < |mem|
  {
    if op.Write? then mem[op.addr := op.data] else mem
  }

  /** Memory after a list of accesses, each done once, in order. */
  function After(mem: seq<Quad>, ops: seq<Op>): (m: seq<Quad>)
    requires forall op | op in ops :: op.addr < |mem|
    ensures |m| == |mem|
  {
    if ops == [] then mem
    else Applied(After(mem, ops[..|ops| - 1]), ops[|ops| - 1])
  }

  /** The quadword access `n` returns: what its address held just before it. */
  function Returned(mem: seq<Quad>, ops: seq<Op>, n: nat): Quad
    requires (forall op | op in ops :: op.addr < |mem|) && n < |ops|
  {
    After(mem, ops[..n])[ops[n].addr]
  }

  /** The writes among a list of accesses. */
  function Writes(ops: seq<Op>): seq<Op> {
    if ops == [] then []
    else if ops[|ops| - 1].Write? then Writes(ops[..|ops| - 1]) + [ops[|ops| - 1]]
    else Writes(ops[..|ops| - 1])
  }

  lemma WritesOfMore(ops: seq<Op>, op: Op)
    ensures Writes(ops + [op]) == if op.Write? then Writes(ops) + [op] else Writes(ops)
  {
    assert (ops + [op])[..|ops|] == ops;
  }

  // ---- the invariant -----------------------------------------------------------------

  /** Whether the CSRs hold the current access. */
  predicate Loaded(w: World)
    requires w.todo != []
  {
    Asked(w.g) == w.todo[0]
  }

  predicate HostInv(w: World) {
    && Flips(w.g.link) <= 1
    && (w.at != Idle ==> w.todo != [])
    && (w.at != Await ==> Flips(w.g.link) == 0)
    && (w.g.pend ==> w.at == Await && Seen(w.g.link))
    && (w.g.hWe ==> w.g.pend)
    && (match w.at
        case Idle => true
        case Direct => w.g.addr == w.todo[0].addr
        case Words(k) => k < 4 && w.g.addr == w.todo[0].addr && w.g.we && w.todo[0].Write?
                         && w.g.w[..k] == w.todo[0].data[..k]
        case Fetch(k) => k < 4 && |w.got| == k && w.got == w.g.hold[..k] && Loaded(w)
        case _ => Loaded(w))
  }

  /** Whether the far side has started the current access, and finished it. */
  predicate Started(w: World) { w.at.Fetch? || (w.at == Await && (w.g.pend || !Outstanding(w.g.link))) }

  predicate Landed(w: World) { w.at.Fetch? || (w.at == Await && !Outstanding(w.g.link)) }

  /** What the far side has started is what the host has finished and the current
      access, once; the RAM has been strobed once for each write among them. */
  predicate StartsInv(w: World) {
    && (Started(w) ==> w.todo != [])
    && w.starts == (if Started(w) then w.finished + [w.todo[0]] else w.finished)
    && w.g.ram.stores == Writes(if w.g.hWe then w.finished else w.starts)
  }

  /** Memory is what the finished accesses made of it, plus the current one once
      it is acknowledged. */
  predicate MemInv(mem: seq<Quad>, w: World) {
    && WorldSound(w)
    && |w.g.ram.cells| == |mem|
    && (forall op | op in w.finished :: op.addr < |mem|)
    && var (m, now) := (After(mem, w.finished), w.g.ram.cells);
    && (Landed(w) ==> w.todo != [] && now == Applied(m, w.todo[0]) && w.g.hold == m[w.todo[0].addr])
    && (!Landed(w) ==> now == m)
    && (w.g.pend && w.todo != [] ==> w.g.hWe == w.todo[0].Write? && w.g.rdata == m[w.todo[0].addr])
  }

  predicate AllReturned(mem: seq<Quad>, ops: seq<Op>, results: seq<Quad>)
    requires forall op | op in ops :: op.addr < |mem|
  {
    && |results| == |ops|
    && forall n | 0 <= n < |ops| :: results[n] == Returned(mem, ops, n)
  }

  predicate ResultsInv(mem: seq<Quad>, w: World)
    requires forall op | op in w.finished :: op.addr < |mem|
  {
    AllReturned(mem, w.finished, w.results)
  }

  predicate Inv(mem: seq<Quad>, w: World) {
    HostInv(w) && StartsInv(w) && MemInv(mem, w) && ResultsInv(mem, w)
  }

  // ---- every edge keeps it --------------------------------------------------------------

  lemma IdleEdge(mem: seq<Quad>, w: World)
    requires Inv(mem, w)
    ensures Inv(mem, Next(w, Sys(false)))
  {
    OneFlip(w.g.link, false, false);
  }

  lemma MemoryEdge(mem: seq<Quad>, w: World)
    requires HostInv(w) && MemInv(mem, w)
    ensures HostInv(Next(w, Ee)) && MemInv(mem, Next(w, Ee))
  {
    OneFlip(w.g.link, false, w.g.pend);
  }

  lemma StartEdge(w: World)
    requires WorldSound(w) && HostInv(w) && StartsInv(w)
    requires w.g.pend && w.todo != [] ==> w.g.hWe == w.todo[0].Write?
    ensures StartsInv(Next(w, Ee))
  {
    var v := Next(w, Ee);
    OneFlip(w.g.link, false, w.g.pend);
    assert v.finished == w.finished && v.todo == w.todo && v.at == w.at;
    if Starts(w.g) || w.g.hWe {
      assert Asked(w.g) == w.todo[0];
      WritesOfMore(w.finished, w.todo[0]);
    }
    if Starts(w.g) {
      assert !Started(w) && Started(v) && v.starts == w.finished + [w.todo[0]] && v.g.ram == w.g.ram;
    } else {
      assert Started(v) == Started(w) && v.starts == w.starts && !v.g.hWe;
    }
  }

  lemma HostSets(w: World)
    requires WorldSound(w) && HostInv(w) && (w.at == Idle || w.at == Direct)
    ensures HostInv(Next(w, Sys(true)))
  {
    OneFlip(w.g.link, false, false);
  }

  /** One more word of the prefix two quadwords agree on. */
  lemma OneWordMore(q: Quad, d: Quad, k: nat)
    requires k < 4 && q[..k] == d[..k]
    ensures var r: Quad := q[k := d[k]]; r[..k + 1] == d[..k + 1] && (k == 3 ==> r == d)
  {
    var r: Quad := q[k := d[k]];
    forall j | 0 <= j < k
      ensures r[j] == d[j]
    {
      assert q[..k][j] == d[..k][j];
    }
  }

  lemma HostWords(w: World, k: nat)
    requires WorldSound(w) && HostInv(w) && w.at == Words(k)
    ensures HostInv(Next(w, Sys(true)))
  {
    OneFlip(w.g.link, false, false);
    OneWordMore(w.g.w, w.todo[0].data, k);
  }

  lemma HostWaits(w: World)
    requires WorldSound(w) && HostInv(w) && (w.at == Settle || w.at == Launch || w.at == Await)
    ensures HostInv(Next(w, Sys(true)))
  {
    OneFlip(w.g.link, w.at.Launch?, false);
  }

  lemma HostFetches(w: World, k: nat)
    requires WorldSound(w) && HostInv(w) && w.at == Fetch(k)
    ensures w.got + [w.g.hold[k]] == w.g.hold[..k + 1]
    ensures k == 3 ==> w.got + [w.g.hold[k]] == w.g.hold
    ensures HostInv(Next(w, Sys(true)))
  {
    OneFlip(w.g.link, false, false);
  }

  lemma HostEdge(w: World)
    requires WorldSound(w) && HostInv(w)
    ensures HostInv(Next(w, Sys(true)))
  {
    match w.at
    case Words(k) => HostWords(w, k);
    case Fetch(k) => HostFetches(w, k);
    case Idle => HostSets(w);
    case Direct => HostSets(w);
    case _ => HostWaits(w);
  }

  /** The host starts nothing itself: it only moves the current access among the
      finished ones. */
  lemma HostStarts(w: World)
    requires WorldSound(w) && StartsInv(w) && (w.at != Idle ==> w.todo != [])
    requires w.g.hWe || w.g.pend ==> w.at == Await
    requires w.at == Await && !Busy(w.g.link) ==> !Outstanding(w.g.link) && !w.g.hWe
    requires w.at == Launch ==> !Busy(w.g.link) && !Outstanding(w.g.link)
    requires w.at.Fetch? ==> w.at.k < 4 && |w.got| == w.at.k
    ensures StartsInv(Next(w, Sys(true)))
  {
    var v := Next(w, Sys(true));
    assert v.g.ram == w.g.ram && v.g.hWe == w.g.hWe && v.starts == w.starts;
    if w.at == Fetch(3) {
      assert v.finished == w.finished + [w.todo[0]];
    } else {
      assert v.finished == w.finished && v.todo == w.todo && Started(v) == Started(w);
    }
  }

  lemma AfterNext(mem: seq<Quad>, ops: seq<Op>, op: Op)
    requires forall o | o in ops + [op] :: o.addr < |mem|
    ensures After(mem, ops + [op]) == Applied(After(mem, ops), op)
  {
    assert (ops + [op])[..|ops|] == ops;
  }

  lemma HostMemory(mem: seq<Quad>, w: World)
    requires HostInv(w) && MemInv(mem, w)
    ensures MemInv(mem, Next(w, Sys(true)))
  {
    OneFlip(w.g.link, w.at.Launch?, false);
    var v := Next(w, Sys(true));
    assert v.g.ram == w.g.ram && v.g.hold == w.g.hold && v.g.rdata == w.g.rdata;
    assert v.g.pend == w.g.pend && v.g.hWe == w.g.hWe;
    if w.at == Fetch(3) {
      assert v.finished == w.finished + [w.todo[0]] && !Landed(v) && !v.g.pend;
      AfterNext(mem, w.finished, w.todo[0]);
    } else {
      assert v.finished == w.finished && v.todo == w.todo && Landed(v) == Landed(w);
    }
  }

  lemma ReturnedNext(mem: seq<Quad>, ops: seq<Op>, results: seq<Quad>, op: Op, r: Quad)
    requires (forall o | o in ops + [op] :: o.addr < |mem|) && AllReturned(mem, ops, results)
    requires r == After(mem, ops)[op.addr]
    ensures AllReturned(mem, ops + [op], results + [r])
  {
    var more := ops + [op];
    assert more[..|ops|] == ops;
    forall n | 0 <= n < |more| ensures (results + [r])[n] == Returned(mem, more, n) {
      assert n < |ops| ==> more[..n] == ops[..n];
    }
  }

  lemma HostResults(mem: seq<Quad>, w: World)
    requires Inv(mem, w) && MemInv(mem, Next(w, Sys(true)))
    ensures ResultsInv(mem, Next(w, Sys(true)))
  {
    var v := Next(w, Sys(true));
    if w.at == Fetch(3) {
      HostFetches(w, 3);
      hide After, Busy, SysEdge, HostAccess;
      assert v.finished == w.finished + [w.todo[0]] && v.results == w.results + [w.g.hold];
      ReturnedNext(mem, w.finished, w.results, w.todo[0], w.g.hold);
    } else {
      hide After, Busy, SysEdge, HostAccess;
      assert v.finished == w.finished && v.results == w.results;
    }
  }

  lemma EdgeKeeps(mem: seq<Quad>, w: World, t: Tick)
    requires Inv(mem, w)
    ensures Inv(mem, Next(w, t))
  {
    match t
    case Ee =>
      MemoryEdge(mem, w);
      StartEdge(w);
    case Sys(act) =>
      if act {
        HostEdge(w);
        OneFlip(w.g.link, false, false);
        HostStarts(w);
        HostMemory(mem, w);
        HostResults(mem, w);
      } else {
        IdleEdge(mem, w);
      }
  }

  lemma {:induction false} RunKeeps(mem: seq<Quad>, w: World, ts: seq<Tick>)
    requires Inv(mem, w)
    ensures WorldSound(w) && Inv(mem, Run(w, ts))
    decreases |ts|
  {
    if ts != [] {
      EdgeKeeps(mem, w, ts[0]);
      RunKeeps(mem, Next(w, ts[0]), ts[1..]);
    }
  }

  lemma {:induction false} RunConserves(w: World, ts: seq<Tick>)
    requires WorldSound(w)
    ensures Run(w, ts).finished + Run(w, ts).todo == w.finished + w.todo
    decreases |ts|
  {
    if ts != [] {
      var v := Next(w, ts[0]);
      if w.todo != [] { assert w.todo == [w.todo[0]] + w.todo[1..]; }
      assert v.finished + v.todo == w.finished + w.todo;
      RunConserves(v, ts[1..]);
    }
  }

  // ---- every run ----------------------------------------------------------------------

  lemma OneMore(a: seq<Op>, b: seq<Op>)
    requires b != []
    ensures a + [b[0]] <= a + b && (a + [b[0]])[..|a|] == a
  {
  }

  lemma Accounted(all: seq<Op>, w: World)
    requires StartsInv(w) && w.finished + w.todo == all
    requires w.g.hWe ==> Started(w) && w.todo[0].Write?
    ensures w.starts <= all && |w.finished| <= |w.starts| <= |w.finished| + 1
    ensures w.g.hWe ==> w.starts != [] && w.starts[|w.starts| - 1].Write?
    ensures w.g.ram.stores == Writes(if w.g.hWe then w.starts[..|w.starts| - 1] else w.starts)
  {
    if Started(w) { OneMore(w.finished, w.todo); }
  }

  /** For every interleaving of the clocks and every delay of the host: the far
      side has started each finished access once, in order, and the current one
      at most once; and the RAM has been strobed exactly once for each write
      among those, and for nothing else, but for a strobe that is on now. */
  lemma OneAccessEach(mem: seq<Quad>, todo: seq<Op>, ts: seq<Tick>)
    requires mem != [] && forall op | op in todo :: op.addr < |mem|
    ensures var w := Run(Start(mem, todo), ts);
      && w.finished + w.todo == todo
      && w.starts <= todo
      && |w.finished| <= |w.starts| <= |w.finished| + 1
      && (w.g.hWe ==> w.starts != [] && w.starts[|w.starts| - 1].Write?)
      && w.g.ram.stores == Writes(if w.g.hWe then w.starts[..|w.starts| - 1] else w.starts)
  {
    var w := Run(Start(mem, todo), ts);
    RunKeeps(mem, Start(mem, todo), ts);
    RunConserves(Start(mem, todo), ts);
    assert [] + todo == todo;
    Accounted(todo, w);
  }

  /** In every run each finished access has returned what its address held just
      before it, and between accesses memory is exactly what they made of it. */
  lemma ResultsRight(mem: seq<Quad>, todo: seq<Op>, ts: seq<Tick>)
    requires mem != [] && forall op | op in todo :: op.addr < |mem|
    ensures var w := Run(Start(mem, todo), ts);
      && w.finished <= todo
      && (forall op | op in w.finished :: op.addr < |mem|)
      && ResultsInv(mem, w)
      && (!w.at.Await? && !w.at.Fetch? ==> w.g.ram.cells == After(mem, w.finished))
  {
    RunKeeps(mem, Start(mem, todo), ts);
    RunConserves(Start(mem, todo), ts);
    assert [] + todo == todo;
  }

  /** In every run busy is down while an access is awaited only once its data are
      captured and its write, if it is one, is in memory and its strobe over. */
  lemma BusyCoversAccess(mem: seq<Quad>, todo: seq<Op>, ts: seq<Tick>)
    requires mem != [] && forall op | op in todo :: op.addr < |mem|
    ensures var w := Run(Start(mem, todo), ts);
      w.at == Await && !Busy(w.g.link) ==>
        && w.todo != [] && w.starts == w.finished + [w.todo[0]] && !w.g.pend && !w.g.hWe
        && (forall op | op in w.finished + w.todo :: op.addr < |mem|)
        && var (m, op) := (After(mem, w.finished), w.todo[0]);
        && w.g.ram.cells == Applied(m, op) && w.g.hold == m[op.addr]
  {
    var w := Run(Start(mem, todo), ts);
    RunKeeps(mem, Start(mem, todo), ts);
    OneFlip(w.g.link, false, false);
  }

  // ---- how long busy lasts ------------------------------------------------------------

  /** Edges the current request still needs: the far side takes two of its own, to start
      the access and to finish it. */
  function Left(w: World): nat {
    var d := Distance(w.g.link);
    if d >= 3 && !w.g.pend then d + 1 else d
  }

  predicate Moves(d: nat, t: Tick) { if t.Ee? then d >= 3 else 0 < d < 3 }

  predicate Down(w: World) { !Busy(w.g.link) }

  predicate Good(w: World) { WorldSound(w) && HostInv(w) }

  lemma GoodEdge(w: World, t: Tick)
    requires Good(w)
    ensures Good(Edge(w, t))
  {
    OneFlip(w.g.link, false, w.g.pend);
    if t == Sys(true) { HostEdge(w); }
  }

  lemma EdgeTravels(w: World, t: Tick)
    requires Good(w) && !Down(w)
    ensures Left(Edge(w, t)) == Left(w) - (if Moves(Left(w), t) then 1 else 0)
  {
    OneFlip(w.g.link, false, false);
    FlipTravels(w.g.link, w.g.pend);
    assert w.at == Await;
  }

  lemma BusyApproachesDown()
    ensures Rounds.Approaches(Edge, Good, Down, Left, Moves)
  {
    forall w: World, t: Tick | Good(w) && !Down(w)
      ensures Good(Edge(w, t)) && Left(Edge(w, t)) <= Left(w) - (if Moves(Left(w), t) then 1 else 0)
    {
      GoodEdge(w, t);
      EdgeTravels(w, t);
    }
    forall w: World | Good(w) && Left(w) == 0 ensures Down(w) {
      FlipTravels(w.g.link, false);
    }
  }

  /** A stretch in which both clocks tick. */
  predicate Round(ts: seq<Tick>) { Ee in ts && (Sys(true) in ts || Sys(false) in ts) }

  lemma RoundComplete(ts: seq<Tick>)
    requires Round(ts)
    ensures Rounds.Complete(Moves, ts)
  {
    forall d: nat | d > 0 ensures Rounds.SomeMoves(Moves, d, ts) {
      var t := if d >= 3 then Ee else if Sys(true) in ts then Sys(true) else Sys(false);
      assert t in ts && Moves(d, t);
    }
  }

  /** From anywhere in any run, six rounds of the two clocks see busy go down. */
  lemma BusyFalls(mem: seq<Quad>, todo: seq<Op>, ts: seq<Tick>, rounds: seq<seq<Tick>>)
    requires mem != [] && forall op | op in todo :: op.addr < |mem|
    requires |rounds| >= 6 && forall r | r in rounds :: Round(r)
    ensures Rounds.HoldsIn(Edge, Down, Run(Start(mem, todo), ts), Rounds.Joined(rounds))
  {
    RunKeeps(mem, Start(mem, todo), ts);
    BusyApproachesDown();
    forall r | r in rounds ensures Rounds.Complete(Moves, r) {
      RoundComplete(r);
    }
    Rounds.RoundsArrive(Edge, Good, Down, Left, Moves, Run(Start(mem, todo), ts), rounds);
  }
}
