/** `HBMDMAWriter` of boards/hbm_common.py: a stream packed into 256-bit beats,
    beats into sixteen-beat AXI bursts, with a flush at the start of a transfer
    and an abort that stops only where AXI allows it.

    `Step` is one clock edge.  The ports are inputs and may do anything. */
module HbmWriter {
  import opened HbmAxi
  import opened Widths

  /** One source word.  Only its identity matters here. */
  type Lane = nat

  const BURST := 16

  datatype Phase = Idle | Aw | W | B

  datatype State = State(
    phase: Phase, addr: nat, remain: nat, written: nat, done: bool, resp: nat,
    beat: nat, bursts: nat, aborting: bool,
    acc: seq<Lane>, half: nat, full: bool)

  /** What the host, the source and the AXI slave drive on one cycle. */
  datatype Input = Input(
    start: bool, abort: bool, base: nat, length: nat,
    srcValid: bool, srcData: Lane,
    awReady: bool, wReady: bool, bValid: bool, bResp: nat)

  /** Source words per beat: 256 bits over the stream's width. */
  type Packing = n: nat | n > 0 witness 1

  /** The widths of the two CSRs. */
  predicate InRange(i: Input) {
    i.base < ADDR_SPACE && i.length < TWO32
  }

  // ---- the combinational outputs ----------------------------------------------

  predicate AwValid(s: State) { s.phase == Aw && !s.aborting && s.remain != 0 }

  predicate WValid(s: State) { s.phase == W && s.full }

  predicate WLast(s: State) { s.phase == W && s.beat == BURST - 1 }

  predicate BReady(s: State) { s.phase == B }

  predicate Taken(s: State, i: Input) { WValid(s) && i.wReady }

  predicate SrcReady(s: State, i: Input) { s.phase != Idle && (!s.full || Taken(s, i)) }

  predicate Accepts(s: State, i: Input) { i.srcValid && SrcReady(s, i) }

  predicate Flushes(s: State, i: Input) { s.phase == Idle && i.start }

  // ---- one clock edge ------------------------------------------------------------

  function Reset(n: Packing): State {
    State(Idle, 0, 0, 0, false, 0, 0, 0, false, seq(n, _ => 0), 0, false)
  }

  /** The packer: `full` falls when a beat is taken and rises with the last lane;
      a flush wins over both. */
  function Packer(n: Packing, s: State, i: Input): (r: (seq<Lane>, nat, bool))
    requires |s.acc| == n && s.half < n
  {
    if Flushes(s, i) then (s.acc, 0, false)
    else if Accepts(s, i) then
      (s.acc[s.half := i.srcData],
       if s.half == n - 1 then 0 else s.half + 1,
       s.half == n - 1 || (s.full && !Taken(s, i)))
    else (s.acc, s.half, s.full && !Taken(s, i))
  }

  /** The AW/W/B machine. */
  function Engine(s: State, i: Input): State {
    match s.phase
    case Idle =>
      if i.start then
        s.(phase := Aw, addr := i.base, remain := i.length, written := 0, done := false)
      else s
    case Aw =>
      if s.aborting then s.(phase := Idle)
      else if s.remain == 0 then s.(phase := Idle, done := true)
      else if i.awReady then s.(phase := W, beat := 0, bursts := (s.bursts + 1) % TWO32)
      else s
    case W =>
      if Taken(s, i) then
        var t := s.(written := (s.written + 32) % TWO32,
                    remain := if s.remain > 32 then s.remain - 32 else 0);
        if s.beat == BURST - 1 then t.(phase := B) else t.(beat := s.beat + 1)
      else s
    case B =>
      if i.bValid then
        s.(phase := Aw, resp := i.bResp, addr := (s.addr + BURST * 32) % ADDR_SPACE)
      else s
  }

  function Step(n: Packing, s: State, i: Input): State
    requires |s.acc| == n && s.half < n
  {
    var (acc, half, full) := Packer(n, s, i);
    Engine(s, i).(acc := acc, half := half, full := full,
                  aborting := i.abort || (s.aborting && s.phase != Idle))
  }

  /** The registers themselves, and the edge as the source writes it: every
      right-hand side reads the values before the edge. */
  class HBMDMAWriter {
    const packing: Packing
    var phase: Phase
    var addr: nat
    var remain: nat
    var written: nat
    var done: bool
    var resp: nat
    var beat: nat
    var bursts: nat
    var aborting: bool
    var acc: seq<Lane>
    var half: nat
    var full: bool

    ghost predicate Valid()
      reads this
    {
      |acc| == packing && half < packing
    }

    ghost function Now(): State
      reads this
    {
      State(phase, addr, remain, written, done, resp, beat, bursts, aborting, acc, half, full)
    }

    constructor (packing: Packing)
      ensures Valid() && this.packing == packing && Now() == Reset(packing)
    {
      this.packing := packing;
      phase, addr, remain, written, done, resp := Idle, 0, 0, 0, false, 0;
      beat, bursts, aborting := 0, 0, false;
      acc, half, full := seq(packing, _ => 0), 0, false;
    }

    // the machine's edge, one method for each state's block

    method ActIdle(i: Input)
      requires phase == Idle
      modifies `phase, `addr, `remain, `written, `done
      ensures Now() == Engine(old(Now()), i)
    {
      if i.start {
        phase, addr, remain := Aw, i.base, i.length;
        written, done := 0, false;
      }
    }

    method ActAw(i: Input)
      requires phase == Aw
      modifies `phase, `done, `beat, `bursts
      ensures Now() == Engine(old(Now()), i)
    {
      if aborting {
        phase := Idle;
      } else if remain == 0 {
        done, phase := true, Idle;
      } else if i.awReady {
        beat, bursts, phase := 0, (bursts + 1) % TWO32, W;
      }
    }

    method ActW(i: Input)
      requires phase == W
      modifies `phase, `remain, `written, `beat
      ensures Now() == Engine(old(Now()), i)
    {
      if full && i.wReady {
        written := (written + 32) % TWO32;
        if remain > 32 { remain := remain - 32; } else { remain := 0; }
        if beat == BURST - 1 { phase := B; } else { beat := beat + 1; }
      }
    }

    method ActB(i: Input)
      requires phase == B
      modifies `phase, `addr, `resp
      ensures Now() == Engine(old(Now()), i)
    {
      if i.bValid {
        resp, addr, phase := i.bResp, (addr + BURST * 32) % ADDR_SPACE, Aw;
      }
    }

    /** The packer's edge, given the strobes as they were before it. */
    method RunPacker(flush: bool, taken: bool, accept: bool, ghost s: State, i: Input)
      requires Valid() && acc == s.acc && half == s.half && full == s.full
      requires flush == Flushes(s, i) && taken == Taken(s, i) && accept == Accepts(s, i)
      modifies `acc, `half, `full
      ensures Valid()
      ensures (acc, half, full) == Packer(packing, s, i)
    {
      if flush {
        full, half := false, 0;
      } else {
        if taken { full := false; }
        if accept {
          acc := acc[half := i.srcData];
          if half == packing - 1 { half, full := 0, true; } else { half := half + 1; }
        }
      }
    }

    method RunEngine(i: Input)
      modifies `phase, `addr, `remain, `written, `done, `resp, `beat, `bursts
      ensures Now() == Engine(old(Now()), i)
    {
      match phase {
        case Idle => ActIdle(i);
        case Aw => ActAw(i);
        case W => ActW(i);
        case B => ActB(i);
      }
    }

    method Tick(i: Input)
      requires Valid()
      modifies this
      ensures Valid() && Now() == Step(packing, old(Now()), i)
    {
      hide Engine, Packer;
      ghost var s := Now();
      var taken := phase == W && full && i.wReady;
      var accept := i.srcValid && phase != Idle && (!full || taken);
      var flush := phase == Idle && i.start;
      var idle := phase == Idle;
      RunEngine(i);
      if i.abort { aborting := true; } else if idle { aborting := false; }
      RunPacker(flush, taken, accept, s, i);
    }
  }
}
