/** `HBMDiscSource` of boards/hbm_common.py: it answers one sector request at a
    time out of HBM, four sixteen-beat bursts of eight words a beat, one word
    every `throttle` cycles.

    `Step` is one clock edge.  The ports are inputs and may do anything. */
module HbmDiscSource {
  import opened HbmAxi

  type Word = nat

  const BEATS := 64

  datatype Phase = Idle | Ar | R | Emit | Drain | Done | Wait

  datatype State = State(
    phase: Phase, beat: nat, word: nat, shift: seq<Word>, emit: nat, gap: nat, drain: nat,
    served: nat, resp: nat)

  /** The two registers and the drive's request, and the AXI slave. */
  datatype Input = Input(
    enable: bool, req: bool, base: nat, lba: nat,
    arReady: bool, rValid: bool, rData: seq<Word>, rResp: nat)

  type Throttle = t: nat | t > 0 witness 1

  predicate Shaped(s: State) {
    |s.shift| == 8
  }

  /** Eight words to a beat. */
  predicate InRange(i: Input) {
    |i.rData| == 8
  }

  // ---- the combinational outputs -----------------------------------------------

  /** The address offered in AR: the read pointer itself, so no second counter. */
  function ArAddr(s: State, i: Input): nat {
    (i.base + i.lba * 2048 + s.beat * 32) % ADDR_SPACE
  }

  predicate ArTaken(s: State, i: Input) { s.phase == Ar && i.arReady }

  predicate RTaken(s: State, i: Input) { s.phase == R && i.rValid }

  predicate FillWe(s: State) { s.phase == Emit && s.gap == 0 }

  predicate FillDone(s: State) { s.phase == Done }

  // ---- one clock edge ---------------------------------------------------------------

  function Reset(): State {
    State(Idle, 0, 0, [0, 0, 0, 0, 0, 0, 0, 0], 0, 0, 0, 0, 0)
  }

  /** Where the machine goes once the eighth word of a beat is out. */
  function AfterBeat(beat: nat): Phase {
    if beat == BEATS then Drain else if beat % 16 == 0 then Ar else R
  }

  function EmitEdge(throttle: Throttle, s: State): State
    requires Shaped(s)
  {
    if s.gap != throttle - 1 then s.(gap := s.gap + 1)
    else
      var t := s.(gap := 0, shift := s.shift[1..] + [0], word := s.word + 1);
      if s.emit == 7 then t.(emit := 0, phase := AfterBeat(s.beat))
      else t.(emit := s.emit + 1)
  }

  function Step(throttle: Throttle, s: State, i: Input): State
    requires Shaped(s) && InRange(i)
  {
    match s.phase
    case Idle => if i.enable && i.req then s.(beat := 0, word := 0, phase := Ar) else s
    case Ar => if i.arReady then s.(phase := R) else s
    case R =>
      if i.rValid then s.(shift := i.rData, resp := i.rResp, beat := s.beat + 1, phase := Emit) else s
    case Emit => EmitEdge(throttle, s)
    case Drain => if s.drain == 63 then s.(drain := 0, phase := Done) else s.(drain := s.drain + 1)
    case Done => s.(served := (s.served + 1) % 0x1_0000, phase := Wait)
    case Wait => if i.req then s else s.(phase := Idle)
  }

  /** The registers, with the edge as the source writes it. */
  class HBMDiscSource {
    const throttle: Throttle
    var phase: Phase
    var beat: nat
    var word: nat
    var shift: seq<Word>
    var emit: nat
    var gap: nat
    var drain: nat
    var served: nat
    var resp: nat

    ghost function Now(): State
      reads this
    {
      State(phase, beat, word, shift, emit, gap, drain, served, resp)
    }

    constructor (throttle: Throttle)
      ensures this.throttle == throttle && Now() == Reset()
    {
      this.throttle := throttle;
      phase, beat, word, shift := Idle, 0, 0, [0, 0, 0, 0, 0, 0, 0, 0];
      emit, gap, drain, served, resp := 0, 0, 0, 0, 0;
    }

    method ActEmit()
      requires phase == Emit && |shift| == 8
      modifies `phase, `shift, `word, `emit, `gap
      ensures Now() == EmitEdge(throttle, old(Now()))
    {
      if gap != throttle - 1 {
        gap := gap + 1;
      } else {
        gap, shift, word := 0, shift[1..] + [0], word + 1;
        if emit == 7 {
          emit := 0;
          if beat == BEATS { phase := Drain; }
          else if beat % 16 == 0 { phase := Ar; }
          else { phase := R; }
        } else {
          emit := emit + 1;
        }
      }
    }

    method Tick(i: Input)
      requires |shift| == 8 && InRange(i)
      modifies this
      ensures |shift| == 8 && Now() == Step(throttle, old(Now()), i)
    {
      match phase {
        case Idle => if i.enable && i.req { beat, word, phase := 0, 0, Ar; }
        case Ar => if i.arReady { phase := R; }
        case R =>
          if i.rValid { shift, resp, beat, phase := i.rData, i.rResp, beat + 1, Emit; }
        case Emit => ActEmit();
        case Drain =>
          if drain == 63 { drain, phase := 0, Done; } else { drain := drain + 1; }
        case Done => served, phase := (served + 1) % 0x1_0000, Wait;
        case Wait => if !i.req { phase := Idle; }
      }
    }
  }
}
