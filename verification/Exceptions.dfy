/** The R5900's control flow from sim/ee/r5900_ref.py: delay slots, exceptions and ERET.
    Instructions arrive decoded; those that can raise an exception, branch or reach COP0
    are spelled out, and every other one is a write of some value to some register. */
module Exceptions {
  import opened Wrappers
  import opened Bits
  import opened Widths

  type Word = w: seq<bool> | |w| == 32 witness seq(32, i => false)

  /** A 128-bit register, in halves. */
  datatype Reg = Reg(low: nat, high: nat)

  datatype HiLo = HiLo(hi: nat, lo: nat, hi1: nat, lo1: nat)

  /** Registers, memory and control state.  `delay` is the target pending behind a
      taken branch. */
  datatype Cpu = Cpu(gpr: seq<Reg>, hilo: HiLo, sa: nat, mem: seq<nat>, cop0: seq<Word>,
                     pc: nat, delay: Option<nat>, exceptions: nat)

  const STATUS := 12

  const CAUSE := 13

  const EPC := 14

  const PRID := 15

  const ERROREPC := 30

  predicate Exl(c: Cpu) requires |c.cop0| == 32 { c.cop0[STATUS][1] }

  predicate Erl(c: Cpu) requires |c.cop0| == 32 { c.cop0[STATUS][2] }

  predicate Bev(c: Cpu) requires |c.cop0| == 32 { c.cop0[STATUS][22] }

  predicate Valid(c: Cpu) {
    && |c.gpr| == 32 && |c.cop0| == 32 && c.pc < TWO64
    && (forall i :: 0 <= i < 32 ==> c.gpr[i].low < TWO64)
    && (c.delay.Some? ==> c.delay.value < TWO64)
  }

  // ---- numbers ---------------------------------------------------------------------------

  function S64(x: nat): int { if x >= 0x8000_0000_0000_0000 then x - TWO64 else x }

  /** A 32-bit result, sign-extended into a register. */
  function Sext32(x: nat): nat { Wrap64(S32(x % TWO32)) }

  function Wrap64(x: int): nat { x % TWO64 }

  const WORD_BITS := 32

  /** The low 32 bits of a number, and the number a word holds. */
  function ToWord(v: nat): Word { Digits(v, WORD_BITS) }

  function FromWord(w: Word): nat { Number(w) }

  lemma WordOf(v: nat)
    ensures FromWord(ToWord(v)) == v % TWO32
  {
    NumberOfLow(v, WORD_BITS);
    assert Two(8) == 0x100 && Two(16) == 0x1_0000 && Two(24) == 0x100_0000 && Two(32) == TWO32;
  }

  // ---- instructions, decoded -------------------------------------------------------------

  datatype Test = GE | GEU | LT | LTU | EQ | NE

  datatype Operand = Register(r: nat) | Immediate(v: int)

  datatype Op =
    | Add(wide: bool, minus: bool, rd: nat, rs: nat, src: Operand)
    | Trap(test: Test, rs: nat, src: Operand)
    | Syscall
    | Break
    | Branch(likely: bool, link: bool, taken: bool, offset: int)
    | Jump(linkTo: nat, target: nat)
    | Mfc0(rt: nat, rd: nat)
    | Mtc0(rd: nat, rt: nat)
    | Eret
    | Write(rd: nat, v: nat)
    | SetHiLo(hilo: HiLo)
    | SetSa(v: nat)
    | Store(mem: seq<nat>)
    | Nothing

  predicate Decoded(op: Op) {
    match op
    case Add(_, _, rd, rs, src) => rd < 32 && rs < 32 && (src.Register? ==> src.r < 32)
    case Trap(_, rs, src) => rs < 32 && (src.Register? ==> src.r < 32)
    case Jump(link, target) => link < 32 && target < TWO64
    case Mfc0(rt, rd) => rt < 32 && rd < 32
    case Mtc0(rd, rt) => rd < 32 && rt < 32
    case Write(rd, _) => rd < 32
    case _ => true
  }

  // ---- register access -------------------------------------------------------------------

  /** Register 0 is hardwired; a 64-bit write leaves the upper half alone. */
  function W(c: Cpu, i: nat, v: int): Cpu
    requires i < |c.gpr|
  {
    if i == 0 then c else c.(gpr := c.gpr[i := Reg(Wrap64(v), c.gpr[i].high)])
  }

  function Signed(c: Cpu, o: Operand, wide: bool): int
    requires o.Register? ==> o.r < |c.gpr|
  {
    match o
    case Register(r) => if wide then S64(c.gpr[r].low) else S32(c.gpr[r].low % TWO32)
    case Immediate(v) => v
  }

  function Unsigned(c: Cpu, o: Operand): nat
    requires o.Register? ==> o.r < |c.gpr|
  {
    match o
    case Register(r) => c.gpr[r].low
    case Immediate(v) => Wrap64(v)
  }

  // ---- exceptions ------------------------------------------------------------------------

  const EXC_SYSCALL := 8

  const EXC_BREAK := 9

  const EXC_OV := 12

  const EXC_TR := 13

  /** Cause with a new code and branch-delay bit. */
  function WithCause(cause: Word, code: nat, bd: bool): Word {
    cause[..2] + Digits(code, 5) + cause[7..31] + [bd]
  }

  /** Where execution is to resume: the instruction, or the branch before it when it is
      in a delay slot. */
  function Fault(c: Cpu): nat {
    if c.delay.Some? then Wrap64(c.pc - 4) else c.pc
  }

  /** Enter the general handler from the instruction at c.pc.  The first exception's EPC
      and Cause are the ones kept. */
  function Raise(c: Cpu, code: nat): Cpu
    requires |c.cop0| == 32
  {
    var vector := Sext32((if Bev(c) then 0xBFC0_0200 else 0x8000_0000) + 0x180);
    var kept :=
      if Exl(c) then c.cop0
      else c.cop0[EPC := ToWord(Fault(c))][CAUSE := WithCause(c.cop0[CAUSE], code, c.delay.Some?)]
                 [STATUS := c.cop0[STATUS][1 := true]];
    c.(cop0 := kept, pc := vector, delay := None, exceptions := c.exceptions + 1)
  }

  /** Return: through ErrorEPC first, and otherwise through EPC. */
  function Return(c: Cpu): Cpu
    requires |c.cop0| == 32
  {
    if Erl(c)
    then c.(pc := Sext32(FromWord(c.cop0[ERROREPC])), delay := None,
            cop0 := c.cop0[STATUS := c.cop0[STATUS][2 := false]])
    else c.(pc := Sext32(FromWord(c.cop0[EPC])), delay := None,
            cop0 := c.cop0[STATUS := c.cop0[STATUS][1 := false]])
  }

  // ---- one instruction -------------------------------------------------------------------

  function Result(c: Cpu, op: Op): int
    requires Valid(c) && Decoded(op) && op.Add?
  {
    var (a, b) := (Signed(c, Register(op.rs), op.wide), Signed(c, op.src, op.wide));
    if op.minus then a - b else a + b
  }

  predicate Overflows(c: Cpu, op: Op)
    requires Valid(c) && Decoded(op) && op.Add?
  {
    var limit := if op.wide then 0x8000_0000_0000_0000 else 0x8000_0000;
    !(0 - limit <= Result(c, op) < limit)
  }

  predicate Holds(c: Cpu, op: Op)
    requires Valid(c) && Decoded(op) && op.Trap?
  {
    var (a, b) := (Signed(c, Register(op.rs), true), Signed(c, op.src, true));
    var (x, y) := (Unsigned(c, Register(op.rs)), Unsigned(c, op.src));
    match op.test
    case GE => a >= b
    case GEU => x >= y
    case LT => a < b
    case LTU => x < y
    case EQ => a == b
    case NE => a != b
  }

  /** The exception an instruction raises, if it raises one. */
  function Raises(c: Cpu, op: Op): Option<nat>
    requires Valid(c) && Decoded(op)
  {
    match op
    case Add(_, _, _, _, _) => if Overflows(c, op) then Some(EXC_OV) else None
    case Trap(_, _, _) => if Holds(c, op) then Some(EXC_TR) else None
    case Syscall => Some(EXC_SYSCALL)
    case Break => Some(EXC_BREAK)
    case _ => None
  }

  /** Fall through to the next instruction, or to the branch pending behind this one. */
  function Onward(c: Cpu): Cpu
  {
    c.(pc := if c.delay.Some? then c.delay.value else Wrap64(c.pc + 4), delay := None)
  }

  function Step(c: Cpu, op: Op): Cpu
    requires Valid(c) && Decoded(op)
  {
    var next := Wrap64(c.pc + 4);
    match op
    case Add(_, _, rd, _, _) => if Overflows(c, op) then Raise(c, EXC_OV) else W(Onward(c), rd, Result(c, op))
    case Trap(_, _, _) => if Holds(c, op) then Raise(c, EXC_TR) else Onward(c)
    case Syscall => Raise(c, EXC_SYSCALL)
    case Break => Raise(c, EXC_BREAK)
    case Branch(likely, link, taken, offset) =>
      var linked := if link then W(Onward(c), 31, next + 4) else Onward(c);
      if taken then linked.(delay := Some(Wrap64(next + 4 * offset)))
      else if likely && c.delay.None? then linked.(pc := Wrap64(next + 4))
      else linked
    case Jump(link, target) => W(Onward(c), link, next + 4).(delay := Some(target))
    case Mfc0(rt, rd) => W(Onward(c), rt, Sext32(FromWord(c.cop0[rd])))
    case Mtc0(rd, rt) =>
      if rd == PRID then Onward(c)
      else Onward(c).(cop0 := c.cop0[rd := ToWord(c.gpr[rt].low)])
    case Eret => Return(c)
    case Write(rd, v) => W(Onward(c), rd, v)
    case SetHiLo(hilo) => Onward(c).(hilo := hilo)
    case SetSa(v) => Onward(c).(sa := v)
    case Store(mem) => Onward(c).(mem := mem)
    case Nothing => Onward(c)
  }

  // ---- what single steps do ------------------------------------------------------------------

  /** Instructions that may set a delay slot up or leave one. */
  predicate Transfers(op: Op) { op.Branch? || op.Jump? || op.Eret? }

  lemma StepValid(c: Cpu, op: Op)
    requires Valid(c) && Decoded(op)
    ensures Valid(Step(c, op))
  {
  }

  /** A raising instruction leaves every register, HI/LO, SA and memory as they were, and
      drops the pending branch. */
  lemma Precise(c: Cpu, op: Op)
    requires Valid(c) && Decoded(op)
    ensures var d := Step(c, op);
      && (Raises(c, op).Some? <==> d.exceptions == c.exceptions + 1)
      && (Raises(c, op).None? <==> d.exceptions == c.exceptions)
      && (Raises(c, op).Some? ==>
           d.gpr == c.gpr && d.hilo == c.hilo && d.sa == c.sa && d.mem == c.mem && d.delay.None?
           && d.pc == Sext32(if Bev(c) then 0xBFC0_0380 else 0x8000_0180))
  {
  }

  /** Register 0 and PRId are the same after any instruction. */
  lemma Hardwired(c: Cpu, op: Op)
    requires Valid(c) && Decoded(op)
    ensures Step(c, op).gpr[0] == c.gpr[0] && Step(c, op).cop0[PRID] == c.cop0[PRID]
  {
  }

  lemma CauseFields(cause: Word, code: nat, bd: bool)
    requires code < 32
    ensures var w := WithCause(cause, code, bd);
      w[31] == bd && Number(w[2..7]) == code && w[..2] == cause[..2] && w[7..31] == cause[7..31]
  {
    var w := WithCause(cause, code, bd);
    assert w[2..7] == Digits(code, 5);
    Powers();
    NumberOfDigits(code, 5);
  }

  /** The first exception: EPC is where to resume, Cause says why and whether that is the
      branch before a delay slot, and EXL is set. */
  lemma FirstException(c: Cpu, op: Op)
    requires Valid(c) && Decoded(op) && Raises(c, op).Some? && !Exl(c)
    ensures var d := Step(c, op);
      && d.cop0[EPC] == ToWord(Fault(c)) && FromWord(d.cop0[EPC]) == Fault(c) % TWO32
      && Exl(d) && Erl(d) == Erl(c)
      && d.cop0[CAUSE][31] == c.delay.Some? && Number(d.cop0[CAUSE][2..7]) == Raises(c, op).value
  {
    RaiseFields(c, Raises(c, op).value);
    WordOf(Fault(c));
  }

  lemma RaiseFields(c: Cpu, code: nat)
    requires Valid(c) && !Exl(c) && code < 32
    ensures var d := Raise(c, code);
      && d.cop0[EPC] == ToWord(Fault(c)) && Exl(d) && Erl(d) == Erl(c)
      && d.cop0[CAUSE][31] == c.delay.Some? && Number(d.cop0[CAUSE][2..7]) == code
  {
    CauseFields(c.cop0[CAUSE], code, c.delay.Some?);
  }

  // ---- a handler's whole run -------------------------------------------------------------------

  /** What a handler may run without losing its way back: anything but ERET and writes to
      Status, Cause and EPC.  It may fault again. */
  predicate KeepsContext(op: Op) {
    !op.Eret? && (op.Mtc0? ==> op.rd != STATUS && op.rd != CAUSE && op.rd != EPC)
  }

  predicate AllDecoded(ops: seq<Op>) { forall k :: 0 <= k < |ops| ==> Decoded(ops[k]) }

  function Run(c: Cpu, ops: seq<Op>): (d: Cpu)
    requires Valid(c) && AllDecoded(ops)
    ensures Valid(d)
  {
    if ops == [] then c
    else
      var before := Run(c, ops[..|ops| - 1]);
      StepValid(before, ops[|ops| - 1]);
      Step(before, ops[|ops| - 1])
  }

  lemma {:induction false} HardwiredAlways(c: Cpu, ops: seq<Op>)
    requires Valid(c) && AllDecoded(ops)
    ensures Run(c, ops).gpr[0] == c.gpr[0] && Run(c, ops).cop0[PRID] == c.cop0[PRID]
  {
    if ops != [] {
      HardwiredAlways(c, ops[..|ops| - 1]);
      Hardwired(Run(c, ops[..|ops| - 1]), ops[|ops| - 1]);
    }
  }

  /** The instructions of a run that raise. */
  function Raised(c: Cpu, ops: seq<Op>): nat
    requires Valid(c) && AllDecoded(ops)
  {
    if ops == [] then 0
    else
      var front := ops[..|ops| - 1];
      Raised(c, front) + if Raises(Run(c, front), ops[|ops| - 1]).Some? then 1 else 0
  }

  /** Everything an exception must not touch. */
  predicate SameMachine(c: Cpu, d: Cpu) { d.gpr == c.gpr && d.hilo == c.hilo && d.sa == c.sa && d.mem == c.mem }

  /** In every run the exceptions taken are exactly the instructions that raised, and each
      of those left every register, HI/LO, SA and memory as the ones before it had. */
  lemma {:induction false} PreciseRuns(c: Cpu, ops: seq<Op>)
    requires Valid(c) && AllDecoded(ops)
    ensures Run(c, ops).exceptions == c.exceptions + Raised(c, ops)
    ensures forall k: nat :: k < |ops| && Raises(Run(c, ops[..k]), ops[k]).Some? ==>
              SameMachine(Run(c, ops[..k]), Run(c, ops[..k + 1]))
  {
    hide Step, Raises;
    if ops != [] {
      var n := |ops| - 1;
      PreciseRuns(c, ops[..n]);
      Precise(Run(c, ops[..n]), ops[n]);
      forall k: nat | k < |ops| && Raises(Run(c, ops[..k]), ops[k]).Some?
        ensures SameMachine(Run(c, ops[..k]), Run(c, ops[..k + 1]))
      {
        assert ops[..n][..k] == ops[..k];
        if k < n {
          assert ops[..n][..k + 1] == ops[..k + 1] && ops[..n][k] == ops[k];
        } else {
          assert ops[..k + 1] == ops;
        }
      }
    }
  }

  predicate SameContext(c: Cpu, d: Cpu)
    requires |c.cop0| == 32 && |d.cop0| == 32
  {
    d.cop0[EPC] == c.cop0[EPC] && d.cop0[CAUSE] == c.cop0[CAUSE] && d.cop0[STATUS] == c.cop0[STATUS]
  }

  lemma StepKeepsContext(c: Cpu, op: Op)
    requires Valid(c) && Decoded(op) && KeepsContext(op) && Exl(c)
    ensures SameContext(c, Step(c, op))
  {
  }

  lemma {:induction false} ContextKept(c: Cpu, ops: seq<Op>)
    requires Valid(c) && AllDecoded(ops) && Exl(c)
    requires forall k :: 0 <= k < |ops| ==> KeepsContext(ops[k])
    ensures SameContext(c, Run(c, ops))
  {
    if ops != [] {
      ContextKept(c, ops[..|ops| - 1]);
      StepKeepsContext(Run(c, ops[..|ops| - 1]), ops[|ops| - 1]);
    }
  }

  /** An address the 32-bit PC can hold: one that is the sign extension of its low half. */
  predicate Canonical(a: nat) { Sext32(a % TWO32) == a }

  /** From EXL and ERL clear: an instruction faults, the handler runs whatever it likes but
      ERET and writes to Status, Cause and EPC, faulting again as often as it likes, and
      then ERET clears EXL and resumes where Fault says -- at that very address exactly
      when it is a sign-extended 32-bit one. */
  lemma Restart(c: Cpu, op: Op, handler: seq<Op>)
    requires Valid(c) && Decoded(op) && Raises(c, op).Some? && !Exl(c) && !Erl(c)
    requires AllDecoded(handler) && forall k :: 0 <= k < |handler| ==> KeepsContext(handler[k])
    ensures Valid(Step(c, op))
    ensures var entered := Step(c, op);
      var back := Step(Run(entered, handler), Eret);
      && back.pc == Sext32(Fault(c) % TWO32) && !Exl(back) && !Erl(back) && back.delay.None?
      && SameContext(entered, Run(entered, handler))
      && (back.pc == Fault(c) <==> Canonical(Fault(c)))
  {
    StepValid(c, op);
    FirstException(c, op);
    var entered := Step(c, op);
    ContextKept(entered, handler);
    Returned(Run(entered, handler), Fault(c) % TWO32);
  }

  lemma Returned(c: Cpu, a: nat)
    requires Valid(c) && !Erl(c) && FromWord(c.cop0[EPC]) == a
    ensures var d := Step(c, Eret); d.pc == Sext32(a) && !Exl(d) && !Erl(d) && d.delay.None?
  {
  }

  // ---- delay slots -----------------------------------------------------------------------------

  /** A delay slot belongs to the taken branch just before it, which is where a fault in
      the slot resumes, so long as that branch was not itself in a slot. */
  lemma SlotOwner(c: Cpu, op: Op)
    requires Valid(c) && Decoded(op) && c.delay.None?
    ensures var d := Step(c, op);
      && (d.delay.Some? <==> op.Jump? || (op.Branch? && op.taken))
      && (d.delay.Some? ==> d.pc == Wrap64(c.pc + 4) && Fault(d) == c.pc)
  {
    BackFour(c.pc);
  }

  lemma BackFour(pc: nat)
    requires pc < TWO64
    ensures Wrap64(Wrap64(pc + 4) - 4) == pc
  {
  }

  /** A slot's instruction is followed by the branch's target, unless it raises; and a
      likely branch not taken skips its slot. */
  lemma SlotThenTarget(c: Cpu, op: Op)
    requires Valid(c) && Decoded(op)
    ensures c.delay.Some? && !Transfers(op) && Raises(c, op).None? ==>
      Step(c, op).pc == c.delay.value
    ensures c.delay.Some? && !Transfers(op) ==> Step(c, op).delay.None?
    ensures c.delay.None? && op.Branch? && op.likely && !op.taken ==>
      Step(c, op).pc == Wrap64(Wrap64(c.pc + 4) + 4) && Step(c, op).delay.None?
  {
  }

  /** No branch, jump or ERET is executed in a delay slot. */
  predicate CleanSlots(c: Cpu, ops: seq<Op>)
    requires Valid(c) && AllDecoded(ops)
  {
    forall k :: 0 <= k < |ops| ==> Run(c, ops[..k]).delay.Some? ==> !Transfers(ops[k])
  }

  /** Over such runs, whenever a branch is pending it is the instruction just executed, and
      a fault now would resume at it. */
  lemma BranchOwnsSlot(c: Cpu, ops: seq<Op>)
    requires Valid(c) && AllDecoded(ops) && CleanSlots(c, ops) && c.delay.None? && Run(c, ops).delay.Some?
    ensures ops != [] && (ops[|ops| - 1].Jump? || (ops[|ops| - 1].Branch? && ops[|ops| - 1].taken))
    ensures Fault(Run(c, ops)) == Run(c, ops[..|ops| - 1]).pc
  {
    var k := |ops| - 1;
    var before := Run(c, ops[..k]);
    if before.delay.Some? {
      SlotThenTarget(before, ops[k]);
    } else {
      SlotOwner(before, ops[k]);
    }
  }

  function ResetCop0(i: nat): Word { if i == PRID then ToWord(0x2E20) else seq(32, j => false) }

  // ---- the interpreter ---------------------------------------------------------------------------

  class R5900 {
    var gpr: seq<Reg>
    var hilo: HiLo
    var sa: nat
    var mem: seq<nat>
    var cop0: seq<Word>
    var pc: nat
    var delay: Option<nat>
    var inDelay: bool
    var excTaken: bool
    var exceptions: nat

    function Now(): Cpu
      reads this
    {
      Cpu(gpr, hilo, sa, mem, cop0, pc, delay, exceptions)
    }

    constructor (start: nat, image: seq<nat>)
      requires start < TWO64
      ensures Valid(Now()) && pc == start && delay.None? && mem == image && !Exl(Now()) && !Erl(Now())
      ensures cop0[PRID] == ToWord(0x2E20) && gpr[0] == Reg(0, 0)
    {
      gpr := seq(32, i => Reg(0, 0));
      hilo := HiLo(0, 0, 0, 0);
      sa := 0;
      mem := image;
      cop0 := seq(32, (i: nat) => ResetCop0(i));
      pc := start;
      delay := None;
      inDelay := false;
      excTaken := false;
      exceptions := 0;
    }

    /** self.w: writes to register 0 vanish. */
    method WriteReg(i: nat, v: int)
      requires i < |gpr|
      modifies this`gpr
      ensures Now() == W(old(Now()), i, v)
    {
      if i == 0 {
        return;
      }
      gpr := gpr[i := Reg(Wrap64(v), gpr[i].high)];
    }

    /** Called with pc already past the faulting instruction. */
    method Exception(code: nat)
      requires |cop0| == 32
      modifies this`cop0, this`pc, this`delay, this`excTaken, this`exceptions
      ensures excTaken && delay.None? && exceptions == old(exceptions) + 1
      ensures pc == Sext32((if old(Bev(Now())) then 0xBFC0_0200 else 0x8000_0000) + 0x180)
      ensures cop0 == if old(Exl(Now())) then old(cop0)
        else old(cop0)[EPC := ToWord(Epc(old(pc), inDelay))][CAUSE := WithCause(old(cop0)[CAUSE], code, inDelay)]
                      [STATUS := old(cop0)[STATUS][1 := true]]
    {
      var st := cop0[STATUS];
      if !st[1] {
        var epc: int := Wrap64(pc - 4);
        if inDelay {
          epc := Wrap64(epc - 4);
        }
        cop0 := cop0[EPC := ToWord(epc)];
        cop0 := cop0[CAUSE := WithCause(cop0[CAUSE], code, inDelay)];
        cop0 := cop0[STATUS := st[1 := true]];
      }
      var base := if st[22] then 0xBFC0_0200 else 0x8000_0000;
      pc := Sext32(base + 0x180);
      delay := None;
      excTaken := true;
      exceptions := exceptions + 1;
    }

    /** ERET has no delay slot. */
    method ReturnFromException()
      requires |cop0| == 32
      modifies this`cop0, this`pc, this`delay, this`excTaken
      ensures excTaken && Now() == Return(old(Now()))
    {
      var st := cop0[STATUS];
      if st[2] {
        pc := Sext32(FromWord(cop0[ERROREPC]));
        cop0 := cop0[STATUS := st[2 := false]];
      } else {
        pc := Sext32(FromWord(cop0[EPC]));
        cop0 := cop0[STATUS := st[1 := false]];
      }
      delay := None;
      excTaken := true;
    }

    method Link(i: nat, nxt: nat)
      requires i < |gpr|
      modifies this`gpr
      ensures Now() == W(old(Now()), i, nxt + 4)
    {
      WriteReg(i, nxt + 4);
    }

    /** self.exception, seen from the instruction at c that calls it. */
    method Trip(code: nat, ghost c: Cpu)
      requires Valid(c) && Entered(c)
      modifies this`cop0, this`pc, this`delay, this`excTaken, this`exceptions
      ensures excTaken && Now() == Raise(c, code)
    {
      EpcIsFault(c);
      Exception(code);
    }

    /** The state in which an instruction's own code starts: pc already at the next one and
        the pending branch, if any, set aside. */
    ghost predicate Entered(c: Cpu)
      reads this
    {
      Now() == c.(pc := Wrap64(c.pc + 4), delay := None) && !excTaken && inDelay == c.delay.Some?
    }

    /** What the instruction at c leaves once its own code is done and the branch behind it,
        if it survives, is followed. */
    ghost function Followed(c: Cpu): Cpu
      reads this
    {
      if c.delay.Some? && !excTaken then Now().(pc := c.delay.value) else Now()
    }

    /** ADD, SUB, DADD, DSUB and the immediate forms: on overflow rd is left alone. */
    method AddInstr(op: Op, ghost c: Cpu)
      requires Valid(c) && Decoded(op) && op.Add? && Entered(c)
      modifies this
      ensures Followed(c) == Step(c, op)
    {
      var (a, b) := (Signed(Now(), Register(op.rs), op.wide), Signed(Now(), op.src, op.wide));
      var v := if op.minus then a - b else a + b;
      var limit := if op.wide then 0x8000_0000_0000_0000 else 0x8000_0000;
      if !(0 - limit <= v < limit) {
        Trip(EXC_OV, c);
      } else {
        WriteReg(op.rd, v);
      }
    }

    /** The twelve conditional traps. */
    method TrapInstr(op: Op, ghost c: Cpu)
      requires Valid(c) && Decoded(op) && op.Trap? && Entered(c)
      modifies this
      ensures Followed(c) == Step(c, op)
    {
      var (a, b) := (Signed(Now(), Register(op.rs), true), Signed(Now(), op.src, true));
      var (x, y) := (Unsigned(Now(), Register(op.rs)), Unsigned(Now(), op.src));
      var holds := match op.test
        case GE => a >= b
        case GEU => x >= y
        case LT => a < b
        case LTU => x < y
        case EQ => a == b
        case NE => a != b;
      if holds {
        Trip(EXC_TR, c);
      }
    }

    /** Every instruction that cannot raise. */
    method Plain(op: Op, ghost c: Cpu)
      requires Valid(c) && Decoded(op) && !(op.Add? || op.Trap? || op.Syscall? || op.Break?) && Entered(c)
      modifies this
      ensures Followed(c) == Step(c, op)
    {
      var nxt := pc;
      match op
      case Branch(likely, link, taken, offset) =>
        if link {
          Link(31, nxt);
        }
        if taken {
          delay := Some(Wrap64(nxt + 4 * offset));
        } else if likely {
          pc := Wrap64(nxt + 4);
        }
      case Jump(linkTo, target) =>
        Link(linkTo, nxt);
        delay := Some(target);
      case Mfc0(rt, rd) =>
        WriteReg(rt, Sext32(FromWord(cop0[rd])));
      case Mtc0(rd, rt) =>
        if rd != PRID {
          cop0 := cop0[rd := ToWord(gpr[rt].low)];
        }
      case Eret =>
        ReturnFromException();
      case Write(rd, v) =>
        WriteReg(rd, v);
      case SetHiLo(h) =>
        hilo := h;
      case SetSa(v) =>
        sa := v;
      case Store(m) =>
        mem := m;
      case _ =>
    }

    /** The dispatch: each instruction's code decides for itself whether to raise. */
    method Exec(op: Op, ghost c: Cpu)
      requires Valid(c) && Decoded(op) && Entered(c)
      modifies this
      ensures Followed(c) == Step(c, op)
    {
      match op
      case Add(_, _, _, _, _) => AddInstr(op, c);
      case Trap(_, _, _) => TrapInstr(op, c);
      case Syscall => Trip(EXC_SYSCALL, c);
      case Break => Trip(EXC_BREAK, c);
      case _ => Plain(op, c);
    }

    /** One instruction: execute it, and then follow the branch pending behind it unless
        an exception has taken its place. */
    method StepOne(op: Op)
      requires Valid(Now()) && Decoded(op)
      modifies this
      ensures Now() == Step(old(Now()), op)
    {
      hide Step;
      ghost var c := Now();
      var taken := delay;
      delay := None;
      inDelay := taken.Some?;
      excTaken := false;
      pc := Wrap64(pc + 4);
      Exec(op, c);
      if taken.Some? && !excTaken {
        pc := taken.value;
      }
    }
  }

  /** The source's EPC, from the PC already moved on. */
  function Epc(next: nat, inDelay: bool): nat {
    if inDelay then Wrap64(Wrap64(next - 4) - 4) else Wrap64(next - 4)
  }

  lemma EpcIsFault(c: Cpu)
    requires Valid(c)
    ensures Epc(Wrap64(c.pc + 4), c.delay.Some?) == Fault(c)
  {
    BackFour(c.pc);
  }
}
