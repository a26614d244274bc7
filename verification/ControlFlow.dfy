/** Where the R5900's control goes: branch and jump targets, links, loops and calls, and the
    results and tests of the instructions that may raise instead, all on numbers. */
module ControlFlow {
  import opened Wrappers
  import opened Bits
  import opened Widths
  import opened Exceptions

  // ---- one and two instructions ----------------------------------------------------------------

  /** Neither raises nor transfers: all a delay slot should hold. */
  predicate Ordinary(c: Cpu, op: Op)
    requires Valid(c) && Decoded(op)
  {
    !Transfers(op) && Raises(c, op).None?
  }

  lemma RunOne(c: Cpu, op: Op)
    requires Valid(c) && Decoded(op)
    ensures Run(c, [op]) == Step(c, op)
  {
    assert [op][..0] == [];
  }

  lemma RunMore(c: Cpu, ops: seq<Op>, op: Op)
    requires Valid(c) && AllDecoded(ops) && Decoded(op)
    ensures AllDecoded(ops + [op]) && Run(c, ops + [op]) == Step(Run(c, ops), op)
  {
    assert (ops + [op])[..|ops|] == ops;
  }

  lemma RunTwo(c: Cpu, op: Op, slot: Op)
    requires Valid(c) && Decoded(op) && Decoded(slot)
    ensures Valid(Step(c, op)) && Run(c, [op, slot]) == Step(Step(c, op), slot)
  {
    StepValid(c, op);
    RunOne(c, op);
    RunMore(c, [op], slot);
    assert [op] + [slot] == [op, slot];
  }

  lemma Rewrap(a: int, b: int)
    ensures Wrap64(Wrap64(a) + b) == Wrap64(a + b)
  {
  }

  lemma BranchStep(c: Cpu, likely: bool, link: bool, taken: bool, offset: int)
    requires Valid(c) && c.delay.None?
    ensures var d := Step(c, Branch(likely, link, taken, offset));
      && (taken ==> d.pc == Wrap64(c.pc + 4) && d.delay == Some(Wrap64(c.pc + 4 + 4 * offset)))
      && (!taken ==> d.pc == Wrap64(c.pc + if likely then 8 else 4) && d.delay.None?)
  {
    Rewrap(c.pc + 4, 4 * offset);
    Rewrap(c.pc + 4, 4);
  }

  lemma OrdinaryStep(c: Cpu, op: Op)
    requires Valid(c) && Decoded(op) && Ordinary(c, op)
    ensures Step(c, op).pc == (if c.delay.Some? then c.delay.value else Wrap64(c.pc + 4))
    ensures Step(c, op).delay.None?
  {
  }

  /** A taken branch runs the instruction behind it and then goes on at that instruction's own
      address plus four times the offset. */
  lemma BranchTarget(c: Cpu, likely: bool, link: bool, offset: int, slot: Op)
    requires Valid(c) && c.delay.None? && Decoded(slot)
    ensures var b := Branch(likely, link, true, offset);
      && Run(c, [b]).pc == (c.pc + 4) % 0x1_0000_0000_0000_0000
      && (Ordinary(Run(c, [b]), slot) ==>
            Run(c, [b, slot]).pc == (c.pc + 4 + 4 * offset) % 0x1_0000_0000_0000_0000)
  {
    hide Step, Raises;
    var b := Branch(likely, link, true, offset);
    RunOne(c, b);
    RunTwo(c, b, slot);
    BranchStep(c, likely, link, true, offset);
    if Ordinary(Run(c, [b]), slot) {
      OrdinaryStep(Run(c, [b]), slot);
    }
  }

  /** One not taken falls through, past the instruction behind it when it is a likely one. */
  lemma BranchNotTaken(c: Cpu, likely: bool, link: bool, offset: int, op: Op)
    requires Valid(c) && c.delay.None? && Decoded(op)
    ensures var b := Branch(likely, link, false, offset);
      var from := c.pc + if likely then 8 else 4;
      && Run(c, [b]).pc == from % 0x1_0000_0000_0000_0000
      && (Ordinary(Run(c, [b]), op) ==> Run(c, [b, op]).pc == (from + 4) % 0x1_0000_0000_0000_0000)
  {
    hide Step, Raises;
    var b := Branch(likely, link, false, offset);
    RunOne(c, b);
    RunTwo(c, b, op);
    BranchStep(c, likely, link, false, offset);
    if Ordinary(Run(c, [b]), op) {
      OrdinaryStep(Run(c, [b]), op);
      Rewrap(c.pc + if likely then 8 else 4, 4);
    }
  }

  lemma JumpStep(c: Cpu, linkTo: nat, target: nat)
    requires Valid(c) && c.delay.None? && linkTo < 32 && target < TWO64
    ensures var d := Step(c, Jump(linkTo, target)); d.pc == Wrap64(c.pc + 4) && d.delay == Some(target)
  {
  }

  lemma JumpTarget(c: Cpu, linkTo: nat, target: nat, slot: Op)
    requires Valid(c) && c.delay.None? && linkTo < 32 && target < TWO64 && Decoded(slot)
    ensures var j := Jump(linkTo, target);
      && Run(c, [j]).pc == (c.pc + 4) % 0x1_0000_0000_0000_0000
      && (Ordinary(Run(c, [j]), slot) ==> Run(c, [j, slot]).pc == target)
  {
    hide Step, Raises;
    var j := Jump(linkTo, target);
    RunOne(c, j);
    RunTwo(c, j, slot);
    JumpStep(c, linkTo, target);
    if Ordinary(Run(c, [j]), slot) {
      OrdinaryStep(Run(c, [j]), slot);
    }
  }

  /** A taken branch in a taken branch's own slot: one instruction runs at the first's target
      and the second's follows. */
  lemma BranchInSlot(c: Cpu, first: int, second: int, op: Op)
    requires Valid(c) && c.delay.None? && Decoded(op)
    ensures var (b, d) := (Branch(false, false, true, first), Branch(false, false, true, second));
      && Run(c, [b, d]).pc == (c.pc + 4 + 4 * first) % 0x1_0000_0000_0000_0000
      && (Ordinary(Run(c, [b, d]), op) ==>
            Run(c, [b, d] + [op]).pc == (c.pc + 8 + 4 * second) % 0x1_0000_0000_0000_0000)
  {
    hide Raises;
    var (b, d) := (Branch(false, false, true, first), Branch(false, false, true, second));
    RunTwo(c, b, d);
    RunMore(c, [b, d], op);
    BranchStep(c, false, false, true, first);
    SlotBranches(Step(c, b), second);
    Rewrap(c.pc + 4, 4 + 4 * second);
    hide Step;
    if Ordinary(Run(c, [b, d]), op) {
      OrdinaryStep(Run(c, [b, d]), op);
    }
  }

  lemma SlotBranches(c: Cpu, offset: int)
    requires Valid(c) && c.delay.Some?
    ensures var d := Step(c, Branch(false, false, true, offset));
      d.pc == c.delay.value && d.delay == Some(Wrap64(c.pc + (4 + 4 * offset)))
  {
    Rewrap(c.pc + 4, 4 * offset);
  }

  /** A register holds a number in its low half and the upper half it had; the others stay. */
  predicate OnlyLow(before: seq<Reg>, after: seq<Reg>, i: nat, v: int) {
    && |after| == |before| && i < |before|
    && after[i] == Reg(v % 0x1_0000_0000_0000_0000, before[i].high)
    && forall k :: 0 <= k < |before| && k != i ==> after[k] == before[k]
  }

  /** A linking branch leaves the address behind its slot in register 31, taken or not ... */
  lemma BranchLinks(c: Cpu, likely: bool, taken: bool, offset: int)
    requires Valid(c)
    ensures OnlyLow(c.gpr, Step(c, Branch(likely, true, taken, offset)).gpr, 31, c.pc + 8)
    ensures Step(c, Branch(likely, false, taken, offset)).gpr == c.gpr
  {
    Linked(c.gpr, 31, c.pc);
    hide OnlyLow, Wrap64;
  }

  lemma Linked(g: seq<Reg>, i: nat, pc: nat)
    requires i < |g|
    ensures OnlyLow(g, g[i := Reg(Wrap64(Wrap64(pc + 4) + 4), g[i].high)], i, pc + 8)
  {
    Rewrap(pc + 4, 4);
  }

  /** ... and a jump leaves it in its own link register, or nowhere when that is register 0. */
  lemma JumpLinks(c: Cpu, linkTo: nat, target: nat)
    requires Valid(c) && linkTo < 32 && target < TWO64
    ensures linkTo != 0 ==> OnlyLow(c.gpr, Step(c, Jump(linkTo, target)).gpr, linkTo, c.pc + 8)
    ensures linkTo == 0 ==> Step(c, Jump(linkTo, target)).gpr == c.gpr
  {
    Linked(c.gpr, linkTo, c.pc);
    hide OnlyLow, Wrap64;
  }

  // ---- straight lines, loops and calls ----------------------------------------------------------

  /** Each instruction of a run is ordinary where it runs. */
  predicate Straight(c: Cpu, ops: seq<Op>)
    requires Valid(c) && AllDecoded(ops)
  {
    forall k :: 0 <= k < |ops| ==> Ordinary(Run(c, ops[..k]), ops[k])
  }

  lemma StraightFront(c: Cpu, ops: seq<Op>)
    requires Valid(c) && AllDecoded(ops) && Straight(c, ops) && ops != []
    ensures Straight(c, ops[..|ops| - 1])
  {
    var front := ops[..|ops| - 1];
    forall k | 0 <= k < |front| ensures Ordinary(Run(c, front[..k]), front[k]) {
      assert front[..k] == ops[..k] && front[k] == ops[k];
    }
  }

  lemma {:induction false} StraightLine(c: Cpu, ops: seq<Op>)
    requires Valid(c) && AllDecoded(ops) && Straight(c, ops) && c.delay.None?
    ensures Run(c, ops).pc == (c.pc + 4 * |ops|) % 0x1_0000_0000_0000_0000 && Run(c, ops).delay.None?
  {
    hide Step, Raises;
    if ops != [] {
      var n := |ops| - 1;
      StraightFront(c, ops);
      StraightLine(c, ops[..n]);
      OrdinaryStep(Run(c, ops[..n]), ops[n]);
      Rewrap(c.pc + 4 * n, 4);
    }
  }

  /** A loop closes: a body of n instructions, a taken branch with offset -(n + 1) and its
      slot bring control back to the body's first instruction. */
  lemma LoopCloses(c: Cpu, body: seq<Op>, likely: bool, slot: Op)
    requires Valid(c) && c.delay.None? && AllDecoded(body) && Straight(c, body) && Decoded(slot)
    ensures var b := Branch(likely, false, true, -(|body| + 1));
      Ordinary(Run(Run(c, body), [b]), slot) ==>
        Run(Run(c, body), [b, slot]).pc == c.pc && Run(Run(c, body), [b, slot]).delay.None?
  {
    hide Step, Raises;
    var b := Branch(likely, false, true, -(|body| + 1));
    var d := Run(c, body);
    StraightLine(c, body);
    BranchTarget(d, likely, false, -(|body| + 1), slot);
    RunOne(d, b);
    RunTwo(d, b, slot);
    if Ordinary(Run(d, [b]), slot) {
      OrdinaryStep(Run(d, [b]), slot);
      Rewrap(c.pc + 4 * |body|, 0 - 4 * |body|);
    }
  }

  /** Instructions that leave register i alone. */
  predicate Spares(op: Op, i: nat) {
    match op
    case Add(_, _, rd, _, _) => rd != i
    case Mfc0(rt, _) => rt != i
    case Write(rd, _) => rd != i
    case _ => true
  }

  lemma {:induction false} RegisterKept(c: Cpu, ops: seq<Op>, i: nat)
    requires Valid(c) && AllDecoded(ops) && Straight(c, ops) && i < 32
    requires forall k :: 0 <= k < |ops| ==> Spares(ops[k], i)
    ensures Run(c, ops).gpr[i] == c.gpr[i]
  {
    if ops != [] {
      var n := |ops| - 1;
      StraightFront(c, ops);
      RegisterKept(c, ops[..n], i);
      StepSpares(Run(c, ops[..n]), ops[n], i);
    }
  }

  lemma StepSpares(c: Cpu, op: Op, i: nat)
    requires Valid(c) && Decoded(op) && !Transfers(op) && Spares(op, i) && i < 32
    ensures Step(c, op).gpr[i] == c.gpr[i]
  {
  }

  /** A call comes back: a jump that links through a register other than 0, a routine that
      spares that register, and a jump through it end at the instruction behind the call's
      slot. */
  lemma CallReturns(c: Cpu, linkTo: nat, target: nat, slot: Op, routine: seq<Op>, back: Op)
    requires Valid(c) && c.delay.None? && 0 < linkTo < 32 && target < TWO64 && Decoded(slot) && Decoded(back)
    requires Ordinary(Run(c, [Jump(linkTo, target)]), slot) && Spares(slot, linkTo)
    requires AllDecoded(routine) && Straight(Run(c, [Jump(linkTo, target), slot]), routine)
    requires forall k :: 0 <= k < |routine| ==> Spares(routine[k], linkTo)
    ensures var inside := Run(c, [Jump(linkTo, target), slot]);
      var done := Run(inside, routine);
      var home := Jump(0, done.gpr[linkTo].low);
      && inside.pc == target
      && (Ordinary(Run(done, [home]), back) ==>
            Run(done, [home, back]).pc == (c.pc + 8) % 0x1_0000_0000_0000_0000)
  {
    hide Step, Raises;
    var call := Jump(linkTo, target);
    var inside := Run(c, [call, slot]);
    var done := Run(inside, routine);
    JumpTarget(c, linkTo, target, slot);
    JumpLinks(c, linkTo, target);
    RunOne(c, call);
    RunTwo(c, call, slot);
    StepSpares(Run(c, [call]), slot, linkTo);
    OrdinaryStep(Run(c, [call]), slot);
    StraightLine(inside, routine);
    RegisterKept(inside, routine, linkTo);
    assert done.gpr[linkTo].low == (c.pc + 8) % 0x1_0000_0000_0000_0000;
    hide Run;
    JumpTarget(done, 0, done.gpr[linkTo].low, back);
  }

  // ---- results and tests ------------------------------------------------------------------------

  /** A number of so many bits, read as signed, out of a register or from an immediate. */
  predicate Reads(c: Cpu, o: Operand, wide: bool, v: int)
    requires o.Register? ==> o.r < |c.gpr|
  {
    var half := if wide then 0x8000_0000_0000_0000 else 0x8000_0000;
    match o
    case Register(r) => -half <= v < half && (v - c.gpr[r].low) % (2 * half) == 0
    case Immediate(i) => v == i
  }

  lemma ReadsSigned(c: Cpu, o: Operand, wide: bool, v: int)
    requires Valid(c) && (o.Register? ==> o.r < 32) && Reads(c, o, wide, v)
    ensures Signed(c, o, wide) == v
  {
  }

  /** ADD, SUB and their immediate and doubleword forms: the exact sum or difference when it
      fits the width, as a sign-extended register, and an overflow otherwise. */
  lemma SumExact(c: Cpu, op: Op, a: int, b: int)
    requires Valid(c) && Decoded(op) && op.Add? && op.rd != 0
    requires Reads(c, Register(op.rs), op.wide, a) && Reads(c, op.src, op.wide, b)
    ensures var exact := if op.minus then a - b else a + b;
      var half := if op.wide then 0x8000_0000_0000_0000 else 0x8000_0000;
      && (-half <= exact < half ==>
           Raises(c, op).None? && OnlyLow(c.gpr, Run(c, [op]).gpr, op.rd, exact))
      && (!(-half <= exact < half) ==> Raises(c, op) == Some(12) && Run(c, [op]).gpr == c.gpr)
  {
    ReadsSigned(c, Register(op.rs), op.wide, a);
    ReadsSigned(c, op.src, op.wide, b);
    RunOne(c, op);
  }

  /** What any other instruction leaves, and what no instruction but its own kind touches. */
  lemma OnlyItsOwn(c: Cpu, op: Op)
    requires Valid(c) && Decoded(op)
    ensures var d := Step(c, op);
      && (op.Write? && op.rd != 0 ==> OnlyLow(c.gpr, d.gpr, op.rd, op.v))
      && (op.Write? && op.rd == 0 ==> d.gpr == c.gpr)
      && d.hilo == (if op.SetHiLo? then op.hilo else c.hilo)
      && d.sa == (if op.SetSa? then op.v else c.sa)
      && d.mem == (if op.Store? then op.mem else c.mem)
      && (op.SetHiLo? || op.SetSa? || op.Store? || op.Nothing? || op.Mtc0? || op.Eret? || op.Trap? ==> d.gpr == c.gpr)
      && (!op.Mtc0? && !op.Eret? && Raises(c, op).None? ==> d.cop0 == c.cop0)
  {
    hide Overflows, Holds, Result, Raise;
    RaiseKeeps(c, EXC_OV);
    RaiseKeeps(c, EXC_TR);
    RaiseKeeps(c, EXC_SYSCALL);
    RaiseKeeps(c, EXC_BREAK);
  }

  lemma RaiseKeeps(c: Cpu, code: nat)
    requires Valid(c)
    ensures SameMachine(c, Raise(c, code))
  {
  }

  /** The tests on the registers' signed and unsigned values. */
  lemma TrapsWhen(c: Cpu, op: Op, a: int, b: int, x: nat, y: nat)
    requires Valid(c) && Decoded(op) && op.Trap?
    requires Reads(c, Register(op.rs), true, a) && Reads(c, op.src, true, b)
    requires x < TWO64 && y < TWO64 && (x - a) % TWO64 == 0 && (y - b) % TWO64 == 0
    ensures Raises(c, op) == None || Raises(c, op) == Some(13)
    ensures op.test == GE ==> (Raises(c, op).Some? <==> a >= b)
    ensures op.test == LT ==> (Raises(c, op).Some? <==> a < b)
    ensures op.test == GEU ==> (Raises(c, op).Some? <==> x >= y)
    ensures op.test == LTU ==> (Raises(c, op).Some? <==> x < y)
    ensures op.test == EQ ==> (Raises(c, op).Some? <==> a == b)
    ensures op.test == NE ==> (Raises(c, op).Some? <==> a != b)
  {
    ReadsSigned(c, Register(op.rs), true, a);
    ReadsSigned(c, op.src, true, b);
    ReadsUnsigned(c, Register(op.rs), a, x);
    ReadsUnsigned(c, op.src, b, y);
  }

  lemma ReadsUnsigned(c: Cpu, o: Operand, v: int, x: nat)
    requires Valid(c) && (o.Register? ==> o.r < 32) && Reads(c, o, true, v)
    requires x < TWO64 && (x - v) % TWO64 == 0
    ensures Unsigned(c, o) == x
  {
  }

  /** The code and the vector of each exception, as numbers. */
  lemma CodesAndVectors(c: Cpu, op: Op)
    requires Valid(c) && Decoded(op) && Raises(c, op).Some?
    ensures var d := Run(c, [op]);
      && d.pc == (if Bev(c) then 0xFFFF_FFFF_BFC0_0380 else 0xFFFF_FFFF_8000_0180)
      && (!Exl(c) ==>
           Number(d.cop0[CAUSE][2..7]) ==
             match op
             case Syscall => 8
             case Break => 9
             case Add(_, _, _, _, _) => 12
             case _ => 13)
  {
    hide Step;
    RunOne(c, op);
    Precise(c, op);
    if !Exl(c) {
      FirstException(c, op);
    }
  }

  /** ERET with ERL set goes through ErrorEPC, clears ERL and leaves EXL as it was; otherwise it
      goes through EPC, clears EXL and leaves ERL clear. */
  lemma ReturnsThrough(c: Cpu)
    requires Valid(c)
    ensures var d := Step(c, Eret);
      && d.delay.None? && !Erl(d) && d.gpr == c.gpr
      && (Erl(c) ==> d.pc == Sext32(Number(c.cop0[30])) && Exl(d) == Exl(c))
      && (!Erl(c) ==> d.pc == Sext32(Number(c.cop0[14])) && !Exl(d))
  {
    assert FromWord(c.cop0[EPC]) == Number(c.cop0[14]) && FromWord(c.cop0[ERROREPC]) == Number(c.cop0[30]);
    hide Number, Sext32;
  }

  /** What MTC0 puts in a COP0 register MFC0 brings back, cut to 32 bits and sign-extended;
      the processor identity alone cannot be written. */
  lemma Cop0RoundTrip(c: Cpu, rd: nat, from: nat, to: nat)
    requires Valid(c) && rd < 32 && from < 32 && 0 < to < 32
    ensures var put := Step(c, Mtc0(rd, from));
      && Valid(put)
      && (rd != 15 ==> Reads(c, Register(from), false, S64(Step(put, Mfc0(to, rd)).gpr[to].low)))
      && (rd == 15 ==> put.cop0 == c.cop0)
  {
    StepValid(c, Mtc0(rd, from));
    WordOf(c.gpr[from].low);
    SextReads(c.gpr[from].low);
    hide S64, Sext32, ToWord, FromWord, Step;
    MovedIn(c, rd, from);
    MovedOut(Step(c, Mtc0(rd, from)), rd, to);
  }

  lemma MovedIn(c: Cpu, rd: nat, from: nat)
    requires Valid(c) && rd < 32 && from < 32
    ensures Step(c, Mtc0(rd, from)).cop0 == if rd == 15 then c.cop0 else c.cop0[rd := ToWord(c.gpr[from].low)]
  {
  }

  lemma MovedOut(c: Cpu, rd: nat, to: nat)
    requires Valid(c) && rd < 32 && 0 < to < 32
    ensures Step(c, Mfc0(to, rd)).gpr[to].low == Sext32(FromWord(c.cop0[rd]))
  {
    assert Sext32(FromWord(c.cop0[rd])) < TWO64;
  }

  lemma SextReads(v: nat)
    requires v < TWO64
    ensures -0x8000_0000 <= S64(Sext32(v % TWO32)) < 0x8000_0000
    ensures (S64(Sext32(v % TWO32)) - v) % TWO32 == 0
  {
  }
}
