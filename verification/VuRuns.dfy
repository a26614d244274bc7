/** Whole runs of the vector unit: the program counter and its branch slot, the end
    countdown, and what every run keeps. */
module VuRuns {
  import opened Widths
  import opened Wrappers
  import opened Vu

  datatype Pending = Pending(target: int, link: Option<nat>)

  /** `pending` fires after the word that follows the branch; `endIn` counts down behind
      an E bit. */
  datatype State = State(regs: Regs, mac: Mac, mem: seq<Vec>, pc: int, running: bool,
                         pending: Option<Pending>, endIn: Option<int>)

  type Program = p: seq<Word> | |p| > 0 && (forall k :: 0 <= k < |p| ==> ProperWord(p[k]))
    witness [Word(UpperNop, LowerNop, false, false, 0)]

  predicate Sound(s: State) {
    && Proper(s.regs) && |s.mem| > 0
    && (s.pending.Some? && s.pending.value.link.Some? ==> s.pending.value.link.value < 16)
  }

  function Fetch(p: Program, s: State): Word { p[s.pc % |p|] }

  function Chosen(s: State, w: Word): Option<Pending>
    requires Sound(s)
  {
    if w.iBit || !w.lower.Branch? then None
    else
      match w.lower.choose(s.regs, s.pc)
      case None => None
      case Some(target) => Some(Pending(target, w.lower.link))
  }

  function Countdown(s: State, w: Word): Option<int> {
    if w.eBit && s.endIn.None? then Some(1) else if s.endIn.Some? then Some(s.endIn.value - 1) else None
  }

  function Linked(r: Regs, link: Option<nat>, pc: int): (t: Regs)
    requires Proper(r) && (link.Some? ==> link.value < 16)
    ensures Proper(t)
  {
    if link.Some? then WriteVi(r, link.value, pc * 8) else r
  }

  /** One word. */
  function Step(p: Program, s: State): (t: State)
    requires Sound(s)
    ensures Sound(t)
  {
    if !s.running then s
    else
      var w := Fetch(p, s);
      var (issued, mem) := (Issue(s.regs, s.mem, w), LowerSlot(s.regs, s.mem, w).1);
      var mac := UpperMac(s.regs, w.upper, s.mac);
      var end := Countdown(s, w);
      State(if s.pending.Some? then Linked(issued, s.pending.value.link, s.pc + 1) else issued,
            mac, mem,
            if s.pending.Some? then s.pending.value.target else s.pc + 1,
            end.None? || end.value >= 0,
            if s.pending.Some? then None else Chosen(s, w),
            end)
  }

  type Stepper = State -> State

  function StepOf(p: Program): Stepper { (s: State) => if Sound(s) then Step(p, s) else s }

  /** The state after n words. */
  function After(step: Stepper, s: State, n: nat): State {
    if n == 0 then s else step(After(step, s, n - 1))
  }

  // ---- what every run keeps ----------------------------------------------------------------

  predicate Kept(s: State)
    requires Sound(s)
  {
    && s.regs.vf[0] == Vf00() && s.regs.vi[0] == 0
    && (forall n :: 0 <= n < 16 ==> s.regs.vi[n] < TWO16)
    && AllConsistent(s.mac)
  }

  predicate Narrow(r: Regs)
    requires Proper(r)
  {
    r.vi[0] == 0 && forall n :: 0 <= n < 16 ==> r.vi[n] < TWO16
  }

  lemma FlagsConsistent(v: nat, c: Cause)
    ensures Consistent(MacFlags(v, c))
  {
  }

  lemma {:induction false} MacConsistent(r: Regs, u: Upper, m: Mac, k: nat)
    requires Proper(r) && u.Arith? && ProperUpper(u) && k <= 4 && AllConsistent(m)
    ensures AllConsistent(MacUpTo(r, u, m, k))
  {
    if k > 0 {
      MacConsistent(r, u, m, k - 1);
      var (v, cause) := Field(ArithUpTo(r, u, k - 1), u, k - 1);
      FlagsConsistent(v, cause);
    }
  }

  lemma {:induction false} UpperKeepsZero(r: Regs, u: Upper, k: nat)
    requires Proper(r) && u.Arith? && ProperUpper(u) && k <= 4
    ensures ArithUpTo(r, u, k).vf[0] == r.vf[0] && ArithUpTo(r, u, k).vi == r.vi
  {
    if k > 0 {
      UpperKeepsZero(r, u, k - 1);
    }
  }

  lemma UpperKeeps(r: Regs, u: Upper)
    requires Proper(r) && ProperUpper(u)
    ensures UpperRun(r, u).vf[0] == r.vf[0] && UpperRun(r, u).vi == r.vi
  {
    if u.Arith? {
      UpperKeepsZero(r, u, 4);
    }
  }

  lemma LowerKeeps(r: Regs, m: seq<Vec>, w: Word)
    requires Proper(r) && ProperWord(w) && |m| > 0 && Narrow(r)
    ensures LowerSlot(r, m, w).0.vf[0] == r.vf[0] && Narrow(LowerSlot(r, m, w).0)
  {
  }

  lemma IssueKeeps(r: Regs, m: seq<Vec>, w: Word)
    requires Proper(r) && ProperWord(w) && |m| > 0 && Narrow(r)
    ensures Issue(r, m, w).vf[0] == r.vf[0] && Narrow(Issue(r, m, w))
  {
    UpperKeeps(r, w.upper);
    LowerKeeps(r, m, w);
    assert Issue(r, m, w).vf[0] == r.vf[0];
  }

  lemma StepKeeps(p: Program, s: State)
    requires Sound(s) && Kept(s)
    ensures Kept(Step(p, s))
  {
    if s.running {
      var w := Fetch(p, s);
      IssueKeeps(s.regs, s.mem, w);
      if w.upper.Arith? {
        MacConsistent(s.regs, w.upper, s.mac, 4);
      }
    }
  }

  /** In every run vf00 and vi00 stay fixed, VI stays sixteen bits wide, and no field's
      flags show overflow with underflow or zero, nor underflow without zero. */
  lemma {:induction false} RunKeeps(p: Program, s: State, n: nat)
    requires Sound(s) && Kept(s)
    ensures Sound(After(StepOf(p), s, n)) && Kept(After(StepOf(p), s, n))
  {
    if n > 0 {
      RunKeeps(p, s, n - 1);
      StepKeeps(p, After(StepOf(p), s, n - 1));
    }
  }

  // ---- the end of a program ----------------------------------------------------------------

  predicate EndsAt(p: Program, s: State) { Fetch(p, s).eBit }

  function EndBits(p: Program): State -> bool { (s: State) => EndsAt(p, s) }

  /** What a step does to the end countdown, and that it is all a step does once stopped. */
  predicate Counts(s: State, e: bool, t: State) {
    Sound(s) ==>
      && Sound(t)
      && (!s.running ==> t == s)
      && (s.running ==>
           && t.endIn == (if e && s.endIn.None? then Some(1)
                          else if s.endIn.Some? then Some(s.endIn.value - 1) else None)
           && (t.running <==> t.endIn.None? || t.endIn.value >= 0))
  }

  /** A stepper known by its countdown only. */
  ghost predicate Counting(step: Stepper, ends: State -> bool) {
    forall s: State {:trigger step(s)} :: Counts(s, ends(s), step(s))
  }

  lemma StepCounts(p: Program)
    ensures Counting(StepOf(p), EndBits(p))
  {
  }

  /** No E bit among the first k words of the run. */
  predicate EndFree(step: Stepper, ends: State -> bool, s: State, k: nat) {
    k == 0 || (EndFree(step, ends, s, k - 1) && !ends(After(step, s, k - 1)))
  }

  /** The first word of the run with its E bit set is the k-th. */
  predicate FirstEnd(step: Stepper, ends: State -> bool, s: State, k: nat) {
    EndFree(step, ends, s, k) && ends(After(step, s, k))
  }

  predicate Going(s: State) { Sound(s) && s.running && s.endIn.None? }

  lemma {:induction false} StillGoing(step: Stepper, ends: State -> bool, s: State, k: nat, j: nat)
    requires Counting(step, ends) && Going(s) && EndFree(step, ends, s, k) && j <= k
    ensures Going(After(step, s, j))
  {
    if j < k {
      StillGoing(step, ends, s, k - 1, j);
    } else if k > 0 {
      StillGoing(step, ends, s, k - 1, k - 1);
    }
  }

  /** After the word with the E bit exactly two more issue, whatever their own E bits say. */
  lemma EndsAfterTwo(step: Stepper, ends: State -> bool, s: State, k: nat, j: nat)
    requires Counting(step, ends) && Going(s) && FirstEnd(step, ends, s, k) && j <= k + 3
    ensures After(step, s, j).running <==> j < k + 3
  {
    if j <= k {
      StillGoing(step, ends, s, k, j);
    } else {
      StillGoing(step, ends, s, k, k);
      var s1 := After(step, s, k + 1);
      assert s1.running && s1.endIn == Some(1);
      var s2 := After(step, s, k + 2);
      assert s2 == step(s1) && s2.running && s2.endIn == Some(0);
      assert After(step, s, k + 3) == step(s2);
    }
  }

  /** The vector unit's own statement of the two above. */
  lemma ProgramEnds(p: Program, s: State, k: nat, j: nat)
    requires Going(s) && FirstEnd(StepOf(p), EndBits(p), s, k)
    ensures j < k + 3 ==> After(StepOf(p), s, j).running
    ensures j >= k + 3 ==> After(StepOf(p), s, j) == After(StepOf(p), s, k + 3) && !After(StepOf(p), s, j).running
  {
    StepCounts(p);
    EndsFor(StepOf(p), EndBits(p), s, k, j);
  }

  lemma {:induction false} EndsFor(step: Stepper, ends: State -> bool, s: State, k: nat, j: nat)
    requires Counting(step, ends) && Going(s) && FirstEnd(step, ends, s, k)
    ensures j < k + 3 ==> After(step, s, j).running
    ensures j >= k + 3 ==> After(step, s, j) == After(step, s, k + 3) && !After(step, s, j).running
  {
    if j <= k + 3 {
      EndsAfterTwo(step, ends, s, k, j);
    } else {
      EndsFor(step, ends, s, k, j - 1);
      SoundAlways(step, ends, s, j - 1);
    }
  }

  lemma {:induction false} SoundAlways(step: Stepper, ends: State -> bool, s: State, n: nat)
    requires Counting(step, ends) && Sound(s)
    ensures Sound(After(step, s, n))
  {
    if n > 0 {
      SoundAlways(step, ends, s, n - 1);
    }
  }

  /** The interpreter's loop: words issued, up to a limit. */
  method Run(ghost ends: State -> bool, step: Stepper, s: State, limit: nat) returns (t: State, n: nat)
    requires Counting(step, ends) && Going(s)
    ensures n <= limit && t == After(step, s, n) && (n < limit ==> !t.running)
    ensures forall k: nat :: FirstEnd(step, ends, s, k) && k + 3 <= limit ==> n == k + 3
  {
    t, n := s, 0;
    ghost var last := s;
    while t.running && n < limit
      invariant n <= limit && Sound(t) && t == After(step, s, n)
      invariant n > 0 ==> last == After(step, s, n - 1) && last.running
    {
      last := t;
      t := step(t);
      n := n + 1;
    }
    forall k: nat | FirstEnd(step, ends, s, k) && k + 3 <= limit ensures n == k + 3 {
      EndsFor(step, ends, s, k, n);
      if n > 0 {
        EndsFor(step, ends, s, k, n - 1);
      }
    }
  }

  /** The interpreter's run of a program from an address: what is proved of any stepper, of
      the real one. */
  method RunProgram(p: Program, s: State, start: int, limit: nat) returns (t: State, n: nat)
    requires Sound(s)
    ensures var begun := s.(pc := start, running := true, endIn := None);
      && n <= limit && t == After(StepOf(p), begun, n) && (n < limit ==> !t.running)
      && forall k: nat :: FirstEnd(StepOf(p), EndBits(p), begun, k) && k + 3 <= limit ==> n == k + 3
  {
    StepCounts(p);
    t, n := Run(EndBits(p), StepOf(p), s.(pc := start, running := true, endIn := None), limit);
  }

  function ResetVf(n: nat): Vec { if n == 0 then Vf00() else Zero() }

  // ---- the interpreter ---------------------------------------------------------------------

  class Interpreter {
    var regs: Regs
    var mac: Mac
    var mem: seq<Vec>
    var pc: int
    var running: bool
    var pending: Option<Pending>
    var endIn: Option<int>

    function Now(): State
      reads this
    {
      State(regs, mac, mem, pc, running, pending, endIn)
    }

    constructor (size: nat)
      requires size > 0
      ensures Sound(Now()) && Kept(Now()) && !running && pending.None? && endIn.None?
    {
      regs := Regs(seq(32, (n: nat) => ResetVf(n)), seq(16, n => 0), Zero(), 0, 0);
      mac := seq(4, n => Flags(false, false, false, false));
      mem := seq(size, (n: nat) => Zero());
      pc := 0;
      running := false;
      pending := None;
      endIn := None;
    }

    /** The upper slot, on the shared registers. */
    method RunUpper(u: Upper)
      requires Proper(regs) && ProperUpper(u)
      modifies this`regs, this`mac
      ensures regs == UpperRun(old(regs), u) && mac == UpperMac(old(regs), u, old(mac))
    {
      match u
      case UpperNop =>
      case Arith(_, _, _, _, _, _, _, _) =>
        var r, m := RunArith(regs, u, mac);
        regs := r;
        mac := m;
      case Outer(_, _, _, _, _, _) =>
        regs := OuterRun(regs, u);
    }

    /** Both slots: the upper's writes set aside, the lower run on the registers as they
        were, and the two merged. */
    method IssueBoth(w: Word)
      requires Proper(regs) && ProperWord(w) && |mem| > 0
      modifies this`regs, this`mac, this`mem
      ensures regs == Issue(old(regs), old(mem), w) && mac == UpperMac(old(regs), w.upper, old(mac))
      ensures mem == LowerSlot(old(regs), old(mem), w).1
    {
      var before := regs;
      RunUpper(w.upper);
      var afterUpper := regs;
      regs := before;
      var (afterLower, m) := LowerSlot(regs, mem, w);
      mem := m;
      var merged := MergeInPlace(before, afterUpper, afterLower);
      regs := merged;
    }

    /** The program counter, and the branch that fires behind its slot. */
    method Advance(branch: Option<Pending>)
      requires Sound(Now())
      modifies this`regs, this`pc, this`pending
      ensures pending == if old(pending).Some? then None else branch
      ensures pc == if old(pending).Some? then old(pending).value.target else old(pc) + 1
      ensures regs == if old(pending).Some? then Linked(old(regs), old(pending).value.link, old(pc) + 1) else old(regs)
    {
      pc := pc + 1;
      if pending.Some? {
        if pending.value.link.Some? {
          regs := WriteVi(regs, pending.value.link.value, pc * 8);
        }
        pc := pending.value.target;
        pending := None;
      } else {
        pending := branch;
      }
    }

    method CountDown()
      modifies this`endIn, this`running
      ensures endIn == if old(endIn).Some? then Some(old(endIn).value - 1) else None
      ensures running == (old(running) && (endIn.None? || endIn.value >= 0))
    {
      if endIn.Some? {
        endIn := Some(endIn.value - 1);
        if endIn.value < 0 {
          running := false;
        }
      }
    }

    /** One word. */
    method StepWord(p: Program)
      requires Sound(Now())
      modifies this
      ensures Now() == Step(p, old(Now()))
    {
      hide Issue, LowerSlot, UpperMac, Linked, Chosen;
      if !running {
        return;
      }
      var w := Fetch(p, Now());
      var branch := Chosen(Now(), w);
      if w.eBit && endIn.None? {
        endIn := Some(2);
      }
      IssueBoth(w);
      Advance(branch);
      CountDown();
    }
  }
}
