/** The vector unit's slots on numbers: where each operand comes from, what the flags show,
    which address a load or store reaches and what the integer registers become. */
module VuSlots {
  import Arith
  import opened Wrappers
  import opened Vu
  import opened VuRuns
  import VuOps

  // ---- the upper slot ---------------------------------------------------------------------------

  /** The second operand of a field, for each source. */
  predicate SecondIs(r: Regs, u: Upper, f: nat, b: nat)
    requires Proper(r) && u.Arith? && ProperUpper(u) && f < 4
  {
    match u.src
    case Fields => b == r.vf[u.ft][f]
    case Broadcast(bc) => b == r.vf[u.ft][bc]
    case FromQ => b == r.q
    case FromI => b == r.i
    case NoSource => b == 0
  }

  /** Without the hazard each selected field is the operation of the first operand's field, the
      second operand and ACC's field, in ACC or in the register written ... */
  lemma UpperComputes(r: Regs, u: Upper, f: nat, b: nat)
    requires Proper(r) && u.Arith? && ProperUpper(u) && !Hazard(u) && f < 4 && u.dest[f] && SecondIs(r, u, f, b)
    ensures var v := u.alu(r.vf[u.fs][f], b, r.acc[f]).0 % 0x1_0000_0000;
      && (u.toAcc ==> UpperRun(r, u).acc[f] == v && UpperRun(r, u).vf == r.vf)
      && (!u.toAcc && u.wr != 0 ==> UpperRun(r, u).vf[u.wr][f] == v && UpperRun(r, u).acc == r.acc)
      && (!u.toAcc && u.wr == 0 ==> UpperRun(r, u).vf == r.vf && UpperRun(r, u).acc == r.acc)
  {
    NoHazardAtOnce(r, u);
    var s := UpperRun(r, u);
    assert UpperValue(r, u, f) == u.alu(r.vf[u.fs][f], b, r.acc[f]).0 % 0x1_0000_0000;
    if u.toAcc || u.wr == 0 {
      forall n | 0 <= n < 32 ensures s.vf[n] == r.vf[n] {
        assert forall g :: 0 <= g < 4 ==> !UpperWrites(u, n, g) && s.vf[n][g] == r.vf[n][g];
        SameVec(s.vf[n], r.vf[n]);
      }
    }
    if !u.toAcc {
      SameVec(s.acc, r.acc);
    }
  }

  lemma SameVec(a: Vec, b: Vec)
    ensures (forall f :: 0 <= f < 4 ==> a[f] == b[f]) ==> a == b
  {
  }

  /** Sign is the result's top bit.  Zero is the other bits all clear, or an underflow, and never
      an overflow; overflow and underflow are the operation's own, overflow first. */
  predicate Shows(f: Flags, v: nat, c: Cause) {
    && (f.s <==> v / 0x8000_0000 % 2 == 1)
    && (f.o <==> c.overflow) && (f.u <==> c.underflow && !c.overflow)
    && (f.z <==> !c.overflow && (c.underflow || v % 0x8000_0000 == 0))
  }

  lemma {:induction false} FlagsShow(r: Regs, u: Upper, m: Mac, f: nat, k: nat)
    requires Proper(r) && u.Arith? && ProperUpper(u) && f < 4 && k <= 4
    requires forall j: nat :: j < k ==> !Late(u, j)
    ensures MacUpTo(r, u, m, k)[f] == m[f]
         || (f < k && u.dest[f] && u.flagged && MacUpTo(r, u, m, k)[f] == MacFlags(Field(r, u, f).0, Field(r, u, f).1))
    ensures f < k && u.dest[f] && u.flagged ==>
      MacUpTo(r, u, m, k)[f] == MacFlags(Field(r, u, f).0, Field(r, u, f).1)
    ensures !(u.dest[f] && u.flagged) ==> MacUpTo(r, u, m, k)[f] == m[f]
  {
    if k > 0 {
      FlagsShow(r, u, m, f, k - 1);
      FieldInTurn(r, u, k - 1);
    }
  }

  lemma FieldInTurn(r: Regs, u: Upper, k: nat)
    requires Proper(r) && u.Arith? && ProperUpper(u) && k < 4 && !Late(u, k)
    ensures Field(ArithUpTo(r, u, k), u, k) == Field(r, u, k)
  {
    LoopExact(r, u, k);
    var s := ArithUpTo(r, u, k);
    assert VfDone(r, u, k, s, u.fs, k) && VfDone(r, u, k, s, u.ft, k) && AccDone(r, u, k, s, k);
    if u.src.Broadcast? {
      assert VfDone(r, u, k, s, u.ft, u.src.bc);
    }
  }

  /** ... and a flag-setting instruction's MAC field shows that operation's result. */
  lemma MacShows(r: Regs, u: Upper, m: Mac, f: nat, b: nat)
    requires Proper(r) && u.Arith? && ProperUpper(u) && f < 4 && SecondIs(r, u, f, b)
    requires forall j: nat :: j < 4 ==> !Late(u, j)
    ensures var (v, c) := u.alu(r.vf[u.fs][f], b, r.acc[f]);
      if u.dest[f] && u.flagged then Shows(UpperMac(r, u, m)[f], v, c) else UpperMac(r, u, m)[f] == m[f]
  {
    FlagsShow(r, u, m, f, 4);
  }

  /** The arithmetic operations set flags; MAX and MINI, which select, leave MAC as it was. */
  lemma FormFlags(r: Regs, op: VuOps.Op, src: Source, toAcc: bool, dest: Mask, fs: nat, ft: nat, wr: nat, m: Mac,
                  f: nat, b: nat)
    requires var u := VuOps.Form(op, src, toAcc, dest, fs, ft, wr);
      && Proper(r) && ProperUpper(u) && f < 4 && SecondIs(r, u, f, b) && forall j: nat :: j < 4 ==> !Late(u, j)
    ensures var u := VuOps.Form(op, src, toAcc, dest, fs, ft, wr);
      var (v, c) := u.alu(r.vf[fs][f], b, r.acc[f]);
      if dest[f] && !op.MAX? && !op.MINI? then Shows(UpperMac(r, u, m)[f], v, c) else UpperMac(r, u, m)[f] == m[f]
  {
    MacShows(r, VuOps.Form(op, src, toAcc, dest, fs, ft, wr), m, f, b);
  }

  /** The outer product's x, y and z: each the product of the next field of the first operand
      and the one after that of the second. */
  lemma OuterComputes(r: Regs, u: Upper)
    requires Proper(r) && u.Outer? && ProperUpper(u)
    ensures var (a, b) := (r.vf[u.fs], r.vf[u.ft]);
      var (x, y, z) := (u.product(a[1], b[2]), u.product(a[2], b[0]), u.product(a[0], b[1]));
      var s := UpperRun(r, u);
      && (u.toAcc ==> s.acc == [x % 0x1_0000_0000, y % 0x1_0000_0000, z % 0x1_0000_0000, r.acc[3]])
      && (!u.toAcc && u.wr != 0 ==>
           s.vf[u.wr] == [u.finish(r.acc[0], x) % 0x1_0000_0000, u.finish(r.acc[1], y) % 0x1_0000_0000,
                          u.finish(r.acc[2], z) % 0x1_0000_0000, r.vf[u.wr][3]])
  {
  }

  // ---- the lower slot ---------------------------------------------------------------------------

  /** An instruction of the lower slot, without the I bit. */
  predicate Runs(w: Word) { ProperWord(w) && !w.iBit }

  /** A load or store's address and its base register afterwards: the register plus the
      immediate, unmoved; the register, then one more; or one less, already moved.  Sixteen bits
      wrap, and vi00 is zero and stays. */
  predicate Reaches(r: Regs, mode: Mode, base: nat, a: int, vi: seq<nat>)
    requires Proper(r) && base < 16
  {
    var v := if base == 0 then 0 else r.vi[base];
    match mode
    case Plain(imm) => a == v + imm && vi == r.vi
    case PostIncrement => a == v && vi == (if base == 0 then r.vi else r.vi[base := (v + 1) % 0x1_0000])
    case PreDecrement =>
      if base == 0 then a == 0 && vi == r.vi
      else a == (v + 0xFFFF) % 0x1_0000 && vi == r.vi[base := (v + 0xFFFF) % 0x1_0000]
  }

  lemma AddressIs(r: Regs, mode: Mode, base: nat, a: int, vi: seq<nat>)
    requires Proper(r) && Narrow(r) && base < 16 && Reaches(r, mode, base, a, vi)
    ensures Addressed(r, mode, base).0 == a && Addressed(r, mode, base).1 == r.(vi := vi)
  {
  }

  /** A load's fields come from that address, modulo the size of memory; memory stays. */
  lemma LoadReaches(r: Regs, m: seq<Vec>, w: Word, a: int, vi: seq<nat>, f: nat)
    requires Proper(r) && Narrow(r) && |m| > 0 && Runs(w) && w.lower.Load? && f < 4
    requires Reaches(r, w.lower.mode, w.lower.base, a, vi)
    ensures var (s, after) := LowerSlot(r, m, w);
      && after == m && s.vi == vi
      && (w.lower.ft != 0 ==>
           s.vf[w.lower.ft][f] == if w.lower.dest[f] then m[a % |m|][f] % 0x1_0000_0000 else r.vf[w.lower.ft][f])
  {
    AddressIs(r, w.lower.mode, w.lower.base, a, vi);
    hide Addressed, Reaches;
  }

  /** A store's fields go there; every other quadword, and every vector register, stays. */
  lemma StoreReaches(r: Regs, m: seq<Vec>, w: Word, a: int, vi: seq<nat>, f: nat)
    requires Proper(r) && Narrow(r) && |m| > 0 && Runs(w) && w.lower.Store? && f < 4
    requires Reaches(r, w.lower.mode, w.lower.base, a, vi)
    ensures var (s, after) := LowerSlot(r, m, w);
      && |after| == |m| && s.vi == vi && s.vf == r.vf
      && after[a % |m|][f] == (if w.lower.dest[f] then r.vf[w.lower.fs][f] % 0x1_0000_0000 else m[a % |m|][f])
      && forall k :: 0 <= k < |m| && k != a % |m| ==> after[k] == m[k]
  {
    AddressIs(r, w.lower.mode, w.lower.base, a, vi);
    hide Addressed, Reaches;
  }

  /** A whole quadword pushed through a register by pre-decrement comes back by post-increment,
      and the register with it. */
  lemma PushPop(r: Regs, m: seq<Vec>, push: Word, pop: Word, f: nat)
    requires Proper(r) && Narrow(r) && |m| > 0 && Runs(push) && Runs(pop) && f < 4
    requires push.lower.Store? && push.lower.mode == PreDecrement && push.lower.dest[f]
    requires pop.lower.Load? && pop.lower.mode == PostIncrement && pop.lower.dest[f] && pop.lower.ft != 0
    requires push.lower.base == pop.lower.base != 0
    ensures var (r1, m1) := LowerSlot(r, m, push);
      var (r2, m2) := LowerSlot(r1, m1, pop);
      r2.vf[pop.lower.ft][f] == r.vf[push.lower.fs][f] % 0x1_0000_0000 && r2.vi == r.vi
  {
    var base := push.lower.base;
    var down := (r.vi[base] + 0xFFFF) % 0x1_0000;
    var vi := r.vi[base := down];
    StoreReaches(r, m, push, down, vi, f);
    var (r1, m1) := LowerSlot(r, m, push);
    LowerKeeps(r, m, push);
    UpAgain(r.vi[base], down);
    assert vi[base := (down + 1) % 0x1_0000] == r.vi;
    LoadReaches(r1, m1, pop, down, r.vi, f);
  }

  lemma UpAgain(v: nat, down: nat)
    requires v < 0x1_0000 && down == (v + 0xFFFF) % 0x1_0000
    ensures (down + 1) % 0x1_0000 == v
  {
  }

  /** The integer instructions, the divider's and the immediate word: what each leaves, and that
      it leaves the rest. */
  lemma IntegerWrites(r: Regs, m: seq<Vec>, w: Word)
    requires Proper(r) && |m| > 0 && Runs(w) && w.lower.IntWrite?
    ensures LowerSlot(r, m, w) ==
      (if w.lower.reg == 0 then r else r.(vi := r.vi[w.lower.reg := w.lower.sum(r) % 0x1_0000]), m)
  {
  }

  /** An integer load keeps the last of its selected fields, from x to w. */
  lemma IntegerLoads(r: Regs, m: seq<Vec>, w: Word, f: nat)
    requires Proper(r) && Narrow(r) && |m| > 0 && Runs(w) && w.lower.IntLoad? && w.lower.it != 0
    requires f < 4 && w.lower.dest[f] && forall g :: f < g < 4 ==> !w.lower.dest[g]
    ensures var a := (if w.lower.base == 0 then 0 else r.vi[w.lower.base]) + w.lower.imm;
      LowerSlot(r, m, w) == (r.(vi := r.vi[w.lower.it := m[a % |m|][f] % 0x1_0000]), m)
  {
    var l := w.lower;
    var at := Place(m, ReadVi(r, l.base) + l.imm);
    assert at == ((if l.base == 0 then 0 else r.vi[l.base]) + l.imm) % |m|;
    var v := m[at];
    var s0 := if l.dest[0] then WriteVi(r, l.it, v[0]) else r;
    var s1 := if l.dest[1] then WriteVi(s0, l.it, v[1]) else s0;
    var s2 := if l.dest[2] then WriteVi(s1, l.it, v[2]) else s1;
    WrittenOver(r, l.it, s0, v[f]);
    WrittenOver(r, l.it, s1, v[f]);
    WrittenOver(r, l.it, s2, v[f]);
    assert LowerSlot(r, m, w).0 == WriteVi(r, l.it, v[f]);
  }

  /** Registers that differ in one VI only come together when it is written. */
  lemma WrittenOver(r: Regs, n: nat, s: Regs, v: int)
    requires Proper(r) && Proper(s) && 0 < n < 16 && s.vi[n] < 0x1_0000 && s == r.(vi := r.vi[n := s.vi[n]])
    ensures WriteVi(s, n, v) == WriteVi(r, n, v)
  {
    assert s.vi[n := v % 0x1_0000] == r.vi[n := v % 0x1_0000];
  }

  lemma QuotientAndImmediate(r: Regs, m: seq<Vec>, w: Word)
    requires Proper(r) && |m| > 0 && ProperWord(w)
    ensures w.iBit ==> LowerSlot(r, m, w) == (r.(i := w.imm), m)
    ensures !w.iBit && w.lower.Quotient? ==> LowerSlot(r, m, w) == (r.(q := w.lower.result(r)), m)
  {
  }

  // ---- words in turn ----------------------------------------------------------------------------

  /** The word issued is the one the program counter names, and the counter wraps at the end of
      the program. */
  lemma FetchWraps(p: Program, s: State, laps: int)
    ensures 0 <= s.pc < |p| ==> Fetch(p, s) == p[s.pc]
    ensures Fetch(p, s.(pc := s.pc + laps * |p|)) == Fetch(p, s)
  {
    Laps(s.pc, laps, |p|);
    if 0 <= s.pc < |p| {
      Arith.Unique(s.pc, 0, s.pc, |p|);
    }
  }

  lemma Laps(v: int, k: int, n: nat)
    requires n > 0
    ensures (v + k * n) % n == v % n
  {
    Arith.Unique(v + k * n, v / n + k, v % n, n);
  }

  // ---- branches ---------------------------------------------------------------------------------

  /** A word whose branch is taken to a target. */
  predicate Takes(p: Program, s: State, target: int)
    requires Sound(s)
  {
    var w := Fetch(p, s);
    !w.iBit && w.lower.Branch? && w.lower.choose(s.regs, s.pc) == Some(target)
  }

  /** The word behind a taken branch issues, and the target follows; a link register other than
      vi00 holds the byte address of the word behind that one. */
  lemma BranchThenTarget(p: Program, s: State, target: int)
    requires Sound(s) && s.running && s.pending.None? && s.endIn.None? && Takes(p, s, target)
    ensures var (s1, link) := (Step(p, s), Fetch(p, s).lower.link);
      && s1.running && s1.pc == s.pc + 1
      && Step(p, s1).pc == target && Step(p, s1).pending.None?
      && (link.Some? && link.value != 0 ==> Step(p, s1).regs.vi[link.value] == ((s.pc + 2) * 8) % 0x1_0000)
  {
    hide Issue, LowerSlot, UpperMac;
    var s1 := Step(p, s);
    assert s1.pending == Some(Pending(target, Fetch(p, s).lower.link));
  }

  /** A word whose branch is not taken, or that has none, is followed by the next one. */
  lemma NoBranchNext(p: Program, s: State)
    requires Sound(s) && s.running && s.pending.None?
    requires Fetch(p, s).iBit || !Fetch(p, s).lower.Branch? || Fetch(p, s).lower.choose(s.regs, s.pc).None?
    ensures Step(p, s).pc == s.pc + 1 && Step(p, s).pending.None?
  {
    hide Issue, LowerSlot, UpperMac;
  }
}
