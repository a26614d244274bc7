/** The vector unit of sim/vu/vu_ref.py: two instruction slots that issue together.
    Instructions arrive decoded, with the arithmetic of each one as a function of the
    values it reads. */
module Vu {
  import opened Widths
  import opened Wrappers

  /** The four fields x, y, z, w. */
  type Vec = v: seq<nat> | |v| == 4 witness [0, 0, 0, 0]

  function Zero(): Vec { [0, 0, 0, 0] }

  /** vf00 is (0, 0, 0, 1.0). */
  function Vf00(): Vec { [0, 0, 0, 0x3F80_0000] }

  type Mask = m: seq<bool> | |m| == 4 witness [false, false, false, false]

  /** What the two slots share and a snapshot saves. */
  datatype Regs = Regs(vf: seq<Vec>, vi: seq<nat>, acc: Vec, q: nat, i: nat)

  predicate Proper(r: Regs) { |r.vf| == 32 && |r.vi| == 16 }

  // ---- flags -------------------------------------------------------------------------------

  /** One field's MAC flags. */
  datatype Flags = Flags(z: bool, s: bool, u: bool, o: bool)

  /** What the arithmetic reports besides its result. */
  datatype Cause = Cause(overflow: bool, underflow: bool)

  /** The flags of one result.  Overflow and underflow come from the operation, since the
      format has no pattern for either. */
  function MacFlags(result: nat, cause: Cause): Flags {
    var s := result / 0x8000_0000 % 2 == 1;
    if cause.overflow then Flags(false, s, false, true)
    else if cause.underflow then Flags(true, s, true, false)
    else Flags(result % 0x8000_0000 == 0, s, false, false)
  }

  /** Overflow excludes underflow and zero; underflow is a zero. */
  predicate Consistent(f: Flags) { (f.o ==> !f.u && !f.z) && (f.u ==> f.z) }

  type Mac = m: seq<Flags> | |m| == 4
    witness [Flags(false, false, false, false), Flags(false, false, false, false),
             Flags(false, false, false, false), Flags(false, false, false, false)]

  predicate AllConsistent(m: Mac) { forall f :: 0 <= f < 4 ==> Consistent(m[f]) }

  // ---- the upper slot ----------------------------------------------------------------------

  /** Where the second operand comes from. */
  datatype Source = Fields | Broadcast(bc: nat) | FromQ | FromI | NoSource

  /** One field's result, from the first operand, the second, and ACC's field. */
  type Alu = (nat, nat, nat) -> (nat, Cause)

  datatype Upper =
    | UpperNop
    | Arith(alu: Alu, flagged: bool, src: Source, toAcc: bool, dest: Mask, fs: nat, ft: nat, wr: nat)
    | Outer(product: (nat, nat) -> nat, finish: (nat, nat) -> nat, toAcc: bool, fs: nat, ft: nat, wr: nat)

  predicate ProperUpper(u: Upper) {
    match u
    case UpperNop => true
    case Arith(_, _, src, _, _, fs, ft, wr) => fs < 32 && ft < 32 && wr < 32 && (src.Broadcast? ==> src.bc < 4)
    case Outer(_, _, _, fs, ft, wr) => fs < 32 && ft < 32 && wr < 32
  }

  /** vf00 takes no writes. */
  function WriteVf(r: Regs, n: nat, f: nat, v: nat): (s: Regs)
    requires Proper(r) && n < 32 && f < 4
    ensures Proper(s)
  {
    if n == 0 then r else r.(vf := r.vf[n := r.vf[n][f := v % TWO32]])
  }

  function WriteAcc(r: Regs, f: nat, v: nat): (s: Regs)
    requires Proper(r) && f < 4
    ensures Proper(s)
  {
    r.(acc := r.acc[f := v % TWO32])
  }

  function Second(r: Regs, src: Source, ft: nat, f: nat): nat
    requires Proper(r) && ft < 32 && f < 4 && (src.Broadcast? ==> src.bc < 4)
  {
    match src
    case Fields => r.vf[ft][f]
    case Broadcast(bc) => r.vf[ft][bc]
    case FromQ => r.q
    case FromI => r.i
    case NoSource => 0
  }

  function Field(r: Regs, u: Upper, f: nat): (nat, Cause)
    requires Proper(r) && u.Arith? && ProperUpper(u) && f < 4
  {
    u.alu(r.vf[u.fs][f], Second(r, u.src, u.ft, f), r.acc[f])
  }

  /** One field of the loop: read, compute, write in place. */
  function ArithField(r: Regs, u: Upper, f: nat): (s: Regs)
    requires Proper(r) && u.Arith? && ProperUpper(u) && f < 4
    ensures Proper(s)
  {
    if !u.dest[f] then r
    else if u.toAcc then WriteAcc(r, f, Field(r, u, f).0)
    else WriteVf(r, u.wr, f, Field(r, u, f).0)
  }

  function MacField(r: Regs, u: Upper, m: Mac, f: nat): Mac
    requires Proper(r) && u.Arith? && ProperUpper(u) && f < 4
  {
    if u.dest[f] && u.flagged then m[f := MacFlags(Field(r, u, f).0, Field(r, u, f).1)] else m
  }

  /** The first k fields, in order x, y, z, w. */
  function ArithUpTo(r: Regs, u: Upper, k: nat): (s: Regs)
    requires Proper(r) && u.Arith? && ProperUpper(u) && k <= 4
    ensures Proper(s)
  {
    if k == 0 then r else ArithField(ArithUpTo(r, u, k - 1), u, k - 1)
  }

  function MacUpTo(r: Regs, u: Upper, m: Mac, k: nat): Mac
    requires Proper(r) && u.Arith? && ProperUpper(u) && k <= 4
  {
    if k == 0 then m else MacField(ArithUpTo(r, u, k - 1), u, MacUpTo(r, u, m, k - 1), k - 1)
  }

  /** The cross product's three products, taken before anything is written. */
  function OuterValue(r: Regs, u: Upper, f: nat): nat
    requires Proper(r) && u.Outer? && ProperUpper(u) && f < 3
  {
    var p := u.product(r.vf[u.fs][(f + 1) % 3], r.vf[u.ft][(f + 2) % 3]);
    if u.toAcc then p else u.finish(r.acc[f], p)
  }

  function OuterRun(r: Regs, u: Upper): (s: Regs)
    requires Proper(r) && u.Outer? && ProperUpper(u)
    ensures Proper(s)
  {
    var (x, y, z) := (OuterValue(r, u, 0), OuterValue(r, u, 1), OuterValue(r, u, 2));
    if u.toAcc then WriteAcc(WriteAcc(WriteAcc(r, 0, x), 1, y), 2, z)
    else WriteVf(WriteVf(WriteVf(r, u.wr, 0, x), u.wr, 1, y), u.wr, 2, z)
  }

  function UpperRun(r: Regs, u: Upper): (s: Regs)
    requires Proper(r) && ProperUpper(u)
    ensures Proper(s)
  {
    match u
    case UpperNop => r
    case Arith(_, _, _, _, _, _, _, _) => ArithUpTo(r, u, 4)
    case Outer(_, _, _, _, _, _) => OuterRun(r, u)
  }

  function UpperMac(r: Regs, u: Upper, m: Mac): Mac
    requires Proper(r) && ProperUpper(u)
  {
    if u.Arith? then MacUpTo(r, u, m, 4) else m
  }

  /** The loop over fields, as the source runs it. */
  method RunArith(r: Regs, u: Upper, m: Mac) returns (s: Regs, mac: Mac)
    requires Proper(r) && u.Arith? && ProperUpper(u)
    ensures s == UpperRun(r, u) && mac == UpperMac(r, u, m)
  {
    s, mac := r, m;
    var f := 0;
    while f < 4
      invariant f <= 4 && Proper(s) && s == ArithUpTo(r, u, f) && mac == MacUpTo(r, u, m, f)
    {
      if u.dest[f] {
        var (v, cause) := Field(s, u, f);
        if u.flagged {
          mac := mac[f := MacFlags(v, cause)];
        }
        s := if u.toAcc then WriteAcc(s, f, v) else WriteVf(s, u.wr, f, v);
      }
      f := f + 1;
    }
  }

  // ---- is it "at once"? ----------------------------------------------------------------------

  /** Does the upper instruction write a field of a vector register? */
  predicate UpperWrites(u: Upper, n: nat, f: nat) {
    match u
    case UpperNop => false
    case Arith(_, _, _, toAcc, dest, _, _, wr) => !toAcc && wr == n != 0 && f < 4 && dest[f]
    case Outer(_, _, toAcc, _, _, wr) => !toAcc && wr == n != 0 && f < 3
  }

  predicate UpperWritesAcc(u: Upper, f: nat) {
    match u
    case UpperNop => false
    case Arith(_, _, _, toAcc, dest, _, _, _) => toAcc && f < 4 && dest[f]
    case Outer(_, _, toAcc, _, _, _) => toAcc && f < 3
  }

  /** The value a written field takes when every operand is read before any is written. */
  function UpperValue(r: Regs, u: Upper, f: nat): nat
    requires Proper(r) && ProperUpper(u) && f < 4 && !u.UpperNop? && (u.Outer? ==> f < 3)
  {
    (if u.Arith? then Field(r, u, f).0 else OuterValue(r, u, f)) % TWO32
  }

  predicate AtOnce(r: Regs, u: Upper, s: Regs)
    requires Proper(r) && Proper(s) && ProperUpper(u)
  {
    && (forall n, f :: 0 <= n < 32 && 0 <= f < 4 ==>
         s.vf[n][f] == if UpperWrites(u, n, f) then UpperValue(r, u, f) else r.vf[n][f])
    && (forall f :: 0 <= f < 4 ==> s.acc[f] == if UpperWritesAcc(u, f) then UpperValue(r, u, f) else r.acc[f])
    && s.vi == r.vi && s.q == r.q && s.i == r.i
  }

  /** The loop writes the broadcast field of its own source and then reads it again. */
  predicate Hazard(u: Upper) {
    && u.Arith? && u.src.Broadcast? && !u.toAcc && u.wr == u.ft != 0
    && u.src.bc < 4 && u.dest[u.src.bc]
    && exists f :: u.src.bc < f < 4 && u.dest[f]
  }

  /** Does field f come after the broadcast field in a hazardous loop? */
  predicate Late(u: Upper, f: nat) {
    && u.Arith? && u.src.Broadcast? && !u.toAcc && u.wr == u.ft != 0
    && u.src.bc < 4 && u.dest[u.src.bc] && u.src.bc < f
  }

  /** The value the loop really gives a field: after the broadcast field has been
      overwritten, the new value is what is broadcast. */
  function LoopValue(r: Regs, u: Upper, f: nat): nat
    requires Proper(r) && u.Arith? && ProperUpper(u) && f < 4
  {
    if Late(u, f)
    then u.alu(r.vf[u.fs][f], UpperValue(r, u, u.src.bc), r.acc[f]).0 % TWO32
    else UpperValue(r, u, f)
  }

  predicate VfDone(r: Regs, u: Upper, k: nat, s: Regs, n: nat, f: nat)
    requires Proper(r) && Proper(s) && u.Arith? && ProperUpper(u) && n < 32 && f < 4
  {
    s.vf[n][f] == if f < k && UpperWrites(u, n, f) then LoopValue(r, u, f) else r.vf[n][f]
  }

  predicate AccDone(r: Regs, u: Upper, k: nat, s: Regs, f: nat)
    requires Proper(r) && Proper(s) && u.Arith? && ProperUpper(u) && f < 4
  {
    s.acc[f] == if f < k && UpperWritesAcc(u, f) then LoopValue(r, u, f) else r.acc[f]
  }

  /** The first k fields are done and the others untouched. */
  predicate DoneUpTo(r: Regs, u: Upper, k: nat, s: Regs)
    requires Proper(r) && Proper(s) && u.Arith? && ProperUpper(u)
  {
    && (forall n: nat, f: nat :: n < 32 && f < 4 ==> VfDone(r, u, k, s, n, f))
    && (forall f: nat :: f < 4 ==> AccDone(r, u, k, s, f))
    && s.vi == r.vi && s.q == r.q && s.i == r.i
  }

  lemma {:induction false} LoopExact(r: Regs, u: Upper, k: nat)
    requires Proper(r) && u.Arith? && ProperUpper(u) && k <= 4
    ensures DoneUpTo(r, u, k, ArithUpTo(r, u, k))
  {
    if k > 0 {
      LoopExact(r, u, k - 1);
      FieldExact(r, u, k - 1, ArithUpTo(r, u, k - 1));
    }
  }

  lemma FieldExact(r: Regs, u: Upper, k: nat, s: Regs)
    requires Proper(r) && Proper(s) && u.Arith? && ProperUpper(u) && k < 4 && DoneUpTo(r, u, k, s)
    ensures DoneUpTo(r, u, k + 1, ArithField(s, u, k))
    ensures u.dest[k] ==> Field(s, u, k).0 % TWO32 == LoopValue(r, u, k)
  {
    assert VfDone(r, u, k, s, u.fs, k) && VfDone(r, u, k, s, u.ft, k) && AccDone(r, u, k, s, k);
    if u.src.Broadcast? {
      assert VfDone(r, u, k, s, u.ft, u.src.bc);
    }
    var t, next := ArithField(s, u, k), k + 1;
    forall n: nat, f: nat | n < 32 && f < 4 ensures VfDone(r, u, next, t, n, f) {
      assert VfDone(r, u, k, s, n, f);
    }
    forall f: nat | f < 4 ensures AccDone(r, u, next, t, f) {
      assert AccDone(r, u, k, s, f);
    }
  }

  /** Without the hazard the loop is as if every operand were read first ... */
  lemma NoHazardAtOnce(r: Regs, u: Upper)
    requires Proper(r) && ProperUpper(u) && !Hazard(u)
    ensures AtOnce(r, u, UpperRun(r, u))
  {
    if u.Arith? {
      LoopExact(r, u, 4);
      var s := UpperRun(r, u);
      forall n, f | 0 <= n < 32 && 0 <= f < 4
        ensures s.vf[n][f] == if UpperWrites(u, n, f) then UpperValue(r, u, f) else r.vf[n][f]
      {
        assert VfDone(r, u, 4, s, n, f);
      }
      forall f | 0 <= f < 4 ensures s.acc[f] == if UpperWritesAcc(u, f) then UpperValue(r, u, f) else r.acc[f] {
        assert AccDone(r, u, 4, s, f);
      }
    }
  }

  /** ... and with it, exactly when no field after the overwritten one can tell: the rest
      is a question about the arithmetic, which VuOps answers. */
  lemma AtOnceIff(r: Regs, u: Upper)
    requires Proper(r) && u.Arith? && ProperUpper(u)
    ensures AtOnce(r, u, UpperRun(r, u))
       <==> forall f: nat :: f < 4 && u.dest[f] && Late(u, f) ==> LoopValue(r, u, f) == UpperValue(r, u, f)
  {
    LoopExact(r, u, 4);
    var s := UpperRun(r, u);
    if AtOnce(r, u, s) {
      forall f: nat | f < 4 && u.dest[f] && Late(u, f) ensures LoopValue(r, u, f) == UpperValue(r, u, f) {
        assert VfDone(r, u, 4, s, u.wr, f) && UpperWrites(u, u.wr, f);
      }
    } else if forall f: nat :: f < 4 && u.dest[f] && Late(u, f) ==> LoopValue(r, u, f) == UpperValue(r, u, f) {
      forall n, f | 0 <= n < 32 && 0 <= f < 4
        ensures s.vf[n][f] == if UpperWrites(u, n, f) then UpperValue(r, u, f) else r.vf[n][f]
      {
        assert VfDone(r, u, 4, s, n, f);
      }
      forall f | 0 <= f < 4 ensures s.acc[f] == if UpperWritesAcc(u, f) then UpperValue(r, u, f) else r.acc[f] {
        assert AccDone(r, u, 4, s, f);
      }
    }
  }

  // ---- the lower slot --------------------------------------------------------------------------

  datatype Mode = Plain(imm: int) | PostIncrement | PreDecrement

  datatype Lower =
    | LowerNop
    | IntWrite(reg: nat, sum: Regs -> int)
    | Load(mode: Mode, dest: Mask, ft: nat, base: nat)
    | Store(mode: Mode, dest: Mask, fs: nat, base: nat)
    | IntLoad(imm: int, dest: Mask, it: nat, base: nat)
    | IntStore(imm: int, dest: Mask, it: nat, base: nat)
    | Move(dest: Mask, ft: nat, vector: Regs -> Vec)
    | Quotient(result: Regs -> nat)
    | Branch(choose: (Regs, int) -> Option<int>, link: Option<nat>)

  predicate ProperLower(l: Lower) {
    match l
    case LowerNop => true
    case IntWrite(reg, _) => reg < 16
    case Load(_, _, ft, base) => ft < 32 && base < 16
    case Store(_, _, fs, base) => fs < 32 && base < 16
    case IntLoad(_, _, it, base) => it < 16 && base < 16
    case IntStore(_, _, it, base) => it < 16 && base < 16
    case Move(_, ft, _) => ft < 32
    case Quotient(_) => true
    case Branch(_, link) => link.Some? ==> link.value < 16
  }

  function ReadVi(r: Regs, n: nat): nat
    requires Proper(r) && n < 16
  {
    if n == 0 then 0 else r.vi[n] % TWO16
  }

  function WriteVi(r: Regs, n: nat, v: int): (s: Regs)
    requires Proper(r) && n < 16
    ensures Proper(s)
  {
    if n == 0 then r else r.(vi := r.vi[n := v % TWO16])
  }

  /** Fields of a vector under a mask. */
  function Masked(dest: Mask, was: Vec, v: Vec): Vec {
    [if dest[0] then v[0] % TWO32 else was[0], if dest[1] then v[1] % TWO32 else was[1],
     if dest[2] then v[2] % TWO32 else was[2], if dest[3] then v[3] % TWO32 else was[3]]
  }

  function WriteFields(r: Regs, n: nat, dest: Mask, v: Vec): (s: Regs)
    requires Proper(r) && n < 32
    ensures Proper(s)
  {
    if n == 0 then r else r.(vf := r.vf[n := Masked(dest, r.vf[n], v)])
  }

  /** The address a load or store uses, and the registers once its base has moved. */
  function Addressed(r: Regs, mode: Mode, base: nat): (int, Regs)
    requires Proper(r) && base < 16
  {
    match mode
    case Plain(imm) => (ReadVi(r, base) + imm, r)
    case PostIncrement => (ReadVi(r, base), WriteVi(r, base, ReadVi(r, base) + 1))
    case PreDecrement =>
      var moved := WriteVi(r, base, ReadVi(r, base) - 1);
      (ReadVi(moved, base), moved)
  }

  /** VU Mem wraps. */
  function Place(m: seq<Vec>, a: int): nat
    requires |m| > 0
  {
    a % |m|
  }

  function LowerRun(r: Regs, m: seq<Vec>, l: Lower): (Regs, seq<Vec>)
    requires Proper(r) && ProperLower(l) && |m| > 0
  {
    match l
    case LowerNop => (r, m)
    case IntWrite(reg, sum) => (WriteVi(r, reg, sum(r)), m)
    case Load(mode, dest, ft, base) =>
      var (a, moved) := Addressed(r, mode, base);
      (WriteFields(moved, ft, dest, m[Place(m, a)]), m)
    case Store(mode, dest, fs, base) =>
      var (a, moved) := Addressed(r, mode, base);
      (moved, m[Place(m, a) := Masked(dest, m[Place(m, a)], r.vf[fs])])
    case IntLoad(imm, dest, it, base) =>
      var v := m[Place(m, ReadVi(r, base) + imm)];
      var s0 := if dest[0] then WriteVi(r, it, v[0]) else r;
      var s1 := if dest[1] then WriteVi(s0, it, v[1]) else s0;
      var s2 := if dest[2] then WriteVi(s1, it, v[2]) else s1;
      (if dest[3] then WriteVi(s2, it, v[3]) else s2, m)
    case IntStore(imm, dest, it, base) =>
      var a, v := Place(m, ReadVi(r, base) + imm), ReadVi(r, it);
      (r, m[a := Masked(dest, m[a], [v, v, v, v])])
    case Move(dest, ft, vector) => (WriteFields(r, ft, dest, vector(r)), m)
    case Quotient(result) => (r.(q := result(r)), m)
    case Branch(_, _) => (r, m)
  }

  lemma LowerProper(r: Regs, m: seq<Vec>, l: Lower)
    requires Proper(r) && ProperLower(l) && |m| > 0
    ensures Proper(LowerRun(r, m, l).0) && |LowerRun(r, m, l).1| == |m|
  {
  }

  // ---- one word: both slots, and the merge -----------------------------------------------------

  /** A decoded word.  With the I bit set its lower half is an immediate for I. */
  datatype Word = Word(upper: Upper, lower: Lower, iBit: bool, eBit: bool, imm: nat)

  predicate ProperWord(w: Word) { ProperUpper(w.upper) && ProperLower(w.lower) }

  function LowerSlot(r: Regs, m: seq<Vec>, w: Word): (s: (Regs, seq<Vec>))
    requires Proper(r) && ProperWord(w) && |m| > 0
    ensures Proper(s.0) && |s.1| == |m|
  {
    LowerProper(r, m, w.lower);
    if w.iBit then (r.(i := w.imm), m) else LowerRun(r, m, w.lower)
  }

  /** What the upper slot left, with the lower's changes laid over it. */
  function Pick<T(==)>(pre: T, up: T, low: T): T { if low != pre then low else up }

  function MergeVec(pre: Vec, up: Vec, low: Vec): Vec {
    [Pick(pre[0], up[0], low[0]), Pick(pre[1], up[1], low[1]), Pick(pre[2], up[2], low[2]), Pick(pre[3], up[3], low[3])]
  }

  function Merge(pre: Regs, up: Regs, low: Regs): (s: Regs)
    requires Proper(pre) && Proper(up) && Proper(low)
    ensures Proper(s)
  {
    Regs(seq(32, n requires 0 <= n < 32 => MergeVec(pre.vf[n], up.vf[n], low.vf[n])),
         seq(16, n requires 0 <= n < 16 => Pick(pre.vi[n], up.vi[n], low.vi[n])),
         up.acc, Pick(pre.q, up.q, low.q), Pick(pre.i, up.i, low.i))
  }

  /** The merge as the source's loops do it, in place on what the upper left. */
  method MergeInPlace(pre: Regs, up: Regs, low: Regs) returns (s: Regs)
    requires Proper(pre) && Proper(up) && Proper(low)
    ensures s == Merge(pre, up, low)
  {
    var vf := up.vf;
    var n := 0;
    while n < 32
      invariant n <= 32 == |vf|
      invariant forall k :: 0 <= k < 32 ==>
        vf[k] == if k < n then MergeVec(pre.vf[k], up.vf[k], low.vf[k]) else up.vf[k]
    {
      var v := up.vf[n];
      var f := 0;
      while f < 4
        invariant f <= 4 == |v|
        invariant forall k :: 0 <= k < 4 ==>
          v[k] == if k < f then Pick(pre.vf[n][k], up.vf[n][k], low.vf[n][k]) else up.vf[n][k]
      {
        if low.vf[n][f] != pre.vf[n][f] {
          v := v[f := low.vf[n][f]];
        }
        f := f + 1;
      }
      assert v == MergeVec(pre.vf[n], up.vf[n], low.vf[n]);
      vf := vf[n := v];
      n := n + 1;
    }
    var vi := up.vi;
    n := 0;
    while n < 16
      invariant n <= 16 == |vi|
      invariant forall k :: 0 <= k < 16 ==> vi[k] == if k < n then Pick(pre.vi[k], up.vi[k], low.vi[k]) else up.vi[k]
    {
      if low.vi[n] != pre.vi[n] {
        vi := vi[n := low.vi[n]];
      }
      n := n + 1;
    }
    s := Regs(vf, vi, up.acc, Pick(pre.q, up.q, low.q), Pick(pre.i, up.i, low.i));
    assert vf == Merge(pre, up, low).vf && vi == Merge(pre, up, low).vi;
  }

  /** Does the lower slot write a field of a vector register, and what? */
  predicate LowerWrites(w: Word, n: nat, f: nat) {
    !w.iBit && f < 4 && n != 0
    && match w.lower
       case Load(_, dest, ft, _) => ft == n && dest[f]
       case Move(dest, ft, _) => ft == n && dest[f]
       case _ => false
  }

  function LowerValue(r: Regs, m: seq<Vec>, w: Word, n: nat, f: nat): nat
    requires Proper(r) && ProperWord(w) && |m| > 0 && f < 4 && LowerWrites(w, n, f)
  {
    (match w.lower
     case Load(mode, _, _, base) => m[Place(m, Addressed(r, mode, base).0)][f]
     case Move(_, _, vector) => vector(r)[f]) % TWO32
  }

  lemma FieldsAt(r: Regs, t: nat, dest: Mask, v: Vec, n: nat, f: nat)
    requires Proper(r) && t < 32 && n < 32 && f < 4
    ensures WriteFields(r, t, dest, v).vf[n][f] == if t == n != 0 && dest[f] then v[f] % TWO32 else r.vf[n][f]
    ensures WriteFields(r, t, dest, v).acc == r.acc
  {
  }

  lemma AddressKeeps(r: Regs, mode: Mode, base: nat)
    requires Proper(r) && base < 16
    ensures var s := Addressed(r, mode, base).1; Proper(s) && s.vf == r.vf && s.acc == r.acc
  {
  }

  lemma LowerExact(r: Regs, m: seq<Vec>, w: Word, n: nat, f: nat)
    requires Proper(r) && ProperWord(w) && |m| > 0 && n < 32 && f < 4
    ensures LowerSlot(r, m, w).0.vf[n][f] == if LowerWrites(w, n, f) then LowerValue(r, m, w, n, f) else r.vf[n][f]
    ensures LowerSlot(r, m, w).0.acc == r.acc
  {
    hide WriteFields, Addressed;
    if !w.iBit {
      match w.lower
      case Load(mode, dest, ft, base) =>
        var (a, moved) := Addressed(r, mode, base);
        AddressKeeps(r, mode, base);
        FieldsAt(moved, ft, dest, m[Place(m, a)], n, f);
      case Store(mode, _, _, base) => AddressKeeps(r, mode, base);
      case Move(dest, ft, vector) => FieldsAt(r, ft, dest, vector(r), n, f);
      case _ =>
    }
  }

  /** Does the word store to a field of a quadword, and what? */
  predicate StoresTo(r: Regs, m: seq<Vec>, w: Word, a: nat, f: nat)
    requires Proper(r) && ProperWord(w) && |m| > 0
  {
    !w.iBit && f < 4
    && match w.lower
       case Store(mode, dest, _, base) => dest[f] && a == Place(m, Addressed(r, mode, base).0)
       case IntStore(imm, dest, _, base) => dest[f] && a == Place(m, ReadVi(r, base) + imm)
       case _ => false
  }

  function Stored(r: Regs, m: seq<Vec>, w: Word, a: nat, f: nat): nat
    requires Proper(r) && ProperWord(w) && |m| > 0 && f < 4 && StoresTo(r, m, w, a, f)
  {
    match w.lower
    case Store(_, _, fs, _) => r.vf[fs][f] % TWO32
    case IntStore(_, _, it, _) => ReadVi(r, it)
  }

  lemma StoreExact(r: Regs, m: seq<Vec>, w: Word, a: nat, f: nat)
    requires Proper(r) && ProperWord(w) && |m| > 0 && a < |m| && f < 4
    ensures LowerSlot(r, m, w).1[a][f] == if StoresTo(r, m, w, a, f) then Stored(r, m, w, a, f) else m[a][f]
  {
    hide WriteFields, Addressed;
    if !w.iBit {
      match w.lower
      case IntStore(_, _, it, _) => assert ReadVi(r, it) < TWO16;
      case _ =>
    }
  }

  /** The two slots never write one field. */
  ghost predicate Disjoint(w: Word) {
    forall n: nat, f: nat :: !(UpperWrites(w.upper, n, f) && LowerWrites(w, n, f))
  }

  function Issue(r: Regs, m: seq<Vec>, w: Word): (s: Regs)
    requires Proper(r) && ProperWord(w) && |m| > 0
    ensures Proper(s)
  {
    Merge(r, UpperRun(r, w.upper), LowerSlot(r, m, w).0)
  }

  /** One word's slots issue together: with disjoint write sets and no hazard, every field,
      VI, ACC, Q and I is what its own slot computes from the registers before the word, and
      every field of memory is what it was or what those registers held. */
  lemma SameCycle(r: Regs, m: seq<Vec>, w: Word, n: nat, f: nat, a: nat)
    requires Proper(r) && ProperWord(w) && |m| > 0 && Disjoint(w) && !Hazard(w.upper) && n < 32 && f < 4 && a < |m|
    ensures Issue(r, m, w).vf[n][f]
         == if UpperWrites(w.upper, n, f) then UpperValue(r, w.upper, f)
            else if LowerWrites(w, n, f) then LowerValue(r, m, w, n, f) else r.vf[n][f]
    ensures Issue(r, m, w).acc[f] == if UpperWritesAcc(w.upper, f) then UpperValue(r, w.upper, f) else r.acc[f]
    ensures var low := LowerSlot(r, m, w).0;
      Issue(r, m, w).vi == low.vi && Issue(r, m, w).q == low.q && Issue(r, m, w).i == low.i
    ensures LowerSlot(r, m, w).1[a][f] == if StoresTo(r, m, w, a, f) then Stored(r, m, w, a, f) else m[a][f]
  {
    StoreExact(r, m, w, a, f);
    var up, low := UpperRun(r, w.upper), LowerSlot(r, m, w).0;
    NoHazardAtOnce(r, w.upper);
    LowerExact(r, m, w, n, f);
    assert !(UpperWrites(w.upper, n, f) && LowerWrites(w, n, f));
    assert Issue(r, m, w).vi == low.vi;
  }

  /** Should both slots write a field, the lower's value shows exactly when it is a change,
      or the upper's is the old value too -- so "lower last" is not quite the rule. */
  lemma OverlapIff(r: Regs, m: seq<Vec>, w: Word, n: nat, f: nat)
    requires Proper(r) && ProperWord(w) && |m| > 0 && !Hazard(w.upper) && n < 32 && f < 4
    requires UpperWrites(w.upper, n, f) && LowerWrites(w, n, f)
    ensures Issue(r, m, w).vf[n][f] == LowerValue(r, m, w, n, f)
       <==> LowerValue(r, m, w, n, f) != r.vf[n][f] || UpperValue(r, w.upper, f) == r.vf[n][f]
  {
    NoHazardAtOnce(r, w.upper);
    LowerExact(r, m, w, n, f);
  }
}
