/** The upper slot's arithmetic, and which of its broadcast forms the field-by-field loop
    can be told from reading every operand first. */
module VuOps {
  import opened Widths
  import opened Vu
  import opened Ps2Float
  import F = Ps2Ops
  import A = Ps2Arithmetic

  datatype Op = ADD | SUB | MUL | MADD | MSUB | MAX | MINI

  function CauseOf(c: nat): Cause { Cause(c == CAUSE_O, c == CAUSE_U) }

  function Both(c: Cause, d: Cause): Cause { Cause(c.overflow || d.overflow, c.underflow || d.underflow) }

  /** One field's result.  A multiply-add rounds twice, so its product is packed first. */
  function Result(op: Op, a: Ps2Float.Word, b: Ps2Float.Word, acc: Ps2Float.Word): (Ps2Float.Word, Cause) {
    match op
    case ADD => var r := F.Add(a, b); (r.0, CauseOf(r.1))
    case SUB => var r := F.Sub(a, b); (r.0, CauseOf(r.1))
    case MUL => var r := F.Mul(a, b); (r.0, CauseOf(r.1))
    case MADD =>
      var p := F.Mul(a, b);
      var r := F.Add(acc, p.0);
      (r.0, Both(CauseOf(p.1), CauseOf(r.1)))
    case MSUB =>
      var p := F.Mul(a, b);
      var r := F.Sub(acc, p.0);
      (r.0, Both(CauseOf(p.1), CauseOf(r.1)))
    case MAX => (F.FMax(a, b), CauseOf(0))
    case MINI => (F.FMin(a, b), CauseOf(0))
  }

  function Low32(n: nat): Ps2Float.Word { n % TWO32 }

  function AluOf(op: Op): Alu {
    (a, b, acc) => Result(op, Low32(a), Low32(b), Low32(acc))
  }

  /** An instruction of the upper slot; MAX and MINI select, so they set no flags. */
  function Form(op: Op, src: Source, toAcc: bool, dest: Mask, fs: nat, ft: nat, wr: nat): Upper {
    Arith(AluOf(op), op != MAX && op != MINI, src, toAcc, dest, fs, ft, wr)
  }

  // ---- which hazards can be told ---------------------------------------------------------------

  /** With the hazard, an operation gives the game away unless its first operand makes the
      overwritten field as good as the old one: vf00's fields, or for MAX and MINI the
      broadcast register's own. */
  predicate Tells(op: Op, u: Upper) {
    Hazard(u)
    && match op
       case ADD => u.fs != 0
       case SUB => true
       case MUL => u.fs != 0 || u.dest[3]
       case MADD => u.fs != 0 || u.dest[3]
       case MSUB => u.fs != 0 || u.dest[3]
       case MAX => u.fs != 0 && u.fs != u.ft
       case MINI => u.fs != u.ft && (u.fs != 0 || u.dest[3])
  }

  // ---- a few small numbers -------------------------------------------------------------------

  /** The pattern of a fraction f, in [1, 2), times two to the e. */
  lemma PatternOf(sign: nat, e: nat, m: nat)
    requires sign < 2 && 1 <= e <= 254 && m < 0x80_0000
    ensures var x := Assemble(sign, e, m);
      Cond(x) == x && Value(x) == (if sign == 1 then -Magnitude(e, m) else Magnitude(e, m))
  {
  }

  lemma SmallMagnitudes()
    ensures Magnitude(127, 0) == 1.0 && Magnitude(128, 0) == 2.0 && Magnitude(129, 0) == 4.0 && Magnitude(130, 0) == 8.0
    ensures Magnitude(128, 0x40_0000) == 3.0
  {
    Dyadic.ScaleSucc(1.0, 0);
    Dyadic.ScaleSucc(1.0, 1);
    Dyadic.ScaleSucc(1.0, 2);
    Dyadic.ScaleSucc(1.5, 0);
  }

  /** Rounding leaves alone what has a pattern. */
  lemma Exact(sign: nat, e: nat, m: nat)
    requires sign < 2 && 1 <= e <= 254 && m < 0x80_0000
    ensures var v := if sign == 1 then -Magnitude(e, m) else Magnitude(e, m);
      Round(v).0 == Assemble(sign, e, m) && Value(Assemble(sign, e, m)) == v
  {
    PatternOf(sign, e, m);
    MagnitudeBinade(e, m);
    PackRoundTrip(Assemble(sign, e, m), 0);
  }

  /** A pattern, the number it stands for, and that the number rounds to it. */
  predicate Stands(x: Ps2Float.Word, v: real) { Value(x) == v && Round(v).0 == x }

  /** The numbers used below.  They are names, so that no proof computes with the patterns. */
  datatype Words = Words(zero: Ps2Float.Word, one: Ps2Float.Word, two: Ps2Float.Word, three: Ps2Float.Word,
                         four: Ps2Float.Word, eight: Ps2Float.Word, minus: Ps2Float.Word)

  predicate Right(w: Words) {
    && Stands(w.zero, 0.0) && Stands(w.one, 1.0) && Stands(w.two, 2.0) && Stands(w.three, 3.0)
    && Stands(w.four, 4.0) && Stands(w.eight, 8.0) && Stands(w.minus, -1.0)
  }

  const WORDS := Words(0, 0x3F80_0000, 0x4000_0000, 0x4040_0000, 0x4080_0000, 0x4100_0000, 0xBF80_0000)

  lemma RightAt(x: Ps2Float.Word, v: real, sign: nat, e: nat, m: nat)
    requires sign < 2 && 1 <= e <= 254 && m < 0x80_0000 && x == Assemble(sign, e, m)
    requires v == if sign == 1 then -Magnitude(e, m) else Magnitude(e, m)
    ensures Stands(x, v)
  {
    Exact(sign, e, m);
  }

  lemma WordsRight()
    ensures Right(WORDS)
  {
    SmallMagnitudes();
    assert Stands(WORDS.zero, 0.0) by { ZeroValue(0); }
    RightAt(WORDS.one, 1.0, 0, 127, 0);
    RightAt(WORDS.two, 2.0, 0, 128, 0);
    RightAt(WORDS.three, 3.0, 0, 128, 0x40_0000);
    RightAt(WORDS.four, 4.0, 0, 129, 0);
    RightAt(WORDS.eight, 8.0, 0, 130, 0);
    RightAt(WORDS.minus, -1.0, 1, 127, 0);
  }

  // ---- one field -------------------------------------------------------------------------------

  function R(op: Op, a: Ps2Float.Word, b: Ps2Float.Word, acc: Ps2Float.Word): Ps2Float.Word { Result(op, a, b, acc).0 }

  lemma Sum(a: Ps2Float.Word, b: Ps2Float.Word, c: Ps2Float.Word, v: real)
    requires Value(a) + Value(b) == v && Round(v).0 == c
    ensures F.Add(a, b).0 == c
  {
    hide Value, Round, Conditioned;
  }

  lemma Difference(a: Ps2Float.Word, b: Ps2Float.Word, c: Ps2Float.Word, v: real)
    requires Value(a) - Value(b) == v && Round(v).0 == c
    ensures F.Sub(a, b).0 == c
  {
    hide Value, Round, Conditioned;
  }

  lemma Product(a: Ps2Float.Word, b: Ps2Float.Word, c: Ps2Float.Word, x: real, y: real, v: real)
    requires Value(a) == x && Value(b) == y && x * y == v && Round(v).0 == c
    ensures F.Mul(a, b).0 == c
  {
    hide Value, Round, Conditioned;
    SameProduct(Value(a), Value(b), x, y);
    MulRounds(a, b, v);
  }

  lemma MulRounds(a: Ps2Float.Word, b: Ps2Float.Word, v: real)
    requires Value(a) * Value(b) == v
    ensures F.Mul(a, b) == Round(v)
  {
    hide Value, Round, Conditioned;
  }

  lemma SameProduct(p: real, q: real, x: real, y: real)
    requires p == x && q == y
    ensures p * q == x * y
  {
  }

  /** An operation given away: by the first operand of the broadcast field, that of a
      later field, and the broadcast value, ACC being zero. */
  predicate GivenAway(op: Op, p: Ps2Float.Word, a: Ps2Float.Word, b: Ps2Float.Word, z: Ps2Float.Word) {
    R(op, a, R(op, p, b, z), z) != R(op, a, b, z)
  }

  lemma AddGivesAway(w: Words)
    requires Right(w)
    ensures GivenAway(ADD, w.one, w.one, w.one, w.zero)
  {
    hide Value, Round, Conditioned, F.Add, F.Sub, F.Mul, F.FMax, F.FMin;
    Sum(w.one, w.one, w.two, 2.0);
    Sum(w.one, w.two, w.three, 3.0);
  }

  lemma SubGivesAway(w: Words)
    requires Right(w)
    ensures GivenAway(SUB, w.one, w.one, w.one, w.zero)
    ensures GivenAway(SUB, w.zero, w.one, w.one, w.zero)
    ensures GivenAway(SUB, w.zero, w.zero, w.one, w.zero)
  {
    hide Value, Round, Conditioned, F.Add, F.Sub, F.Mul, F.FMax, F.FMin;
    Difference(w.one, w.one, w.zero, 0.0);
    Difference(w.one, w.zero, w.one, 1.0);
    Difference(w.zero, w.one, w.minus, -1.0);
    Difference(w.one, w.minus, w.two, 2.0);
    Difference(w.zero, w.minus, w.one, 1.0);
  }

  lemma MulGivesAway(w: Words)
    requires Right(w)
    ensures GivenAway(MUL, w.two, w.two, w.two, w.zero)
    ensures GivenAway(MUL, w.zero, w.one, w.one, w.zero)
  {
    hide Value, Round, Conditioned, F.Add, F.Sub, F.Mul, F.FMax, F.FMin;
    Product(w.two, w.two, w.four, 2.0, 2.0, 4.0);
    Product(w.two, w.four, w.eight, 2.0, 4.0, 8.0);
    Product(w.zero, w.one, w.zero, 0.0, 1.0, 0.0);
    Product(w.one, w.zero, w.zero, 1.0, 0.0, 0.0);
    Product(w.one, w.one, w.one, 1.0, 1.0, 1.0);
  }

  lemma MaddGivesAway(w: Words)
    requires Right(w)
    ensures GivenAway(MADD, w.two, w.two, w.two, w.zero)
    ensures GivenAway(MADD, w.zero, w.one, w.one, w.zero)
  {
    hide Value, Round, Conditioned, F.Add, F.Sub, F.Mul, F.FMax, F.FMin;
    Product(w.two, w.two, w.four, 2.0, 2.0, 4.0);
    Product(w.two, w.four, w.eight, 2.0, 4.0, 8.0);
    Product(w.zero, w.one, w.zero, 0.0, 1.0, 0.0);
    Product(w.one, w.zero, w.zero, 1.0, 0.0, 0.0);
    Product(w.one, w.one, w.one, 1.0, 1.0, 1.0);
    Sum(w.zero, w.zero, w.zero, 0.0);
    Sum(w.zero, w.one, w.one, 1.0);
    Sum(w.zero, w.four, w.four, 4.0);
    Sum(w.zero, w.eight, w.eight, 8.0);
  }

  lemma MsubGivesAway(w: Words)
    requires Right(w)
    ensures GivenAway(MSUB, w.one, w.one, w.one, w.zero)
    ensures GivenAway(MSUB, w.zero, w.one, w.one, w.zero)
  {
    hide Value, Round, Conditioned, F.Add, F.Sub, F.Mul, F.FMax, F.FMin;
    Product(w.zero, w.one, w.zero, 0.0, 1.0, 0.0);
    Product(w.one, w.zero, w.zero, 1.0, 0.0, 0.0);
    Product(w.one, w.one, w.one, 1.0, 1.0, 1.0);
    Product(w.one, w.minus, w.minus, 1.0, -1.0, -1.0);
    Difference(w.zero, w.zero, w.zero, 0.0);
    Difference(w.zero, w.one, w.minus, -1.0);
    Difference(w.zero, w.minus, w.one, 1.0);
  }

  lemma Larger(a: Ps2Float.Word, b: Ps2Float.Word)
    requires Cond(a) == a && Cond(b) == b && F.Signed(a) > F.Signed(b) >= 0
    ensures F.FMax(a, b) == a == F.FMax(b, a) && F.FMin(a, b) == b == F.FMin(b, a)
  {
    hide Cond, F.Signed;
  }

  lemma Positive(x: Ps2Float.Word, e: nat, m: nat)
    requires 1 <= e <= 254 && m < 0x80_0000 && x == Assemble(0, e, m)
    ensures F.Signed(x) == x && Cond(x) == x
  {
  }

  lemma ZeroFixed()
    ensures F.Signed(0) == 0 && Cond(0) == 0
  {
    ZeroValue(0);
  }

  lemma WordsOrdered()
    ensures F.Signed(WORDS.two) > F.Signed(WORDS.one) > F.Signed(WORDS.zero) == 0
    ensures Cond(WORDS.two) == WORDS.two && Cond(WORDS.one) == WORDS.one && Cond(WORDS.zero) == WORDS.zero
  {
    hide Cond, F.Signed;
    ZeroFixed();
    Positive(WORDS.one, 127, 0);
    Positive(WORDS.two, 128, 0);
  }

  lemma SelectGivesAway()
    ensures GivenAway(MAX, WORDS.two, WORDS.zero, WORDS.one, WORDS.zero)
    ensures GivenAway(MINI, WORDS.zero, WORDS.two, WORDS.one, WORDS.zero)
    ensures GivenAway(MINI, WORDS.zero, WORDS.one, WORDS.two, WORDS.zero)
  {
    hide F.Add, F.Sub, F.Mul, F.FMax, F.FMin;
    WordsOrdered();
    Larger(WORDS.two, WORDS.one);
    Larger(WORDS.two, WORDS.zero);
    Larger(WORDS.one, WORDS.zero);
  }

  /** The overwritten field is as good as the old one. */
  predicate Blind(op: Op, p: Ps2Float.Word, a: Ps2Float.Word, b: Ps2Float.Word, y: Ps2Float.Word, z: Ps2Float.Word) {
    R(op, a, R(op, p, b, y), z) == R(op, a, b, z)
  }

  /** Adding zero first changes nothing that addition can see. */
  lemma AddBlind(a: Ps2Float.Word, b: Ps2Float.Word, y: Ps2Float.Word, z: Ps2Float.Word)
    ensures Blind(ADD, 0, a, b, y, z)
  {
    hide F.Add, F.Sub, F.Mul, F.FMax, F.FMin;
    ZeroPlus(b);
    AddSame(a, b, F.Add(0, b).0);
  }

  lemma AddSame(a: Ps2Float.Word, b: Ps2Float.Word, c: Ps2Float.Word)
    requires Value(b) == Value(c)
    ensures F.Add(a, b) == F.Add(a, c)
  {
    hide Value, Round, Conditioned;
    RoundSame(Value(a) + Value(b), Value(a) + Value(c));
  }

  lemma RoundSame(u: real, v: real)
    requires u == v
    ensures Round(u) == Round(v)
  {
  }

  lemma ZeroPlus(b: Ps2Float.Word)
    ensures Value(F.Add(0, b).0) == Value(b)
  {
    ZeroIs();
    F.ZeroIsIdentity(b, 0);
    F.ValueOfCond(b);
    hide Value, Round, Conditioned;
  }

  lemma ZeroIs()
    ensures Value(0) == 0.0
  {
    ZeroValue(0);
  }

  /** Zero times anything is zero. */
  lemma MulBlind(op: Op, p: Ps2Float.Word, b: Ps2Float.Word, y: Ps2Float.Word, z: Ps2Float.Word)
    requires op == MUL || op == MADD || op == MSUB
    ensures Blind(op, p, 0, b, y, z)
  {
    hide F.Mul, F.Add, F.Sub, F.FMax, F.FMin;
    ZeroIs();
    ZeroTimes(0, b);
    ZeroTimes(0, R(op, p, b, y));
  }

  lemma ZeroTimes(z: Ps2Float.Word, b: Ps2Float.Word)
    requires Value(z) == 0.0
    ensures F.Mul(z, b) == Round(0.0)
  {
    hide Value, Round, Conditioned;
    TimesZero(Value(z), Value(b));
    MulRounds(z, b, 0.0);
  }

  lemma TimesZero(x: real, y: real)
    requires x == 0.0
    ensures x * y == 0.0
  {
  }

  /** Selecting twice against one operand is selecting once. */
  lemma SelectTwice(a: Ps2Float.Word, b: Ps2Float.Word)
    ensures F.FMax(a, F.FMax(b, b)) == F.FMax(a, b) && F.FMin(a, F.FMin(b, b)) == F.FMin(a, b)
    ensures F.FMin(a, F.FMin(a, b)) == F.FMin(a, b)
  {
    CondTwice(a);
    CondTwice(b);
    hide Cond, F.Signed;
  }

  lemma CondTwice(a: Ps2Float.Word)
    ensures Cond(Cond(a)) == Cond(a)
  {
  }

  /** Nothing positive is below zero. */
  lemma SelectAboveZero(a: Ps2Float.Word, b: Ps2Float.Word)
    requires SignOf(a) == 0
    ensures F.FMax(a, F.FMax(0, b)) == F.FMax(a, b)
  {
    hide Cond, F.Signed;
    CondTwice(b);
    ZeroFixed();
    NotBelowZero(Cond(a));
    NotBelowZero(0);
  }

  lemma NotBelowZero(x: Ps2Float.Word)
    requires SignOf(x) == 0
    ensures F.Signed(x) == x
  {
  }

  lemma SelectBlind(op: Op, p: Ps2Float.Word, a: Ps2Float.Word, b: Ps2Float.Word, y: Ps2Float.Word, z: Ps2Float.Word)
    requires op == MAX || op == MINI
    requires p == b || (op == MAX && p == 0 && SignOf(a) == 0) || (op == MINI && p == a)
    ensures Blind(op, p, a, b, y, z)
  {
    hide F.Add, F.Sub, F.Mul, F.FMax, F.FMin;
    SelectTwice(a, b);
    if op == MAX && p == 0 && SignOf(a) == 0 { SelectAboveZero(a, b); }
  }

  // ---- the loop ----------------------------------------------------------------------------------

  /** Registers on which a hazardous form whose arithmetic is given away goes wrong. */
  lemma LoopTells(u: Upper, f: nat, p: nat, a: nat, b: nat) returns (r: Regs)
    requires u.Arith? && ProperUpper(u) && f < 4 && Late(u, f) && u.dest[f]
    requires u.fs == 0 ==> p == Vf00()[u.src.bc] && a == Vf00()[f]
    requires u.fs == u.ft ==> p == a == b
    requires u.alu(a, u.alu(p, b, 0).0 % TWO32, 0).0 % TWO32 != u.alu(a, b, 0).0 % TWO32
    ensures Proper(r) && r.vf[0] == Vf00() && !AtOnce(r, u, UpperRun(r, u))
  {
    var first: Vec := [a, a, a, a][u.src.bc := p];
    var vf: seq<Vec> := seq(32, (k: nat) => Zero());
    vf := vf[0 := Vf00()];
    vf := if u.fs == 0 then vf else vf[u.fs := first];
    vf := vf[u.ft := [b, b, b, b]];
    r := Regs(vf, seq(16, k => 0), Zero(), 0, 0);
    assert r.vf[u.fs][f] == a && r.vf[u.fs][u.src.bc] == p && r.vf[u.ft][u.src.bc] == b;
    assert LoopValue(r, u, f) != UpperValue(r, u, f);
    AtOnceIff(r, u);
  }

  /** A name for a form's operands. */
  datatype Operands = Operands(src: Source, toAcc: bool, dest: Mask, fs: nat, ft: nat, wr: nat)

  function Of(op: Op, o: Operands): Upper { Form(op, o.src, o.toAcc, o.dest, o.fs, o.ft, o.wr) }

  lemma AluIs(op: Op, p: Ps2Float.Word, a: Ps2Float.Word, b: Ps2Float.Word)
    requires GivenAway(op, p, a, b, 0)
    ensures var alu := AluOf(op); alu(a, alu(p, b, 0).0 % TWO32, 0).0 % TWO32 != alu(a, b, 0).0 % TWO32
  {
    hide Result;
  }

  /** The first operands and the broadcast value that give a form away. */
  function Telling(op: Op, u: Upper, f: nat): (Ps2Float.Word, Ps2Float.Word, Ps2Float.Word)
    requires f < 4 && u.Arith?
  {
    var w := WORDS;
    if u.fs == 0 then (w.zero, if f == 3 then w.one else w.zero, if op == MINI then w.two else w.one)
    else
      match op
      case ADD => (w.one, w.one, w.one)
      case SUB => (w.one, w.one, w.one)
      case MUL => (w.two, w.two, w.two)
      case MADD => (w.two, w.two, w.two)
      case MSUB => (w.one, w.one, w.one)
      case MAX => (w.two, w.zero, w.one)
      case MINI => (w.zero, w.two, w.one)
  }

  lemma TellingTells(op: Op, u: Upper, f: nat)
    requires f < 4 && Tells(op, u) && (u.fs == 0 && op != SUB ==> f == 3)
    ensures var (p, a, b) := Telling(op, u, f); GivenAway(op, p, a, b, 0)
  {
    WordsRight();
    hide Right, R;
    match op
    case ADD => AddGivesAway(WORDS);
    case SUB => SubGivesAway(WORDS);
    case MUL => MulGivesAway(WORDS);
    case MADD => MaddGivesAway(WORDS);
    case MSUB => MsubGivesAway(WORDS);
    case MAX => SelectGivesAway();
    case MINI => SelectGivesAway();
  }

  lemma TellingFits(op: Op, u: Upper, f: nat)
    requires u.Arith? && f < 4 && u.src.Broadcast? && u.src.bc < 3 && u.src.bc < f && Tells(op, u)
    requires u.fs == 0 && op != SUB ==> f == 3
    ensures var (p, a, b) := Telling(op, u, f);
      && (u.fs == 0 ==> p == Vf00()[u.src.bc] && a == Vf00()[f])
      && (u.fs == u.ft ==> p == a == b)
  {
  }

  lemma FormTells(op: Op, o: Operands) returns (r: Regs)
    requires ProperUpper(Of(op, o)) && Tells(op, Of(op, o))
    ensures Proper(r) && r.vf[0] == Vf00() && !AtOnce(r, Of(op, o), UpperRun(r, Of(op, o)))
  {
    hide AluOf, GivenAway, Telling, AtOnce, UpperRun;
    var u := Of(op, o);
    var g :| u.src.bc < g < 4 && u.dest[g];
    var f := if u.dest[3] then 3 else g;
    var (p, a, b) := Telling(op, u, f);
    TellingFits(op, u, f);
    TellingTells(op, u, f);
    AluIs(op, p, a, b);
    r := LoopTells(u, f, p, a, b);
  }

  /** vf00's fields are zero but for the last, which is one. */
  lemma ZeroRegister(r: Regs, f: nat)
    requires Proper(r) && r.vf[0] == Vf00() && f < 4
    ensures f < 3 ==> Low32(r.vf[0][f]) == 0
    ensures SignOf(Low32(r.vf[0][f])) == 0
  {
  }

  /** Why a form with the hazard is blind to it. */
  lemma WhyBlind(op: Op, o: Operands, r: Regs, f: nat)
    requires Proper(r) && r.vf[0] == Vf00() && ProperUpper(Of(op, o)) && f < 4
    requires Late(Of(op, o), f) && o.dest[f] && !Tells(op, Of(op, o))
    ensures var (p, a) := (Low32(r.vf[o.fs][o.src.bc]), Low32(r.vf[o.fs][f]));
      match op
      case ADD => p == 0
      case SUB => false
      case MUL => a == 0
      case MADD => a == 0
      case MSUB => a == 0
      case MAX => o.fs == o.ft || (p == 0 && SignOf(a) == 0)
      case MINI => o.fs == o.ft || p == a
  {
    hide AluOf, SignOf;
    ZeroRegister(r, f);
    ZeroRegister(r, o.src.bc);
  }

  lemma BlindField(op: Op, o: Operands, r: Regs, f: nat)
    requires Proper(r) && r.vf[0] == Vf00() && ProperUpper(Of(op, o)) && f < 4
    requires Late(Of(op, o), f) && o.dest[f] && !Tells(op, Of(op, o))
    ensures var (p, a, b) := (Low32(r.vf[o.fs][o.src.bc]), Low32(r.vf[o.fs][f]), Low32(r.vf[o.ft][o.src.bc]));
      Blind(op, p, a, b, Low32(r.acc[o.src.bc]), Low32(r.acc[f]))
  {
    WhyBlind(op, o, r, f);
    hide Blind, AluOf, Tells, Late, SignOf, Low32;
    var (p, a, b) := (Low32(r.vf[o.fs][o.src.bc]), Low32(r.vf[o.fs][f]), Low32(r.vf[o.ft][o.src.bc]));
    var (y, z) := (Low32(r.acc[o.src.bc]), Low32(r.acc[f]));
    match op
    case ADD => AddBlind(a, b, y, z);
    case SUB =>
    case MUL => MulBlind(op, p, b, y, z);
    case MADD => MulBlind(op, p, b, y, z);
    case MSUB => MulBlind(op, p, b, y, z);
    case MAX => SelectBlind(op, p, a, b, y, z);
    case MINI => SelectBlind(op, p, a, b, y, z);
  }

  lemma AluAt(op: Op, a: nat, b: nat, acc: nat)
    ensures AluOf(op)(a, b, acc).0 % TWO32 == R(op, Low32(a), Low32(b), Low32(acc))
  {
    hide Result;
  }

  lemma UpperIs(op: Op, o: Operands, r: Regs, f: nat)
    requires Proper(r) && ProperUpper(Of(op, o)) && f < 4 && o.src.Broadcast?
    ensures UpperValue(r, Of(op, o), f)
         == R(op, Low32(r.vf[o.fs][f]), Low32(r.vf[o.ft][o.src.bc]), Low32(r.acc[f]))
  {
    hide AluOf, R;
    AluAt(op, r.vf[o.fs][f], r.vf[o.ft][o.src.bc], r.acc[f]);
  }

  lemma LoopIs(op: Op, o: Operands, r: Regs, f: nat)
    requires Proper(r) && ProperUpper(Of(op, o)) && f < 4 && Late(Of(op, o), f)
    ensures LoopValue(r, Of(op, o), f)
         == R(op, Low32(r.vf[o.fs][f]), Low32(UpperValue(r, Of(op, o), o.src.bc)), Low32(r.acc[f]))
  {
    hide AluOf, R, UpperValue;
    AluAt(op, r.vf[o.fs][f], UpperValue(r, Of(op, o), o.src.bc), r.acc[f]);
  }

  lemma LateBlind(op: Op, o: Operands, r: Regs, f: nat)
    requires Proper(r) && r.vf[0] == Vf00() && ProperUpper(Of(op, o)) && f < 4
    requires Late(Of(op, o), f) && o.dest[f] && !Tells(op, Of(op, o))
    ensures LoopValue(r, Of(op, o), f) == UpperValue(r, Of(op, o), f)
  {
    hide R, Tells, AluOf, LoopValue, UpperValue;
    BlindField(op, o, r, f);
    UpperIs(op, o, r, f);
    UpperIs(op, o, r, o.src.bc);
    LoopIs(op, o, r, f);
  }

  lemma FormBlind(op: Op, o: Operands, r: Regs)
    requires Proper(r) && r.vf[0] == Vf00() && ProperUpper(Of(op, o)) && !Tells(op, Of(op, o))
    ensures AtOnce(r, Of(op, o), UpperRun(r, Of(op, o)))
  {
    hide AluOf, AtOnce, UpperRun, Tells, LoopValue, UpperValue;
    var u := Of(op, o);
    forall f: nat | f < 4 && u.dest[f] && Late(u, f) ensures LoopValue(r, u, f) == UpperValue(r, u, f) {
      LateBlind(op, o, r, f);
    }
    AtOnceIff(r, u);
  }

  /** A form of the upper slot's arithmetic behaves on all registers as if every operand were
      read before any field is written exactly when it has no hazard that its operation can
      tell. */
  lemma SafeIff(op: Op, o: Operands)
    requires ProperUpper(Of(op, o))
    ensures (forall r: Regs :: Proper(r) && r.vf[0] == Vf00() ==> AtOnce(r, Of(op, o), UpperRun(r, Of(op, o))))
       <==> !Tells(op, Of(op, o))
  {
    if Tells(op, Of(op, o)) {
      var r := FormTells(op, o);
    } else {
      forall r: Regs | Proper(r) && r.vf[0] == Vf00() ensures AtOnce(r, Of(op, o), UpperRun(r, Of(op, o))) {
        FormBlind(op, o, r);
      }
    }
  }

  // ---- beside the exact results ------------------------------------------------------------------

  /** A result with its overflow and underflow: an exact number cut once. */
  ghost predicate CutOnce(exact: real, w: Ps2Float.Word, c: Cause) {
    exists n: nat :: A.Cuts(exact, (w, n)) && c == Cause(n == 0x8000, n == 0x4000)
  }

  /** Cut twice: the product, and then its sum with or difference from ACC.  Either cut's
      overflow and underflow shows. */
  ghost predicate CutTwice(product: real, acc: real, minus: bool, w: Ps2Float.Word, c: Cause) {
    exists p: Ps2Float.Word, d: Cause, e: Cause ::
      && CutOnce(product, p, d) && CutOnce(if minus then acc - Value(p) else acc + Value(p), w, e)
      && c == Cause(d.overflow || e.overflow, d.underflow || e.underflow)
  }

  /** Each operation of a field, against the exact numbers of its operands. */
  ghost predicate Cut(op: Op, x: real, y: real, acc: real, w: Ps2Float.Word, c: Cause) {
    match op
    case ADD => CutOnce(x + y, w, c)
    case SUB => CutOnce(x - y, w, c)
    case MUL => CutOnce(x * y, w, c)
    case MADD => CutTwice(x * y, acc, false, w, c)
    case MSUB => CutTwice(x * y, acc, true, w, c)
    case MAX => Value(w) == (if x < y then y else x) && c == Cause(false, false)
    case MINI => Value(w) == (if x < y then x else y) && c == Cause(false, false)
  }

  lemma OpsCut(op: Op, a: Ps2Float.Word, b: Ps2Float.Word, acc: Ps2Float.Word)
    ensures Cut(op, Value(a), Value(b), Value(acc), Result(op, a, b, acc).0, Result(op, a, b, acc).1)
  {
    hide Value, Round, A.Cuts, CutOnce, CutTwice, F.Add, F.Sub, F.Mul, F.FMax, F.FMin;
    match op
    case ADD => A.SumCuts(a, b); Once(Value(a) + Value(b), F.Add(a, b));
    case SUB => A.SumCuts(a, b); Once(Value(a) - Value(b), F.Sub(a, b));
    case MUL => A.SumCuts(a, b); Once(Value(a) * Value(b), F.Mul(a, b));
    case MADD => Twice(a, b, acc);
    case MSUB => Twice(a, b, acc);
    case MAX => F.SelectsExtremes(a, b);
    case MINI => F.SelectsExtremes(a, b);
  }

  lemma Twice(a: Ps2Float.Word, b: Ps2Float.Word, acc: Ps2Float.Word)
    ensures var (p, s, t) := (F.Mul(a, b), F.Add(acc, F.Mul(a, b).0), F.Sub(acc, F.Mul(a, b).0));
      && CutTwice(Value(a) * Value(b), Value(acc), false, s.0, Both(CauseOf(p.1), CauseOf(s.1)))
      && CutTwice(Value(a) * Value(b), Value(acc), true, t.0, Both(CauseOf(p.1), CauseOf(t.1)))
  {
    hide Value, Round, A.Cuts, CutOnce, CutTwice, F.Add, F.Sub, F.Mul, CauseOf, Both;
    var p := F.Mul(a, b);
    var (s, t) := (F.Add(acc, p.0), F.Sub(acc, p.0));
    A.SumCuts(a, b);
    A.SumCuts(acc, p.0);
    Once(Value(a) * Value(b), p);
    Once(Value(acc) + Value(p.0), s);
    Once(Value(acc) - Value(p.0), t);
    FromBoth(Value(a) * Value(b), Value(acc), false, p.0, CauseOf(p.1), s.0, CauseOf(s.1));
    FromBoth(Value(a) * Value(b), Value(acc), true, p.0, CauseOf(p.1), t.0, CauseOf(t.1));
  }

  lemma FromBoth(product: real, acc: real, minus: bool, p: Ps2Float.Word, d: Cause, w: Ps2Float.Word, e: Cause)
    requires CutOnce(product, p, d) && CutOnce(if minus then acc - Value(p) else acc + Value(p), w, e)
    ensures CutTwice(product, acc, minus, w, Both(d, e))
  {
    hide Value, CutOnce;
  }

  lemma Once(exact: real, r: (Ps2Float.Word, nat))
    requires A.Cuts(exact, r)
    ensures CutOnce(exact, r.0, CauseOf(r.1))
  {
    hide A.Cuts;
    assert A.Cuts(exact, (r.0, r.1));
  }
}
