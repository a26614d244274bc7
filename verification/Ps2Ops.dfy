/** The floating-point operations of sim/ee/ps2_float.py and the integer
    comparisons of sim/ee/fpu_ref.py. */
module Ps2Ops {
  import opened Dyadic
  import opened Ps2Float

  // ---- arithmetic: condition, compute exactly, pack once ------------------------
  //
  // No result is ever a denormal, an infinity or a NaN: each is its own
  // conditioned form, so results can be operands.

  function Add(a: Word, b: Word): (r: (Word, nat))
    ensures Conditioned(r.0)
  {
    Round(Value(a) + Value(b))
  }

  function Sub(a: Word, b: Word): (r: (Word, nat))
    ensures Conditioned(r.0)
  {
    Round(Value(a) - Value(b))
  }

  function Mul(a: Word, b: Word): (r: (Word, nat))
    ensures Conditioned(r.0)
  {
    Round(Value(a) * Value(b))
  }

  /** A zero divisor saturates, with a flag saying which kind of zero it was. */
  function Div(a: Word, b: Word): (r: (Word, nat))
    ensures Conditioned(r.0)
  {
    if ExpoOf(Cond(b)) == 0 then
      var sign := if SignOf(Cond(a)) == SignOf(Cond(b)) then 0 else 1;
      SaturatedValue(sign);
      (Saturated(sign), if ExpoOf(Cond(a)) == 0 then CAUSE_I else CAUSE_D)
    else
      ValueSign(b);
      Round(Value(a) / Value(b))
  }

  lemma OneValue()
    ensures Value(ONE) == 1.0
  {
    assert ONE == Assemble(0, 127, 0);
    assert Magnitude(127, 0) == Scale(1.0, 0);
  }

  /** One is the identity of the product, and of the quotient, up to the sign of
      a zero, which exact arithmetic has already lost. */
  lemma OneIsIdentity(a: Word)
    ensures Mul(a, ONE) == Div(a, ONE) == if Value(a) == 0.0 then (0, 0) else (Cond(a), 0)
  {
    OneValue();
    PackRoundTrip(a, 0);
    assert Value(a) * 1.0 == Value(a) == Value(a) / 1.0;
  }

  /** Adding a zero of either sign, or a denormal, returns the operand. */
  lemma ZeroIsIdentity(a: Word, b: Word)
    requires Value(b) == 0.0
    ensures Add(a, b) == Sub(a, b) == if Value(a) == 0.0 then (0, 0) else (Cond(a), 0)
  {
    PackRoundTrip(a, 0);
  }

  // ---- comparison on the bit patterns ---------------------------------------------

  /** A pattern's low thirty-one bits. */
  function Low31(x: Word): (m: nat) {
    x % 0x8000_0000
  }

  predicate FEq(a: Word, b: Word) {
    var ca, cb := Cond(a), Cond(b);
    if ExpoOf(ca) == 0 && ExpoOf(cb) == 0 then true else ca == cb
  }

  predicate FLt(a: Word, b: Word) {
    var ca, cb := Cond(a), Cond(b);
    if ExpoOf(ca) == 0 && ExpoOf(cb) == 0 then false
    else if SignOf(ca) != SignOf(cb) then SignOf(ca) == 1
    else if SignOf(ca) == 1 then Low31(ca) > Low31(cb)
    else Low31(ca) < Low31(cb)
  }

  /** A pattern read as a signed 32-bit integer. */
  function Signed(x: Word): int {
    if SignOf(x) == 1 then x - 0x1_0000_0000 else x
  }

  function FMax(a: Word, b: Word): (r: Word) {
    var ca, cb := Cond(a), Cond(b);
    if Signed(ca) < 0 && Signed(cb) < 0 then
      if Signed(ca) < Signed(cb) then ca else cb
    else
      if Signed(ca) > Signed(cb) then ca else cb
  }

  function FMin(a: Word, b: Word): (r: Word) {
    var ca, cb := Cond(a), Cond(b);
    if Signed(ca) < 0 && Signed(cb) < 0 then
      if Signed(ca) > Signed(cb) then ca else cb
    else
      if Signed(ca) < Signed(cb) then ca else cb
  }

  /** A word is its sign and its low thirty-one bits, exponent above mantissa. */
  lemma SplitWord(x: Word)
    ensures Low31(x) == ExpoOf(x) * 0x80_0000 + MantOf(x)
    ensures x == SignOf(x) * 0x8000_0000 + Low31(x)
  {
    var h := x / 0x80_0000;
    assert x == h * 0x80_0000 + MantOf(x);
    assert h == SignOf(x) * 0x100 + ExpoOf(x);
  }

  /** The magnitudes of two conditioned patterns are ordered as their low bits. */
  lemma LowBitsOrder(a: Word, b: Word)
    ensures var (ca, cb) := (Cond(a), Cond(b));
      Abs(Value(a)) < Abs(Value(b)) <==> Low31(ca) < Low31(cb)
  {
    var ca, cb := Cond(a), Cond(b);
    SplitWord(ca);
    SplitWord(cb);
    MagnitudeBinade(ExpoOf(ca), MantOf(ca));
    MagnitudeBinade(ExpoOf(cb), MantOf(cb));
    MagnitudeOrder(ExpoOf(ca), MantOf(ca), ExpoOf(cb), MantOf(cb));
  }

  lemma CondZero(x: Word)
    ensures ExpoOf(Cond(x)) == 0 <==> ExpoOf(x) == 0
  {
  }

  /** The integer comparisons decide the order of the exact values, for every
      pair of patterns: denormals, full exponents and both zeros included. */
  lemma ComparesValues(a: Word, b: Word)
    ensures FLt(a, b) <==> Value(a) < Value(b)
    ensures FEq(a, b) <==> Value(a) == Value(b)
  {
    hide Value, Cond, SignOf, ExpoOf, MantOf, Low31;
    CondZero(a);
    CondZero(b);
    LowBitsOrder(a, b);
    LowBitsOrder(b, a);
    ValueSign(a);
    ValueSign(b);
    SplitWord(Cond(a));
    SplitWord(Cond(b));
  }

  /** The selected operand is conditioned, is one of the two, and its value is
      the larger (smaller) of theirs. */
  lemma SelectsExtremes(a: Word, b: Word)
    ensures FMax(a, b) in {Cond(a), Cond(b)} && FMin(a, b) in {Cond(a), Cond(b)}
    ensures Value(FMax(a, b)) == if Value(a) < Value(b) then Value(b) else Value(a)
    ensures Value(FMin(a, b)) == if Value(a) < Value(b) then Value(a) else Value(b)
  {
    hide Value, Cond, SignOf, ExpoOf, MantOf, Low31;
    CondZero(a);
    CondZero(b);
    LowBitsOrder(a, b);
    LowBitsOrder(b, a);
    ValueSign(a);
    ValueSign(b);
    SplitWord(Cond(a));
    SplitWord(Cond(b));
    ValueOfCond(a);
    ValueOfCond(b);
  }

  lemma ValueOfCond(x: Word)
    ensures Value(Cond(x)) == Value(x)
  {
  }
}
