/** The PlayStation 2's single-precision numbers, computed exactly and truncated
    once (sim/ee/ps2_float.py): no denormals, no infinities, no NaNs. */
module Ps2Float {
  import opened Dyadic

  type Word = x: nat | x < 0x1_0000_0000

  const POS_MAX := 0x7F7F_FFFF
  const ONE: Word := 0x3F80_0000

  // the cause flags, at their positions in FCR31
  const CAUSE_I := 0x2_0000
  const CAUSE_D := 0x1_0000
  const CAUSE_O := 0x8000
  const CAUSE_U := 0x4000

  // ---- the format ----------------------------------------------------------

  function SignOf(x: Word): (s: nat)
    ensures s < 2
  {
    x / 0x80_0000 / 0x100
  }

  function ExpoOf(x: Word): (e: nat)
    ensures e < 0x100
  {
    x / 0x80_0000 % 0x100
  }

  function MantOf(x: Word): (m: nat)
    ensures m < 0x80_0000
  {
    x % 0x80_0000
  }

  function Assemble(s: nat, e: nat, m: nat): (x: Word)
    requires s < 2 && e < 0x100 && m < 0x80_0000
    ensures SignOf(x) == s && ExpoOf(x) == e && MantOf(x) == m
  {
    s * 0x8000_0000 + e * 0x80_0000 + m
  }

  /** A pattern is determined by its three fields. */
  lemma FieldsDetermine(x: Word)
    ensures Assemble(SignOf(x), ExpoOf(x), MantOf(x)) == x
  {
  }

  lemma LowBits(s: nat)
    ensures (s * 0x8000_0000 + POS_MAX) % 0x8000_0000 == POS_MAX
  {
  }

  /** The largest finite value of a given sign. */
  function Saturated(s: nat): (x: Word)
    requires s < 2
    ensures x % 0x8000_0000 == POS_MAX && SignOf(x) == s
  {
    LowBits(s);
    Assemble(s, 0xFE, 0x7F_FFFF)
  }

  /** The operand conditioner: denormals read as a signed zero, a full exponent
      as the largest finite value. */
  function Cond(x: Word): (c: Word)
    ensures SignOf(c) == SignOf(x) && ExpoOf(c) != 0xFF
    ensures ExpoOf(c) == 0 ==> MantOf(c) == 0
  {
    var s, e := SignOf(x), ExpoOf(x);
    if e == 0 then Assemble(s, 0, 0)
    else if e == 0xFF then Saturated(s)
    else x
  }

  /** Magnitude of a normal number with biased exponent `e` and mantissa `m`. */
  function Magnitude(e: int, m: nat): real {
    Scale((0x80_0000 + m) as real / 8388608.0, e - 127)
  }

  /** The exact number a pattern represents. */
  function Value(x: Word): real {
    var c := Cond(x);
    if ExpoOf(c) == 0 then 0.0
    else
      var v := Magnitude(ExpoOf(c), MantOf(c));
      if SignOf(c) == 1 then -v else v
  }

  function Abs(r: real): real {
    if r < 0.0 then -r else r
  }

  /** The gap between a normal pattern and the next larger magnitude. */
  function Ulp(x: Word): real {
    Pow2(ExpoOf(x) - 150)
  }

  // ---- magnitudes are ordered as their bit patterns --------------------------

  lemma MagnitudeBinade(e: int, m: nat)
    requires m < 0x80_0000
    ensures Pow2(e - 127) <= Magnitude(e, m) < Pow2(e - 126)
    ensures Magnitude(e, m) > 0.0
  {
    var f := (0x80_0000 + m) as real / 8388608.0;
    ScaleOrder(1.0, f, e - 127);
    ScaleOrder(f, 2.0, e - 127);
    ScaleAdd(1.0, 1.0, e - 127);
    ScaleSucc(1.0, e - 127);
    Pow2Positive(e - 127);
  }

  lemma MagnitudeOrder(e1: int, m1: nat, e2: int, m2: nat)
    requires m1 < 0x80_0000 && m2 < 0x80_0000
    ensures Magnitude(e1, m1) < Magnitude(e2, m2) <==> e1 * 0x80_0000 + m1 < e2 * 0x80_0000 + m2
  {
    MagnitudeBinade(e1, m1);
    MagnitudeBinade(e2, m2);
    if e1 < e2 {
      Pow2Mono(e1 - 126, e2 - 127);
    } else if e2 < e1 {
      Pow2Mono(e2 - 126, e1 - 127);
    } else {
      ScaleOrder((0x80_0000 + m1) as real / 8388608.0, (0x80_0000 + m2) as real / 8388608.0, e1 - 127);
    }
  }

  /** One step of the mantissa is one ulp, also across a binade. */
  lemma MagnitudeStep(e: int, m: nat)
    requires m < 0x80_0000
    ensures Magnitude(e, m) + Pow2(e - 150)
         == if m + 1 < 0x80_0000 then Magnitude(e, m + 1) else Magnitude(e + 1, 0)
  {
    var f := (0x80_0000 + m) as real / 8388608.0;
    var u := 1.0 / 8388608.0;
    ScaleAdd(f, u, e - 127);
    UlpScale(e);
    if m + 1 == 0x80_0000 {
      assert f + u == 2.0;
      ScaleAdd(1.0, 1.0, e - 127);
      ScaleSucc(1.0, e - 127);
    } else {
      assert f + u == (0x80_0000 + (m + 1)) as real / 8388608.0;
    }
  }

  lemma UlpScale(e: int)
    ensures Scale(1.0 / 8388608.0, e - 127) == Pow2(e - 150)
  {
    MantissaScale(1.0);
    ScaleSum(1.0, -23, e - 127);
  }

  lemma MantissaScale(x: real)
    ensures Scale(x, -23) == x / 8388608.0
  {
    assert Scale(x, -4) == x / 16.0;
    ScaleSum(x, -4, -4);
    assert Scale(x, -8) == Scale(x / 16.0, -4) == x / 256.0;
    ScaleSum(x, -8, -4);
    assert Scale(x, -12) == Scale(x / 256.0, -4) == x / 4096.0;
    ScaleSum(x, -12, -4);
    assert Scale(x, -16) == Scale(x / 4096.0, -4) == x / 65536.0;
    ScaleSum(x, -16, -4);
    assert Scale(x, -20) == Scale(x / 65536.0, -4) == x / 1048576.0;
    ScaleSum(x, -20, -3);
    assert Scale(x, -23) == Scale(x / 1048576.0, -3);
  }

  /** A magnitude as a scaled integer. */
  lemma MagnitudeInteger(e: int, m: nat)
    ensures Magnitude(e, m) == Scale((0x80_0000 + m) as real, e - 150)
  {
    var n := (0x80_0000 + m) as real;
    MantissaScale(n);
    ScaleSum(n, -23, e - 127);
  }

  // ---- packing ---------------------------------------------------------------

  /** What `pack` computes, as one expression: the exponent is the binade, the
      mantissa is truncated, and both ends of the range are closed. */
  function Packed(fr: real, signOfZero: nat): (r: (Word, nat))
    requires signOfZero < 2
  {
    if fr == 0.0 then (signOfZero * 0x8000_0000, 0)
    else
      var s := if fr < 0.0 then 1 else 0;
      var e := Exponent(Abs(fr));
      if e > 127 then (Saturated(s), CAUSE_O)
      else if e < -126 then (s * 0x8000_0000, CAUSE_U)
      else
        Normalised(Abs(fr));
        (Assemble(s, e + 127, ((Scale(Abs(fr), -e) - 1.0) * 8388608.0).Floor), 0)
  }

  lemma Normalised(a: real)
    requires a > 0.0
    ensures 1.0 <= Scale(a, -Exponent(a)) < 2.0
    ensures Scale(Scale(a, -Exponent(a)), Exponent(a)) == a
  {
    var e := Exponent(a);
    ScaleSum(a, -e, e);
    ScaleOrder(1.0, Scale(a, -e), e);
    ScaleOrder(Scale(a, -e), 2.0, e);
    ScaleAdd(1.0, 1.0, e);
    ScaleSucc(1.0, e);
  }

  /** The source's two normalisation loops, which terminate for every non-zero
      number and land on the binade. */
  method Pack(fr: real, signOfZero: nat) returns (p: Word, cause: nat)
    requires signOfZero < 2
    ensures (p, cause) == Packed(fr, signOfZero)
  {
    if fr == 0.0 { return signOfZero * 0x8000_0000, 0; }
    var s := if fr < 0.0 then 1 else 0;
    var a := if fr < 0.0 then -fr else fr;
    ghost var whole := a;
    var e := 0;
    while a >= 2.0
      invariant a > 0.0 && (e != 0 ==> a >= 1.0) && Scale(a, e) == whole
      decreases Distance(a)
    {
      HalvingApproaches(a);
      HalveScale(a, e);
      a := a / 2.0;
      e := e + 1;
    }
    while a < 1.0
      invariant 0.0 < a < 2.0 && Scale(a, e) == whole
      decreases Distance(a)
    {
      DoublingApproaches(a);
      HalveScale(a * 2.0, e - 1);
      a := a * 2.0;
      e := e - 1;
    }
    InBinade(a, e);
    if e > 127 { return Saturated(s), CAUSE_O; }
    if e < -126 { return s * 0x8000_0000, CAUSE_U; }
    ScaleSum(a, e, -e);
    var m := ((a - 1.0) * 8388608.0).Floor;
    return Assemble(s, e + 127, m), 0;
  }

  lemma HalveScale(a: real, e: int)
    ensures Scale(a / 2.0, e + 1) == Scale(a, e)
  {
    ScaleSucc(a / 2.0, e);
    ScaleAdd(a / 2.0, a / 2.0, e);
  }

  lemma InBinade(a: real, e: int)
    requires 1.0 <= a < 2.0
    ensures Scale(a, e) > 0.0 && Exponent(Scale(a, e)) == e
  {
    ScaleOrder(1.0, a, e);
    ScaleOrder(a, 2.0, e);
    ScaleAdd(1.0, 1.0, e);
    ScaleSucc(1.0, e);
    Pow2Positive(e);
    ExponentUnique(Scale(a, e), e);
  }

  // ---- packing truncates ------------------------------------------------------

  /** In range, the magnitude lies between the packed pattern and the next one. */
  lemma PackedBrackets(fr: real, z: nat)
    requires z < 2 && fr != 0.0 && -126 <= Exponent(Abs(fr)) <= 127
    ensures var p := Packed(fr, z).0;
      && 1 <= ExpoOf(p) <= 254 && ExpoOf(p) == Exponent(Abs(fr)) + 127
      && SignOf(p) == (if fr < 0.0 then 1 else 0)
      && Abs(Value(p)) == Magnitude(ExpoOf(p), MantOf(p)) <= Abs(fr) < Abs(Value(p)) + Ulp(p)
  {
    hide Scale, Exponent;
    var a := Abs(fr);
    var e := Exponent(a);
    var n := Scale(a, -e);
    Normalised(a);
    var m := ((n - 1.0) * 8388608.0).Floor;
    var f := (0x80_0000 + m) as real / 8388608.0;
    assert f <= n < f + 1.0 / 8388608.0;
    MagnitudeBinade(e + 127, m);
    ScaleOrder(n, f, e);
    ScaleOrder(n, f + 1.0 / 8388608.0, e);
    ScaleAdd(f, 1.0 / 8388608.0, e);
    UlpScale(e + 127);
  }

  predicate Overflows(fr: real) { Abs(fr) >= Pow2(128) }

  predicate Underflows(fr: real) { 0.0 < Abs(fr) < Pow2(-126) }

  lemma RangeEnds(fr: real)
    requires fr != 0.0
    ensures Overflows(fr) <==> Exponent(Abs(fr)) > 127
    ensures Underflows(fr) <==> Exponent(Abs(fr)) < -126
  {
    var e := Exponent(Abs(fr));
    if e > 127 { Pow2Mono(128, e); } else { Pow2Mono(e + 1, 128); }
    if e < -126 { Pow2Mono(e + 1, -126); } else { Pow2Mono(-126, e); }
  }

  lemma SaturatedValue(s: nat)
    requires s < 2
    ensures Cond(Saturated(s)) == Saturated(s)
    ensures Abs(Value(Saturated(s))) == Magnitude(0xFE, 0x7F_FFFF) < Pow2(128)
  {
    MagnitudeBinade(0xFE, 0x7F_FFFF);
  }

  lemma ZeroValue(s: nat)
    requires s < 2
    ensures var x: Word := s * 0x8000_0000;
      SignOf(x) == s && ExpoOf(x) == 0 && Cond(x) == x && Value(x) == 0.0
  {
  }

  /** `pack` truncates: the magnitude never grows, the sign is kept, in range the
      error is under one ulp, and the flags say exactly which end was left. */
  lemma PackTruncates(fr: real, z: nat)
    requires z < 2
    ensures var (p, cause) := Packed(fr, z);
      && Abs(Value(p)) <= Abs(fr)
      && SignOf(p) == (if fr == 0.0 then z else if fr < 0.0 then 1 else 0)
      && (if Overflows(fr) then cause == CAUSE_O && p == Saturated(SignOf(p))
          else if Underflows(fr) then cause == CAUSE_U && Value(p) == 0.0
          else cause == 0 && (fr != 0.0 ==> Abs(fr) < Abs(Value(p)) + Ulp(p)))
  {
    Pow2Positive(128);
    ZeroValue(z);
    if fr != 0.0 {
      var s := if fr < 0.0 then 1 else 0;
      var e := Exponent(Abs(fr));
      RangeEnds(fr);
      if e > 127 {
        SaturatedValue(s);
      } else if e < -126 {
        ZeroValue(s);
      } else {
        PackedBrackets(fr, z);
      }
    }
  }

  /** ... and it truncates no more than it must: no pattern at all lies strictly
      between the result and the exact number.  This holds across saturation and
      across the flush to zero as well as in range. */
  lemma PackNearest(fr: real, z: nat, q: Word)
    requires z < 2 && Abs(Value(q)) <= Abs(fr)
    ensures Abs(Value(q)) <= Abs(Value(Packed(fr, z).0))
  {
    if Value(q) != 0.0 {
      var e, m := ExpoOf(Cond(q)), MantOf(Cond(q));
      MagnitudeBinade(e, m);
      assert Abs(Value(q)) == Magnitude(e, m);
      NearestMagnitude(fr, z, e, m);
    }
  }

  lemma NearestMagnitude(fr: real, z: nat, e: nat, m: nat)
    requires z < 2 && fr != 0.0 && 1 <= e <= 254 && m < 0x80_0000
    requires Magnitude(e, m) <= Abs(fr)
    ensures Magnitude(e, m) <= Abs(Value(Packed(fr, z).0))
  {
    MagnitudeBinade(e, m);
    Pow2Mono(-126, e - 127);
    PackTruncates(fr, z);
    var p := Packed(fr, z).0;
    if Overflows(fr) {
      SaturatedValue(SignOf(p));
      MagnitudeOrder(0xFE, 0x7F_FFFF, e, m);
    } else {
      RangeEnds(fr);
      PackedBrackets(fr, z);
      NextAbove(ExpoOf(p), MantOf(p), e, m);
    }
  }

  /** A magnitude below the next pattern is at or below this one. */
  lemma NextAbove(e: int, m: nat, e2: int, m2: nat)
    requires m < 0x80_0000 && m2 < 0x80_0000
    requires Magnitude(e2, m2) < Magnitude(e, m) + Pow2(e - 150)
    ensures Magnitude(e2, m2) <= Magnitude(e, m)
  {
    MagnitudeStep(e, m);
    if m + 1 < 0x80_0000 {
      MagnitudeOrder(e2, m2, e, m + 1);
    } else {
      MagnitudeOrder(e2, m2, e + 1, 0);
    }
    MagnitudeOrder(e, m, e2, m2);
  }

  lemma PackedSign(fr: real, z: nat)
    requires z < 2
    ensures var v := Value(Packed(fr, z).0);
      (fr >= 0.0 ==> v == Abs(v)) && (fr <= 0.0 ==> v == -Abs(v))
  {
    PackTruncates(fr, z);
    ValueSign(Packed(fr, z).0);
  }

  /** Monotone over the whole line, through the flush, the zeros and saturation. */
  lemma PackMonotone(f: real, g: real, y: nat, z: nat)
    requires y < 2 && z < 2 && f <= g
    ensures Value(Packed(f, y).0) <= Value(Packed(g, z).0)
  {
    PackedSign(f, y);
    PackedSign(g, z);
    if g < 0.0 {
      MagnitudeKept(g, z);
      PackNearest(f, y, Packed(g, z).0);
    } else if f > 0.0 {
      MagnitudeKept(f, y);
      PackNearest(g, z, Packed(f, y).0);
    }
  }

  lemma MagnitudeKept(fr: real, z: nat)
    requires z < 2
    ensures Abs(Value(Packed(fr, z).0)) <= Abs(fr)
  {
    PackTruncates(fr, z);
  }

  lemma ValueSign(x: Word)
    ensures Value(x) > 0.0 ==> SignOf(x) == 0
    ensures Value(x) < 0.0 ==> SignOf(x) == 1
    ensures Value(x) == 0.0 <==> ExpoOf(x) == 0
  {
    MagnitudeBinade(ExpoOf(Cond(x)), MantOf(Cond(x)));
  }

  /** Packing undoes `Value`: a pattern comes back conditioned.  A zero has lost
      its sign, which is what the second argument restores. */
  lemma PackRoundTrip(x: Word, z: nat)
    requires z < 2
    ensures Packed(Value(x), z)
         == if Value(x) != 0.0 then (Cond(x), 0) else (z * 0x8000_0000, 0)
    ensures Packed(Value(x), SignOf(x)) == (Cond(x), 0)
  {
    ValueSign(x);
    if Value(x) != 0.0 {
      MagnitudePacks(Value(x), Cond(x), z);
      MagnitudePacks(Value(x), Cond(x), SignOf(x));
    }
  }

  lemma MagnitudePacks(fr: real, c: Word, z: nat)
    requires z < 2 && 1 <= ExpoOf(c) <= 254
    requires fr == (if SignOf(c) == 1 then -Magnitude(ExpoOf(c), MantOf(c)) else Magnitude(ExpoOf(c), MantOf(c)))
    ensures Packed(fr, z) == (c, 0)
  {
    var f := (0x80_0000 + MantOf(c)) as real / 8388608.0;
    var e := ExpoOf(c) - 127;
    InBinade(f, e);
    ScaleSum(f, e, -e);
    FieldsDetermine(c);
    assert Abs(fr) == Scale(f, e);
  }

  /** A packed result is never a denormal, an infinity or a NaN. */
  lemma PackedIsConditioned(fr: real, z: nat)
    requires z < 2
    ensures Cond(Packed(fr, z).0) == Packed(fr, z).0
  {
    ZeroValue(z);
    if fr != 0.0 {
      var s := if fr < 0.0 then 1 else 0;
      if Exponent(Abs(fr)) > 127 {
        SaturatedValue(s);
      } else if Exponent(Abs(fr)) < -126 {
        ZeroValue(s);
      } else {
        PackedBrackets(fr, z);
        NormalIsFixed(Packed(fr, z).0);
      }
    }
  }

  lemma NormalIsFixed(x: Word)
    requires 1 <= ExpoOf(x) <= 254
    ensures Cond(x) == x
  {
  }

  predicate Conditioned(x: Word) {
    Cond(x) == x
  }

  /** `pack` with its default sign, as every operation calls it. */
  function Round(fr: real): (r: (Word, nat))
    ensures Conditioned(r.0)
  {
    PackedIsConditioned(fr, 0);
    Packed(fr, 0)
  }
}
