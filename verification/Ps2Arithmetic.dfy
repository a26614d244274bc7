/** What the sum, difference, product and quotient of sim/ee/ps2_float.py come to, beside the
    exact results. */
module Ps2Arithmetic {
  import opened Dyadic
  import opened Ps2Float
  import opened Ps2Ops

  /** A result and its flags: the exact number cut to the format, toward zero.  Out of range
      above it is the largest magnitude with flag O, and below a zero with flag U. */
  predicate Cuts(exact: real, r: (Word, nat)) {
    && SignOf(r.0) == (if exact < 0.0 then 1 else 0)
    && Abs(Value(r.0)) <= Abs(exact)
    && (Abs(exact) >= Pow2(128) ==> r.1 == 0x8000 && r.0 % 0x8000_0000 == 0x7F7F_FFFF)
    && (0.0 < Abs(exact) < Pow2(-126) ==> r.1 == 0x4000 && Value(r.0) == 0.0)
    && (Pow2(-126) <= Abs(exact) < Pow2(128) ==> r.1 == 0 && Abs(exact) < Abs(Value(r.0)) + Ulp(r.0))
    && (exact == 0.0 ==> r.1 == 0 && Value(r.0) == 0.0)
  }

  lemma RoundCuts(exact: real)
    ensures Cuts(exact, Round(exact))
  {
    PackTruncates(exact, 0);
    hide Packed, Value, Conditioned;
    Pow2Positive(-126);
    Pow2Positive(128);
    Pow2Mono(-126, 128);
  }

  /** The four operations, against the exact results. */
  lemma SumCuts(a: Word, b: Word)
    ensures Cuts(Value(a) + Value(b), Add(a, b))
    ensures Cuts(Value(a) - Value(b), Sub(a, b))
    ensures Cuts(Value(a) * Value(b), Mul(a, b))
  {
    hide Cuts, Value, Round;
    RoundCuts(Value(a) + Value(b));
    RoundCuts(Value(a) - Value(b));
    RoundCuts(Value(a) * Value(b));
  }

  /** A quotient's magnitude, on its operands' alone: times the divisor it is no more than the
      dividend, and one ulp more is more. */
  predicate Fits(n: real, d: real, r: (Word, nat)) {
    && Abs(Value(r.0)) * d <= n
    && (n >= Pow2(128) * d ==> r.1 == 0x8000 && r.0 % 0x8000_0000 == 0x7F7F_FFFF)
    && (0.0 < n < Pow2(-126) * d ==> r.1 == 0x4000 && Value(r.0) == 0.0)
    && (Pow2(-126) * d <= n < Pow2(128) * d ==> r.1 == 0 && n < (Abs(Value(r.0)) + Ulp(r.0)) * d)
  }

  /** And its sign, and that of a zero dividend. */
  predicate Divides(x: real, y: real, r: (Word, nat)) {
    && SignOf(r.0) == (if x != 0.0 && (x < 0.0) != (y < 0.0) then 1 else 0)
    && Fits(Abs(x), Abs(y), r)
    && (x == 0.0 ==> r.1 == 0 && Value(r.0) == 0.0)
  }

  lemma QuotientCuts(a: Word, b: Word)
    requires Value(b) != 0.0
    ensures Divides(Value(a), Value(b), Div(a, b))
  {
    hide Value, Divides, Cuts, Round;
    DivIs(a, b);
    RoundCuts(Value(a) / Value(b));
    RoundDivides(Value(a), Value(b), Div(a, b));
  }

  lemma DivIs(a: Word, b: Word)
    requires Value(b) != 0.0
    ensures Div(a, b) == Round(Value(a) / Value(b))
  {
    hide Value, ExpoOf, Cond, Round;
    ValueSign(b);
    CondZero(b);
  }

  lemma RoundDivides(x: real, y: real, r: (Word, nat))
    requires y != 0.0 && Cuts(x / y, r)
    ensures Divides(x, y, r)
  {
    hide Cuts, Divides;
    QuotientSigns(x, y);
    DividesBy(x, y, x / y, r);
  }

  lemma DividesBy(x: real, y: real, q: real, r: (Word, nat))
    requires y != 0.0 && Cuts(q, r) && Abs(q) * Abs(y) == Abs(x)
    requires q < 0.0 <==> x != 0.0 && (x < 0.0) != (y < 0.0)
    requires q == 0.0 <==> x == 0.0
    ensures Divides(x, y, r)
  {
    hide Value, SignOf, Fits;
    CutsSign(q, r);
    hide Cuts;
    QuotientWithin(r, q, Abs(x), Abs(y));
  }

  lemma CutsSign(exact: real, r: (Word, nat))
    requires Cuts(exact, r)
    ensures SignOf(r.0) == (if exact < 0.0 then 1 else 0)
    ensures exact == 0.0 ==> r.1 == 0 && Value(r.0) == 0.0
  {
  }

  lemma QuotientWithin(r: (Word, nat), q: real, n: real, d: real)
    requires Cuts(q, r) && d > 0.0 && Abs(q) * d == n
    ensures Fits(n, d, r)
  {
    var (p, v, u) := (Abs(q), Abs(Value(r.0)), Abs(Value(r.0)) + Ulp(r.0));
    var (top, bottom) := (Pow2(128), Pow2(-126));
    hide Value, Ulp, Pow2, SignOf, Abs;
    Cross(p, d, n, v);
    Cross(p, d, n, top);
    Cross(p, d, n, bottom);
    Cross(p, d, n, u);
    Cross(p, d, n, 0.0);
  }

  lemma QuotientSigns(x: real, y: real)
    requires y != 0.0
    ensures Abs(x / y) * Abs(y) == Abs(x)
    ensures x / y < 0.0 <==> x != 0.0 && (x < 0.0) != (y < 0.0)
    ensures x / y == 0.0 <==> x == 0.0
  {
    var q := x / y;
    assert q * y == x;
    if q < 0.0 {
      Opposite(q, y);
    } else if q > 0.0 {
      Same(q, y);
    }
  }

  lemma Opposite(q: real, y: real)
    requires q < 0.0 && y != 0.0
    ensures q * y != 0.0 && (q * y < 0.0 <==> y > 0.0) && (-q) * y == -(q * y) && q * (-y) == -(q * y)
    ensures (-q) * (-y) == q * y
  {
    if y > 0.0 {
      Positive(-q, y);
    } else {
      Positive(-q, -y);
    }
  }

  lemma Same(q: real, y: real)
    requires q > 0.0 && y != 0.0
    ensures q * y != 0.0 && (q * y < 0.0 <==> y < 0.0) && q * (-y) == -(q * y)
  {
    if y > 0.0 {
      Positive(q, y);
    } else {
      Positive(q, -y);
    }
  }

  lemma Positive(p: real, q: real)
    requires p > 0.0 && q > 0.0
    ensures p * q > 0.0
  {
  }

  /** Comparing with a quotient is comparing with the dividend. */
  lemma Cross(q: real, d: real, n: real, m: real)
    requires d > 0.0 && q * d == n
    ensures (m <= q <==> m * d <= n) && (q < m <==> n < m * d)
  {
    if m <= q {
      assert (q - m) * d >= 0.0;
    } else {
      Positive(m - q, d);
    }
    assert (q - m) * d == q * d - m * d && (m - q) * d == m * d - q * d;
  }

  /** A zero divisor: the largest magnitude, signed as the quotient of the signs, with a flag
      for each kind of dividend. */
  lemma ZeroDivisor(a: Word, b: Word)
    requires Value(b) == 0.0
    ensures Div(a, b) == ((if SignOf(a) == SignOf(b) then 0x7F7F_FFFF else 0xFF7F_FFFF),
                          if Value(a) == 0.0 then 0x2_0000 else 0x1_0000)
  {
    assert Saturated(0) == 0x7F7F_FFFF && Saturated(1) == 0xFF7F_FFFF;
    hide Value, ExpoOf, SignOf, Cond, Saturated, Round;
    ValueSign(a);
    ValueSign(b);
    CondZero(a);
    CondZero(b);
  }
}
