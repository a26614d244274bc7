/** Scaling by integer powers of two, and the binade a positive number lies in.

    `Scale(x, e)` is x times two to the e.  It is a function of its own rather
    than a product because every law about it is then linear. */
module Dyadic {

  function Scale(x: real, e: int): (r: real)
    decreases if e < 0 then -e else e
  {
    if e == 0 then x
    else if e > 0 then 2.0 * Scale(x, e - 1)
    else Scale(x, e + 1) / 2.0
  }

  /** Two to any integer power. */
  function Pow2(e: int): (r: real) {
    Scale(1.0, e)
  }

  lemma ScaleSucc(x: real, e: int)
    ensures Scale(x, e + 1) == 2.0 * Scale(x, e)
  {
  }

  lemma {:induction false} ScaleSum(x: real, a: int, b: int)
    ensures Scale(Scale(x, a), b) == Scale(x, a + b)
    decreases if b < 0 then -b else b
  {
    if b > 0 {
      ScaleSum(x, a, b - 1);
      ScaleSucc(x, a + b - 1);
    } else if b < 0 {
      ScaleSum(x, a, b + 1);
      ScaleSucc(x, a + b);
    }
  }

  /** Scaling is additive, so it is linear and keeps signs. */
  lemma {:induction false} ScaleAdd(x: real, y: real, e: int)
    ensures Scale(x + y, e) == Scale(x, e) + Scale(y, e)
    ensures Scale(x - y, e) == Scale(x, e) - Scale(y, e)
    decreases if e < 0 then -e else e
  {
    if e > 0 { ScaleAdd(x, y, e - 1); }
    if e < 0 { ScaleAdd(x, y, e + 1); }
  }

  lemma {:induction false} ScalePositive(x: real, e: int)
    requires 0.0 < x
    ensures 0.0 < Scale(x, e)
    decreases if e < 0 then -e else e
  {
    if e > 0 { ScalePositive(x, e - 1); }
    if e < 0 { ScalePositive(x, e + 1); }
  }

  lemma ScaleZero(e: int)
    ensures Scale(0.0, e) == 0.0
  {
    ScaleAdd(0.0, 0.0, e);
  }

  /** Scaling preserves the order, both ways. */
  lemma ScaleOrder(x: real, y: real, e: int)
    ensures x < y <==> Scale(x, e) < Scale(y, e)
    ensures x == y <==> Scale(x, e) == Scale(y, e)
  {
    ScaleAdd(y, x, e);
    ScaleAdd(x, y, e);
    ScaleZero(e);
    if x < y { ScalePositive(y - x, e); }
    if y < x { ScalePositive(x - y, e); }
  }

  lemma Pow2Positive(e: int)
    ensures Pow2(e) > 0.0
  {
    ScalePositive(1.0, e);
  }

  lemma {:induction false} Pow2Mono(a: int, b: int)
    requires a <= b
    ensures Pow2(a) <= Pow2(b)
    decreases b - a
  {
    if a < b {
      Pow2Mono(a, b - 1);
      ScaleSucc(1.0, b - 1);
      Pow2Positive(b - 1);
    }
  }

  /** A square scales by twice the exponent: the one place a product meets a
      scaling. */
  lemma {:induction false} ScaleSquare(x: real, e: int)
    ensures Scale(x, e) * Scale(x, e) == Scale(x * x, 2 * e)
    decreases if e < 0 then -e else e
  {
    if e > 0 {
      ScaleSquare(x, e - 1);
      ScaleSucc(x * x, 2 * e - 2); ScaleSucc(x * x, 2 * e - 1);
      SquareDouble(Scale(x, e - 1), Scale(x, e), Scale(x * x, 2 * e - 2), Scale(x * x, 2 * e));
    } else if e < 0 {
      ScaleSquare(x, e + 1);
      ScaleSucc(x, e);
      ScaleSucc(x * x, 2 * e); ScaleSucc(x * x, 2 * e + 1);
      SquareDouble(Scale(x, e), Scale(x, e + 1), Scale(x * x, 2 * e), Scale(x * x, 2 * e + 2));
    }
  }

  lemma SquareDouble(p: real, q: real, r: real, s: real)
    requires q == 2.0 * p && s == 4.0 * r
    ensures p * p == r <==> q * q == s
  {
    assert (2.0 * p) * (2.0 * p) == 4.0 * (p * p);
  }

  /** How far `a` is from the binade [1, 2): the measure both normalisation
      loops of `pack` decrease. */
  function Distance(a: real): nat
    requires a > 0.0
  {
    if a >= 2.0 then a.Floor
    else if a < 1.0 then (1.0 / a).Floor
    else 0
  }

  lemma HalvingApproaches(a: real)
    requires a >= 2.0
    ensures Distance(a / 2.0) < Distance(a)
  {
    assert a / 2.0 <= a - 1.0;
  }

  lemma ReciprocalAboveOne(a: real)
    requires 0.0 < a < 1.0
    ensures 1.0 / a > 1.0
  {
    assert (1.0 / a) * a == 1.0;
  }

  lemma DoublingApproaches(a: real)
    requires 0.0 < a < 1.0
    ensures Distance(a * 2.0) < Distance(a)
  {
    ReciprocalAboveOne(a);
    if a * 2.0 < 1.0 {
      ReciprocalAboveOne(a * 2.0);
      assert 1.0 / (a * 2.0) == (1.0 / a) / 2.0;
    }
  }

  /** The binade of a positive number: the position of its leading one. */
  function Exponent(a: real): (e: int)
    requires a > 0.0
    ensures Pow2(e) <= a < Pow2(e + 1)
    decreases Distance(a)
  {
    if a >= 2.0 then
      HalvingApproaches(a);
      var e := 1 + Exponent(a / 2.0);
      ScaleSucc(1.0, e - 1); ScaleSucc(1.0, e);
      e
    else if a < 1.0 then
      DoublingApproaches(a);
      var e := Exponent(a * 2.0) - 1;
      ScaleSucc(1.0, e); ScaleSucc(1.0, e + 1);
      e
    else 0
  }

  /** A number lies in one binade only. */
  lemma ExponentUnique(a: real, e: int)
    requires a > 0.0 && Pow2(e) <= a < Pow2(e + 1)
    ensures Exponent(a) == e
  {
    var f := Exponent(a);
    if f < e { Pow2Mono(f + 1, e); }
    if e < f { Pow2Mono(e + 1, f); }
  }
}
