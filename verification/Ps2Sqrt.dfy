/** The square root of sim/ee/ps2_float.py: bisection on exact rationals, two
    hundred steps, truncated once.  How close it gets, and exactly when it
    reaches a root the format can hold. */
module Ps2Sqrt {
  import opened Dyadic
  import opened Ps2Float
  import Ps2Ops

  const STEPS := 200

  /** The test each step makes: is this candidate at or below the root of `v`? */
  function AtMostRoot(v: real): real -> bool {
    (m: real) => m * m <= v
  }

  /** The bracket after `n` more halvings, as (lo, hi). */
  function Bisect(below: real -> bool, lo: real, hi: real, n: nat): (r: (real, real))
    decreases n
  {
    if n == 0 then (lo, hi)
    else
      var mid := (lo + hi) / 2.0;
      if below(mid) then Bisect(below, mid, hi, n - 1) else Bisect(below, lo, mid, n - 1)
  }

  /** Where the search starts from above. */
  function Ceiling(v: real): real {
    if v > 1.0 then v else 1.0
  }

  function Bracket(v: real): (real, real) {
    Bisect(AtMostRoot(v), 0.0, Ceiling(v), STEPS)
  }

  /** The result, as an expression over the bracket. */
  function Sqrt(x: Word): (r: (Word, nat))
    ensures Conditioned(r.0)
  {
    var v := Abs(Value(x));
    if v == 0.0 then (SignedZero(0), 0) else Round(Bracket(v).0)
  }

  function SignedZero(s: nat): (z: Word)
    requires s < 2
    ensures Conditioned(z)
  {
    ZeroValue(s);
    s * 0x8000_0000
  }

  /** The source's loop, for any number of steps ... */
  method Bisection(v: real, steps: nat) returns (lo: real)
    ensures lo == Bisect(AtMostRoot(v), 0.0, Ceiling(v), steps).0
  {
    var hi := if v > 1.0 then v else 1.0;
    lo := 0.0;
    for i := 0 to steps
      invariant Bisect(AtMostRoot(v), lo, hi, steps - i) == Bisect(AtMostRoot(v), 0.0, Ceiling(v), steps)
    {
      var mid := (lo + hi) / 2.0;
      if mid * mid <= v { lo := mid; } else { hi := mid; }
    }
  }

  /** ... and the two hundred it takes. */
  method SquareRoot(x: Word) returns (p: Word, cause: nat)
    ensures (p, cause) == Sqrt(x)
  {
    var v := Abs(Value(x));
    if v == 0.0 { return 0, 0; }
    var lo := Bisection(v, STEPS);
    p, cause := Pack(lo, 0);
  }

  // ---- the bracket -----------------------------------------------------------

  /** The bracket halves two hundred times, stays inside the old one, and keeps
      the test true below and false above. */
  lemma {:induction false} BisectBracket(below: real -> bool, lo: real, hi: real, n: nat)
    requires lo < hi && below(lo)
    ensures var (l, h) := Bisect(below, lo, hi, n);
      && lo <= l < h <= hi && h - l == Scale(hi - lo, 0 - n)
      && below(l) && (!below(h) || h == hi)
    decreases n
  {
    if n > 0 {
      var mid := (lo + hi) / 2.0;
      var d := (hi - lo) / 2.0;
      ScaleSucc(d, 0 - n);
      ScaleAdd(d, d, 0 - n);
      if below(mid) {
        BisectBracket(below, mid, hi, n - 1);
      } else {
        BisectBracket(below, lo, mid, n - 1);
      }
    }
  }

  // ---- hitting a root ----------------------------------------------------------

  /** `m` shifted left by `n` places. */
  function Shifted(m: nat, n: nat): nat {
    if n == 0 then m else 2 * Shifted(m, n - 1)
  }

  lemma {:induction false} ScaleShifted(m: nat, n: nat, e: int)
    ensures Scale(Shifted(m, n) as real, e) == Scale(m as real, e + n)
  {
    if n > 0 {
      ScaleShifted(m, n - 1, e);
      var h := Shifted(m, n - 1) as real;
      ScaleAdd(h, h, e);
      ScaleSucc(m as real, e + n - 1);
    }
  }

  /** A root `k` units above `lo` is at or above the midpoint just when `k` is at
      least half the units there are. */
  lemma GridMidpoint(d: real, n: nat, e: int, k: nat)
    requires n > 0 && d == Scale(k as real, e - n)
    ensures var half := Shifted(1, n - 1);
      && (half <= k <==> Pow2(e - 1) <= d)
      && (half <= k ==> d - Pow2(e - 1) == Scale((k - half) as real, e - n))
  {
    var half := Shifted(1, n - 1);
    ScaleShifted(1, n - 1, e - n);
    ScaleOrder(k as real, half as real, e - n);
    if half <= k {
      ScaleAdd(k as real, half as real, e - n);
      assert (k - half) as real == k as real - half as real;
    }
  }

  /** A root on the grid of the last step is reached, wherever it lies in a
      bracket whose width is a power of two. */
  lemma {:induction false} BisectHits(below: real -> bool, w: real, lo: real, hi: real, n: nat, e: int, k: nat)
    requires 0.0 <= lo && forall m :: 0.0 <= m ==> (below(m) <==> m <= w)
    requires hi - lo == Pow2(e) && k < Shifted(1, n) && w - lo == Scale(k as real, e - n)
    ensures Bisect(below, lo, hi, n).0 == w
    decreases n
  {
    if n == 0 {
      ScaleZero(e);
    } else {
      var mid := (lo + hi) / 2.0;
      ScaleSucc(1.0, e - 1);
      Pow2Positive(e - 1);
      GridMidpoint(w - lo, n, e, k);
      if below(mid) {
        BisectHits(below, w, mid, hi, n - 1, e - 1, k - Shifted(1, n - 1));
      } else {
        BisectHits(below, w, lo, mid, n - 1, e - 1, k);
      }
    }
  }

  // ---- squares and the bracket ---------------------------------------------------

  lemma MulStrict(x: real, y: real, z: real)
    requires x < y && 0.0 < z
    ensures x * z < y * z
  {
  }

  lemma SquareOrder(a: real, b: real)
    requires 0.0 <= a && 0.0 <= b
    ensures a < b <==> a * a < b * b
    ensures a == b <==> a * a == b * b
  {
    if a < b { SquareLess(a, b); }
    if b < a { SquareLess(b, a); }
  }

  lemma SquareLess(a: real, b: real)
    requires 0.0 <= a < b
    ensures a * a < b * b
  {
    var d := b - a;
    assert d * (a + b) > 0.0 by { MulStrict(0.0, d, a + b); }
    assert d * (a + b) == b * b - a * a;
  }

  lemma CeilingSquare(v: real)
    requires v > 0.0
    ensures v <= Ceiling(v) * Ceiling(v)
  {
    if v > 1.0 { MulStrict(1.0, v, v); }
  }

  lemma BracketSquares(v: real)
    requires v > 0.0
    ensures var (l, h) := Bracket(v);
      && 0.0 <= l < h <= Ceiling(v) && h - l == Scale(Ceiling(v), -200)
      && AtMostRoot(v)(l) && ReachedBy(v, h)
  {
    var c := Ceiling(v);
    CeilingSquare(v);
    assert AtMostRoot(v)(0.0);
    BisectBracket(AtMostRoot(v), 0.0, c, STEPS);
    var (l, h) := Bracket(v);
    assert h == c || !AtMostRoot(v)(h);
  }

  /** Comparing a square with an even power of two compares the roots. */
  lemma AboveRoot(h: real, v: real, b: int)
    requires 0.0 <= h && Pow2(2 * b) <= v <= h * h
    ensures Pow2(b) <= h
  {
    ScaleSquare(1.0, b);
    Pow2Positive(b);
    SquareOrder(h, Pow2(b));
  }

  lemma BelowRoot(l: real, v: real, b: int)
    requires 0.0 <= l && AtMostRoot(v)(l) && v < Pow2(2 * b)
    ensures l < Pow2(b)
  {
    ScaleSquare(1.0, b);
    Pow2Positive(b);
    SquareOrder(l, Pow2(b));
  }

  /** The final bracket is far narrower than any gap the format can show:
      `top` is zero below one and 128 above. */
  lemma StepSmall(c: real, top: int, e: int)
    requires c <= Pow2(top) && top - 200 <= e
    ensures Scale(c, -200) <= Pow2(e)
  {
    ScaleOrder(c, Pow2(top), -200);
    ScaleSum(1.0, top, -200);
    Pow2Mono(top - 200, e);
  }

  /** The lower end of the bracket is at most half its upper end away. */
  lemma LowerEnd(v: real, top: int, b: int)
    requires 0.0 < v && Ceiling(v) <= Pow2(top) && Pow2(2 * b) <= v && top - 200 <= b - 1
    ensures Pow2(b - 1) <= Bracket(v).0
  {
    hide Bracket, Scale, Ceiling;
    BracketSquares(v);
    var (l, h) := Bracket(v);
    AboveRoot(h, v, b);
    StepSmall(Ceiling(v), top, b - 1);
    ScaleSucc(1.0, b - 1);
  }

  // ---- the operand and the result, as scaled integers ----------------------------

  lemma OperandForm(x: Word)
    requires Value(x) != 0.0
    ensures var (c, v) := (Cond(x), Abs(Value(x)));
      && 1 <= ExpoOf(c) <= 254 && v == Magnitude(ExpoOf(c), MantOf(c)) > 0.0
      && v == Scale((0x80_0000 + MantOf(c)) as real, ExpoOf(c) - 150)
      && Pow2(ExpoOf(c) - 127) <= v < Pow2(ExpoOf(c) - 126)
  {
    var c := Cond(x);
    MagnitudeBinade(ExpoOf(c), MantOf(c));
    MagnitudeInteger(ExpoOf(c), MantOf(c));
  }

  lemma ExponentBetween(a: real, lo: int, hi: int)
    requires 0.0 < a && Pow2(lo) <= a < Pow2(hi)
    ensures lo <= Exponent(a) < hi
  {
    if Exponent(a) < lo { Pow2Mono(Exponent(a) + 1, lo); }
    if hi <= Exponent(a) { Pow2Mono(hi, Exponent(a)); }
  }

  /** The result is a positive normal number, the truncation of the lower end. */
  lemma RootForm(x: Word)
    requires Value(x) != 0.0
    ensures var (p, cause) := Sqrt(x);
      && cause == 0 && SignOf(p) == 0 && 63 <= ExpoOf(p) <= 190
      && (Abs(Value(x)) > 1.0 ==> 126 <= ExpoOf(p))
      && Value(p) == Magnitude(ExpoOf(p), MantOf(p))
      && 0.0 < Value(p) <= Bracket(Abs(Value(x))).0 < Value(p) + Ulp(p)
  {
    OperandForm(x);
    var v := Abs(Value(x));
    var top, b := if v > 1.0 then 128 else 0, if v > 1.0 then 0 else -63;
    var c: int := ExpoOf(Cond(x));
    Pow2Mono(c - 126, 128);
    Pow2Mono(-126, c - 127);
    LowerEnd(v, top, b);
    BracketSquares(v);
    BelowRoot(Bracket(v).0, v, 64);
    Pow2Positive(b - 1);
    ExponentBetween(Bracket(v).0, b - 1, 64);
    RootPacks(Bracket(v).0);
  }

  lemma RootPacks(l: real)
    requires l > 0.0 && -126 <= Exponent(l) <= 127
    ensures var (p, cause) := Packed(l, 0);
      && cause == 0 && SignOf(p) == 0 && ExpoOf(p) == Exponent(l) + 127
      && Value(p) == Magnitude(ExpoOf(p), MantOf(p))
      && 0.0 < Value(p) <= l < Value(p) + Ulp(p)
  {
    PackedBrackets(l, 0);
    var p := Packed(l, 0).0;
    MagnitudeBinade(ExpoOf(p), MantOf(p));
    RangeEnds(l);
    PackTruncates(l, 0);
  }

  // ---- no representable number is skipped -------------------------------------------

  lemma IntSquare(n: nat, q: nat)
    requires q == n * n
    ensures q as real == (n as real) * (n as real)
  {
    if n > 0 {
      IntSquare(n - 1, (n - 1) * (n - 1));
      assert q == (n - 1) * (n - 1) + 2 * n - 1;
      var r := n as real;
      assert (n - 1) as real == r - 1.0;
      assert r * r == (r - 1.0) * (r - 1.0) + 2.0 * r - 1.0;
    }
  }

  /** The square of a 24-bit number falls short of the next integer even when the
      root is nudged by the width of the final bracket. */
  lemma Nudge(n: nat, q: nat)
    requires n <= 0x100_0000 && q == n * n
    ensures var r := n as real + 1.0 / 67108864.0;
      r * r < (q + 1) as real
  {
    IntSquare(n, q);
    var a, d := n as real, 1.0 / 67108864.0;
    assert (a + d) * (a + d) == a * a + 2.0 * (d * a) + d * d;
  }

  /** If the bracket's upper end is within a nudge of `n` units and its square
      reaches `v`, then so does the square of `n` units. */
  lemma NoSkip(v: real, m: nat, f: int, h: real, n: nat, e: int)
    requires v == Scale(m as real, f) && 2 * e <= f && n <= 0x100_0000
    requires 0.0 <= h <= Scale(n as real, e) + Pow2(e - 26) && v <= h * h
    ensures v <= Scale(n as real, e) * Scale(n as real, e)
  {
    var big, q := Shifted(m, f - 2 * e), n * n;
    ScaleShifted(m, f - 2 * e, 2 * e);
    SquareOfUnits(n, q, e);
    if big > q {
      var r := n as real + 1.0 / 67108864.0;
      NudgeScale(n as real, e);
      SquareNotAbove(h, Scale(r, e));
      ScaleSquare(r, e);
      Nudge(n, q);
      ScaleOrder(r * r, (q + 1) as real, 2 * e);
      ScaleOrder(big as real, (q + 1) as real, 2 * e);
      assert false;
    }
    ScaleOrder(q as real, big as real, 2 * e);
  }

  lemma SquareOfUnits(n: nat, q: nat, e: int)
    requires q == n * n
    ensures Scale(n as real, e) * Scale(n as real, e) == Scale(q as real, 2 * e)
  {
    var r := n as real;
    ScaleSquare(r, e);
    IntSquare(n, q);
  }

  lemma SquareNotAbove(a: real, b: real)
    requires 0.0 <= a <= b
    ensures a * a <= b * b
  {
    if a < b { SquareLess(a, b); }
  }

  lemma NudgeScale(n: real, e: int)
    ensures Scale(n + 1.0 / 67108864.0, e) == Scale(n, e) + Pow2(e - 26)
  {
    ScaleAdd(n, 1.0 / 67108864.0, e);
    MantissaScale(1.0);
    ScaleSum(1.0, -23, -3);
    assert Pow2(-26) == Scale(1.0 / 8388608.0, -3) == 1.0 / 67108864.0;
    ScaleSum(1.0, -26, e);
  }

  lemma NextValue(p: Word)
    requires ExpoOf(p) >= 1
    ensures Magnitude(ExpoOf(p), MantOf(p)) + Ulp(p)
         == Scale((0x80_0000 + MantOf(p) + 1) as real, ExpoOf(p) - 150)
  {
    MagnitudeInteger(ExpoOf(p), MantOf(p));
    ScaleAdd((0x80_0000 + MantOf(p)) as real, 1.0, ExpoOf(p) - 150);
    assert (0x80_0000 + MantOf(p) + 1) as real == (0x80_0000 + MantOf(p)) as real + 1.0;
  }

  /** When the square of `n` units falls short of the operand, the operand's last
      place is a whole multiple of that square's. */
  lemma LastPlaces(v: real, f: int, n: nat, e: int)
    requires 0x80_0000 <= n && Scale(n as real, e) * Scale(n as real, e) < v < Pow2(f + 24)
    ensures 2 * e <= f
  {
    NormalUnits(n, e);
    Pow2Positive(e + 23);
    BelowSquare(Pow2(e + 23), Scale(n as real, e), v);
    ScaleSquare(1.0, e + 23);
    NotBelow(f + 24, 2 * e + 46, v);
  }

  lemma NotBelow(a: int, b: int, v: real)
    requires Pow2(b) < v < Pow2(a)
    ensures b < a
  {
    if a <= b { Pow2Mono(a, b); }
  }

  lemma NormalUnits(n: nat, e: int)
    requires 0x80_0000 <= n
    ensures Pow2(e + 23) <= Scale(n as real, e)
  {
    ScaleTwentyThree();
    ScaleOrder(n as real, 8388608.0, e);
    ScaleSum(1.0, 23, e);
  }

  lemma ScaleTwentyThree()
    ensures Pow2(23) == 8388608.0
  {
    MantissaScale(8388608.0);
    ScaleSum(8388608.0, -23, 23);
  }

  lemma BelowSquare(a: real, b: real, v: real)
    requires a <= b && b * b < v && 0.0 < a
    ensures a * a < v
  {
    SquareNotAbove(a, b);
  }

  lemma NextSquareReaches(v: real, m: nat, f: int, h: real, n: nat, e: int)
    requires v == Scale(m as real, f) < Pow2(f + 24) && 0x80_0000 <= n <= 0x100_0000
    requires 0.0 <= h <= Scale(n as real, e) + Pow2(e - 26) && v <= h * h
    ensures v <= Scale(n as real, e) * Scale(n as real, e)
  {
    if Scale(n as real, e) * Scale(n as real, e) < v {
      LastPlaces(v, f, n, e);
      NoSkip(v, m, f, h, n, e);
    }
  }

  predicate ReachedBy(v: real, hi: real) {
    v <= hi * hi
  }

  /** A pattern that truncates the lower end of so narrow a bracket. */
  predicate Truncates(p: Word, v: real, l: real, h: real) {
    && 63 <= ExpoOf(p) <= 190 && (v > 1.0 ==> 126 <= ExpoOf(p))
    && Value(p) == Magnitude(ExpoOf(p), MantOf(p))
    && 0.0 < Value(p) <= l < Value(p) + Ulp(p)
    && l < h && h - l == Scale(Ceiling(v), -200)
  }

  lemma SqrtTruncates(x: Word)
    requires Value(x) != 0.0
    ensures var v := Abs(Value(x));
      Truncates(Sqrt(x).0, v, Bracket(v).0, Bracket(v).1)
  {
    OperandForm(x);
    RootForm(x);
    BracketWidth(Abs(Value(x)));
  }

  lemma BracketWidth(v: real)
    requires v > 0.0
    ensures var (l, h) := Bracket(v); l < h && h - l == Scale(Ceiling(v), -200)
  {
    BracketSquares(v);
  }

  lemma UpperEndClose(x: Word, p: Word, l: real, h: real)
    requires Value(x) != 0.0 && Truncates(p, Abs(Value(x)), l, h)
    ensures h <= Value(p) + Ulp(p) + Pow2(ExpoOf(p) - 176)
  {
    var v := Abs(Value(x));
    CeilingTop(x);
    StepSmall(Ceiling(v), if v > 1.0 then 128 else 0, ExpoOf(p) - 176);
  }

  lemma TruncationReaches(x: Word, p: Word, l: real, h: real)
    requires Value(x) != 0.0 && Truncates(p, Abs(Value(x)), l, h) && ReachedBy(Abs(Value(x)), h)
    ensures ReachedBy(Abs(Value(x)), Value(p) + Ulp(p))
  {
    OperandForm(x);
    NextValue(p);
    UpperEndClose(x, p, l, h);
    NextSquareReaches(Abs(Value(x)), 0x80_0000 + MantOf(Cond(x)), ExpoOf(Cond(x)) - 150, h,
                      0x80_0000 + MantOf(p) + 1, ExpoOf(p) - 150);
  }

  /** The root of the operand is at or above the result ... */
  lemma SqrtBelow(x: Word)
    requires Value(x) != 0.0
    ensures AtMostRoot(Abs(Value(x)))(Value(Sqrt(x).0))
  {
    SqrtTruncates(x);
    BracketSquares(Abs(Value(x)));
    AtMostRootDown(Abs(Value(x)), Value(Sqrt(x).0), Bracket(Abs(Value(x))).0);
  }

  lemma AtMostRootDown(v: real, a: real, b: real)
    requires 0.0 <= a <= b && AtMostRoot(v)(b)
    ensures AtMostRoot(v)(a)
  {
    SquareNotAbove(a, b);
  }

  /** ... and at or below the next pattern. */
  lemma SqrtAbove(x: Word)
    requires Value(x) != 0.0
    ensures ReachedBy(Abs(Value(x)), Value(Sqrt(x).0) + Ulp(Sqrt(x).0))
  {
    SqrtTruncates(x);
    var b := Bracket(Abs(Value(x)));
    BracketSquares(Abs(Value(x)));
    TruncationReaches(x, Sqrt(x).0, b.0, b.1);
  }

  lemma CeilingTop(x: Word)
    requires Value(x) != 0.0
    ensures var v := Abs(Value(x)); Ceiling(v) <= Pow2(if v > 1.0 then 128 else 0)
  {
    OperandForm(x);
    var c: int := ExpoOf(Cond(x));
    Pow2Mono(c - 126, 128);
  }

  predicate IsRoot(r: real, v: real) {
    r * r == v
  }

  /** The result is the largest pattern whose square does not exceed the operand,
      with one exception: an exact root may be missed by one ulp. */
  lemma SqrtFloor(x: Word, q: Word)
    requires Value(x) != 0.0 && AtMostRoot(Abs(Value(x)))(Value(q))
    ensures var (v, p) := (Abs(Value(x)), Sqrt(x).0);
      Value(q) <= Value(p) || (Value(q) == Value(p) + Ulp(p) && IsRoot(Value(q), v))
  {
    var v, p := Abs(Value(x)), Sqrt(x).0;
    SqrtAbove(x);
    SqrtTruncates(x);
    if Value(q) > Value(p) {
      NoneBetween(p, q);
      Pow2Positive(ExpoOf(p) - 150);
      OnlyEqual(Value(p) + Ulp(p), Value(q), v);
    }
  }

  lemma NoneBetween(p: Word, q: Word)
    requires ExpoOf(p) >= 1 && 0.0 < Value(p) == Magnitude(ExpoOf(p), MantOf(p)) < Value(q)
    ensures Value(p) + Ulp(p) <= Value(q)
  {
    OperandForm(q);
    ValueSign(q);
    if Value(q) < Value(p) + Ulp(p) {
      NextAbove(ExpoOf(p), MantOf(p), ExpoOf(Cond(q)), MantOf(Cond(q)));
    }
  }

  lemma OnlyEqual(s: real, q: real, v: real)
    requires 0.0 < s <= q && AtMostRoot(v)(q) && ReachedBy(v, s)
    ensures s == q && IsRoot(q, v)
  {
    if s < q { SquareLess(s, q); }
  }

  // ---- exactly when an exact root is reached -------------------------------------

  lemma {:induction false} ShiftedPower(j: nat)
    ensures Shifted(1, j) as real == Pow2(j)
  {
    ScaleShifted(1, j, 0);
  }

  /** A divisor of a power of two is a power of two. */
  lemma {:induction false} DividesPower(m: nat, k: nat, n: nat) returns (j: nat)
    requires m * k == Shifted(1, n)
    ensures m == Shifted(1, j)
    decreases n, k
  {
    if n == 0 {
      j := 0;
      ProductOne(m, k);
    } else if m % 2 == 0 {
      assert 2 * ((m / 2) * k) == 2 * Shifted(1, n - 1);
      var i := DividesPower(m / 2, k, n - 1);
      j := i + 1;
    } else {
      OddFactor(m, k);
      assert 2 * (m * (k / 2)) == 2 * Shifted(1, n - 1);
      j := DividesPower(m, k / 2, n - 1);
    }
  }

  lemma ProductOne(m: nat, k: nat)
    requires m * k == 1
    ensures m == 1
  {
    assert k != 0;
    assert m <= m * k;
  }

  lemma OddFactor(m: nat, k: nat)
    requires m % 2 == 1 && (m * k) % 2 == 0
    ensures k % 2 == 0
  {
    assert m == 2 * (m / 2) + 1;
    assert m * k == 2 * ((m / 2) * k) + k;
  }

  /** The only power of two in the range of a mantissa is its hidden bit. */
  lemma MantissaPower(m: nat, j: nat)
    requires 0x80_0000 <= m < 0x100_0000 && m == Shifted(1, j)
    ensures m == 0x80_0000
  {
    ShiftedPower(j);
    ScaleTwentyThree();
    ScaleSucc(1.0, 23);
    if j < 23 { Pow2Mono(j, 22); ScaleSucc(1.0, 22); }
    if j > 23 { Pow2Mono(24, j); }
  }

  lemma Pow2Reflects(a: int, b: int)
    requires Pow2(a) <= Pow2(b)
    ensures a <= b
  {
    if b < a {
      Pow2Mono(b + 1, a);
      ScaleSucc(1.0, b);
      Pow2Positive(b);
    }
  }

  /** A square that is a power of two has a root that is one. */
  lemma PowerSquare(m: nat, e: int, top: int)
    requires 0x80_0000 <= m < 0x100_0000 && IsRoot(Scale(m as real, e), Pow2(top))
    ensures m == 0x80_0000
  {
    SquareOfUnits(m, m * m, e);
    UnitsArePower(m * m, 2 * e, top);
    var j := DividesPower(m, m, top - 2 * e);
    MantissaPower(m, j);
  }

  lemma UnitsArePower(q: nat, e: int, top: int)
    requires q >= 1 && Scale(q as real, e) == Pow2(top)
    ensures e <= top && q == Shifted(1, top - e)
  {
    ScaleOrder(q as real, 1.0, e);
    Pow2Reflects(e, top);
    ScaleShifted(1, top - e, e);
    ScaleOrder(q as real, Shifted(1, top - e) as real, e);
  }

  /** An exact square is a power of two just when its root is, and then its
      exponent is even. */
  lemma SquareMantissa(e: int, m: nat, f: int, n: nat)
    requires m < 0x80_0000 && n < 0x80_0000 && IsRoot(Magnitude(e, m), Magnitude(f, n))
    ensures m == 0 <==> n == 0
    ensures m == 0 ==> f - 127 == 2 * (e - 127)
  {
    if m == 0 {
      ScaleSquare(1.0, e - 127);
      assert Magnitude(e, 0) == Pow2(e - 127);
      assert Magnitude(2 * e - 127, 0) == Pow2(2 * (e - 127));
      MagnitudeOrder(f, n, 2 * e - 127, 0);
      MagnitudeOrder(2 * e - 127, 0, f, n);
    } else if n == 0 {
      MagnitudeInteger(e, m);
      assert Magnitude(f, 0) == Pow2(f - 127);
      PowerSquare(0x80_0000 + m, e - 150, f - 127);
      assert false;
    }
  }

  // the bisection on the grid of its last step

  lemma RootTest(w: real, v: real)
    requires 0.0 <= w && IsRoot(w, v)
    ensures forall m :: 0.0 <= m ==> (AtMostRoot(v)(m) <==> m <= w)
  {
    forall m | 0.0 <= m
      ensures AtMostRoot(v)(m) <==> m <= w
    {
      SquareOrder(m, w);
    }
  }

  /** Below one the search starts from one, and every root is on the grid. */
  lemma ReachesSmall(v: real, m: nat, e: int)
    requires 0.0 < v < 1.0 && -200 <= e && IsRoot(Scale(m as real, e), v) && 0.0 < Scale(m as real, e)
    ensures Bracket(v).0 == Scale(m as real, e)
  {
    var w := Scale(m as real, e);
    RootTest(w, v);
    OneAbove(w, v);
    var k := Shifted(m, e + 200);
    ScaleShifted(m, e + 200, 0 - 200);
    ScaleShifted(1, 200, 0 - 200);
    ScaleOrder(k as real, Shifted(1, 200) as real, 0 - 200);
    BisectHits(AtMostRoot(v), w, 0.0, 1.0, STEPS, 0, k);
  }

  lemma OneAbove(w: real, v: real)
    requires 0.0 < w && IsRoot(w, v)
    ensures w < 1.0 <==> v < 1.0
    ensures w == 1.0 <==> v == 1.0
  {
    SquareOrder(w, 1.0);
  }

  /** Above one the search starts from the operand itself, so a root is on the
      grid when both are powers of two ... */
  lemma ReachesPower(v: real, j: int)
    requires 1 <= j <= 200 && v == Pow2(2 * j)
    ensures Bracket(v).0 == Pow2(j)
  {
    var w := Pow2(j);
    ScaleSquare(1.0, j);
    Pow2Positive(j);
    RootTest(w, v);
    Pow2Mono(1, 2 * j);
    var k := Shifted(1, 200 - j);
    ScaleShifted(1, 200 - j, 2 * j - 200);
    ScaleShifted(1, 200, 2 * j - 200);
    Pow2Mono(j + 1, 2 * j);
    ScaleSucc(1.0, j);
    ScaleOrder(k as real, Shifted(1, 200) as real, 2 * j - 200);
    BisectHits(AtMostRoot(v), w, 0.0, v, STEPS, 2 * j, k);
  }

  /** ... and on it only then: the bracket's ends are whole multiples of its
      width, which is the operand over a power of two. */
  predicate OnGrid(k: nat, lo: real, width: real) {
    lo == k as real * width
  }

  lemma GridHalf(k: nat, lo: real, hi: real)
    requires OnGrid(k, lo, hi - lo)
    ensures OnGrid(2 * k, lo, (hi - lo) / 2.0)
    ensures OnGrid(2 * k + 1, (lo + hi) / 2.0, (hi - lo) / 2.0)
  {
    var d := (hi - lo) / 2.0;
    var r := k as real;
    assert (2 * k) as real == 2.0 * r && (2 * k + 1) as real == 2.0 * r + 1.0;
    assert (2.0 * r) * d == r * (hi - lo);
    assert (2.0 * r + 1.0) * d == (2.0 * r) * d + d;
  }

  lemma {:induction false} BisectGrid(below: real -> bool, lo: real, hi: real, n: nat, k: nat) returns (j: nat)
    requires OnGrid(k, lo, hi - lo)
    ensures var (l, h) := Bisect(below, lo, hi, n); OnGrid(j, l, h - l)
    decreases n
  {
    if n == 0 {
      j := k;
    } else {
      var mid := (lo + hi) / 2.0;
      GridHalf(k, lo, hi);
      if below(mid) {
        j := BisectGrid(below, mid, hi, n - 1, 2 * k + 1);
      } else {
        j := BisectGrid(below, lo, mid, n - 1, 2 * k);
      }
    }
  }

  lemma {:induction false} ScaleTimes(k: nat, q: nat, z: int)
    ensures k as real * Scale(q as real, z) == Scale((k * q) as real, z)
  {
    if k == 0 {
      ScaleZero(z);
    } else {
      ScaleTimes(k - 1, q, z);
      var s, r := Scale(q as real, z), k as real;
      assert (k - 1) as real == r - 1.0;
      assert r * s == (r - 1.0) * s + s;
      assert k * q == (k - 1) * q + q;
      ScaleAdd(((k - 1) * q) as real, q as real, z);
    }
  }

  lemma {:induction false} ShiftedProduct(m: nat, n: nat)
    ensures Shifted(m, n) == m * Shifted(1, n)
  {
    if n > 0 { ShiftedProduct(m, n - 1); }
  }

  lemma MulLess(m: nat, a: nat, b: nat)
    requires m > 0 && a < b
    ensures m * a < m * b
  {
  }

  lemma CancelFactor(a: nat, k: nat, m: nat)
    requires m > 0 && m * a == k * (m * m)
    ensures m * k == a
  {
    assert k * (m * m) == m * (m * k);
    if a < m * k { MulLess(m, a, m * k); }
    if m * k < a { MulLess(m, m * k, a); }
  }

  /** A root on the grid of an operand above one divides a power of two. */
  lemma GridRootDivides(m: nat, e: int, q: nat, k: nat)
    requires m > 0 && e <= 200 && q == m * m
    requires OnGrid(k, Scale(m as real, e), Scale(q as real, 2 * e - 200))
    ensures m * k == Shifted(1, 200 - e)
  {
    hide Scale, Shifted;
    ScaleTimes(k, q, 2 * e - 200);
    ScaleShifted(m, 200 - e, 2 * e - 200);
    ScaleOrder(Shifted(m, 200 - e) as real, (k * q) as real, 2 * e - 200);
    ShiftedProduct(m, 200 - e);
    assert m * Shifted(1, 200 - e) == k * q;
    CancelFactor(Shifted(1, 200 - e), k, m);
  }

  lemma MissesRoot(v: real, m: nat, e: int)
    requires v > 1.0 && e <= 200 && 0x80_0000 < m < 0x100_0000 && IsRoot(Scale(m as real, e), v)
    ensures Bracket(v).0 != Scale(m as real, e)
  {
    var k := BisectGrid(AtMostRoot(v), 0.0, v, STEPS, 0);
    if Bracket(v).0 == Scale(m as real, e) {
      BracketWidth(v);
      WidthInUnits(v, m, e, m * m);
      GridRootDivides(m, e, m * m, k);
      var j := DividesPower(m, k, 200 - e);
      MantissaPower(m, j);
      assert false;
    }
  }

  lemma WidthInUnits(v: real, m: nat, e: int, q: nat)
    requires q == m * m && IsRoot(Scale(m as real, e), v)
    ensures Scale(v, -200) == Scale(q as real, 2 * e - 200)
  {
    SquareOfUnits(m, q, e);
    assert v == Scale(q as real, 2 * e);
    ScaleSum(q as real, 2 * e, -200);
    assert 2 * e + (-200) == 2 * e - 200;
  }

  /** The operands whose exact roots the bisection reaches. */
  predicate ReachesRoot(x: Word) {
    var v := Abs(Value(x));
    v < 1.0 || (MantOf(Cond(x)) == 0 && v != 1.0)
  }

  lemma BracketHits(x: Word, w: Word)
    requires 0.0 < Value(w) && IsRoot(Value(w), Abs(Value(x))) && Value(x) != 0.0
    ensures Bracket(Abs(Value(x))).0 == Value(w) <==> ReachesRoot(x)
  {
    var v := Abs(Value(x));
    OperandForm(x);
    OperandForm(w);
    OneAbove(Value(w), v);
    var e, m := ExpoOf(Cond(w)) as int, MantOf(Cond(w));
    SquareMantissa(e, m, ExpoOf(Cond(x)), MantOf(Cond(x)));
    if v < 1.0 {
      ReachesSmall(v, 0x80_0000 + m, e - 150);
    } else if v == 1.0 {
      BracketWidth(v);
      BracketSquares(v);
    } else if m == 0 {
      AboveOneExponent(e, m);
      ReachesPower(v, e - 127);
    } else {
      MissesRoot(v, 0x80_0000 + m, e - 150);
    }
  }

  lemma AboveOneExponent(e: int, m: nat)
    requires m == 0 && Magnitude(e, m) > 1.0
    ensures e >= 128
  {
    if e < 128 { Pow2Mono(e - 127, 0); }
  }

  lemma RootNotZero(w: real, v: real)
    requires 0.0 < w && IsRoot(w, v)
    ensures v > 0.0
  {
    SquareOrder(0.0, w);
  }

  /** A root the format holds is returned exactly when the operand is below one
      or a power of two other than one; otherwise the result is one ulp low. */
  lemma SqrtExactIff(x: Word, w: Word)
    requires 0.0 < Value(w) && IsRoot(Value(w), Abs(Value(x)))
    ensures Sqrt(x).0 == Cond(w) <==> ReachesRoot(x)
    ensures !ReachesRoot(x) ==> Value(Sqrt(x).0) + Ulp(Sqrt(x).0) == Value(w)
  {
    RootNotZero(Value(w), Abs(Value(x)));
    BracketHits(x, w);
    if ReachesRoot(x) {
      PackRoundTrip(w, 0);
    } else {
      MissedByOne(x, w);
    }
  }

  /** The root of one comes out one ulp below it. */
  lemma RootOfOne()
    ensures Sqrt(ONE).0 != ONE && Value(Sqrt(ONE).0) + Ulp(Sqrt(ONE).0) == 1.0
  {
    hide Sqrt, Ulp;
    OnePattern(ONE);
    SqrtExactIff(ONE, ONE);
  }

  lemma OnePattern(x: Word)
    requires x == ONE
    ensures Value(x) == 1.0 && Cond(x) == x && IsRoot(Value(x), Abs(Value(x))) && !ReachesRoot(x)
  {
    Ps2Ops.OneValue();
  }

  lemma MissedByOne(x: Word, w: Word)
    requires Value(x) != 0.0 && 0.0 < Value(w) && IsRoot(Value(w), Abs(Value(x)))
    requires Bracket(Abs(Value(x))).0 != Value(w)
    ensures Value(Sqrt(x).0) < Value(w)
    ensures Value(Sqrt(x).0) + Ulp(Sqrt(x).0) == Value(w)
  {
    var v := Abs(Value(x));
    SqrtTruncates(x);
    BracketSquares(v);
    RootTest(Value(w), v);
    assert AtMostRoot(v)(Value(w));
    SqrtFloor(x, w);
  }
}
