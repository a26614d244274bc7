/** The interpolator of sim/gs/gs_ref.py: one step every eight pixels, every
    quantity snapped down to a grid of 1/1024. */
module Dda {

  const BLOCK := 8

  /** Grid units at or below a number; an arithmetic shift, so a floor. */
  function Units(q: real): int {
    (q * 1024.0).Floor
  }

  function Grid(q: real): real {
    Units(q) as real / 1024.0
  }

  /** One component along one span: seed, lane offsets and block step. */
  datatype Walk = Walk(seed: real, lane: seq<real>, step: real)

  /** The offset of one of a block's eight pixels. */
  function Lane(dvdx: real, j: nat): real {
    Grid(dvdx * (j as real))
  }

  function MakeWalk(seed: real, dvdx: real, bias: real): (w: Walk)
    ensures |w.lane| == BLOCK
  {
    Walk(Grid(seed) + bias,
         seq(BLOCK, (j: nat) => Lane(dvdx, j)),
         Grid(dvdx * 8.0))
  }

  function Advance(step: real, blocks: nat): real {
    step * (blocks as real)
  }

  /** The value at pixel `i` of the span. */
  function At(w: Walk, i: nat): real
    requires |w.lane| == BLOCK
  {
    w.seed + Advance(w.step, i / BLOCK) + w.lane[i % BLOCK]
  }

  /** How far interpolated depth runs short of its own plane. */
  function ZBias(k: int, dzdy: real): real {
    var half := 1.0 / 2048.0;
    if k > 0 && dzdy != 0.0
    then -half - half * (k as real) * (if dzdy > 0.0 then 1.0 else -1.0)
    else -half
  }

  // ---- the walk is a whole number of grid units, stepped once per block ----------

  lemma GridBounds(q: real)
    ensures 0.0 <= q - Grid(q) < 1.0 / 1024.0
  {
  }

  /** An integer accumulator, stepped once a block. */
  function Accumulator(start: int, step: int, blocks: nat): int {
    if blocks == 0 then start else Accumulator(start, step, blocks - 1) + step
  }

  /** The unbiased value at pixel `i`, in grid units. */
  function UnitsAt(seed: real, dvdx: real, i: nat): int {
    Accumulator(Units(seed), Units(dvdx * 8.0), i / BLOCK) + Units(dvdx * ((i % BLOCK) as real))
  }

  lemma OneMore(x: real, n: nat)
    requires n > 0
    ensures Advance(x, n) == Advance(x, n - 1) + x
  {
    assert (n - 1) as real == n as real - 1.0;
  }

  lemma {:induction false} AccumulatorReal(u: real, s: real, b: nat)
    ensures Accumulator(Units(u), Units(s), b) as real / 1024.0 == Grid(u) + Advance(Grid(s), b)
  {
    if b > 0 {
      AccumulatorReal(u, s, b - 1);
      OneMore(Grid(s), b);
      AddUnits(Accumulator(Units(u), Units(s), b - 1), Units(s));
    }
  }

  /** The walk's three terms, in grid units. */
  lemma AtTerms(seed: real, dvdx: real, bias: real, i: nat, line: real)
    requires line == Grid(seed) + Advance(Grid(dvdx * 8.0), i / BLOCK)
    ensures At(MakeWalk(seed, dvdx, bias), i) == line + bias + Lane(dvdx, i % BLOCK)
  {
    var w := MakeWalk(seed, dvdx, bias);
    assert w.lane[i % BLOCK] == Lane(dvdx, i % BLOCK);
    assert w.seed == Grid(seed) + bias && w.step == Grid(dvdx * 8.0);
  }

  lemma AddUnits(u: int, v: int)
    ensures (u + v) as real / 1024.0 == u as real / 1024.0 + v as real / 1024.0
  {
  }

  /** Less the bias, every value is a whole number of grid units. */
  lemma AtIsUnits(seed: real, dvdx: real, bias: real, i: nat)
    ensures At(MakeWalk(seed, dvdx, bias), i) == UnitsAt(seed, dvdx, i) as real / 1024.0 + bias
  {
    AccumulatorReal(seed, dvdx * 8.0, i / BLOCK);
    AtTerms(seed, dvdx, bias, i, Accumulator(Units(seed), Units(dvdx * 8.0), i / BLOCK) as real / 1024.0);
    AddUnits(Accumulator(Units(seed), Units(dvdx * 8.0), i / BLOCK), Units(dvdx * ((i % BLOCK) as real)));
  }

  // ---- how close it stays --------------------------------------------------------------

  /** A step snapped down once falls behind by less than a unit each time it is used. */
  lemma {:induction false} Shortfall(seed: real, step: real, b: nat)
    ensures var short := seed + Advance(step, b) - Accumulator(Units(seed), Units(step), b) as real / 1024.0;
      0.0 <= short < ((b + 1) as real) / 1024.0
  {
    if b == 0 {
      GridBounds(seed);
    } else {
      Shortfall(seed, step, b - 1);
      GridBounds(step);
      OneMore(step, b);
      AddUnits(Accumulator(Units(seed), Units(step), b - 1), Units(step));
    }
  }

  lemma SplitSpan(dvdx: real, i: nat)
    ensures dvdx * (i as real) == Advance(dvdx * 8.0, i / BLOCK) + dvdx * ((i % BLOCK) as real)
  {
    var n, m := (i / BLOCK) as real, (i % BLOCK) as real;
    assert i as real == 8.0 * n + m;
    Expand(dvdx, n, m);
  }

  lemma Expand(d: real, n: real, m: real)
    ensures d * (8.0 * n + m) == (d * 8.0) * n + d * m
  {
  }

  /** The walk never exceeds the exact line and falls behind by less than a grid
      step for the seed, one for the lane and one for each block walked. */
  lemma StaysClose(seed: real, dvdx: real, bias: real, i: nat)
    ensures var short := seed + dvdx * (i as real) - (At(MakeWalk(seed, dvdx, bias), i) - bias);
      0.0 <= short < ((i / BLOCK + 2) as real) / 1024.0
  {
    AtIsUnits(seed, dvdx, bias, i);
    UnitsClose(seed, dvdx, i);
  }

  lemma UnitsClose(seed: real, dvdx: real, i: nat)
    ensures 0.0 <= seed + dvdx * (i as real) - UnitsAt(seed, dvdx, i) as real / 1024.0
                <  ((i / BLOCK + 2) as real) / 1024.0
  {
    SplitSpan(dvdx, i);
    Shortfall(seed, dvdx * 8.0, i / BLOCK);
    GridBounds(dvdx * ((i % BLOCK) as real));
    AddUnits(Accumulator(Units(seed), Units(dvdx * 8.0), i / BLOCK), Units(dvdx * ((i % BLOCK) as real)));
  }

  /** It is monotone in the direction of the gradient, across block boundaries as
      well as inside a block. */
  lemma Monotone(seed: real, dvdx: real, bias: real, i: nat)
    ensures var w := MakeWalk(seed, dvdx, bias);
      && (dvdx >= 0.0 ==> At(w, i) <= At(w, i + 1))
      && (dvdx <= 0.0 ==> At(w, i) >= At(w, i + 1))
  {
    AtIsUnits(seed, dvdx, bias, i);
    AtIsUnits(seed, dvdx, bias, i + 1);
    UnitsMonotone(seed, dvdx, i);
  }

  lemma UnitsMonotone(seed: real, dvdx: real, i: nat)
    ensures dvdx >= 0.0 ==> UnitsAt(seed, dvdx, i) <= UnitsAt(seed, dvdx, i + 1)
    ensures dvdx <= 0.0 ==> UnitsAt(seed, dvdx, i) >= UnitsAt(seed, dvdx, i + 1)
  {
    var b, j := i / BLOCK, i % BLOCK;
    LanesMonotone(dvdx, j as real);
    if j == BLOCK - 1 {
      assert (i + 1) / BLOCK == b + 1 && (i + 1) % BLOCK == 0;
      assert dvdx * 0.0 == 0.0 && Units(0.0) == 0;
    } else {
      assert (i + 1) / BLOCK == b && (i + 1) % BLOCK == j + 1;
      assert (j + 1) as real == j as real + 1.0;
    }
  }

  lemma LanesMonotone(dvdx: real, j: real)
    ensures dvdx >= 0.0 ==> Units(dvdx * j) <= Units(dvdx * (j + 1.0))
    ensures dvdx <= 0.0 ==> Units(dvdx * j) >= Units(dvdx * (j + 1.0))
  {
    assert dvdx * (j + 1.0) == dvdx * j + dvdx;
  }

  // ---- depth -------------------------------------------------------------------------------

  /** The depth drawn at pixel `i` of the k-th scanline of a triangle: the biased
      walk, floored, and clamped into thirty-two bits. */
  function Depth(seed: real, dzdx: real, dzdy: real, k: int, i: nat): (z: int)
    ensures 0 <= z < 0x1_0000_0000
  {
    var z := At(MakeWalk(seed, dzdx, ZBias(k, dzdy)), i).Floor;
    if z < 0 then 0 else if z > 0xFFFF_FFFF then 0xFFFF_FFFF else z
  }

  /** The bias's own comment says a flat triangle is exact.  It is not what the code
      computes: half a grid step comes off flat depth too, and the floor turns it
      into a whole unit everywhere but at zero. */
  lemma FlatDepthShort(z: nat, k: int, i: nat)
    requires z < 0x1_0000_0000
    ensures Depth(z as real, 0.0, 0.0, k, i) == if z == 0 then 0 else z - 1
  {
    AtIsUnits(z as real, 0.0, ZBias(k, 0.0), i);
    assert Units(z as real) == 1024 * z;
    assert 0.0 * 8.0 == 0.0 && 0.0 * ((i % BLOCK) as real) == 0.0 && Units(0.0) == 0;
    assert UnitsAt(z as real, 0.0, i) == 1024 * z;
    assert (1024 * z) as real / 1024.0 == z as real;
  }
}
