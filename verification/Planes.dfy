/** What a triangle's fragments carry: the plane through its vertices' values, to within the
    interpolator's grid. */
module Planes {
  import opened Bits
  import opened LocalMemory
  import opened FillRule
  import opened Drawing
  import opened Coverage
  import Dda

  /** An affine function of x and y. */
  datatype Plane = Plane(at: real, dx: real, dy: real)

  function On(f: Plane, x: real, y: real): real { f.at + f.dx * x + f.dy * y }

  /** It takes three values at a triangle's corners. */
  predicate Carries(f: Plane, t: Triangle, a: real, b: real, c: real) {
    On(f, t.p0.x, t.p0.y) == a && On(f, t.p1.x, t.p1.y) == b && On(f, t.p2.x, t.p2.y) == c
  }

  // ---- the slopes are the plane's own -----------------------------------------------------------

  lemma Moved(m: real, p: real, q: real)
    ensures m * p - m * q == m * (p - q)
  {
  }

  lemma QuotientIs(n: real, d: real, q: real)
    requires d != 0.0 && n == q * d
    ensures n / d == q
  {
  }

  /** Two equations, two unknowns. */
  lemma Cramer(q: real, s: real, ux: real, uy: real, wx: real, wy: real, db: real, dc: real)
    requires db == q * ux + s * uy && dc == q * wx + s * wy
    ensures db * wy - dc * uy == q * (ux * wy - wx * uy)
    ensures dc * ux - db * wx == s * (ux * wy - wx * uy)
  {
    Expand(q, ux, s, uy, wy);
    Expand(q, wx, s, wy, uy);
    Expand(q, wx, s, wy, ux);
    Expand(q, ux, s, uy, wx);
    Factor(q, ux, wy, wx, uy);
    Factor(s, ux, wy, wx, uy);
    Swapped(s, uy, wy);
    Swapped(q, ux, wx);
  }

  lemma Expand(a: real, b: real, c: real, d: real, m: real)
    ensures (a * b + c * d) * m == a * (b * m) + c * (d * m)
  {
  }

  lemma Factor(m: real, a: real, b: real, c: real, d: real)
    ensures m * (a * b - c * d) == m * (a * b) - m * (c * d)
  {
  }

  lemma Swapped(m: real, a: real, b: real)
    ensures m * (a * b) == m * (b * a)
  {
  }

  lemma SlopesAre(f: Plane, t: Triangle, a: real, b: real, c: real)
    requires Det(t) != 0.0 && Carries(f, t, a, b, c)
    ensures PlaneX(t, a, b, c) == f.dx && PlaneY(t, a, b, c) == f.dy
  {
    var (ux, uy) := (t.p1.x - t.p0.x, t.p1.y - t.p0.y);
    var (wx, wy) := (t.p2.x - t.p0.x, t.p2.y - t.p0.y);
    Moved(f.dx, t.p1.x, t.p0.x);
    Moved(f.dy, t.p1.y, t.p0.y);
    Moved(f.dx, t.p2.x, t.p0.x);
    Moved(f.dy, t.p2.y, t.p0.y);
    Cramer(f.dx, f.dy, ux, uy, wx, wy, b - a, c - a);
    QuotientIs((b - a) * wy - (c - a) * uy, Det(t), f.dx);
    QuotientIs((c - a) * ux - (b - a) * wx, Det(t), f.dy);
  }

  /** A span's seed, walked on exactly, stays on the plane. */
  lemma SeedOn(f: Plane, t: Triangle, a: real, b: real, c: real, left: nat, i: nat, y: nat)
    requires Carries(f, t, a, b, c)
    ensures Seed(t, a, f.dx, f.dy, left, y) + f.dx * (i as real) == On(f, (left + i) as real, y as real)
  {
    Moved(f.dx, left as real, t.p0.x);
    Moved(f.dy, y as real, t.p0.y);
    assert (left + i) as real == left as real + i as real;
    Added(f.dx, left as real, i as real);
  }

  lemma Added(m: real, p: real, q: real)
    ensures m * (p + q) == m * p + m * q
  {
  }

  // ---- what a fragment carries ------------------------------------------------------------------

  /** Short of the exact value by less than a grid step for the seed, one for the lane and
      one for each block of eight pixels behind it. */
  predicate Near(w: real, exact: real, i: nat) {
    0.0 <= exact - w < ((i / 8 + 2) as real) / 1024.0
  }

  function Saturated(v: int, top: nat): nat { if v < 0 then 0 else if v > top then top else v }

  /** A register's value is the floor of something that near, saturated. */
  ghost predicate Holds(v: nat, exact: real, i: nat, top: nat) {
    exists w: real :: Near(w, exact, i) && v == Saturated(w.Floor, top)
  }

  /** Depth is walked half a grid step low, and along y a half step more for every scanline
      below the first, in the slope's direction. */
  function DepthBias(f: Plane, row: int): real {
    if row > 0 && f.dy > 0.0 then -1.0 / 2048.0 - row as real / 2048.0
    else if row > 0 && f.dy < 0.0 then -1.0 / 2048.0 + row as real / 2048.0
    else -1.0 / 2048.0
  }

  lemma BiasIs(f: Plane, row: int)
    ensures Dda.ZBias(row, f.dy) == DepthBias(f, row)
  {
  }

  /** The first pixel of a triangle on a scanline. */
  ghost predicate FirstOf(t: Triangle, c: Bounds, left: nat, y: nat) {
    Visits(t, c, left, y) && forall x: nat :: Visits(t, c, x, y) ==> left <= x
  }

  lemma WalkHolds(f: Plane, t: Triangle, a: real, b: real, c: real, bias: real, left: nat, i: nat, y: nat)
    returns (w: real)
    requires Det(t) != 0.0 && Carries(f, t, a, b, c)
    ensures var gradient := PlaneX(t, a, b, c);
      w == Dda.At(Dda.MakeWalk(Seed(t, a, gradient, PlaneY(t, a, b, c), left, y), gradient, bias), i)
    ensures Near(w, On(f, (left + i) as real, y as real) + bias, i)
  {
    hide PlaneX, PlaneY, Seed, Det, On, Carries;
    SlopesAre(f, t, a, b, c);
    SeedOn(f, t, a, b, c, left, i, y);
    var seed := Seed(t, a, f.dx, f.dy, left, y);
    w := Dda.At(Dda.MakeWalk(seed, f.dx, bias), i);
    Dda.StaysClose(seed, f.dx, bias, i);
  }

  lemma DepthHolds(f: Plane, t: Triangle, top: int, za: nat, zb: nat, zc: nat, left: nat, x: nat, y: nat)
    requires Det(t) != 0.0 && Carries(f, t, za as real, zb as real, zc as real) && left <= x
    ensures Holds(DepthAt(t, top, za, zb, zc, left, x, y), On(f, x as real, y as real) + DepthBias(f, y - top),
                  x - left, 0xFFFF_FFFF)
  {
    hide PlaneX, PlaneY, Seed, Det, On, DepthBias;
    BiasIs(f, y - top);
    var (a, b, c) := (za as real, zb as real, zc as real);
    SlopesAre(f, t, a, b, c);
    var w := WalkHolds(f, t, a, b, c, DepthBias(f, y - top), left, x - left, y);
    assert DepthAt(t, top, za, zb, zc, left, x, y) == Saturated(w.Floor, 0xFFFF_FFFF);
  }

  lemma ChannelHolds(f: Plane, t: Triangle, va: Word, vb: Word, vc: Word, k: nat, left: nat, x: nat, y: nat)
    requires Det(t) != 0.0 && k < 4 && Carries(f, t, Channel(va, k), Channel(vb, k), Channel(vc, k)) && left <= x
    ensures Holds(Number(ChannelAt(t, va, vb, vc, k, left, x, y)), On(f, x as real, y as real), x - left, 255)
  {
    hide PlaneX, PlaneY, Seed, Det, On;
    var (a, b, c) := (Channel(va, k), Channel(vb, k), Channel(vc, k));
    var w := WalkHolds(f, t, a, b, c, 0.0, left, x - left, y);
    Powers();
    NumberOfDigits(Saturated(w.Floor, 255), 8);
  }

  lemma RowHasFirst(t: Triangle, c: Bounds, x: nat, y: nat) returns (left: nat)
    requires Visits(t, c, x, y)
    ensures FirstOf(t, c, left, y) && left == TriangleSpan(t, c, y).from <= x
  {
    left := TriangleSpan(t, c, y).from;
    forall k: nat | Visits(t, c, k, y) ensures left <= k {
    }
  }

  /** A fragment's depth, so many pixels along its row and rows down its triangle. */
  ghost predicate DepthIs(t: Triangle, c: Bounds, f: Plane, g: Fragment, left: nat) {
    && FirstOf(t, c, left, g.y) && left <= g.x
    && Holds(g.z, On(f, g.x as real, g.y as real) + DepthBias(f, g.y - Top(t, c)), g.x - left, 0xFFFF_FFFF)
  }

  ghost predicate ChannelIs(t: Triangle, c: Bounds, f: Plane, g: Fragment, k: nat, left: nat)
    requires k < 4
  {
    && FirstOf(t, c, left, g.y) && left <= g.x
    && Holds(ByteOf(g.colour, k), On(f, g.x as real, g.y as real), g.x - left, 255)
  }

  /** Every fragment of a drawn triangle carries, to within the interpolator's grid, the plane
      through its vertices' depths ... */
  lemma DepthOnPlane(t: Triangle, c: Bounds, iip: bool, v0: Vertex, v1: Vertex, v2: Vertex, f: Plane, g: Fragment)
    requires Drawable(t, iip, true) && g in TriangleFragments(t, c, iip, true, v0, v1, v2)
    requires Carries(f, t, v0.z as real, v1.z as real, v2.z as real)
    ensures exists left: nat :: DepthIs(t, c, f, g, left)
  {
    TriangleCovers(t, c, iip, true, v0, v1, v2, g);
    var left := RowHasFirst(t, c, g.x, g.y);
    DepthHolds(f, t, Top(t, c), v0.z, v1.z, v2.z, left, g.x, g.y);
    assert DepthIs(t, c, f, g, left);
  }

  lemma CarriesColour(t: Triangle, c: Bounds, deep: bool, v0: Vertex, v1: Vertex, v2: Vertex, g: Fragment)
    returns (left: nat)
    requires Drawable(t, true, deep) && g in TriangleFragments(t, c, true, deep, v0, v1, v2)
    ensures Det(t) != 0.0 && FirstOf(t, c, left, g.y) && left <= g.x
    ensures g.colour == ColourAt(t, v0.rgba, v1.rgba, v2.rgba, left, g.x, g.y)
  {
    TriangleCovers(t, c, true, deep, v0, v1, v2, g);
    left := RowHasFirst(t, c, g.x, g.y);
    hide TriangleFragments, Visits, TriangleSpan, FirstOf, ColourAt, DepthAt;
  }

  lemma ChannelIsByte(w: Word, k: nat)
    requires k < 4
    ensures Channel(w, k) == ByteOf(w, k) as real
  {
    hide Number;
  }

  lemma ChannelAlong(t: Triangle, c: Bounds, va: Word, vb: Word, vc: Word, f: Plane, g: Fragment, k: nat, left: nat)
    requires Det(t) != 0.0 && k < 4 && FirstOf(t, c, left, g.y) && left <= g.x
    requires g.colour == ColourAt(t, va, vb, vc, left, g.x, g.y)
    requires Carries(f, t, ByteOf(va, k) as real, ByteOf(vb, k) as real, ByteOf(vc, k) as real)
    ensures ChannelIs(t, c, f, g, k, left)
  {
    hide Carries, On, Holds, FirstOf, ChannelAt, ColourAt, Number, Det, Channel, ByteOf;
    ChannelIsByte(va, k);
    ChannelIsByte(vb, k);
    ChannelIsByte(vc, k);
    ChannelHolds(f, t, va, vb, vc, k, left, g.x, g.y);
    ByteOfColour(t, va, vb, vc, left, g.x, g.y, k);
  }

  /** ... and, under Gouraud shading, the plane through each of their four channels, in that
      channel's byte. */
  lemma ChannelOnPlane(t: Triangle, c: Bounds, deep: bool, v0: Vertex, v1: Vertex, v2: Vertex, f: Plane, g: Fragment,
                       k: nat)
    requires Drawable(t, true, deep) && g in TriangleFragments(t, c, true, deep, v0, v1, v2) && k < 4
    requires Carries(f, t, ByteOf(v0.rgba, k) as real, ByteOf(v1.rgba, k) as real, ByteOf(v2.rgba, k) as real)
    ensures exists left: nat :: ChannelIs(t, c, f, g, k, left)
  {
    var left := CarriesColour(t, c, deep, v0, v1, v2, g);
    hide *;
    ChannelAlong(t, c, v0.rgba, v1.rgba, v2.rgba, f, g, k, left);
  }

  /** A triangle that is not flat has such a plane for any three values. */
  lemma PlaneExists(t: Triangle, a: real, b: real, c: real) returns (f: Plane)
    requires Det(t) != 0.0
    ensures Carries(f, t, a, b, c)
  {
    var (ux, uy) := (t.p1.x - t.p0.x, t.p1.y - t.p0.y);
    var (wx, wy) := (t.p2.x - t.p0.x, t.p2.y - t.p0.y);
    var dx, dy := SolveCramer(ux, uy, wx, wy, b - a, c - a);
    f := Plane(a - dx * t.p0.x - dy * t.p0.y, dx, dy);
    Moved(dx, t.p1.x, t.p0.x);
    Moved(dy, t.p1.y, t.p0.y);
    Moved(dx, t.p2.x, t.p0.x);
    Moved(dy, t.p2.y, t.p0.y);
  }

  lemma SolveCramer(ux: real, uy: real, wx: real, wy: real, db: real, dc: real)
    returns (q: real, s: real)
    requires ux * wy - wx * uy != 0.0
    ensures q * ux + s * uy == db && q * wx + s * wy == dc
  {
    var d := ux * wy - wx * uy;
    var (n, m) := (db * wy - dc * uy, dc * ux - db * wx);
    q, s := n / d, m / d;
    Shared(n, ux, m, uy, d);
    Shared(n, wx, m, wy, d);
    assert n * ux + m * uy == db * d;
    assert n * wx + m * wy == dc * d;
    QuotientIs(n * ux + m * uy, d, db);
    QuotientIs(n * wx + m * wy, d, dc);
  }

  lemma Shared(n: real, p: real, m: real, q: real, d: real)
    requires d != 0.0
    ensures (n / d) * p + (m / d) * q == (n * p + m * q) / d
  {
    var (a, b) := (n / d, m / d);
    assert n == a * d && m == b * d;
    assert n * p + m * q == (a * p + b * q) * d;
    QuotientIs(n * p + m * q, d, a * p + b * q);
  }

  lemma ByteOfColour(t: Triangle, va: Word, vb: Word, vc: Word, left: nat, x: nat, y: nat, k: nat)
    requires Det(t) != 0.0 && k < 4
    ensures ByteOf(ColourAt(t, va, vb, vc, left, x, y), k) == Number(ChannelAt(t, va, vb, vc, k, left, x, y))
  {
    hide ChannelAt, Det, Number;
    assert ColourAt(t, va, vb, vc, left, x, y)[8 * k..8 * k + 8] == ChannelAt(t, va, vb, vc, k, left, x, y);
  }

  /** Flat shading is the last vertex's colour. */
  lemma FlatColour(t: Triangle, c: Bounds, deep: bool, v0: Vertex, v1: Vertex, v2: Vertex, g: Fragment)
    requires Drawable(t, false, deep) && g in TriangleFragments(t, c, false, deep, v0, v1, v2)
    ensures g.colour == v2.rgba
  {
    TriangleCovers(t, c, false, deep, v0, v1, v2, g);
  }
}
