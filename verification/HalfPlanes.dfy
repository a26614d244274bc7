/** The triangle as three half-planes: what the scanline walk draws, by the integer edge
    functions of the vertices' own window coordinates. */
module HalfPlanes {
  import LocalMemory
  import opened FillRule
  import opened Drawing
  import opened Coverage

  // ---- points ------------------------------------------------------------------------------------

  lemma SideTurned(a: Point, b: Point, p: Point)
    ensures Side(b, a, p) == -Side(a, b, p)
  {
  }

  /** A crossing is on the edge's line, so being past it is being on one side. */
  lemma PassesSide(lo: Point, hi: Point, p: Point)
    requires lo.y <= p.y < hi.y
    ensures Passes(lo, hi, p) <==> Side(lo, hi, p) <= 0.0
  {
    var (q, d) := (CrossX(lo, hi, p.y), hi.y - lo.y);
    var s := CrossingOnEdge(lo, hi, p.y);
    assert (hi.x - lo.x) * (p.y - lo.y) == d * (q - lo.x) by {
      assert (hi.x - lo.x) * (s * d) == d * (s * (hi.x - lo.x));
    }
    assert Side(lo, hi, p) == d * (q - p.x) by {
      assert d * (q - lo.x) - d * (p.x - lo.x) == d * (q - p.x);
    }
    if q <= p.x {
      ProductSign(d, q - p.x);
    } else {
      ProductPositive(d, q - p.x);
    }
  }

  /** An edge of a counter-clockwise outline with the point on its left: passed exactly when it
      spans the point's scanline going back. */
  lemma LeftEdge(a: Point, b: Point, p: Point)
    requires Side(a, b, p) > 0.0
    ensures Passes(a, b, p) <==> b.y <= p.y < a.y
  {
    if a.y <= p.y < b.y {
      PassesSide(a, b, p);
    } else if b.y <= p.y < a.y {
      SideTurned(a, b, p);
      PassesSide(b, a, p);
      EdgeOrderFree(a, b, p);
    }
  }

  lemma Heights(a: Point, b: Point, c: Point, p: Point)
    ensures Side(b, c, p) * (a.y - p.y) + Side(c, a, p) * (b.y - p.y) + Side(a, b, p) * (c.y - p.y) == 0.0
  {
    Cancel(a.x - p.x, a.y - p.y, b.x - p.x, b.y - p.y, c.x - p.x, c.y - p.y);
    Cornered(b, c, p);
    Cornered(c, a, p);
    Cornered(a, b, p);
  }

  /** A side by the two corners' distances from the point. */
  lemma Cornered(a: Point, b: Point, p: Point)
    ensures Side(a, b, p) == (a.x - p.x) * (b.y - p.y) - (a.y - p.y) * (b.x - p.x)
  {
    var ax, ay, bx, bz := a.x - p.x, a.y - p.y, b.x - p.x, b.y - p.y;
    assert Side(a, b, p) == (bx - ax) * (-ay) - (bz - ay) * (-ax);
  }

  lemma Cancel(ax: real, ay: real, bx: real, bz: real, cx: real, cz: real)
    ensures (bx * cz - bz * cx) * ay + (cx * ay - cz * ax) * bz + (ax * bz - ay * bx) * cz == 0.0
  {
  }

  /** Strictly left of all three edges: some corner is above the scanline and some is not. */
  lemma Straddles(a: Point, b: Point, c: Point, p: Point)
    requires Side(a, b, p) > 0.0 && Side(b, c, p) > 0.0 && Side(c, a, p) > 0.0
    ensures a.y > p.y || b.y > p.y || c.y > p.y
    ensures a.y <= p.y || b.y <= p.y || c.y <= p.y
  {
    Heights(a, b, c, p);
    var (u, v, w) := (Side(b, c, p), Side(c, a, p), Side(a, b, p));
    if a.y > p.y && b.y > p.y && c.y > p.y {
      ProductPositive(u, a.y - p.y);
      ProductPositive(v, b.y - p.y);
      ProductPositive(w, c.y - p.y);
    }
    if a.y <= p.y && b.y <= p.y && c.y <= p.y {
      NotAbove(u, a.y - p.y);
      NotAbove(v, b.y - p.y);
      NotAbove(w, c.y - p.y);
      assert a.y == p.y == b.y;
      Cornered(a, b, p);
    }
  }

  lemma NotAbove(m: real, h: real)
    requires m > 0.0 && h <= 0.0
    ensures m * h <= 0.0 && (m * h == 0.0 ==> h == 0.0)
  {
    if h < 0.0 {
      ProductPositive(m, -h);
      assert m * (-h) == -(m * h);
    }
  }

  /** Strictly inside the three half-planes is inside. */
  lemma LeftOfAll(a: Point, b: Point, c: Point, p: Point)
    requires Side(a, b, p) > 0.0 && Side(b, c, p) > 0.0 && Side(c, a, p) > 0.0
    ensures Inside(Triangle(a, b, c), p)
  {
    Straddles(a, b, c, p);
    LeftEdge(a, b, p);
    LeftEdge(b, c, p);
    LeftEdge(c, a, p);
    EdgeOrderFree(c, a, p);
    hide Side, Passes;
  }

  lemma StrictlyInside(a: Point, b: Point, c: Point, p: Point)
    requires (Side(a, b, p) > 0.0 && Side(b, c, p) > 0.0 && Side(c, a, p) > 0.0)
          || (Side(a, b, p) < 0.0 && Side(b, c, p) < 0.0 && Side(c, a, p) < 0.0)
    ensures Inside(Triangle(a, b, c), p)
  {
    if Side(a, b, p) > 0.0 {
      LeftOfAll(a, b, c, p);
    } else {
      SideTurned(a, b, p);
      SideTurned(b, c, p);
      SideTurned(c, a, p);
      hide Side;
      LeftOfAll(b, a, c, p);
      OrderFree(a, b, c, p);
    }
  }

  /** And inside is not strictly outside any of them. */
  lemma NeverOutside(a: Point, b: Point, c: Point, p: Point)
    requires Inside(Triangle(a, b, c), p)
    ensures Side(a, b, c) >= 0.0 ==> Side(a, b, p) >= 0.0 && Side(b, c, p) >= 0.0 && Side(c, a, p) >= 0.0
    ensures Side(a, b, c) <= 0.0 ==> Side(a, b, p) <= 0.0 && Side(b, c, p) <= 0.0 && Side(c, a, p) <= 0.0
  {
    Turned(a, b, c);
    SideTurned(a, c, p);
    hide Side;
    OrderFree(a, b, c, p);
    OrderFree(b, a, c, p);
    InsideSide(a, b, c, p);
    InsideSide(b, a, c, p);
    InsideSide(a, c, b, p);
  }

  lemma Turned(a: Point, b: Point, c: Point)
    ensures Side(b, c, a) == Side(a, b, c) && Side(a, c, b) == -Side(a, b, c)
  {
  }

  // ---- window coordinates ------------------------------------------------------------------------

  /** The edge function of two vertices at a pixel, all in sixteenths. */
  function Edge(o: Offset, u: Vertex, v: Vertex, x: nat, y: nat): int {
    (v.x - u.x) * (16 * y + o.y - u.y) - (v.y - u.y) * (16 * x + o.x - u.x)
  }

  /** Of three vertices: twice the signed area. */
  function Area(u: Vertex, v: Vertex, w: Vertex): int {
    (v.x - u.x) * (w.y - u.y) - (v.y - u.y) * (w.x - u.x)
  }

  lemma Product256(m: int, n: int)
    ensures (m as real / 16.0) * (n as real / 16.0) == (m * n) as real / 256.0
  {
    assert (m * n) as real == (m as real) * (n as real);
  }

  lemma Sixteenths(a: int, b: int)
    ensures a as real / 16.0 - b as real / 16.0 == (a - b) as real / 16.0
  {
  }

  lemma Scaled(x: int)
    ensures x as real == (16 * x) as real / 16.0
  {
  }

  lemma EdgeIsSide(o: Offset, u: Vertex, v: Vertex, x: nat, y: nat)
    ensures Side(Corner(o, u), Corner(o, v), Point(x as real, y as real)) == Edge(o, u, v, x, y) as real / 256.0
  {
    Scaled(x);
    Scaled(y);
    Sixteenths(v.x - o.x, u.x - o.x);
    Sixteenths(v.y - o.y, u.y - o.y);
    Sixteenths(16 * x, u.x - o.x);
    Sixteenths(16 * y, u.y - o.y);
    Product256(v.x - u.x, 16 * y + o.y - u.y);
    Product256(v.y - u.y, 16 * x + o.x - u.x);
    Difference256((v.x - u.x) * (16 * y + o.y - u.y), (v.y - u.y) * (16 * x + o.x - u.x));
  }

  lemma Difference256(a: int, b: int)
    ensures a as real / 256.0 - b as real / 256.0 == (a - b) as real / 256.0
  {
  }

  lemma AreaIsSide(o: Offset, u: Vertex, v: Vertex, w: Vertex)
    ensures Side(Corner(o, u), Corner(o, v), Corner(o, w)) == Area(u, v, w) as real / 256.0
  {
    Sixteenths(v.x - o.x, u.x - o.x);
    Sixteenths(v.y - o.y, u.y - o.y);
    Sixteenths(w.x - o.x, u.x - o.x);
    Sixteenths(w.y - o.y, u.y - o.y);
    Product256(v.x - u.x, w.y - u.y);
    Product256(v.y - u.y, w.x - u.x);
    Difference256((v.x - u.x) * (w.y - u.y), (v.y - u.y) * (w.x - u.x));
  }

  /** A drawable triangle draws each pixel of the scissor that is strictly inside its three
      edges' half-planes, whichever way round its vertices are ... */
  lemma InteriorDrawn(o: Offset, c: Bounds, iip: bool, deep: bool, v0: Vertex, v1: Vertex, v2: Vertex, x: nat, y: nat)
    requires Drawable(Corners(o, v0, v1, v2), iip, deep) && Within(c, x, y)
    requires var (a, b, d) := (Edge(o, v0, v1, x, y), Edge(o, v1, v2, x, y), Edge(o, v2, v0, x, y));
      (a > 0 && b > 0 && d > 0) || (a < 0 && b < 0 && d < 0)
    ensures HitAt(TriangleFragments(Corners(o, v0, v1, v2), c, iip, deep, v0, v1, v2), x, y)
  {
    var (t, p) := (Corners(o, v0, v1, v2), Point(x as real, y as real));
    EdgeIsSide(o, v0, v1, x, y);
    EdgeIsSide(o, v1, v2, x, y);
    EdgeIsSide(o, v2, v0, x, y);
    StrictlyInside(t.p0, t.p1, t.p2, p);
    VisitsInside(t, c, x, y);
    var f := TriangleShade(t, c, iip, deep, v0, v1, v2)(x, y);
    TriangleCovers(t, c, iip, deep, v0, v1, v2, f);
  }

  /** ... and none outside the scissor or strictly outside a half-plane. */
  lemma ExteriorSpared(o: Offset, c: Bounds, iip: bool, deep: bool, v0: Vertex, v1: Vertex, v2: Vertex,
                       f: LocalMemory.Fragment)
    requires var t := Corners(o, v0, v1, v2);
      Drawable(t, iip, deep) && f in TriangleFragments(t, c, iip, deep, v0, v1, v2)
    ensures Within(c, f.x, f.y)
    ensures var (a, b, d) := (Edge(o, v0, v1, f.x, f.y), Edge(o, v1, v2, f.x, f.y), Edge(o, v2, v0, f.x, f.y));
      && (Area(v0, v1, v2) >= 0 ==> a >= 0 && b >= 0 && d >= 0)
      && (Area(v0, v1, v2) <= 0 ==> a <= 0 && b <= 0 && d <= 0)
  {
    var (t, p) := (Corners(o, v0, v1, v2), Point(f.x as real, f.y as real));
    TriangleCovers(t, c, iip, deep, v0, v1, v2, f);
    VisitsInside(t, c, f.x, f.y);
    NeverOutside(t.p0, t.p1, t.p2, p);
    EdgeIsSide(o, v0, v1, f.x, f.y);
    EdgeIsSide(o, v1, v2, f.x, f.y);
    EdgeIsSide(o, v2, v0, f.x, f.y);
    AreaIsSide(o, v0, v1, v2);
  }
}
