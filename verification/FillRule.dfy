/** Which pixels `draw_triangle` of sim/gs/gs_ref.py covers: the scanline walk over
    exact rationals, the half-open rule it amounts to, and why triangles that
    share an edge neither overlap nor leave a gap. */
module FillRule {

  datatype Point = Point(x: real, y: real)

  datatype Triangle = Triangle(p0: Point, p1: Point, p2: Point)

  /** Inclusive bounds, as the SCISSOR register holds them. */
  datatype Scissor = Scissor(x0: int, x1: int, y0: int, y1: int)

  function Ceil(q: real): int {
    -((-q).Floor)
  }

  function Min(a: real, b: real): real { if b < a then b else a }

  function Max(a: real, b: real): real { if b > a then b else a }

  function IMin(a: int, b: int): int { if b < a then b else a }

  function IMax(a: int, b: int): int { if b > a then b else a }

  // ---- the scanline walk, as the source writes it -------------------------------

  /** An edge's ends, lower scanline first. */
  function Lower(a: Point, b: Point): Point { if a.y < b.y then a else b }

  function Upper(a: Point, b: Point): Point { if a.y < b.y then b else a }

  /** An edge spans a scanline on a half-open interval. */
  predicate Spans(a: Point, b: Point, y: real) {
    Lower(a, b).y <= y < Upper(a, b).y
  }

  /** Where it crosses. */
  function CrossX(a: Point, b: Point, y: real): real
    requires Spans(a, b, y)
  {
    var (lo, hi) := (Lower(a, b), Upper(a, b));
    lo.x + (hi.x - lo.x) * (y - lo.y) / (hi.y - lo.y)
  }

  function Crossing(a: Point, b: Point, y: real): seq<real> {
    if Spans(a, b, y) then [CrossX(a, b, y)] else []
  }

  function Crossings(t: Triangle, y: real): seq<real> {
    Crossing(t.p0, t.p1, y) + Crossing(t.p1, t.p2, y) + Crossing(t.p0, t.p2, y)
  }

  function MinY(t: Triangle): real { Min(Min(t.p0.y, t.p1.y), t.p2.y) }

  function MaxY(t: Triangle): real { Max(Max(t.p0.y, t.p1.y), t.p2.y) }

  function Top(t: Triangle, c: Scissor): int { IMax(Ceil(MinY(t)), c.y0) }

  function Bottom(t: Triangle, c: Scissor): int { IMin(Ceil(MaxY(t)) - 1, c.y1) }

  function Left(xs: seq<real>, c: Scissor): int
    requires |xs| == 2
  {
    IMax(Ceil(Min(xs[0], xs[1])), c.x0)
  }

  function Right(xs: seq<real>, c: Scissor): int
    requires |xs| == 2
  {
    IMin(Ceil(Max(xs[0], xs[1])) - 1, c.x1)
  }

  /** Every scanline within the triangle's height is crossed by exactly two of its
      edges, and no other scanline by any, so the source's early-out for fewer
      than two is never taken. */
  lemma TwoCrossings(t: Triangle, y: real)
    ensures |Crossings(t, y)| == if MinY(t) <= y < MaxY(t) then 2 else 0
  {
  }

  /** The pixels the two loops visit. */
  predicate Visits(t: Triangle, c: Scissor, x: int, y: int) {
    && Top(t, c) <= y <= Bottom(t, c)
    && var xs := Crossings(t, y as real);
    && |xs| == 2 && Left(xs, c) <= x <= Right(xs, c)
  }

  // ---- the rule it implements -------------------------------------------------------

  /** Does the edge pass at or left of the point, on the point's scanline? */
  predicate Passes(a: Point, b: Point, p: Point) {
    Spans(a, b, p.y) && CrossX(a, b, p.y) <= p.x
  }

  /** A point is inside when an odd number of edges do: the even-odd rule, with
      left and top inclusive and right and bottom exclusive. */
  predicate Inside(t: Triangle, p: Point) {
    (Passes(t.p0, t.p1, p) != Passes(t.p1, t.p2, p)) != Passes(t.p0, t.p2, p)
  }

  predicate Within(c: Scissor, x: int, y: int) {
    c.x0 <= x <= c.x1 && c.y0 <= y <= c.y1
  }

  lemma CeilBounds(q: real, n: int)
    ensures Ceil(q) <= n <==> q <= n as real
    ensures n <= Ceil(q) - 1 <==> (n as real) < q
  {
  }

  /** The walk visits exactly the scissored pixels whose origin is inside. */
  lemma VisitsInside(t: Triangle, c: Scissor, x: int, y: int)
    ensures Visits(t, c, x, y) <==> Within(c, x, y) && Inside(t, Point(x as real, y as real))
  {
    var p := Point(x as real, y as real);
    TwoCrossings(t, p.y);
    CeilBounds(MinY(t), y);
    CeilBounds(MaxY(t), y);
    var xs := Crossings(t, p.y);
    if |xs| == 2 {
      CeilBounds(Min(xs[0], xs[1]), x);
      CeilBounds(Max(xs[0], xs[1]), x);
    }
  }

  /** The order of the vertices does not matter. */
  lemma OrderFree(a: Point, b: Point, c: Point, p: Point)
    ensures Inside(Triangle(a, b, c), p) == Inside(Triangle(b, a, c), p)
    ensures Inside(Triangle(a, b, c), p) == Inside(Triangle(a, c, b), p)
  {
    EdgeOrderFree(a, b, p);
    EdgeOrderFree(b, c, p);
    EdgeOrderFree(a, c, p);
  }

  lemma EdgeOrderFree(a: Point, b: Point, p: Point)
    ensures Passes(a, b, p) == Passes(b, a, p)
  {
    if a.y != b.y {
      assert Lower(a, b) == Lower(b, a) && Upper(a, b) == Upper(b, a);
    }
  }

  // ---- triangles that share an edge ---------------------------------------------------

  /** Twice the signed area of (a, c, p): which side of the line through `a` and
      `c` the point `p` is on. */
  function Side(a: Point, c: Point, p: Point): real {
    (c.x - a.x) * (p.y - a.y) - (c.y - a.y) * (p.x - a.x)
  }

  /** How far along an edge its crossing is. */
  lemma CrossingOnEdge(a: Point, b: Point, y: real) returns (s: real)
    requires Spans(a, b, y)
    ensures var (lo, hi) := (Lower(a, b), Upper(a, b));
      && 0.0 <= s <= 1.0
      && y - lo.y == s * (hi.y - lo.y)
      && CrossX(a, b, y) - lo.x == s * (hi.x - lo.x)
  {
    var lo, hi := Lower(a, b), Upper(a, b);
    var d := hi.y - lo.y;
    s := (y - lo.y) / d;
    Quotient(y - lo.y, d);
    QuotientOfProduct(hi.x - lo.x, y - lo.y, d);
  }

  lemma Quotient(n: real, d: real)
    requires 0.0 <= n <= d && 0.0 < d
    ensures n == (n / d) * d && 0.0 <= n / d <= 1.0
  {
    var q := n / d;
    assert n == q * d;
    if q < 0.0 { Grows(q, 0.0, d); assert false; }
    if q > 1.0 { Grows(1.0, q, d); assert false; }
  }

  lemma Grows(a: real, b: real, d: real)
    requires a < b && 0.0 < d
    ensures a * d < b * d
  {
  }

  lemma QuotientOfProduct(m: real, n: real, d: real)
    requires 0.0 < d
    ensures m * n / d == (n / d) * m
  {
    var q := n / d;
    assert n == q * d;
    assert m * n == (q * m) * d;
  }

  /** Moving a fraction of the way along an edge moves that fraction of the way
      between the sides of its ends. */
  lemma SideAlong(a: Point, c: Point, lo: Point, hi: Point, p: Point, s: real)
    requires p.x - lo.x == s * (hi.x - lo.x) && p.y - lo.y == s * (hi.y - lo.y)
    ensures Side(a, c, p) - Side(a, c, lo) == s * (Side(a, c, hi) - Side(a, c, lo))
  {
    var m, n := c.x - a.x, c.y - a.y;
    assert Side(a, c, p) - Side(a, c, lo) == m * (p.y - lo.y) - n * (p.x - lo.x);
    assert Side(a, c, hi) - Side(a, c, lo) == m * (hi.y - lo.y) - n * (hi.x - lo.x);
    assert m * (s * (hi.y - lo.y)) == s * (m * (hi.y - lo.y));
    assert n * (s * (hi.x - lo.x)) == s * (n * (hi.x - lo.x));
  }

  /** An edge with both ends on one side of a line crosses every scanline there. */
  lemma CrossingSide(a: Point, c: Point, e: Point, f: Point, y: real)
    requires Spans(e, f, y)
    ensures Side(a, c, e) >= 0.0 && Side(a, c, f) >= 0.0 ==> Side(a, c, Point(CrossX(e, f, y), y)) >= 0.0
    ensures Side(a, c, e) <= 0.0 && Side(a, c, f) <= 0.0 ==> Side(a, c, Point(CrossX(e, f, y), y)) <= 0.0
  {
    var lo, hi := Lower(e, f), Upper(e, f);
    var s := CrossingOnEdge(e, f, y);
    SideAlong(a, c, lo, hi, Point(CrossX(e, f, y), y), s);
    Between(Side(a, c, lo), Side(a, c, hi), s);
  }

  lemma Between(u: real, v: real, s: real)
    requires 0.0 <= s <= 1.0
    ensures u >= 0.0 && v >= 0.0 ==> u + s * (v - u) >= 0.0
    ensures u <= 0.0 && v <= 0.0 ==> u + s * (v - u) <= 0.0
  {
    assert u + s * (v - u) == (1.0 - s) * u + s * v;
    ProductSign(1.0 - s, u);
    ProductSign(s, v);
  }

  lemma ProductSign(s: real, u: real)
    requires 0.0 <= s
    ensures u >= 0.0 ==> s * u >= 0.0
    ensures u <= 0.0 ==> s * u <= 0.0
  {
  }

  /** Moving right along a scanline moves towards the side the line leans to. */
  lemma SideAcross(a: Point, c: Point, y: real, x1: real, x2: real)
    ensures Side(a, c, Point(x2, y)) - Side(a, c, Point(x1, y)) == (a.y - c.y) * (x2 - x1)
  {
  }

  /** A point inside has one of the crossings at or left of it and another right
      of it; call the corners off the shared edge's line by the side they are on. */
  lemma InsideBetween(t: Triangle, p: Point) returns (l: real, r: real)
    requires Inside(t, p)
    ensures l <= p.x < r && l in Crossings(t, p.y) && r in Crossings(t, p.y)
  {
    TwoCrossings(t, p.y);
    var xs := Crossings(t, p.y);
    assert |xs| == 2;
    l, r := Min(xs[0], xs[1]), Max(xs[0], xs[1]);
  }

  lemma CrossingsSide(a: Point, b: Point, c: Point, y: real, x: real)
    requires x in Crossings(Triangle(a, b, c), y)
    ensures Side(a, c, b) >= 0.0 ==> Side(a, c, Point(x, y)) >= 0.0
    ensures Side(a, c, b) <= 0.0 ==> Side(a, c, Point(x, y)) <= 0.0
  {
    assert Side(a, c, a) == 0.0 && Side(a, c, c) == 0.0;
    if Spans(a, b, y) { CrossingSide(a, c, a, b, y); }
    if Spans(b, c, y) { CrossingSide(a, c, b, c, y); }
    if Spans(a, c, y) { CrossingSide(a, c, a, c, y); }
  }

  /** A triangle with a level edge on top does not cover that edge's scanline. */
  lemma LevelTop(a: Point, b: Point, c: Point, p: Point)
    requires b.y < a.y == c.y == p.y
    ensures !Inside(Triangle(a, b, c), p)
  {
  }

  lemma LevelSide(a: Point, c: Point, p: Point)
    requires a.y == c.y
    ensures Side(a, c, p) == (c.x - a.x) * (p.y - a.y)
  {
  }

  lemma SameFactor(m: real, u: real, v: real)
    requires m * u > 0.0 && m * v < 0.0
    ensures u < 0.0 || v < 0.0
    ensures m != 0.0
  {
    if u >= 0.0 && v >= 0.0 {
      if m >= 0.0 { ProductSign(m, v); } else { ProductSign(-m, u); }
    }
  }

  predicate SameSide(u: real, v: real) {
    (u >= 0.0 ==> v >= 0.0) && (u <= 0.0 ==> v <= 0.0)
  }

  lemma CornersSide(a: Point, b: Point, c: Point, p: Point) returns (l: real, r: real)
    requires Inside(Triangle(a, b, c), p)
    ensures l <= p.x < r
    ensures SameSide(Side(a, c, b), Side(a, c, Point(l, p.y)))
    ensures SameSide(Side(a, c, b), Side(a, c, Point(r, p.y)))
  {
    l, r := InsideBetween(Triangle(a, b, c), p);
    CrossingsSide(a, b, c, p.y, l);
    CrossingsSide(a, b, c, p.y, r);
  }

  /** Every point of a triangle is on its third corner's side of an edge, and off
      the edge's line on the side the half-open rule leaves out. */
  lemma InsideSide(a: Point, b: Point, c: Point, p: Point)
    requires Inside(Triangle(a, b, c), p)
    ensures Side(a, c, b) >= 0.0 ==> Side(a, c, p) >= 0.0 && (a.y < c.y ==> Side(a, c, p) > 0.0)
    ensures Side(a, c, b) <= 0.0 ==> Side(a, c, p) <= 0.0 && (a.y > c.y ==> Side(a, c, p) < 0.0)
  {
    var l, r := CornersSide(a, b, c, p);
    WeighSides(a, c, p, l, r);
  }

  lemma WeighSides(a: Point, c: Point, p: Point, l: real, r: real)
    requires l <= p.x < r
    ensures var (gl, g, gr) := (Side(a, c, Point(l, p.y)), Side(a, c, p), Side(a, c, Point(r, p.y)));
      && (gl >= 0.0 && gr >= 0.0 ==> g >= 0.0 && (a.y < c.y ==> g > 0.0))
      && (gl <= 0.0 && gr <= 0.0 ==> g <= 0.0 && (a.y > c.y ==> g < 0.0))
  {
    assert p == Point(p.x, p.y);
    SideAcross(a, c, p.y, l, p.x);
    SideAcross(a, c, p.y, p.x, r);
    Weigh(a.y - c.y, p.x - l, r - p.x,
          Side(a, c, Point(l, p.y)), Side(a, c, p), Side(a, c, Point(r, p.y)));
  }

  /** A quantity changing at rate `m` from one crossing over the point to the other. */
  lemma Weigh(m: real, dl: real, dr: real, gl: real, g: real, gr: real)
    requires dl >= 0.0 && dr > 0.0 && g - gl == m * dl && gr - g == m * dr
    ensures gl >= 0.0 && gr >= 0.0 ==> g >= 0.0 && (m < 0.0 ==> g > 0.0)
    ensures gl <= 0.0 && gr <= 0.0 ==> g <= 0.0 && (m > 0.0 ==> g < 0.0)
  {
    if m > 0.0 {
      ProductSign(m, dl);
      ProductPositive(m, dr);
    } else if m < 0.0 {
      ProductSign(-m, dl);
      ProductPositive(-m, dr);
    }
  }

  lemma ProductPositive(m: real, u: real)
    requires m > 0.0 && u > 0.0
    ensures m * u > 0.0
  {
  }

  /** Strictly on opposite sides of the line through `a` and `c`. */
  predicate Opposite(a: Point, c: Point, b: Point, d: Point) {
    (Side(a, c, b) > 0.0 && Side(a, c, d) < 0.0) || (Side(a, c, b) < 0.0 && Side(a, c, d) > 0.0)
  }

  /** No pixel is drawn by both of two triangles on opposite sides of an edge. */
  lemma NoOverlap(a: Point, b: Point, c: Point, d: Point, p: Point)
    requires Opposite(a, c, b, d)
    ensures !(Inside(Triangle(a, b, c), p) && Inside(Triangle(a, d, c), p))
  {
    if Inside(Triangle(a, b, c), p) && Inside(Triangle(a, d, c), p) {
      InsideSide(a, b, c, p);
      InsideSide(a, d, c, p);
      assert Side(a, c, p) == 0.0 && a.y == c.y;
      LevelSide(a, c, p);
      LevelSide(a, c, b);
      LevelSide(a, c, d);
      LevelEdge(a, b, c, d, p);
    }
  }

  lemma LevelEdge(a: Point, b: Point, c: Point, d: Point, p: Point)
    requires Opposite(a, c, b, d) && a.y == c.y && Side(a, c, p) == 0.0
    ensures !(Inside(Triangle(a, b, c), p) && Inside(Triangle(a, d, c), p))
  {
    var m := c.x - a.x;
    LevelSide(a, c, p);
    LevelSide(a, c, b);
    LevelSide(a, c, d);
    if Side(a, c, b) > 0.0 {
      SameFactor(m, b.y - a.y, d.y - a.y);
    } else {
      SameFactor(m, d.y - a.y, b.y - a.y);
    }
    ZeroFactor(m, p.y - a.y);
    if b.y < a.y { LevelTop(a, b, c, p); } else { LevelTop(a, d, c, p); }
  }

  lemma ZeroFactor(m: real, u: real)
    requires m != 0.0 && m * u == 0.0
    ensures u == 0.0
  {
  }

  /** Even-odd on the outline a, b, c, d, in which the shared edge is not. */
  predicate InsideQuad(a: Point, b: Point, c: Point, d: Point, p: Point) {
    ((Passes(a, b, p) != Passes(b, c, p)) != Passes(c, d, p)) != Passes(d, a, p)
  }

  /** The seamless rule: two triangles sharing an edge, with their other corners
      on opposite sides of it, draw every pixel of the quadrilateral they make
      up exactly once -- nothing twice, and nothing along the shared edge
      missed -- and no pixel outside it. */
  lemma Seamless(a: Point, b: Point, c: Point, d: Point, k: Scissor, x: int, y: int)
    requires Opposite(a, c, b, d)
    ensures var (first, second) := (Visits(Triangle(a, b, c), k, x, y), Visits(Triangle(a, c, d), k, x, y));
      && !(first && second)
      && (first || second <==> Within(k, x, y) && InsideQuad(a, b, c, d, Point(x as real, y as real)))
  {
    var p := Point(x as real, y as real);
    VisitsInside(Triangle(a, b, c), k, x, y);
    VisitsInside(Triangle(a, c, d), k, x, y);
    OrderFree(a, c, d, p);
    NoOverlap(a, b, c, d, p);
    EdgeOrderFree(c, d, p);
    EdgeOrderFree(d, a, p);
  }
}
