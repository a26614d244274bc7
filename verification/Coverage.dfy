/** Which pixels a drawn primitive's fragments land on, and that each is hit once. */
module Coverage {
  import opened LocalMemory
  import opened FillRule
  import opened Drawing

  /** A shade that puts its fragments where it is asked to. */
  ghost predicate Placed(shade: Shade) {
    forall x: nat, y: nat :: shade(x, y).x == x && shade(x, y).y == y
  }

  ghost predicate Once(fs: seq<Fragment>) {
    forall i, j :: 0 <= i < j < |fs| ==> fs[i].x != fs[j].x || fs[i].y != fs[j].y
  }

  lemma {:induction false} RowHits(shade: Shade, x0: nat, y: nat, n: nat, f: Fragment)
    requires Placed(shade)
    ensures f in Row(shade, x0, y, n) <==> f.y == y && x0 <= f.x < x0 + n && f == shade(f.x, f.y)
    ensures Once(Row(shade, x0, y, n))
  {
    if n > 0 {
      RowHits(shade, x0, y, n - 1, f);
      RowLength(shade, x0, y, n);
      RowLength(shade, x0, y, n - 1);
      forall i | 0 <= i < n - 1 ensures Row(shade, x0, y, n)[i].x != x0 + n - 1 {
        var g := Row(shade, x0, y, n - 1)[i];
        assert g in Row(shade, x0, y, n - 1);
        RowHits(shade, x0, y, n - 1, g);
      }
    }
  }

  lemma {:induction false} RowLength(shade: Shade, x0: nat, y: nat, n: nat)
    ensures |Row(shade, x0, y, n)| == n
  {
    if n > 0 {
      RowLength(shade, x0, y, n - 1);
    }
  }

  lemma {:induction false} RowsHit(shade: Shade, span: nat -> Span, y0: nat, m: nat, f: Fragment)
    requires Placed(shade)
    ensures f in Rows(shade, span, y0, m)
       <==> y0 <= f.y < y0 + m && span(f.y).from <= f.x <= span(f.y).to && f == shade(f.x, f.y)
  {
    if m > 0 {
      var y := y0 + m - 1;
      RowsHit(shade, span, y0, m - 1, f);
      RowHits(shade, span(y).from, y, Extent(span(y).from, span(y).to), f);
    }
  }

  lemma {:induction false} RowsOnce(shade: Shade, span: nat -> Span, y0: nat, m: nat)
    requires Placed(shade)
    ensures Once(Rows(shade, span, y0, m))
  {
    if m > 0 {
      var y := y0 + m - 1;
      var above, row := Rows(shade, span, y0, m - 1), Row(shade, span(y).from, y, Extent(span(y).from, span(y).to));
      RowsOnce(shade, span, y0, m - 1);
      RowHits(shade, span(y).from, y, Extent(span(y).from, span(y).to), shade(0, 0));
      RowBelow(shade, span, y0, m);
      OnceJoined(above, row);
    }
  }

  lemma RowBelow(shade: Shade, span: nat -> Span, y0: nat, m: nat)
    requires Placed(shade) && m > 0
    ensures var (y, s) := (y0 + m - 1, span(y0 + m - 1));
      forall f, g :: f in Rows(shade, span, y0, m - 1) && g in Row(shade, s.from, y, Extent(s.from, s.to))
        ==> f.y != g.y
  {
    hide Rows, Row;
    var y := y0 + m - 1;
    var s := span(y);
    forall f, g | f in Rows(shade, span, y0, m - 1) && g in Row(shade, s.from, y, Extent(s.from, s.to))
      ensures f.y != g.y
    {
      RowsHit(shade, span, y0, m - 1, f);
      RowHits(shade, s.from, y, Extent(s.from, s.to), g);
    }
  }

  lemma OnceJoined(a: seq<Fragment>, b: seq<Fragment>)
    requires Once(a) && Once(b)
    requires forall f, g :: f in a && g in b ==> f.x != g.x || f.y != g.y
    ensures Once(a + b)
  {
    var fs := a + b;
    forall i, j | 0 <= i < j < |fs| ensures fs[i].x != fs[j].x || fs[i].y != fs[j].y {
      if i < |a| <= j {
        assert fs[i] in a && fs[j] in b;
      }
    }
  }

  /** A sprite's fragments: its rectangle, each pixel once, all of one depth and colour. */
  lemma SpriteCovers(o: Offset, c: Bounds, v0: Vertex, v1: Vertex, f: Fragment)
    ensures var (across, down) := (SpriteSpan(o, c, v0, v1), SpriteRows(o, c, v0, v1));
      f in SpriteFragments(o, c, v0, v1)
      <==> across.from <= f.x <= across.to && down.from <= f.y <= down.to && f == Fragment(f.x, f.y, v1.z, v1.rgba)
    ensures Once(SpriteFragments(o, c, v0, v1))
  {
    var (across, down) := (SpriteSpan(o, c, v0, v1), SpriteRows(o, c, v0, v1));
    RowsHit(SpriteShade(v1), (y: nat) => across, down.from, Extent(down.from, down.to), f);
    RowsOnce(SpriteShade(v1), (y: nat) => across, down.from, Extent(down.from, down.to));
  }

  /** The rectangle in sixteenths of a pixel: a pixel of the scissor is drawn when its right and
      bottom edges are past the nearer corner and not past the farther one. */
  lemma SpriteRectangle(o: Offset, c: Bounds, v0: Vertex, v1: Vertex, f: Fragment)
    ensures f in SpriteFragments(o, c, v0, v1) <==>
      && c.x0 <= f.x <= c.x1 && c.y0 <= f.y <= c.y1 && f.z == v1.z && f.colour == v1.rgba
      && (v0.x - o.x < 16 * (f.x + 1) || v1.x - o.x < 16 * (f.x + 1))
      && (16 * (f.x + 1) <= v0.x - o.x || 16 * (f.x + 1) <= v1.x - o.x)
      && (v0.y - o.y < 16 * (f.y + 1) || v1.y - o.y < 16 * (f.y + 1))
      && (16 * (f.y + 1) <= v0.y - o.y || 16 * (f.y + 1) <= v1.y - o.y)
  {
    SpriteCovers(o, c, v0, v1, f);
  }

  /** A drawable triangle's fragments: one for each pixel of the fill rule. */
  lemma TriangleCovers(t: Triangle, c: Bounds, iip: bool, deep: bool, v0: Vertex, v1: Vertex, v2: Vertex, f: Fragment)
    requires Drawable(t, iip, deep)
    ensures f in TriangleFragments(t, c, iip, deep, v0, v1, v2)
       <==> Visits(t, c, f.x, f.y) && f == TriangleShade(t, c, iip, deep, v0, v1, v2)(f.x, f.y)
    ensures Once(TriangleFragments(t, c, iip, deep, v0, v1, v2))
  {
    var shade, span := TriangleShade(t, c, iip, deep, v0, v1, v2), (y: nat) => TriangleSpan(t, c, y);
    RowsHit(shade, span, Top(t, c), Extent(Top(t, c), Bottom(t, c)), f);
    RowsOnce(shade, span, Top(t, c), Extent(Top(t, c), Bottom(t, c)));
    TwoCrossings(t, f.y as real);
  }

  predicate HitAt(fs: seq<Fragment>, x: nat, y: nat) {
    exists k :: 0 <= k < |fs| && fs[k].x == x && fs[k].y == y
  }

  /** The same three corners, in any order. */
  predicate SameCorners(t: Triangle, s: Triangle) {
    || t == s || t == Triangle(s.p0, s.p2, s.p1) || t == Triangle(s.p1, s.p0, s.p2)
    || t == Triangle(s.p1, s.p2, s.p0) || t == Triangle(s.p2, s.p0, s.p1) || t == Triangle(s.p2, s.p1, s.p0)
  }

  /** Corner order changes neither coverage nor whether there is anything to draw. */
  lemma SameCornersSame(t: Triangle, s: Triangle, c: Bounds, x: nat, y: nat)
    requires SameCorners(t, s)
    ensures Visits(t, c, x, y) <==> Visits(s, c, x, y)
  {
    var p := Point(x as real, y as real);
    VisitsInside(t, c, x, y);
    VisitsInside(s, c, x, y);
    OrderFree(s.p0, s.p1, s.p2, p);
    OrderFree(s.p1, s.p0, s.p2, p);
    OrderFree(s.p0, s.p2, s.p1, p);
    OrderFree(s.p2, s.p0, s.p1, p);
  }

  lemma SideTurns(a: Point, b: Point, c: Point)
    ensures Side(a, b, c) == Side(b, c, a) == -Side(a, c, b)
  {
  }

  lemma NotFlat(t: Triangle)
    requires Side(t.p0, t.p1, t.p2) != 0.0
    ensures MinY(t) != MaxY(t) && Det(t) != 0.0
  {
    assert MinY(t) == MaxY(t) ==> t.p0.y == t.p1.y == t.p2.y;
  }

  /** A triangle with a corner off one of its edges' lines can be drawn. */
  lemma SameCornersDrawable(t: Triangle, s: Triangle, iip: bool, deep: bool)
    requires SameCorners(t, s) && Side(s.p0, s.p1, s.p2) != 0.0
    ensures Drawable(t, iip, deep)
  {
    SideTurns(s.p0, s.p1, s.p2);
    SideTurns(s.p1, s.p2, s.p0);
    SideTurns(s.p2, s.p0, s.p1);
    NotFlat(t);
  }

  /** Fragment lists of two triangles that no pixel is in twice. */
  lemma TwoTriangles(t: Triangle, u: Triangle, c: Bounds, iip: bool, deep: bool, v: seq<Vertex>, x: nat, y: nat)
    requires |v| == 6 && Drawable(t, iip, deep) && Drawable(u, iip, deep)
    requires forall i: nat, j: nat :: !(Visits(t, c, i, j) && Visits(u, c, i, j))
    ensures var fs := TriangleFragments(t, c, iip, deep, v[0], v[1], v[2])
                    + TriangleFragments(u, c, iip, deep, v[3], v[4], v[5]);
      Once(fs) && (HitAt(fs, x, y) <==> Visits(t, c, x, y) || Visits(u, c, x, y))
  {
    var fs := TriangleFragments(t, c, iip, deep, v[0], v[1], v[2]);
    var gs := TriangleFragments(u, c, iip, deep, v[3], v[4], v[5]);
    var s := TriangleShade(t, c, iip, deep, v[0], v[1], v[2])(x, y);
    var w := TriangleShade(u, c, iip, deep, v[3], v[4], v[5])(x, y);
    forall f, g | f in fs && g in gs ensures f.x != g.x || f.y != g.y {
      TriangleCovers(t, c, iip, deep, v[0], v[1], v[2], f);
      TriangleCovers(u, c, iip, deep, v[3], v[4], v[5], g);
    }
    TriangleCovers(t, c, iip, deep, v[0], v[1], v[2], s);
    TriangleCovers(u, c, iip, deep, v[3], v[4], v[5], w);
    OnceJoined(fs, gs);
    var all := fs + gs;
    if Visits(t, c, x, y) {
      assert s in all;
    }
    if Visits(u, c, x, y) {
      assert w in all;
    }
    if HitAt(all, x, y) {
      var k :| 0 <= k < |all| && all[k].x == x && all[k].y == y;
      assert all[k] in fs || all[k] in gs;
      TriangleCovers(t, c, iip, deep, v[0], v[1], v[2], all[k]);
      TriangleCovers(u, c, iip, deep, v[3], v[4], v[5], all[k]);
    }
  }

  /** Two triangles on either side of an edge, their corners in any order, drawn one after
      the other: every pixel of the quadrilateral gets exactly one fragment, and no other
      pixel gets any. */
  lemma SharedEdge(a: Point, b: Point, p: Point, d: Point, t: Triangle, u: Triangle, c: Bounds, iip: bool, deep: bool,
                   v: seq<Vertex>, x: nat, y: nat)
    requires |v| == 6 && Opposite(a, p, b, d)
    requires SameCorners(t, Triangle(a, b, p)) && SameCorners(u, Triangle(a, p, d))
    ensures var fs := TriangleFragments(t, c, iip, deep, v[0], v[1], v[2])
                    + TriangleFragments(u, c, iip, deep, v[3], v[4], v[5]);
      && Once(fs)
      && (HitAt(fs, x, y) <==> Within(c, x, y) && InsideQuad(a, b, p, d, Point(x as real, y as real)))
  {
    SideTurns(a, b, p);
    SameCornersDrawable(t, Triangle(a, b, p), iip, deep);
    SameCornersDrawable(u, Triangle(a, p, d), iip, deep);
    forall i: nat, j: nat ensures !(Visits(t, c, i, j) && Visits(u, c, i, j)) {
      SameCornersSame(t, Triangle(a, b, p), c, i, j);
      SameCornersSame(u, Triangle(a, p, d), c, i, j);
      Seamless(a, b, p, d, c, i, j);
    }
    TwoTriangles(t, u, c, iip, deep, v, x, y);
    SameCornersSame(t, Triangle(a, b, p), c, x, y);
    SameCornersSame(u, Triangle(a, p, d), c, x, y);
    Seamless(a, b, p, d, c, x, y);
  }
}
