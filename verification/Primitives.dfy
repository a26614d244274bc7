/** Any sequence of sprites and triangles, drawn through the depth buffer: what each pixel
    of memory comes to, in terms of the primitives that cover it. */
module Primitives {
  import opened Wrappers
  import opened LocalMemory
  import opened FillRule
  import opened Drawing
  import opened Coverage
  import opened DepthBuffer

  /** The registers a sequence of primitives is drawn under. */
  datatype Setting = Setting(r: Registers, iip: bool, o: Offset, c: Bounds)

  /** Local memory after a list of primitives. */
  function After(s: Setting, was: Canvas, ps: seq<Primitive>): Canvas {
    if ps == [] then was
    else Drawn(s.r, s.iip, s.o, s.c, After(s, was, ps[..|ps| - 1]), ps[|ps| - 1])
  }

  function Deep(s: Setting): bool { ZSetupOf(s.r).Some? }

  function PiecesOf(s: Setting, p: Primitive): seq<Fragment> { Fragments(s.o, s.c, s.iip, Deep(s), p) }

  // ---- what a primitive covers -----------------------------------------------------------------

  /** The pixels of a sprite's clipped rectangle, or of a drawable triangle by the fill rule. */
  predicate Covers(s: Setting, p: Primitive, x: nat, y: nat) {
    match p
    case SpriteOf(v0, v1) =>
      var (across, down) := (SpriteSpan(s.o, s.c, v0, v1), SpriteRows(s.o, s.c, v0, v1));
      across.from <= x <= across.to && down.from <= y <= down.to
    case TriangleOf(v0, v1, v2) =>
      var t := Corners(s.o, v0, v1, v2);
      Drawable(t, s.iip, Deep(s)) && Visits(t, s.c, x, y)
  }

  /** Its fragment there: the second vertex's depth and colour, or the interpolated ones. */
  function At(s: Setting, p: Primitive, x: nat, y: nat): (f: Fragment)
    requires Covers(s, p, x, y)
    ensures f.x == x && f.y == y
  {
    match p
    case SpriteOf(v0, v1) => SpriteShade(v1)(x, y)
    case TriangleOf(v0, v1, v2) =>
      TriangleShade(Corners(s.o, v0, v1, v2), s.c, s.iip, Deep(s), v0, v1, v2)(x, y)
  }

  lemma CoversOnce(s: Setting, p: Primitive, f: Fragment)
    ensures f in PiecesOf(s, p) <==> Covers(s, p, f.x, f.y) && f == At(s, p, f.x, f.y)
    ensures Once(PiecesOf(s, p))
  {
    match p
    case SpriteOf(v0, v1) => SpriteCovers(s.o, s.c, v0, v1, f);
    case TriangleOf(v0, v1, v2) =>
      var t := Corners(s.o, v0, v1, v2);
      if Drawable(t, s.iip, Deep(s)) {
        TriangleCovers(t, s.c, s.iip, Deep(s), v0, v1, v2, f);
      }
  }

  /** The scissor keeps every fragment in the buffer, if it is no wider than it. */
  lemma ScissorKeepsInside(s: Setting, fb: Frame, height: nat, p: Primitive)
    requires s.c.x1 < 64 * fb.fbw && s.c.y1 < height
    ensures AllInBuffer(fb, height, PiecesOf(s, p))
  {
    var fs := PiecesOf(s, p);
    forall k | 0 <= k < |fs| ensures InBuffer(fb, height, fs[k].x, fs[k].y) {
      assert fs[k] in fs;
      CoversOnce(s, p, fs[k]);
      CoveredWithin(s, p, fs[k].x, fs[k].y);
    }
  }

  lemma CoveredWithin(s: Setting, p: Primitive, x: nat, y: nat)
    requires Covers(s, p, x, y)
    ensures Within(s.c, x, y)
  {
    if p.TriangleOf? {
      VisitsInside(Corners(s.o, p.v0, p.v1, p.v2), s.c, x, y);
    }
  }

  // ---- a pixel's history, by primitive ----------------------------------------------------------

  /** One fragment for each primitive: its own where it covers the pixel, and one beside
      the pixel where it does not. */
  function Touch(s: Setting, p: Primitive, x: nat, y: nat): Fragment {
    if Covers(s, p, x, y) then At(s, p, x, y) else Fragment(x + 1, y, 0, seq(32, i => false))
  }

  function Column(s: Setting, ps: seq<Primitive>, x: nat, y: nat): (fs: seq<Fragment>)
    ensures |fs| == |ps|
  {
    seq(|ps|, k requires 0 <= k < |ps| => Touch(s, ps[k], x, y))
  }

  /** A list that hits the pixel at most once does what its one fragment there does. */
  lemma {:induction false} ShadeOnce(r: Registers, fb: Frame, zs: ZSetup, p: Pixel, fs: seq<Fragment>, x: nat, y: nat)
    requires ProperPixel(fb, p) && Once(fs)
    ensures !HitAt(fs, x, y) ==> ShadeAll(r, fb, zs, p, fs, x, y) == p
    ensures forall f :: f in fs && f.x == x && f.y == y
              ==> ShadeAll(r, fb, zs, p, fs, x, y) == Shaded(r, fb, zs, p, f)
  {
    if fs != [] {
      var n := |fs| - 1;
      ShadeOnce(r, fb, zs, p, fs[..n], x, y);
      if HitAt(fs[..n], x, y) {
        var k :| 0 <= k < n && fs[..n][k].x == x && fs[..n][k].y == y;
        assert fs[k].x == x && fs[k].y == y && fs[k] in fs[..n];
      }
    }
  }

  lemma PieceShades(s: Setting, fb: Frame, zs: ZSetup, q: Pixel, p: Primitive, x: nat, y: nat)
    requires ProperPixel(fb, q)
    ensures ShadeAll(s.r, fb, zs, q, PiecesOf(s, p), x, y)
         == if Covers(s, p, x, y) then Shaded(s.r, fb, zs, q, At(s, p, x, y)) else q
  {
    var fs := PiecesOf(s, p);
    CoversOnce(s, p, Touch(s, p, x, y));
    ShadeOnce(s.r, fb, zs, q, fs, x, y);
    if HitAt(fs, x, y) {
      var k :| 0 <= k < |fs| && fs[k].x == x && fs[k].y == y;
      CoversOnce(s, p, fs[k]);
    }
  }

  /** What the depth claims ask of a setting: formats that can be drawn, a depth test that
      keeps the nearer fragment, buffers that share no page, a scissor inside them. */
  predicate Ready(s: Setting, fb: Frame, zs: ZSetup, height: nat) {
    && FbSetup(s.r) == Some(fb) && ZSetupOf(s.r) == Some(zs) && Separate(fb, zs, height)
    && s.c.x1 < 64 * fb.fbw && s.c.y1 < height
  }

  /** A pixel of both buffers. */
  predicate InPlay(fb: Frame, zs: ZSetup, height: nat, x: nat, y: nat) {
    InBuffer(fb, height, x, y) && Backed(fb, zs, x, y)
  }

  /** One primitive changes the pixels it covers, as its fragment there does, and no other. */
  lemma OneDrawn(s: Setting, fb: Frame, zs: ZSetup, height: nat, was: Canvas, p: Primitive, x: nat, y: nat)
    requires Ready(s, fb, zs, height) && InPlay(fb, zs, height, x, y)
    ensures Read(fb, zs, Drawn(s.r, s.iip, s.o, s.c, was, p).vm, x, y)
         == var q := Read(fb, zs, was.vm, x, y);
            if Covers(s, p, x, y) then Shaded(s.r, fb, zs, q, At(s, p, x, y)) else q
  {
    ScissorKeepsInside(s, fb, height, p);
    Refines(s.r, fb, zs, height, was, PiecesOf(s, p), x, y);
    PieceShades(s, fb, zs, Read(fb, zs, was.vm, x, y), p, x, y);
  }

  lemma ColumnNext(s: Setting, fb: Frame, zs: ZSetup, q: Pixel, ps: seq<Primitive>, x: nat, y: nat)
    requires ProperPixel(fb, q) && ps != []
    ensures ShadeAll(s.r, fb, zs, q, Column(s, ps, x, y), x, y)
         == var (before, p) := (ShadeAll(s.r, fb, zs, q, Column(s, ps[..|ps| - 1], x, y), x, y), ps[|ps| - 1]);
            if Covers(s, p, x, y) then Shaded(s.r, fb, zs, before, At(s, p, x, y)) else before
  {
    assert Column(s, ps, x, y)[..|ps| - 1] == Column(s, ps[..|ps| - 1], x, y);
  }

  lemma {:induction false} PixelAfter(s: Setting, fb: Frame, zs: ZSetup, height: nat, was: Canvas, ps: seq<Primitive>,
                                      x: nat, y: nat)
    requires Ready(s, fb, zs, height) && InPlay(fb, zs, height, x, y)
    ensures Read(fb, zs, After(s, was, ps).vm, x, y)
         == ShadeAll(s.r, fb, zs, Read(fb, zs, was.vm, x, y), Column(s, ps, x, y), x, y)
  {
    if ps != [] {
      var n := |ps| - 1;
      PixelAfter(s, fb, zs, height, was, ps[..n], x, y);
      OneDrawn(s, fb, zs, height, After(s, was, ps[..n]), ps[n], x, y);
      ColumnNext(s, fb, zs, Read(fb, zs, was.vm, x, y), ps, x, y);
    }
  }

  // ---- the claims ---------------------------------------------------------------------------------

  /** Does a primitive put this clamped depth at the pixel? */
  predicate Reaches(s: Setting, zs: ZSetup, p: Primitive, x: nat, y: nat, d: nat) {
    Covers(s, p, x, y) && Clamp(zs, At(s, p, x, y).z) == d
  }

  /** The greatest of the depth held at first and of every covering primitive's clamped depth. */
  predicate Greatest(s: Setting, zs: ZSetup, ps: seq<Primitive>, x: nat, y: nat, held: nat, d: nat) {
    && held <= d
    && (forall p :: p in ps && Covers(s, p, x, y) ==> Clamp(zs, At(s, p, x, y).z) <= d)
    && (d == held || exists p :: p in ps && Reaches(s, zs, p, x, y, d))
  }

  /** After any primitives a pixel's depth is the greatest of what it held and of the
      clamped depths of the primitives covering it. */
  lemma DepthAfter(s: Setting, fb: Frame, zs: ZSetup, height: nat, was: Canvas, ps: seq<Primitive>, x: nat, y: nat)
    requires Ready(s, fb, zs, height) && InPlay(fb, zs, height, x, y) && KeepsNearest(zs)
    ensures Greatest(s, zs, ps, x, y, ReadDepth(zs, was.vm, x, y), ReadDepth(zs, After(s, was, ps).vm, x, y))
  {
    PixelAfter(s, fb, zs, height, was, ps, x, y);
    var p, fs := Read(fb, zs, was.vm, x, y), Column(s, ps, x, y);
    DepthIsNearest(s.r, fb, zs, p, fs, x, y);
    ColumnGreatest(s, zs, ps, x, y, p.depth, ReadDepth(zs, After(s, was, ps).vm, x, y));
  }

  lemma ColumnGreatest(s: Setting, zs: ZSetup, ps: seq<Primitive>, x: nat, y: nat, held: nat, d: nat)
    requires IsNearest(zs, held, Column(s, ps, x, y), x, y, d)
    ensures Greatest(s, zs, ps, x, y, held, d)
  {
    var fs := Column(s, ps, x, y);
    forall p | p in ps && Covers(s, p, x, y) ensures Clamp(zs, At(s, p, x, y).z) <= d {
      var k: nat :| k < |ps| && ps[k] == p;
      assert Hits(fs, k, x, y);
    }
    if d != held {
      var k: nat :| k < |fs| && Hits(fs, k, x, y) && Clamp(zs, fs[k].z) == d;
      assert ps[k] in ps && Reaches(s, zs, ps[k], x, y, d);
    }
  }

  lemma GreatestUnique(s: Setting, zs: ZSetup, ps: seq<Primitive>, x: nat, y: nat, held: nat, d: nat, e: nat)
    requires Greatest(s, zs, ps, x, y, held, d) && Greatest(s, zs, ps, x, y, held, e)
    ensures d == e
  {
  }

  lemma GreatestReordered(s: Setting, zs: ZSetup, ps: seq<Primitive>, qs: seq<Primitive>, x: nat, y: nat, held: nat,
                          d: nat)
    requires multiset(ps) == multiset(qs) && Greatest(s, zs, ps, x, y, held, d)
    ensures Greatest(s, zs, qs, x, y, held, d)
  {
    assert forall p :: p in ps <==> p in multiset(ps);
    assert forall p :: p in qs <==> p in multiset(qs);
  }

  /** ... so it is the same in whatever order they are drawn. */
  lemma DepthReordered(s: Setting, fb: Frame, zs: ZSetup, height: nat, was: Canvas, ps: seq<Primitive>,
                       qs: seq<Primitive>, x: nat, y: nat)
    requires Ready(s, fb, zs, height) && InPlay(fb, zs, height, x, y) && KeepsNearest(zs)
    requires multiset(ps) == multiset(qs)
    ensures ReadDepth(zs, After(s, was, ps).vm, x, y) == ReadDepth(zs, After(s, was, qs).vm, x, y)
  {
    var held, d := ReadDepth(zs, was.vm, x, y), ReadDepth(zs, After(s, was, ps).vm, x, y);
    DepthAfter(s, fb, zs, height, was, ps, x, y);
    DepthAfter(s, fb, zs, height, was, qs, x, y);
    GreatestReordered(s, zs, ps, qs, x, y, held, d);
    GreatestUnique(s, zs, qs, x, y, held, d, ReadDepth(zs, After(s, was, qs).vm, x, y));
  }

  predicate Earliest(s: Setting, zs: ZSetup, ps: seq<Primitive>, x: nat, y: nat, d: nat, k: nat) {
    && k < |ps| && Reaches(s, zs, ps[k], x, y, d)
    && forall j: nat :: j < k ==> !Reaches(s, zs, ps[j], x, y, d)
  }

  predicate Latest(s: Setting, zs: ZSetup, ps: seq<Primitive>, x: nat, y: nat, d: nat, k: nat) {
    && k < |ps| && Reaches(s, zs, ps[k], x, y, d)
    && forall j: nat :: k < j < |ps| ==> !Reaches(s, zs, ps[j], x, y, d)
  }

  predicate Shows(s: Setting, fb: Frame, p: Primitive, x: nat, y: nat, was: Pixel, now: Pixel)
    requires ProperPixel(fb, was)
  {
    Covers(s, p, x, y) && now.colour == Merge(s.r, fb, was.colour, At(s, p, x, y).colour)
  }

  /** GREATER: the earliest of the primitives to reach a depth nearer than the one held.
      GEQUAL: the latest to reach the final depth.  No such primitive, no change. */
  predicate ShowsWinner(s: Setting, fb: Frame, zs: ZSetup, ps: seq<Primitive>, x: nat, y: nat, was: Pixel, now: Pixel)
    requires ProperPixel(fb, was)
  {
    if zs.ztst == 3 && now.depth == was.depth then now.colour == was.colour
    else if zs.ztst == 3 then
      exists k: nat :: k < |ps| && Earliest(s, zs, ps, x, y, now.depth, k) && Shows(s, fb, ps[k], x, y, was, now)
    else
      || (now.colour == was.colour && forall p :: p in ps ==> !Reaches(s, zs, p, x, y, now.depth))
      || (exists k: nat :: k < |ps| && Latest(s, zs, ps, x, y, now.depth, k) && Shows(s, fb, ps[k], x, y, was, now))
  }

  lemma ColumnWinner(s: Setting, fb: Frame, zs: ZSetup, ps: seq<Primitive>, x: nat, y: nat, was: Pixel, now: Pixel)
    requires ProperPixel(fb, was)
    requires ShowsNearest(s.r, fb, zs, Column(s, ps, x, y), x, y, was, now)
    ensures ShowsWinner(s, fb, zs, ps, x, y, was, now)
  {
    var fs, d := Column(s, ps, x, y), now.depth;
    forall j: nat | j < |ps|
      ensures Reaches(s, zs, ps[j], x, y, d) <==> Hits(fs, j, x, y) && Clamp(zs, fs[j].z) == d
    {
    }
    if zs.ztst == 3 {
      if d != was.depth {
        var k: nat :| k < |fs| && IsFirst(zs, fs, x, y, d, k) && Shown(s.r, fb, was, fs[k], now);
        assert Earliest(s, zs, ps, x, y, d, k) && Shows(s, fb, ps[k], x, y, was, now);
      }
    } else if exists k: nat :: k < |fs| && IsLast(zs, fs, x, y, d, k) && Shown(s.r, fb, was, fs[k], now) {
      var k: nat :| k < |fs| && IsLast(zs, fs, x, y, d, k) && Shown(s.r, fb, was, fs[k], now);
      assert Latest(s, zs, ps, x, y, d, k) && Shows(s, fb, ps[k], x, y, was, now);
    }
  }

  /** After any unblended primitives a pixel shows, under the mask, the colour of the
      primitive that won it, and its old colour if none did. */
  lemma ColourAfter(s: Setting, fb: Frame, zs: ZSetup, height: nat, was: Canvas, ps: seq<Primitive>, x: nat, y: nat)
    requires Ready(s, fb, zs, height) && InPlay(fb, zs, height, x, y) && KeepsNearest(zs) && !s.r.abe
    ensures ShowsWinner(s, fb, zs, ps, x, y, Read(fb, zs, was.vm, x, y), Read(fb, zs, After(s, was, ps).vm, x, y))
  {
    PixelAfter(s, fb, zs, height, was, ps, x, y);
    var p, fs := Read(fb, zs, was.vm, x, y), Column(s, ps, x, y);
    HistoryShows(s.r, fb, zs, p, fs, x, y);
    ColumnWinner(s, fb, zs, ps, x, y, p, Read(fb, zs, After(s, was, ps).vm, x, y));
  }

  // ---- primitives as one list of fragments --------------------------------------------------------

  function AllPieces(s: Setting, ps: seq<Primitive>): seq<Fragment> {
    if ps == [] then [] else AllPieces(s, ps[..|ps| - 1]) + PiecesOf(s, ps[|ps| - 1])
  }

  /** Drawing primitives in turn is drawing their fragments as one list. */
  lemma {:induction false} DrawnTogether(s: Setting, fb: Frame, was: Canvas, ps: seq<Primitive>)
    requires FbSetup(s.r) == Some(fb)
    ensures After(s, was, ps) == DrawAll(StepOf(s.r, fb, ZSetupOf(s.r)), was, AllPieces(s, ps))
  {
    if ps != [] {
      var n := |ps| - 1;
      DrawnTogether(s, fb, was, ps[..n]);
      DrawInTurn(StepOf(s.r, fb, ZSetupOf(s.r)), was, AllPieces(s, ps[..n]), PiecesOf(s, ps[n]));
    }
  }

  lemma {:induction false} AllInside(s: Setting, fb: Frame, height: nat, ps: seq<Primitive>)
    requires s.c.x1 < 64 * fb.fbw && s.c.y1 < height
    ensures AllInBuffer(fb, height, AllPieces(s, ps))
  {
    if ps != [] {
      AllInside(s, fb, height, ps[..|ps| - 1]);
      ScissorKeepsInside(s, fb, height, ps[|ps| - 1]);
    }
  }

  /** Whatever is drawn to a PSMCT24 frame, palette indices kept in the spare bytes of its
      words, or anywhere else outside the depth buffer, survive. */
  lemma IndicesSurvive(s: Setting, fb: Frame, height: nat, was: Canvas, ps: seq<Primitive>, h: HFormat, tbp: nat,
                       tbw: nat, x: nat, y: nat)
    requires FbSetup(s.r) == Some(fb) && s.r.framePsm == 1 && s.c.x1 < 64 * fb.fbw && s.c.y1 < height
    requires Swizzle.Addr32p(tbp / 32, tbw, x, y, false) < VM_WORDS
    requires OutsideDepth(ZSetupOf(s.r), fb.fbw, height, Swizzle.Addr32p(tbp / 32, tbw, x, y, false))
    ensures HIndex(h, After(s, was, ps).vm, tbp, tbw, x, y) == HIndex(h, was.vm, tbp, tbw, x, y)
  {
    DrawnTogether(s, fb, was, ps);
    AllInside(s, fb, height, ps);
    IndexSurvives(s.r, fb, ZSetupOf(s.r), height, was, AllPieces(s, ps), h, tbp, tbw, x, y);
  }

  lemma TwoDrawn(s: Setting, fb: Frame, was: Canvas, t: Primitive, u: Primitive)
    requires FbSetup(s.r) == Some(fb)
    ensures After(s, was, [t, u]) == DrawAll(StepOf(s.r, fb, ZSetupOf(s.r)), was, PiecesOf(s, t) + PiecesOf(s, u))
  {
    DrawnTogether(s, fb, was, [t, u]);
    assert AllPieces(s, [t]) == PiecesOf(s, t);
    assert [t, u][..1] == [t];
  }

  /** Two triangles whose corners, in any order, are those of a quadrilateral cut along a
      diagonal: drawn one after the other they put one fragment on each pixel of it and
      none elsewhere. */
  lemma SharedEdgeDrawn(s: Setting, fb: Frame, was: Canvas, t: Primitive, u: Primitive, a: Point, b: Point, p: Point,
                        d: Point, x: nat, y: nat)
    requires FbSetup(s.r) == Some(fb) && t.TriangleOf? && u.TriangleOf? && Opposite(a, p, b, d)
    requires SameCorners(Corners(s.o, t.v0, t.v1, t.v2), Triangle(a, b, p))
    requires SameCorners(Corners(s.o, u.v0, u.v1, u.v2), Triangle(a, p, d))
    ensures var fs := PiecesOf(s, t) + PiecesOf(s, u);
      && After(s, was, [t, u]) == DrawAll(StepOf(s.r, fb, ZSetupOf(s.r)), was, fs)
      && Once(fs)
      && (HitAt(fs, x, y) <==> Within(s.c, x, y) && InsideQuad(a, b, p, d, Point(x as real, y as real)))
  {
    TwoDrawn(s, fb, was, t, u);
    SharedEdge(a, b, p, d, Corners(s.o, t.v0, t.v1, t.v2), Corners(s.o, u.v0, u.v1, u.v2), s.c, s.iip, Deep(s),
               [t.v0, t.v1, t.v2, u.v0, u.v1, u.v2], x, y);
  }
}
