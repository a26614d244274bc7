/** Drawing in sim/gs/gs_ref.py: the sprite and the untextured triangle, as the
    fragments they come to, and the class whose loops draw them. */
module Drawing {
  import opened Wrappers
  import opened Bits
  import opened LocalMemory
  import opened FillRule
  import Dda

  /** A vertex as the vertex queue holds it: window coordinates in sixteenths. */
  datatype Vertex = Vertex(x: int, y: int, z: nat, rgba: Word)

  /** XYOFFSET. */
  datatype Offset = Offset(x: int, y: int)

  /** A row's first and last pixels; no pixel at all when the last is before the first. */
  datatype Span = Span(from: nat, to: int)

  type Shade = (nat, nat) -> Fragment

  type Bounds = c: Scissor | 0 <= c.x0 && 0 <= c.y0 witness Scissor(0, 0, 0, 0)

  // ---- fragments, in raster order -------------------------------------------------------------

  function Extent(from: nat, to: int): nat { if to < from then 0 else to - from + 1 }

  /** The first `n` pixels of a row, left to right ... */
  function Row(shade: Shade, x0: nat, y: nat, n: nat): seq<Fragment> {
    if n == 0 then [] else Row(shade, x0, y, n - 1) + [shade(x0 + n - 1, y)]
  }

  /** ... and the first `m` rows, top to bottom. */
  function Rows(shade: Shade, span: nat -> Span, y0: nat, m: nat): seq<Fragment> {
    if m == 0 then []
    else
      var (y, s) := (y0 + m - 1, span(y0 + m - 1));
      Rows(shade, span, y0, m - 1) + Row(shade, s.from, y, Extent(s.from, s.to))
  }

  // ---- sprites ----------------------------------------------------------------------------------

  /** A sprite's pixels: its corners in either order, floored to pixels, the far edge
      left out, and the scissor applied. */
  function SpriteSpan(o: Offset, c: Bounds, v0: Vertex, v1: Vertex): Span {
    var (a, b) := ((v0.x - o.x) / 16, (v1.x - o.x) / 16);
    Span(IMax(IMin(a, b), c.x0), IMin(IMax(a, b) - 1, c.x1))
  }

  function SpriteRows(o: Offset, c: Bounds, v0: Vertex, v1: Vertex): Span {
    var (a, b) := ((v0.y - o.y) / 16, (v1.y - o.y) / 16);
    Span(IMax(IMin(a, b), c.y0), IMin(IMax(a, b) - 1, c.y1))
  }

  /** Colour and depth are the second vertex's. */
  function SpriteShade(v1: Vertex): Shade { (x: nat, y: nat) => Fragment(x, y, v1.z, v1.rgba) }

  function SpriteFragments(o: Offset, c: Bounds, v0: Vertex, v1: Vertex): seq<Fragment> {
    var (across, down) := (SpriteSpan(o, c, v0, v1), SpriteRows(o, c, v0, v1));
    Rows(SpriteShade(v1), (y: nat) => across, down.from, Extent(down.from, down.to))
  }

  // ---- triangles --------------------------------------------------------------------------------

  function Corner(o: Offset, v: Vertex): Point {
    Point((v.x - o.x) as real / 16.0, (v.y - o.y) as real / 16.0)
  }

  function Corners(o: Offset, v0: Vertex, v1: Vertex, v2: Vertex): Triangle {
    Triangle(Corner(o, v0), Corner(o, v1), Corner(o, v2))
  }

  /** Twice the signed area: no plane when it is zero. */
  function Det(t: Triangle): real {
    (t.p1.x - t.p0.x) * (t.p2.y - t.p0.y) - (t.p2.x - t.p0.x) * (t.p1.y - t.p0.y)
  }

  /** The slopes of the plane through a triangle's corners carrying three values. */
  function PlaneX(t: Triangle, a: real, b: real, c: real): real
    requires Det(t) != 0.0
  {
    ((b - a) * (t.p2.y - t.p0.y) - (c - a) * (t.p1.y - t.p0.y)) / Det(t)
  }

  function PlaneY(t: Triangle, a: real, b: real, c: real): real
    requires Det(t) != 0.0
  {
    ((c - a) * (t.p1.x - t.p0.x) - (b - a) * (t.p2.x - t.p0.x)) / Det(t)
  }

  /** A plane at a span's first pixel. */
  function Seed(t: Triangle, a: real, dx: real, dy: real, left: int, y: int): real {
    a + dx * (left as real - t.p0.x) + dy * (y as real - t.p0.y)
  }

  function TriangleSpan(t: Triangle, c: Bounds, y: nat): Span {
    var xs := Crossings(t, y as real);
    if |xs| < 2 then Span(0, -1)
    else
      TwoCrossings(t, y as real);
      Span(Left(xs, c), Right(xs, c))
  }

  function DepthAt(t: Triangle, top: int, za: nat, zb: nat, zc: nat, left: int, x: nat, y: nat): nat
    requires Det(t) != 0.0
  {
    var (a, b, c) := (za as real, zb as real, zc as real);
    var (dx, dy) := (PlaneX(t, a, b, c), PlaneY(t, a, b, c));
    Dda.Depth(Seed(t, a, dx, dy, left, y), dx, dy, y - top, if x < left then 0 else x - left)
  }

  function Channel(w: Word, k: nat): real
    requires k < 4
  {
    Number(w[8 * k..8 * k + 8]) as real
  }

  /** One colour channel of a Gouraud triangle: the walk, floored and saturated. */
  function ChannelAt(t: Triangle, va: Word, vb: Word, vc: Word, k: nat, left: int, x: nat, y: nat): (b: seq<bool>)
    requires Det(t) != 0.0 && k < 4
    ensures |b| == 8
  {
    var (a, b, c) := (Channel(va, k), Channel(vb, k), Channel(vc, k));
    var (dx, dy) := (PlaneX(t, a, b, c), PlaneY(t, a, b, c));
    var q := Dda.At(Dda.MakeWalk(Seed(t, a, dx, dy, left, y), dx, 0.0), if x < left then 0 else x - left).Floor;
    Digits(if q < 0 then 0 else if q > 255 then 255 else q, 8)
  }

  /** Gouraud colour: a walk for each channel. */
  function ColourAt(t: Triangle, va: Word, vb: Word, vc: Word, left: int, x: nat, y: nat): Word
    requires Det(t) != 0.0
  {
    ChannelAt(t, va, vb, vc, 0, left, x, y) + ChannelAt(t, va, vb, vc, 1, left, x, y)
    + ChannelAt(t, va, vb, vc, 2, left, x, y) + ChannelAt(t, va, vb, vc, 3, left, x, y)
  }

  /** A triangle's fragment at a pixel of a row: flat colour is the last vertex's. */
  function TrianglePixel(t: Triangle, top: int, left: int, iip: bool, deep: bool,
                         v0: Vertex, v1: Vertex, v2: Vertex, x: nat, y: nat): Fragment
    requires (iip || deep) ==> Det(t) != 0.0
  {
    Fragment(x, y, if deep then DepthAt(t, top, v0.z, v1.z, v2.z, left, x, y) else 0,
             if iip then ColourAt(t, v0.rgba, v1.rgba, v2.rgba, left, x, y) else v2.rgba)
  }

  function TriangleShade(t: Triangle, c: Bounds, iip: bool, deep: bool, v0: Vertex, v1: Vertex, v2: Vertex): Shade
    requires (iip || deep) ==> Det(t) != 0.0
  {
    (x: nat, y: nat) => TrianglePixel(t, Top(t, c), TriangleSpan(t, c, y).from, iip, deep, v0, v1, v2, x, y)
  }

  /** Nothing is drawn of a triangle with no height, nor of one with no plane when
      depth or colour needs a plane. */
  predicate Drawable(t: Triangle, iip: bool, deep: bool) {
    MinY(t) != MaxY(t) && ((iip || deep) ==> Det(t) != 0.0)
  }

  function TriangleFragments(t: Triangle, c: Bounds, iip: bool, deep: bool, v0: Vertex, v1: Vertex, v2: Vertex)
    : seq<Fragment>
  {
    if !Drawable(t, iip, deep) then []
    else
      Rows(TriangleShade(t, c, iip, deep, v0, v1, v2), (y: nat) => TriangleSpan(t, c, y),
           Top(t, c), Extent(Top(t, c), Bottom(t, c)))
  }

  // ---- primitives -------------------------------------------------------------------------------

  /** A drawing kick's vertices, oldest first. */
  datatype Primitive = SpriteOf(v0: Vertex, v1: Vertex) | TriangleOf(v0: Vertex, v1: Vertex, v2: Vertex)

  /** Its fragments, in the order they are drawn. */
  function Fragments(o: Offset, c: Bounds, iip: bool, deep: bool, p: Primitive): seq<Fragment> {
    match p
    case SpriteOf(v0, v1) => SpriteFragments(o, c, v0, v1)
    case TriangleOf(v0, v1, v2) => TriangleFragments(Corners(o, v0, v1, v2), c, iip, deep, v0, v1, v2)
  }

  /** What drawing an untextured primitive makes of local memory. */
  function Drawn(r: Registers, iip: bool, o: Offset, c: Bounds, was: Canvas, p: Primitive): Canvas {
    var fb := FbSetup(r);
    if fb.None? then was
    else DrawAll(StepOf(r, fb.value, ZSetupOf(r)), was, Fragments(o, c, iip, ZSetupOf(r).Some?, p))
  }

  class GS {
    const vm: array<Word>
    var pixels: nat
    var texSkip: nat

    ghost predicate Valid() { vm.Length == VM_WORDS }

    ghost function Now(): Canvas
      requires Valid()
      reads this, vm
    {
      Canvas(vm[..], pixels)
    }

    constructor ()
      ensures Valid() && fresh(vm) && Now() == Canvas(seq(VM_WORDS, i => seq(32, j => false)), 0)
    {
      vm := new Word[VM_WORDS](i => seq(32, j => false));
      pixels := 0;
      texSkip := 0;
      new;
      assert vm[..] == seq(VM_WORDS, i => seq(32, j => false));
    }

    /** The comparison at a location, and the write that goes with it. */
    method TestDepth(s: ZSetup, at: Loc, z: nat) returns (ok: bool)
      requires Valid() && ProperZ(s) && at.word < VM_WORDS && s.ztst != 0
      modifies vm
      ensures ok == LocalMemory.Passes(s, z, DepthIn(s, old(vm[..])[at.word], at.high))
      ensures vm[..] == if ok then DepthPut(s, old(vm[..]), at, z) else old(vm[..])
    {
      var zc := Clamp(s, z);
      if s.ztst == 1 {
        ok := true;
      } else {
        var held := DepthIn(s, vm[at.word], at.high);
        ok := if s.ztst == 2 then zc >= held else zc > held;
      }
      if ok && s.write {
        vm[at.word] := WithDepth(s, vm[at.word], at.high, zc);
      }
    }

    /** The depth test at one pixel. */
    method ZCheck(zs: Test, f: Fragment) returns (ok: bool)
      requires Valid()
      modifies vm
      ensures ok == Survives(zs, old(vm[..]), f)
      ensures vm[..] == if ok then DepthWritten(zs, old(vm[..]), f) else old(vm[..])
    {
      if zs.None? {
        return true;
      }
      if zs.value.ztst == 0 {
        return false;
      }
      var at := ZLoc(zs.value, f.x, f.y);
      if at.word >= VM_WORDS {
        return false;
      }
      ok := TestDepth(zs.value, at, f.z);
    }

    /** Blend one pixel against what is there and write it back under the mask. */
    method PutPixel(r: Registers, fb: Frame, f: Fragment)
      requires Valid() && FrameLoc(fb, f.x, f.y).word < VM_WORDS
      modifies this`pixels, vm
      ensures Now() == Canvas(ColourWritten(r, fb, old(vm[..]), f), old(pixels) + 1)
    {
      var at := FrameLoc(fb, f.x, f.y);
      var word := vm[at.word];
      vm[at.word] := Set(word, fb.narrow, at.high, Merge(r, fb, Get(word, fb.narrow, at.high), f.colour));
      pixels := pixels + 1;
    }

    method DrawPixel(ghost step: Step, r: Registers, fb: Frame, zs: Test, f: Fragment)
      requires Valid() && Steps(step, r, fb, zs)
      modifies this`pixels, vm
      ensures Now() == step(old(Now()), f)
    {
      ghost var after := Draw(r, fb, zs, Now(), f);
      if FrameLoc(fb, f.x, f.y).word < VM_WORDS {
        var ok := ZCheck(zs, f);
        if ok {
          PutPixel(r, fb, f);
        }
      }
      assert Now() == after;
    }

    /** One row, left to right, after what has been drawn above it. */
    method DrawRow(ghost step: Step, ghost start: Canvas, ghost above: seq<Fragment>,
                   r: Registers, fb: Frame, zs: Test, shade: Shade, s: Span, y: nat)
      returns (ghost done: seq<Fragment>)
      requires Valid() && Steps(step, r, fb, zs)
      requires Now() == DrawAll(step, start, above)
      modifies this`pixels, vm
      ensures done == above + Row(shade, s.from, y, Extent(s.from, s.to))
      ensures Now() == DrawAll(step, start, done)
    {
      done := above;
      var x := s.from;
      while x <= s.to
        invariant s.from <= x <= IMax(s.from, s.to + 1)
        invariant done == above + Row(shade, s.from, y, x - s.from)
        invariant Now() == DrawAll(step, start, done)
      {
        var f := shade(x, y);
        DrawPixel(step, r, fb, zs, f);
        DrawOne(step, start, done, f);
        done := done + [f];
        x := x + 1;
      }
    }

    /** Rows, top to bottom. */
    method DrawRows(ghost step: Step, r: Registers, fb: Frame, zs: Test, shade: Shade, span: nat -> Span, rows: Span)
      returns (ghost done: seq<Fragment>)
      requires Valid() && Steps(step, r, fb, zs)
      modifies this`pixels, vm
      ensures done == Rows(shade, span, rows.from, Extent(rows.from, rows.to))
      ensures Now() == DrawAll(step, old(Now()), done)
    {
      ghost var start := Now();
      done := [];
      var y := rows.from;
      while y <= rows.to
        invariant rows.from <= y <= IMax(rows.from, rows.to + 1)
        invariant done == Rows(shade, span, rows.from, y - rows.from)
        invariant Now() == DrawAll(step, start, done)
      {
        done := DrawRow(step, start, done, r, fb, zs, shade, span(y), y);
        y := y + 1;
      }
    }

    /** A flat, axis-aligned rectangle, untextured; a textured one is refused. */
    method DrawSprite(r: Registers, iip: bool, tme: bool, o: Offset, c: Bounds, v0: Vertex, v1: Vertex)
      requires Valid()
      modifies this, vm
      ensures Now() == if tme then old(Now()) else Drawn(r, iip, o, c, old(Now()), SpriteOf(v0, v1))
      ensures texSkip == old(texSkip) + if FbSetup(r).Some? && tme then 1 else 0
    {
      var fb := FbSetup(r);
      if fb.None? {
        return;
      }
      var across, down := SpriteSpan(o, c, v0, v1), SpriteRows(o, c, v0, v1);
      var zs := ZSetupOf(r);
      if tme {
        texSkip := texSkip + 1;
        return;
      }
      ghost var done := DrawRows(StepOf(r, fb.value, zs), r, fb.value, zs, SpriteShade(v1), (y: nat) => across, down);
    }

    /** A triangle, flat or Gouraud, with or without depth, untextured. */
    method DrawTriangle(r: Registers, iip: bool, o: Offset, c: Bounds, v0: Vertex, v1: Vertex, v2: Vertex)
      requires Valid()
      modifies this`pixels, vm
      ensures Now() == Drawn(r, iip, o, c, old(Now()), TriangleOf(v0, v1, v2))
    {
      var fb := FbSetup(r);
      if fb.None? {
        return;
      }
      var t := Corners(o, v0, v1, v2);
      var zs := ZSetupOf(r);
      if !Drawable(t, iip, zs.Some?) {
        return;
      }
      ghost var done := DrawRows(StepOf(r, fb.value, zs), r, fb.value, zs,
                                 TriangleShade(t, c, iip, zs.Some?, v0, v1, v2),
                                 (y: nat) => TriangleSpan(t, c, y), Span(Top(t, c), Bottom(t, c)));
    }
  }
}
