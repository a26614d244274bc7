/** What a depth-buffered drawing comes to, pixel by pixel: the swizzled memory behaves as
    an image of independent pixels, each keeping the nearest fragment. */
module DepthBuffer {
  import opened Wrappers
  import opened Arith
  import opened Bits
  import opened Swizzle
  import opened LocalMemory

  // ---- places ------------------------------------------------------------------------------

  function FormatOf(narrow: bool, sform: bool, depth: bool): Format {
    if narrow then Half(sform, depth) else Swizzle.Word(depth)
  }

  function PageLines(narrow: bool): nat { if narrow then 64 else 32 }

  lemma LocIsCell(narrow: bool, sform: bool, depth: bool, base: nat, bw: nat, x: nat, y: nat)
    ensures var at := LocOf(narrow, sform, depth, base, bw, x, y);
      && Cell(FormatOf(narrow, sform, depth), base, bw, x, y)
         == (if narrow then 2 * at.word + (if at.high then 1 else 0) else at.word)
      && (at.high ==> narrow)
  {
  }

  /** Two pixels of a buffer never share a word, or, when the format is narrow, a half. */
  lemma LocsApart(narrow: bool, sform: bool, depth: bool, base: nat, bw: nat, x1: nat, y1: nat, x2: nat, y2: nat)
    requires x1 < 64 * bw && x2 < 64 * bw && (x1 != x2 || y1 != y2)
    ensures LocOf(narrow, sform, depth, base, bw, x1, y1) != LocOf(narrow, sform, depth, base, bw, x2, y2)
  {
    LocIsCell(narrow, sform, depth, base, bw, x1, y1);
    LocIsCell(narrow, sform, depth, base, bw, x2, y2);
    var f := FormatOf(narrow, sform, depth);
    if Cell(f, base, bw, x1, y1) == Cell(f, base, bw, x2, y2) {
      Apart(f, base, bw, x1, y1, x2, y2);
    }
  }

  /** The pages a buffer of some height takes. */
  function PagesHigh(narrow: bool, height: nat): nat {
    (height + PageLines(narrow) - 1) / PageLines(narrow)
  }

  function EndPage(narrow: bool, base: nat, bw: nat, height: nat): nat {
    Page(base, bw, PagesHigh(narrow, height), 0)
  }

  lemma PageInside(base: nat, bw: nat, row: nat, rows: nat, col: nat)
    requires row < rows && col < bw
    ensures base <= Page(base, bw, row, col) < Page(base, bw, rows, 0)
  {
    Times(row + 1, rows, bw);
  }

  lemma WordPage(page: nat, place: nat, word: nat)
    requires word == page * 2048 + place && place < 2048
    ensures word / 2048 == page
  {
  }

  lemma HalfPage(page: nat, place: nat, word: nat, half: nat)
    requires 2 * word + half == page * 4096 + place && place < 4096 && half < 2
    ensures word / 2048 == page
  {
  }

  /** A pixel's word is in its buffer's pages. */
  lemma LocInPages(narrow: bool, sform: bool, depth: bool, base: nat, bw: nat, x: nat, y: nat, height: nat)
    requires x < 64 * bw && y < height
    ensures base <= LocOf(narrow, sform, depth, base, bw, x, y).word / 2048 < EndPage(narrow, base, bw, height)
  {
    if narrow {
      Shape16(base, bw, x, y, sform, depth);
      Pairs16(y % 64, x % 64, sform, depth, 0);
      var (word, half) := Addr16p(base, bw, x, y, sform, depth);
      HalfPage(Page(base, bw, y / 64, x / 64), Place16(y % 64, x % 64, sform, depth), word, half);
      PageInside(base, bw, y / 64, PagesHigh(narrow, height), x / 64);
    } else {
      Shape32(base, bw, x, y, depth);
      Pairs32(y % 32, x % 64, depth, 0);
      WordPage(Page(base, bw, y / 32, x / 64), Place32(y % 32, x % 64, depth), Addr32p(base, bw, x, y, depth));
      PageInside(base, bw, y / 32, PagesHigh(narrow, height), x / 64);
    }
  }

  /** The frame and depth buffers share no page. */
  predicate Separate(fb: Frame, zs: ZSetup, height: nat) {
    EndPage(fb.narrow, fb.fbp, fb.fbw, height) <= zs.zbp || EndPage(zs.narrow, zs.zbp, zs.fbw, height) <= fb.fbp
  }

  predicate InBuffer(fb: Frame, height: nat, x: nat, y: nat) { x < 64 * fb.fbw && y < height }

  /** What the claims below ask of a setting: one width, no shared page. */
  predicate Laid(fb: Frame, zs: ZSetup, height: nat) {
    ProperZ(zs) && zs.fbw == fb.fbw && Separate(fb, zs, height)
  }

  lemma NeverMixed(fb: Frame, zs: ZSetup, height: nat, x1: nat, y1: nat, x2: nat, y2: nat)
    requires Laid(fb, zs, height) && InBuffer(fb, height, x1, y1) && InBuffer(fb, height, x2, y2)
    ensures FrameLoc(fb, x1, y1).word != ZLoc(zs, x2, y2).word
  {
    LocInPages(fb.narrow, fb.sform, false, fb.fbp, fb.fbw, x1, y1, height);
    LocInPages(zs.narrow, zs.sform, true, zs.zbp, zs.fbw, x2, y2, height);
  }

  // ---- fields --------------------------------------------------------------------------------

  lemma GetSet(word: LocalMemory.Word, narrow: bool, high: bool, field: seq<bool>)
    requires |field| == if narrow then 16 else 32
    ensures Get(Set(word, narrow, high, field), narrow, high) == field
    ensures narrow ==> Get(Set(word, narrow, high, field), narrow, !high) == Get(word, narrow, !high)
  {
  }

  lemma DepthBack(zs: ZSetup, word: LocalMemory.Word, high: bool, z: nat)
    requires ProperZ(zs) && z < Two(zs.width)
    ensures DepthIn(zs, WithDepth(zs, word, high, z), high) == z
    ensures zs.narrow ==> DepthIn(zs, WithDepth(zs, word, high, z), !high) == DepthIn(zs, word, !high)
    ensures !zs.narrow ==> WithDepth(zs, word, high, z)[zs.width..] == word[zs.width..]
  {
    var field := Digits(z, zs.width) + Get(word, zs.narrow, high)[zs.width..];
    GetSet(word, zs.narrow, high, field);
    assert field[..zs.width] == Digits(z, zs.width);
    NumberOfDigits(z, zs.width);
  }

  // ---- one fragment, seen from every pixel ---------------------------------------------------

  /** A pixel: the depth and the colour field its two places hold. */
  datatype Pixel = Pixel(depth: nat, colour: seq<bool>)

  predicate Backed(fb: Frame, zs: ZSetup, x: nat, y: nat) {
    FrameLoc(fb, x, y).word < VM_WORDS && ZLoc(zs, x, y).word < VM_WORDS
  }

  function ReadColour(fb: Frame, vm: Memory, x: nat, y: nat): (c: seq<bool>)
    requires FrameLoc(fb, x, y).word < VM_WORDS
    ensures |c| == if fb.narrow then 16 else 32
  {
    Get(vm[FrameLoc(fb, x, y).word], fb.narrow, FrameLoc(fb, x, y).high)
  }

  function Read(fb: Frame, zs: ZSetup, vm: Memory, x: nat, y: nat): Pixel
    requires ProperZ(zs) && Backed(fb, zs, x, y)
  {
    Pixel(ReadDepth(zs, vm, x, y), ReadColour(fb, vm, x, y))
  }

  predicate ProperPixel(fb: Frame, p: Pixel) { |p.colour| == if fb.narrow then 16 else 32 }

  /** What a fragment does to the pixel it lands on. */
  function Shaded(r: Registers, fb: Frame, zs: ZSetup, p: Pixel, f: Fragment): (q: Pixel)
    requires ProperPixel(fb, p)
    ensures ProperPixel(fb, q)
  {
    if LocalMemory.Passes(zs, f.z, p.depth)
    then Pixel(if zs.write then Clamp(zs, f.z) else p.depth, Merge(r, fb, p.colour, f.colour))
    else p
  }

  lemma DepthPutAt(zs: ZSetup, vm: Memory, at: Loc, here: Loc, z: nat)
    requires ProperZ(zs) && at.word < VM_WORDS && here.word < VM_WORDS
    requires (at.high ==> zs.narrow) && (here.high ==> zs.narrow)
    ensures DepthIn(zs, DepthPut(zs, vm, at, z)[here.word], here.high)
         == if zs.write && at == here then Clamp(zs, z) else DepthIn(zs, vm[here.word], here.high)
  {
    DepthBack(zs, vm[at.word], at.high, Clamp(zs, z));
  }

  lemma DepthWriteDepth(fb: Frame, zs: ZSetup, height: nat, vm: Memory, f: Fragment, x: nat, y: nat)
    requires Laid(fb, zs, height) && InBuffer(fb, height, x, y) && InBuffer(fb, height, f.x, f.y)
    requires ZLoc(zs, f.x, f.y).word < VM_WORDS && ZLoc(zs, x, y).word < VM_WORDS
    ensures ReadDepth(zs, DepthPut(zs, vm, ZLoc(zs, f.x, f.y), f.z), x, y)
         == if zs.write && f.x == x && f.y == y then Clamp(zs, f.z) else ReadDepth(zs, vm, x, y)
  {
    ZLocsApart(fb, zs, x, y, f.x, f.y);
    DepthPutAt(zs, vm, ZLoc(zs, f.x, f.y), ZLoc(zs, x, y), f.z);
  }

  lemma ZLocsApart(fb: Frame, zs: ZSetup, x1: nat, y1: nat, x2: nat, y2: nat)
    requires zs.fbw == fb.fbw && x1 < 64 * fb.fbw && x2 < 64 * fb.fbw
    ensures ZLoc(zs, x1, y1) == ZLoc(zs, x2, y2) <==> x1 == x2 && y1 == y2
    ensures (ZLoc(zs, x1, y1).high ==> zs.narrow) && (ZLoc(zs, x2, y2).high ==> zs.narrow)
  {
    if x1 != x2 || y1 != y2 {
      LocsApart(zs.narrow, zs.sform, true, zs.zbp, zs.fbw, x1, y1, x2, y2);
    }
  }

  lemma DepthWriteColour(fb: Frame, zs: ZSetup, height: nat, vm: Memory, f: Fragment, x: nat, y: nat)
    requires Laid(fb, zs, height) && InBuffer(fb, height, x, y) && InBuffer(fb, height, f.x, f.y)
    requires ZLoc(zs, f.x, f.y).word < VM_WORDS && FrameLoc(fb, x, y).word < VM_WORDS
    ensures ReadColour(fb, DepthPut(zs, vm, ZLoc(zs, f.x, f.y), f.z), x, y) == ReadColour(fb, vm, x, y)
  {
    NeverMixed(fb, zs, height, x, y, f.x, f.y);
  }

  lemma ColourWriteDepth(r: Registers, fb: Frame, zs: ZSetup, height: nat, vm: Memory, f: Fragment, x: nat, y: nat)
    requires Laid(fb, zs, height) && InBuffer(fb, height, x, y) && InBuffer(fb, height, f.x, f.y)
    requires FrameLoc(fb, f.x, f.y).word < VM_WORDS && ZLoc(zs, x, y).word < VM_WORDS
    ensures ReadDepth(zs, ColourWritten(r, fb, vm, f), x, y) == ReadDepth(zs, vm, x, y)
  {
    NeverMixed(fb, zs, height, f.x, f.y, x, y);
  }

  lemma FrameLocsApart(fb: Frame, x1: nat, y1: nat, x2: nat, y2: nat)
    requires x1 < 64 * fb.fbw && x2 < 64 * fb.fbw
    ensures FrameLoc(fb, x1, y1) == FrameLoc(fb, x2, y2) <==> x1 == x2 && y1 == y2
    ensures (FrameLoc(fb, x1, y1).high ==> fb.narrow) && (FrameLoc(fb, x2, y2).high ==> fb.narrow)
  {
    if x1 != x2 || y1 != y2 {
      LocsApart(fb.narrow, fb.sform, false, fb.fbp, fb.fbw, x1, y1, x2, y2);
    }
  }

  lemma ColourWriteColour(r: Registers, fb: Frame, height: nat, vm: Memory, f: Fragment, x: nat, y: nat)
    requires InBuffer(fb, height, x, y) && InBuffer(fb, height, f.x, f.y)
    requires FrameLoc(fb, f.x, f.y).word < VM_WORDS && FrameLoc(fb, x, y).word < VM_WORDS
    ensures ReadColour(fb, ColourWritten(r, fb, vm, f), x, y)
         == if f.x == x && f.y == y then Merge(r, fb, ReadColour(fb, vm, x, y), f.colour) else ReadColour(fb, vm, x, y)
  {
    var at := FrameLoc(fb, f.x, f.y);
    GetSet(vm[at.word], fb.narrow, at.high, Merge(r, fb, Get(vm[at.word], fb.narrow, at.high), f.colour));
    FrameLocsApart(fb, x, y, f.x, f.y);
  }

  /** A fragment changes its own pixel, and every other pixel, depth and colour, is
      left as it was. */
  lemma OneFragment(r: Registers, fb: Frame, zs: ZSetup, height: nat, c: Canvas, f: Fragment, x: nat, y: nat)
    requires Laid(fb, zs, height) && InBuffer(fb, height, x, y) && InBuffer(fb, height, f.x, f.y)
    requires Backed(fb, zs, x, y)
    ensures Read(fb, zs, Draw(r, fb, Some(zs), c, f).vm, x, y)
         == if f.x == x && f.y == y then Shaded(r, fb, zs, Read(fb, zs, c.vm, x, y), f) else Read(fb, zs, c.vm, x, y)
  {
    if FrameLoc(fb, f.x, f.y).word < VM_WORDS && Survives(Some(zs), c.vm, f) {
      var vm := DepthPut(zs, c.vm, ZLoc(zs, f.x, f.y), f.z);
      DepthWriteDepth(fb, zs, height, c.vm, f, x, y);
      DepthWriteColour(fb, zs, height, c.vm, f, x, y);
      ColourWriteDepth(r, fb, zs, height, vm, f, x, y);
      ColourWriteColour(r, fb, height, vm, f, x, y);
    }
  }

  // ---- any number of fragments ---------------------------------------------------------------

  /** One pixel's own history: the fragments that land on it, in order. */
  function ShadeAll(r: Registers, fb: Frame, zs: ZSetup, p: Pixel, fs: seq<Fragment>, x: nat, y: nat): (q: Pixel)
    requires ProperPixel(fb, p)
    ensures ProperPixel(fb, q)
  {
    if fs == [] then p
    else
      var (before, f) := (ShadeAll(r, fb, zs, p, fs[..|fs| - 1], x, y), fs[|fs| - 1]);
      if f.x == x && f.y == y then Shaded(r, fb, zs, before, f) else before
  }

  predicate AllInBuffer(fb: Frame, height: nat, fs: seq<Fragment>) {
    forall k :: 0 <= k < |fs| ==> InBuffer(fb, height, fs[k].x, fs[k].y)
  }

  /** The swizzled memory refines an image of independent pixels: after any fragments
      each pixel holds what its own fragments alone would have left there. */
  lemma {:induction false} Refines(r: Registers, fb: Frame, zs: ZSetup, height: nat, c: Canvas, fs: seq<Fragment>,
                                   x: nat, y: nat)
    requires Laid(fb, zs, height) && AllInBuffer(fb, height, fs)
    requires InBuffer(fb, height, x, y) && Backed(fb, zs, x, y)
    ensures Read(fb, zs, DrawAll(StepOf(r, fb, Some(zs)), c, fs).vm, x, y)
         == ShadeAll(r, fb, zs, Read(fb, zs, c.vm, x, y), fs, x, y)
  {
    if fs != [] {
      var k := |fs| - 1;
      Refines(r, fb, zs, height, c, fs[..k], x, y);
      assert InBuffer(fb, height, fs[k].x, fs[k].y);
      OneFragment(r, fb, zs, height, DrawAll(StepOf(r, fb, Some(zs)), c, fs[..k]), fs[k], x, y);
    }
  }

  // ---- the nearest fragment wins -------------------------------------------------------------

  predicate Hits(fs: seq<Fragment>, k: nat, x: nat, y: nat) {
    k < |fs| && fs[k].x == x && fs[k].y == y
  }

  /** The greatest of the depth held at first and of every fragment's clamped depth. */
  predicate IsNearest(zs: ZSetup, held: nat, fs: seq<Fragment>, x: nat, y: nat, d: nat) {
    && held <= d
    && (forall k: nat :: k < |fs| && Hits(fs, k, x, y) ==> Clamp(zs, fs[k].z) <= d)
    && (d == held || exists k: nat :: k < |fs| && Hits(fs, k, x, y) && Clamp(zs, fs[k].z) == d)
  }

  /** GEQUAL or GREATER, the depth write unmasked. */
  predicate KeepsNearest(zs: ZSetup) { (zs.ztst == 2 || zs.ztst == 3) && zs.write }

  lemma {:induction false} DepthIsNearest(r: Registers, fb: Frame, zs: ZSetup, p: Pixel, fs: seq<Fragment>, x: nat,
                                          y: nat)
    requires KeepsNearest(zs) && ProperPixel(fb, p)
    ensures IsNearest(zs, p.depth, fs, x, y, ShadeAll(r, fb, zs, p, fs, x, y).depth)
  {
    if fs != [] {
      var n := |fs| - 1;
      DepthIsNearest(r, fb, zs, p, fs[..n], x, y);
      NearestNext(zs, p.depth, fs, x, y, ShadeAll(r, fb, zs, p, fs[..n], x, y).depth);
    }
  }

  lemma NearestNext(zs: ZSetup, held: nat, fs: seq<Fragment>, x: nat, y: nat, d: nat)
    requires fs != [] && IsNearest(zs, held, fs[..|fs| - 1], x, y, d)
    ensures var z := Clamp(zs, fs[|fs| - 1].z);
      IsNearest(zs, held, fs, x, y, if Hits(fs, |fs| - 1, x, y) && z > d then z else d)
  {
    var n, z := |fs| - 1, Clamp(zs, fs[|fs| - 1].z);
    var e := if Hits(fs, n, x, y) && z > d then z else d;
    forall k: nat | k < |fs| && Hits(fs, k, x, y) ensures Clamp(zs, fs[k].z) <= e {
      if k < n {
        assert Hits(fs[..n], k, x, y);
      }
    }
    if e == d && d != held {
      var k: nat :| k < n && Hits(fs[..n], k, x, y) && Clamp(zs, fs[..n][k].z) == d;
      assert Hits(fs, k, x, y) && Clamp(zs, fs[k].z) == d;
    }
  }

  lemma NearestUnique(zs: ZSetup, held: nat, fs: seq<Fragment>, gs: seq<Fragment>, x: nat, y: nat, d: nat, e: nat)
    requires forall f :: f in fs <==> f in gs
    requires IsNearest(zs, held, fs, x, y, d) && IsNearest(zs, held, gs, x, y, e)
    ensures d == e
  {
    NearestBelow(zs, held, fs, gs, x, y, d, e);
    NearestBelow(zs, held, gs, fs, x, y, e, d);
  }

  lemma NearestBelow(zs: ZSetup, held: nat, fs: seq<Fragment>, gs: seq<Fragment>, x: nat, y: nat, d: nat, e: nat)
    requires forall f :: f in fs ==> f in gs
    requires IsNearest(zs, held, fs, x, y, d) && IsNearest(zs, held, gs, x, y, e)
    ensures d <= e
  {
    if d != held {
      var k: nat :| k < |fs| && Hits(fs, k, x, y) && Clamp(zs, fs[k].z) == d;
      assert fs[k] in gs;
      var j: nat :| j < |gs| && gs[j] == fs[k];
      assert Hits(gs, j, x, y);
    }
  }

  // ---- whose colour is kept ------------------------------------------------------------------

  /** The earliest fragment of a pixel to reach a depth ... */
  predicate IsFirst(zs: ZSetup, fs: seq<Fragment>, x: nat, y: nat, d: nat, k: nat) {
    && Hits(fs, k, x, y) && Clamp(zs, fs[k].z) == d
    && forall j: nat :: j < k && Hits(fs, j, x, y) ==> Clamp(zs, fs[j].z) != d
  }

  /** ... and the latest. */
  predicate IsLast(zs: ZSetup, fs: seq<Fragment>, x: nat, y: nat, d: nat, k: nat) {
    && Hits(fs, k, x, y) && Clamp(zs, fs[k].z) == d
    && forall j: nat :: k < j < |fs| && Hits(fs, j, x, y) ==> Clamp(zs, fs[j].z) != d
  }

  /** With blending off, only the last write to a pixel shows; the masked bits never
      change. */
  lemma MergeTwice(r: Registers, fb: Frame, dst: seq<bool>, s1: LocalMemory.Word, s2: LocalMemory.Word)
    requires !r.abe && |dst| == if fb.narrow then 16 else 32
    ensures Merge(r, fb, Merge(r, fb, dst, s1), s2) == Merge(r, fb, dst, s2)
  {
  }

  /** Painting over whatever a history left is painting over what was there before it. */
  lemma {:induction false} Repaint(r: Registers, fb: Frame, zs: ZSetup, p: Pixel, fs: seq<Fragment>, x: nat, y: nat,
                                   s: LocalMemory.Word)
    requires !r.abe && ProperPixel(fb, p)
    ensures Merge(r, fb, ShadeAll(r, fb, zs, p, fs, x, y).colour, s) == Merge(r, fb, p.colour, s)
  {
    if fs != [] {
      var n := |fs| - 1;
      Repaint(r, fb, zs, p, fs[..n], x, y, s);
      MergeTwice(r, fb, ShadeAll(r, fb, zs, p, fs[..n], x, y).colour, fs[n].colour, s);
    }
  }

  /** GREATER: a pixel nothing came nearer than keeps its colour ... */
  lemma {:induction false} GreaterKeepsOld(r: Registers, fb: Frame, zs: ZSetup, p: Pixel, fs: seq<Fragment>, x: nat,
                                           y: nat)
    requires KeepsNearest(zs) && zs.ztst == 3 && ProperPixel(fb, p)
    requires ShadeAll(r, fb, zs, p, fs, x, y).depth == p.depth
    ensures ShadeAll(r, fb, zs, p, fs, x, y).colour == p.colour
  {
    if fs != [] {
      DepthIsNearest(r, fb, zs, p, fs[..|fs| - 1], x, y);
      GreaterKeepsOld(r, fb, zs, p, fs[..|fs| - 1], x, y);
    }
  }

  /** ... and any other shows the earliest of its nearest fragments. */
  lemma {:induction false} GreaterShowsFirst(r: Registers, fb: Frame, zs: ZSetup, p: Pixel, fs: seq<Fragment>, x: nat,
                                             y: nat, k: nat)
    requires !r.abe && KeepsNearest(zs) && zs.ztst == 3 && ProperPixel(fb, p)
    requires ShadeAll(r, fb, zs, p, fs, x, y).depth > p.depth
    requires IsFirst(zs, fs, x, y, ShadeAll(r, fb, zs, p, fs, x, y).depth, k)
    ensures ShadeAll(r, fb, zs, p, fs, x, y).colour == Merge(r, fb, p.colour, fs[k].colour)
  {
    var n := |fs| - 1;
    DepthIsNearest(r, fb, zs, p, fs[..n], x, y);
    if k < n {
      assert Hits(fs[..n], k, x, y);
      FirstOfPrefix(zs, fs, x, y, ShadeAll(r, fb, zs, p, fs, x, y).depth, k);
      GreaterShowsFirst(r, fb, zs, p, fs[..n], x, y, k);
    } else {
      Repaint(r, fb, zs, p, fs[..n], x, y, fs[n].colour);
    }
  }

  lemma FirstOfPrefix(zs: ZSetup, fs: seq<Fragment>, x: nat, y: nat, d: nat, k: nat)
    requires k < |fs| - 1 && IsFirst(zs, fs, x, y, d, k)
    ensures IsFirst(zs, fs[..|fs| - 1], x, y, d, k)
  {
    var n := |fs| - 1;
    forall j: nat | j < k && Hits(fs[..n], j, x, y) ensures Clamp(zs, fs[..n][j].z) != d {
      assert Hits(fs, j, x, y);
    }
  }

  /** GEQUAL: a pixel with fragments at its final depth shows the latest of them ... */
  lemma {:induction false} GequalShowsLast(r: Registers, fb: Frame, zs: ZSetup, p: Pixel, fs: seq<Fragment>, x: nat,
                                           y: nat, k: nat)
    requires !r.abe && KeepsNearest(zs) && zs.ztst == 2 && ProperPixel(fb, p)
    requires IsLast(zs, fs, x, y, ShadeAll(r, fb, zs, p, fs, x, y).depth, k)
    ensures ShadeAll(r, fb, zs, p, fs, x, y).colour == Merge(r, fb, p.colour, fs[k].colour)
  {
    var n := |fs| - 1;
    DepthIsNearest(r, fb, zs, p, fs[..n], x, y);
    if k < n {
      assert !(Hits(fs, n, x, y) && Clamp(zs, fs[n].z) == ShadeAll(r, fb, zs, p, fs, x, y).depth);
      assert Hits(fs[..n], k, x, y);
      LastOfPrefix(zs, fs, x, y, ShadeAll(r, fb, zs, p, fs, x, y).depth, k);
      GequalShowsLast(r, fb, zs, p, fs[..n], x, y, k);
    } else {
      Repaint(r, fb, zs, p, fs[..n], x, y, fs[n].colour);
    }
  }

  lemma LastOfPrefix(zs: ZSetup, fs: seq<Fragment>, x: nat, y: nat, d: nat, k: nat)
    requires k < |fs| - 1 && IsLast(zs, fs, x, y, d, k)
    ensures IsLast(zs, fs[..|fs| - 1], x, y, d, k)
  {
    var n := |fs| - 1;
    forall j: nat | k < j < n && Hits(fs[..n], j, x, y) ensures Clamp(zs, fs[..n][j].z) != d {
      assert Hits(fs, j, x, y);
    }
  }

  /** ... and one with none keeps its colour. */
  lemma {:induction false} GequalKeepsOld(r: Registers, fb: Frame, zs: ZSetup, p: Pixel, fs: seq<Fragment>, x: nat,
                                          y: nat)
    requires KeepsNearest(zs) && zs.ztst == 2 && ProperPixel(fb, p)
    requires NoneReaches(zs, fs, x, y, ShadeAll(r, fb, zs, p, fs, x, y).depth)
    ensures ShadeAll(r, fb, zs, p, fs, x, y).colour == p.colour
  {
    if fs != [] {
      var n := |fs| - 1;
      DepthIsNearest(r, fb, zs, p, fs, x, y);
      assert ShadeAll(r, fb, zs, p, fs, x, y).depth == p.depth;
      DepthIsNearest(r, fb, zs, p, fs[..n], x, y);
      forall k: nat | k < n && Hits(fs[..n], k, x, y)
        ensures Clamp(zs, fs[..n][k].z) != ShadeAll(r, fb, zs, p, fs[..n], x, y).depth
      {
        assert Hits(fs, k, x, y);
      }
      assert Hits(fs, n, x, y) ==> Clamp(zs, fs[n].z) != p.depth;
      GequalKeepsOld(r, fb, zs, p, fs[..n], x, y);
    }
  }

  lemma FirstThere(zs: ZSetup, fs: seq<Fragment>, x: nat, y: nat, d: nat, k: nat) returns (j: nat)
    requires Hits(fs, k, x, y) && Clamp(zs, fs[k].z) == d
    ensures IsFirst(zs, fs, x, y, d, j)
  {
    if i: nat :| i < k && Hits(fs, i, x, y) && Clamp(zs, fs[i].z) == d {
      j := FirstThere(zs, fs, x, y, d, i);
    } else {
      j := k;
    }
  }

  lemma LastThere(zs: ZSetup, fs: seq<Fragment>, x: nat, y: nat, d: nat, k: nat) returns (j: nat)
    requires Hits(fs, k, x, y) && Clamp(zs, fs[k].z) == d
    ensures IsLast(zs, fs, x, y, d, j)
    decreases |fs| - k
  {
    if i: nat :| k < i < |fs| && Hits(fs, i, x, y) && Clamp(zs, fs[i].z) == d {
      j := LastThere(zs, fs, x, y, d, i);
    } else {
      j := k;
    }
  }

  predicate NoneReaches(zs: ZSetup, fs: seq<Fragment>, x: nat, y: nat, d: nat) {
    forall j: nat :: j < |fs| && Hits(fs, j, x, y) ==> Clamp(zs, fs[j].z) != d
  }

  predicate Shown(r: Registers, fb: Frame, was: Pixel, f: Fragment, now: Pixel)
    requires ProperPixel(fb, was)
  {
    now.colour == Merge(r, fb, was.colour, f.colour)
  }

  /** Whose colour a pixel shows, unblended and under the mask.  GREATER: the earliest
      fragment there to reach the final depth, if it is nearer than the depth held.
      GEQUAL: the latest to reach it.  Where there is none, no change. */
  predicate ShowsNearest(r: Registers, fb: Frame, zs: ZSetup, fs: seq<Fragment>, x: nat, y: nat, was: Pixel, now: Pixel)
    requires ProperPixel(fb, was)
  {
    if zs.ztst == 3 && now.depth == was.depth then now.colour == was.colour
    else if zs.ztst == 3 then
      exists k: nat :: k < |fs| && IsFirst(zs, fs, x, y, now.depth, k) && Shown(r, fb, was, fs[k], now)
    else
      || (now.colour == was.colour && NoneReaches(zs, fs, x, y, now.depth))
      || (exists k: nat :: k < |fs| && IsLast(zs, fs, x, y, now.depth, k) && Shown(r, fb, was, fs[k], now))
  }

  lemma HistoryShows(r: Registers, fb: Frame, zs: ZSetup, p: Pixel, fs: seq<Fragment>, x: nat, y: nat)
    requires KeepsNearest(zs) && !r.abe && ProperPixel(fb, p)
    ensures ShowsNearest(r, fb, zs, fs, x, y, p, ShadeAll(r, fb, zs, p, fs, x, y))
  {
    var q := ShadeAll(r, fb, zs, p, fs, x, y);
    DepthIsNearest(r, fb, zs, p, fs, x, y);
    if zs.ztst == 3 && q.depth == p.depth {
      GreaterKeepsOld(r, fb, zs, p, fs, x, y);
    } else if zs.ztst == 3 {
      var k: nat :| k < |fs| && Hits(fs, k, x, y) && Clamp(zs, fs[k].z) == q.depth;
      var j := FirstThere(zs, fs, x, y, q.depth, k);
      GreaterShowsFirst(r, fb, zs, p, fs, x, y, j);
    } else if NoneReaches(zs, fs, x, y, q.depth) {
      GequalKeepsOld(r, fb, zs, p, fs, x, y);
    } else {
      var k: nat :| k < |fs| && Hits(fs, k, x, y) && Clamp(zs, fs[k].z) == q.depth;
      var j := LastThere(zs, fs, x, y, q.depth, k);
      GequalShowsLast(r, fb, zs, p, fs, x, y, j);
    }
  }

  // ---- the claims, about memory ----------------------------------------------------------------

  /** After any fragments, in any order, a pixel's depth is the greatest of what it held
      and of every clamped depth drawn there. */
  lemma FinalDepth(r: Registers, fb: Frame, zs: ZSetup, height: nat, c: Canvas, fs: seq<Fragment>, x: nat, y: nat)
    requires Laid(fb, zs, height) && AllInBuffer(fb, height, fs) && KeepsNearest(zs)
    requires InBuffer(fb, height, x, y) && Backed(fb, zs, x, y)
    ensures IsNearest(zs, ReadDepth(zs, c.vm, x, y), fs, x, y,
                      ReadDepth(zs, DrawAll(StepOf(r, fb, Some(zs)), c, fs).vm, x, y))
  {
    Refines(r, fb, zs, height, c, fs, x, y);
    DepthIsNearest(r, fb, zs, Read(fb, zs, c.vm, x, y), fs, x, y);
  }

  /** ... so it does not depend on the order they were drawn in. */
  lemma DepthOrderFree(r: Registers, fb: Frame, zs: ZSetup, height: nat, c: Canvas, fs: seq<Fragment>,
                       gs: seq<Fragment>, x: nat, y: nat)
    requires Laid(fb, zs, height) && AllInBuffer(fb, height, fs) && AllInBuffer(fb, height, gs) && KeepsNearest(zs)
    requires InBuffer(fb, height, x, y) && Backed(fb, zs, x, y)
    requires forall f :: f in fs <==> f in gs
    ensures ReadDepth(zs, DrawAll(StepOf(r, fb, Some(zs)), c, fs).vm, x, y)
         == ReadDepth(zs, DrawAll(StepOf(r, fb, Some(zs)), c, gs).vm, x, y)
  {
    FinalDepth(r, fb, zs, height, c, fs, x, y);
    FinalDepth(r, fb, zs, height, c, gs, x, y);
    NearestUnique(zs, ReadDepth(zs, c.vm, x, y), fs, gs, x, y,
                  ReadDepth(zs, DrawAll(StepOf(r, fb, Some(zs)), c, fs).vm, x, y),
                  ReadDepth(zs, DrawAll(StepOf(r, fb, Some(zs)), c, gs).vm, x, y));
  }

  /** Its colour, unblended, is that of the earliest fragment there to reach the final
      depth (GREATER) or of the latest (GEQUAL), under the mask; and is untouched where
      no fragment reached it. */
  lemma FinalColour(r: Registers, fb: Frame, zs: ZSetup, height: nat, c: Canvas, fs: seq<Fragment>, x: nat, y: nat)
    requires Laid(fb, zs, height) && AllInBuffer(fb, height, fs) && KeepsNearest(zs) && !r.abe
    requires InBuffer(fb, height, x, y) && Backed(fb, zs, x, y)
    ensures ShowsNearest(r, fb, zs, fs, x, y, Read(fb, zs, c.vm, x, y),
                         Read(fb, zs, DrawAll(StepOf(r, fb, Some(zs)), c, fs).vm, x, y))
  {
    Refines(r, fb, zs, height, c, fs, x, y);
    HistoryShows(r, fb, zs, Read(fb, zs, c.vm, x, y), fs, x, y);
  }

  // ---- what drawing leaves alone ---------------------------------------------------------------

  /** A word outside a span of pages. */
  predicate Outside(a: nat, from: nat, end: nat) { a / 2048 < from || end <= a / 2048 }

  predicate OutsideFrame(fb: Frame, height: nat, a: nat) {
    Outside(a, fb.fbp, EndPage(fb.narrow, fb.fbp, fb.fbw, height))
  }

  predicate OutsideDepth(zs: Test, fbw: nat, height: nat, a: nat) {
    zs.Some? ==> zs.value.fbw == fbw && Outside(a, zs.value.zbp, EndPage(zs.value.narrow, zs.value.zbp, fbw, height))
  }

  predicate SpareTop(fb: Frame) { !fb.narrow && forall i :: 24 <= i < 32 ==> fb.mask[i] }

  lemma ColourPutAt(r: Registers, fb: Frame, vm: Memory, f: Fragment, a: nat)
    requires a < VM_WORDS && FrameLoc(fb, f.x, f.y).word < VM_WORDS
    ensures a != FrameLoc(fb, f.x, f.y).word ==> ColourWritten(r, fb, vm, f)[a] == vm[a]
    ensures SpareTop(fb) ==> ColourWritten(r, fb, vm, f)[a][24..] == vm[a][24..]
  {
    if SpareTop(fb) {
      SpareMerge(r, fb, vm[a], f.colour);
    }
  }

  lemma SpareMerge(r: Registers, fb: Frame, word: LocalMemory.Word, colour: LocalMemory.Word)
    requires SpareTop(fb)
    ensures Merge(r, fb, word, colour)[24..] == word[24..]
  {
  }

  lemma DepthElsewhere(zs: Test, vm: Memory, f: Fragment, a: nat)
    requires a < VM_WORDS && Survives(zs, vm, f) && (zs.Some? ==> a != ZLoc(zs.value, f.x, f.y).word)
    ensures DepthWritten(zs, vm, f)[a] == vm[a]
  {
  }

  /** The bits of a word that one fragment keeps. */
  lemma OneKeeps(r: Registers, fb: Frame, zs: Test, height: nat, c: Canvas, f: Fragment, a: nat)
    requires InBuffer(fb, height, f.x, f.y) && a < VM_WORDS && OutsideDepth(zs, fb.fbw, height, a)
    ensures OutsideFrame(fb, height, a) ==> Draw(r, fb, zs, c, f).vm[a] == c.vm[a]
    ensures SpareTop(fb) ==> Draw(r, fb, zs, c, f).vm[a][24..] == c.vm[a][24..]
  {
    if FrameLoc(fb, f.x, f.y).word < VM_WORDS && Survives(zs, c.vm, f) {
      OutsideLocs(fb, zs, height, f, a);
      DepthElsewhere(zs, c.vm, f, a);
      ColourPutAt(r, fb, DepthWritten(zs, c.vm, f), f, a);
    }
  }

  lemma OutsideLocs(fb: Frame, zs: Test, height: nat, f: Fragment, a: nat)
    requires InBuffer(fb, height, f.x, f.y) && OutsideDepth(zs, fb.fbw, height, a)
    ensures OutsideFrame(fb, height, a) ==> a != FrameLoc(fb, f.x, f.y).word
    ensures zs.Some? ==> a != ZLoc(zs.value, f.x, f.y).word
  {
    LocInPages(fb.narrow, fb.sform, false, fb.fbp, fb.fbw, f.x, f.y, height);
    if zs.Some? {
      LocInPages(zs.value.narrow, zs.value.sform, true, zs.value.zbp, fb.fbw, f.x, f.y, height);
    }
  }

  /** Drawing never leaves the two buffers' pages, and a PSMCT24 frame never disturbs
      the palette indices kept in its words' spare bytes. */
  lemma {:induction false} Keeps(r: Registers, fb: Frame, zs: Test, height: nat, c: Canvas, fs: seq<Fragment>, a: nat)
    requires AllInBuffer(fb, height, fs) && a < VM_WORDS && OutsideDepth(zs, fb.fbw, height, a)
    ensures OutsideFrame(fb, height, a) ==> DrawAll(StepOf(r, fb, zs), c, fs).vm[a] == c.vm[a]
    ensures FbSetup(r) == Some(fb) && r.framePsm == 1 ==> DrawAll(StepOf(r, fb, zs), c, fs).vm[a][24..] == c.vm[a][24..]
  {
    if fs != [] {
      var k := |fs| - 1;
      Keeps(r, fb, zs, height, c, fs[..k], a);
      assert InBuffer(fb, height, fs[k].x, fs[k].y);
      OneKeeps(r, fb, zs, height, DrawAll(StepOf(r, fb, zs), c, fs[..k]), fs[k], a);
    }
  }

  /** PSMZ24: the byte above the depth field survives. */
  lemma {:induction false} SpareByte(r: Registers, fb: Frame, zs: ZSetup, height: nat, c: Canvas, fs: seq<Fragment>,
                                     a: nat)
    requires Laid(fb, zs, height) && AllInBuffer(fb, height, fs) && a < VM_WORDS && OutsideFrame(fb, height, a)
    requires !zs.narrow && zs.width == 24
    ensures DrawAll(StepOf(r, fb, Some(zs)), c, fs).vm[a][24..] == c.vm[a][24..]
  {
    if fs != [] {
      var k := |fs| - 1;
      SpareByte(r, fb, zs, height, c, fs[..k], a);
      assert InBuffer(fb, height, fs[k].x, fs[k].y);
      OneSpareByte(r, fb, zs, height, DrawAll(StepOf(r, fb, Some(zs)), c, fs[..k]), fs[k], a);
    }
  }

  lemma OneSpareByte(r: Registers, fb: Frame, zs: ZSetup, height: nat, c: Canvas, f: Fragment, a: nat)
    requires Laid(fb, zs, height) && InBuffer(fb, height, f.x, f.y) && a < VM_WORDS && OutsideFrame(fb, height, a)
    requires !zs.narrow && zs.width == 24
    ensures Draw(r, fb, Some(zs), c, f).vm[a][24..] == c.vm[a][24..]
  {
    if FrameLoc(fb, f.x, f.y).word < VM_WORDS && Survives(Some(zs), c.vm, f) {
      OutsideLocs(fb, None, height, f, a);
      SparePut(zs, c.vm, ZLoc(zs, f.x, f.y), f.z, a);
      ColourPutAt(r, fb, DepthWritten(Some(zs), c.vm, f), f, a);
    }
  }

  lemma SparePut(zs: ZSetup, vm: Memory, at: Loc, z: nat, a: nat)
    requires ProperZ(zs) && at.word < VM_WORDS && a < VM_WORDS && !zs.narrow
    ensures DepthPut(zs, vm, at, z)[a][zs.width..] == vm[a][zs.width..]
  {
    DepthBack(zs, vm[at.word], at.high, Clamp(zs, z));
  }

  /** The formats that keep a palette index in the byte a 24-bit colour leaves over. */
  datatype HFormat = T8H | T4HL | T4HH

  function HIndex(h: HFormat, vm: Memory, tbp: nat, tbw: nat, x: nat, y: nat): nat
    requires Addr32p(tbp / 32, tbw, x, y, false) < VM_WORDS
  {
    var word := vm[Addr32p(tbp / 32, tbw, x, y, false)];
    match h
    case T8H => Number(word[24..])
    case T4HL => Number(word[24..][..4])
    case T4HH => Number(word[24..][4..])
  }

  /** Drawing to a PSMCT24 frame leaves every such index as it was, wherever the texture
      is, provided only that it is not in the depth buffer. */
  lemma IndexSurvives(r: Registers, fb: Frame, zs: Test, height: nat, c: Canvas, fs: seq<Fragment>, h: HFormat,
                      tbp: nat, tbw: nat, x: nat, y: nat)
    requires FbSetup(r) == Some(fb) && r.framePsm == 1 && AllInBuffer(fb, height, fs)
    requires Addr32p(tbp / 32, tbw, x, y, false) < VM_WORDS
    requires OutsideDepth(zs, fb.fbw, height, Addr32p(tbp / 32, tbw, x, y, false))
    ensures HIndex(h, DrawAll(StepOf(r, fb, zs), c, fs).vm, tbp, tbw, x, y) == HIndex(h, c.vm, tbp, tbw, x, y)
  {
    Keeps(r, fb, zs, height, c, fs, Addr32p(tbp / 32, tbw, x, y, false));
  }
}
