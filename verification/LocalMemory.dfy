/** The GS's local memory in sim/gs/gs_ref.py: what one pixel write and one depth test
    read and change, whatever the frame and depth formats.  A word is its 32 bits, the
    least significant first, so that a shift or a mask is a slice or a choice. */
module LocalMemory {
  import opened Wrappers
  import opened Bits
  import opened Swizzle

  const VM_WORDS := 1048576

  type Word = b: seq<bool> | |b| == 32 witness seq(32, i => false)

  type Memory = m: seq<Word> | |m| == VM_WORDS witness seq(VM_WORDS, i => seq(32, j => false))

  /** The fields of FRAME, ZBUF, TEST, ALPHA, COLCLAMP and PRIM that drawing looks at. */
  datatype Registers = Registers(
    fbp: nat, fbw: nat, framePsm: nat, fbmsk: Word,
    zbp: nat, zPsm: nat, zmsk: bool,
    zte: bool, ztst: nat,
    abe: bool, selA: nat, selB: nat, selC: nat, selD: nat, fix: nat, colclamp: bool)

  /** What FRAME says about the frame buffer. */
  datatype Frame = Frame(narrow: bool, sform: bool, fbp: nat, fbw: nat, mask: Word)

  /** What the depth test needs. */
  datatype ZSetup = ZSetup(narrow: bool, sform: bool, zbp: nat, fbw: nat, ztst: nat, write: bool, width: nat)

  /** PSMCT24's top byte is not part of the pixel, which is said as a mask. */
  function FbSetup(r: Registers): Option<Frame> {
    if r.framePsm !in {0, 1, 2, 10} then None
    else
      Some(Frame(r.framePsm in {2, 10}, r.framePsm == 10, r.fbp, r.fbw,
                 if r.framePsm == 1 then r.fbmsk[..24] + seq(8, i => true) else r.fbmsk))
  }

  /** Depth is out of play with ZTE clear, with ALWAYS and the write masked, and with a
      format that is not a depth format.  The buffer's width is the frame's. */
  function ZSetupOf(r: Registers): (zs: Option<ZSetup>)
    ensures zs.Some? ==> ProperZ(zs.value)
  {
    if !r.zte || (r.ztst == 1 && r.zmsk) || r.zPsm !in {0, 1, 2, 10} then None
    else
      Some(ZSetup(r.zPsm in {2, 10}, r.zPsm == 10, r.zbp, r.fbw, r.ztst, !r.zmsk,
                  if r.zPsm == 0 then 32 else if r.zPsm == 1 then 24 else 16))
  }

  predicate ProperZ(zs: ZSetup) { if zs.narrow then zs.width == 16 else zs.width == 24 || zs.width == 32 }

  // ---- words and halves --------------------------------------------------------------------

  /** A word, and which half of it when the format is narrow. */
  datatype Loc = Loc(word: nat, high: bool)

  function LocOf(narrow: bool, sform: bool, depth: bool, base: nat, bw: nat, x: nat, y: nat): Loc {
    if narrow then
      var (word, half) := Addr16p(base, bw, x, y, sform, depth); Loc(word, half == 1)
    else Loc(Addr32p(base, bw, x, y, depth), false)
  }

  function FrameLoc(fb: Frame, x: nat, y: nat): Loc { LocOf(fb.narrow, fb.sform, false, fb.fbp, fb.fbw, x, y) }

  function ZLoc(zs: ZSetup, x: nat, y: nat): Loc { LocOf(zs.narrow, zs.sform, true, zs.zbp, zs.fbw, x, y) }

  /** The word or half-word at a location ... */
  function Get(word: Word, narrow: bool, high: bool): (field: seq<bool>)
    ensures |field| == if narrow then 16 else 32
  {
    if !narrow then word else if high then word[16..] else word[..16]
  }

  /** ... and the word with it replaced. */
  function Set(word: Word, narrow: bool, high: bool, field: seq<bool>): Word
    requires |field| == if narrow then 16 else 32
  {
    if !narrow then field else if high then word[..16] + field else field + word[16..]
  }

  /** A byte of a word, as a number. */
  function ByteOf(w: Word, k: nat): nat
    requires k < 4
  {
    Number(w[8 * k..8 * k + 8])
  }

  // ---- colour --------------------------------------------------------------------------------

  /** RGBA8888 to RGBA5551. */
  function Pack16(c: Word): (p: seq<bool>)
    ensures |p| == 16
  {
    c[3..8] + c[11..16] + c[19..24] + [c[31]]
  }

  /** RGBA5551 to RGBA8888. */
  function Expand16(p: seq<bool>): Word
    requires |p| == 16
  {
    [false, false, false] + p[..5] + [false, false, false] + p[5..10] + [false, false, false] + p[10..15]
    + [false, false, false, false, false, false, false, p[15]]
  }

  function Clamp8(v: int, clamp: bool): nat {
    if clamp then if v < 0 then 0 else if v > 255 then 255 else v else v % 256
  }

  function Pick(sel: nat, s: nat, d: nat): nat { if sel == 0 then s else if sel == 1 then d else 0 }

  /** One channel through the blender: ((A - B) * C >> 7) + D, the shift a floor. */
  function BlendByte(r: Registers, src: seq<bool>, dst: seq<bool>, c: nat): (b: seq<bool>)
    ensures |b| == 8
  {
    var (s, d) := (Number(src), Number(dst));
    Digits(Clamp8((Pick(r.selA, s, d) - Pick(r.selB, s, d)) * c / 128 + Pick(r.selD, s, d), r.colclamp), 8)
  }

  /** Only the three colours are blended: the alpha written is the source's. */
  function Blend(r: Registers, src: Word, dst: Word): Word {
    if !r.abe then src
    else
      var c := if r.selC == 0 then Number(src[24..]) else if r.selC == 1 then Number(dst[24..]) else r.fix;
      BlendByte(r, src[..8], dst[..8], c) + BlendByte(r, src[8..16], dst[8..16], c)
      + BlendByte(r, src[16..24], dst[16..24], c) + src[24..]
  }

  /** The masked bits of what was there, and the others of what is written. */
  function Masked(mask: seq<bool>, dst: seq<bool>, src: seq<bool>): (r: seq<bool>)
    requires |mask| == |dst| == |src|
    ensures |r| == |mask|
  {
    seq(|mask|, i requires 0 <= i < |mask| => if mask[i] then dst[i] else src[i])
  }

  /** A buffer's field once a fragment's colour has been written over it.  A mask's bits
      are those of the pixel before conversion, so it is packed as the colour is. */
  function Merge(r: Registers, fb: Frame, dst: seq<bool>, src: Word): (m: seq<bool>)
    requires |dst| == if fb.narrow then 16 else 32
    ensures |m| == |dst|
  {
    if fb.narrow then Masked(Pack16(fb.mask), dst, Pack16(Blend(r, src, Expand16(dst))))
    else Masked(fb.mask, dst, Blend(r, src, dst))
  }

  // ---- one fragment --------------------------------------------------------------------------

  datatype Fragment = Fragment(x: nat, y: nat, z: nat, colour: Word)

  /** A depth too wide for the format clamps; it does not wrap. */
  function Clamp(zs: ZSetup, z: nat): nat { if z > Two(zs.width) - 1 then Two(zs.width) - 1 else z }

  /** NEVER, ALWAYS, GEQUAL and GREATER. */
  predicate Passes(zs: ZSetup, z: nat, held: nat) {
    zs.ztst != 0 && (zs.ztst == 1 || if zs.ztst == 2 then Clamp(zs, z) >= held else Clamp(zs, z) > held)
  }

  /** The depth in a word's field ... */
  function DepthIn(zs: ZSetup, word: Word, high: bool): nat
    requires ProperZ(zs)
  {
    Number(Get(word, zs.narrow, high)[..zs.width])
  }

  /** ... and the word with another depth there. */
  function WithDepth(zs: ZSetup, word: Word, high: bool, z: nat): Word
    requires ProperZ(zs)
  {
    Set(word, zs.narrow, high, Digits(z, zs.width) + Get(word, zs.narrow, high)[zs.width..])
  }

  /** Local memory and the count of pixels written. */
  datatype Canvas = Canvas(vm: Memory, pixels: nat)

  function ReadDepth(zs: ZSetup, vm: Memory, x: nat, y: nat): nat
    requires ProperZ(zs) && ZLoc(zs, x, y).word < VM_WORDS
  {
    DepthIn(zs, vm[ZLoc(zs, x, y).word], ZLoc(zs, x, y).high)
  }

  type Test = zs: Option<ZSetup> | zs.Some? ==> ProperZ(zs.value) witness None

  predicate Survives(zs: Test, vm: Memory, f: Fragment) {
    zs.None?
    || (var at := ZLoc(zs.value, f.x, f.y);
        at.word < VM_WORDS && Passes(zs.value, f.z, ReadDepth(zs.value, vm, f.x, f.y)))
  }

  function DepthPut(s: ZSetup, vm: Memory, at: Loc, z: nat): Memory
    requires ProperZ(s) && at.word < VM_WORDS
  {
    if s.write then vm[at.word := WithDepth(s, vm[at.word], at.high, Clamp(s, z))] else vm
  }

  /** The depth write of a fragment that has survived: it happens even where the frame
      buffer's mask lets nothing through. */
  function DepthWritten(zs: Test, vm: Memory, f: Fragment): Memory
    requires Survives(zs, vm, f)
  {
    if zs.None? then vm else DepthPut(zs.value, vm, ZLoc(zs.value, f.x, f.y), f.z)
  }

  function ColourWritten(r: Registers, fb: Frame, vm: Memory, f: Fragment): Memory
    requires FrameLoc(fb, f.x, f.y).word < VM_WORDS
  {
    var at := FrameLoc(fb, f.x, f.y);
    var word := vm[at.word];
    vm[at.word := Set(word, fb.narrow, at.high, Merge(r, fb, Get(word, fb.narrow, at.high), f.colour))]
  }

  /** One fragment.  A pixel outside memory is passed over before the depth test. */
  function Draw(r: Registers, fb: Frame, zs: Test, c: Canvas, f: Fragment): Canvas {
    if FrameLoc(fb, f.x, f.y).word >= VM_WORDS || !Survives(zs, c.vm, f) then c
    else Canvas(ColourWritten(r, fb, DepthWritten(zs, c.vm, f), f), c.pixels + 1)
  }

  type Step = (Canvas, Fragment) -> Canvas

  function StepOf(r: Registers, fb: Frame, zs: Test): Step { (c, f) => Draw(r, fb, zs, c, f) }

  /** Fragments in order. */
  function DrawAll(step: Step, c: Canvas, fs: seq<Fragment>): Canvas {
    if fs == [] then c else step(DrawAll(step, c, fs[..|fs| - 1]), fs[|fs| - 1])
  }

  lemma DrawOne(step: Step, c: Canvas, fs: seq<Fragment>, f: Fragment)
    ensures DrawAll(step, c, fs + [f]) == step(DrawAll(step, c, fs), f)
  {
    var more := fs + [f];
    assert more[..|more| - 1] == fs;
  }

  lemma {:induction false} DrawInTurn(step: Step, c: Canvas, first: seq<Fragment>, next: seq<Fragment>)
    ensures DrawAll(step, c, first + next) == DrawAll(step, DrawAll(step, c, first), next)
  {
    if next == [] {
      assert first + next == first;
    } else {
      var k := |next| - 1;
      DrawInTurn(step, c, first, next[..k]);
      assert first + next == (first + next[..k]) + [next[k]];
      DrawOne(step, c, first + next[..k], next[k]);
    }
  }

  /** A name for one fragment's drawing, so that a loop need not look inside it. */
  ghost predicate Steps(step: Step, r: Registers, fb: Frame, zs: Test) {
    forall c, f {:trigger Draw(r, fb, zs, c, f)} :: step(c, f) == Draw(r, fb, zs, c, f)
  }
}
