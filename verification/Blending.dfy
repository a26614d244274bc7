/** What one pixel write leaves in the frame buffer, channel by channel and bit by bit: the
    blender's arithmetic on numbers, the 16-bit formats' conversions and the write mask. */
module Blending {
  import opened Arith
  import opened Bits
  import opened LocalMemory

  // ---- the blender's arithmetic ------------------------------------------------------------------

  /** One channel's blend: the four operands and the number they come to. */
  datatype Mix = Mix(a: int, b: int, c: int, d: int, v: int)

  /** A, B and D are the source's byte, the destination's byte or zero. */
  predicate Selects(sel: nat, s: nat, d: nat, v: int) {
    (sel == 0 ==> v == s) && (sel == 1 ==> v == d) && (sel > 1 ==> v == 0)
  }

  /** v is D plus the 128th part of (A - B) times C, rounded down; C is the source's alpha,
      the destination's alpha or FIX. */
  predicate Proper(r: Registers, s: nat, d: nat, sa: nat, da: nat, m: Mix) {
    && Selects(r.selA, s, d, m.a) && Selects(r.selB, s, d, m.b) && Selects(r.selD, s, d, m.d)
    && (r.selC == 0 ==> m.c == sa) && (r.selC == 1 ==> m.c == da) && (r.selC > 1 ==> m.c == r.fix)
    && 128 * (m.v - m.d) <= (m.a - m.b) * m.c < 128 * (m.v - m.d) + 128
  }

  /** The byte a number ends as: cut to 0..255 with COLCLAMP set, and taken modulo 256 with
      it clear. */
  predicate Lands(v: int, clamp: bool, out: nat) {
    && out <= 255
    && (clamp && v < 0 ==> out == 0) && (clamp && 0 <= v <= 255 ==> out == v) && (clamp && v > 255 ==> out == 255)
    && (!clamp ==> (v - out) % 256 == 0)
  }

  lemma SumIs(m: Mix)
    requires 128 * (m.v - m.d) <= (m.a - m.b) * m.c < 128 * (m.v - m.d) + 128
    ensures (m.a - m.b) * m.c / 128 + m.d == m.v
  {
    var p := (m.a - m.b) * m.c;
    Unique(p, m.v - m.d, p - 128 * (m.v - m.d), 128);
  }

  lemma LandsClamped(v: int, clamp: bool, out: nat)
    ensures Lands(v, clamp, Clamp8(v, clamp))
    ensures Lands(v, clamp, out) ==> out == Clamp8(v, clamp)
  {
  }

  lemma ByteBlends(r: Registers, src: seq<bool>, dst: seq<bool>, sa: nat, da: nat, c: nat, m: Mix)
    requires Proper(r, Number(src), Number(dst), sa, da, m) && c == m.c
    ensures Lands(m.v, r.colclamp, Number(BlendByte(r, src, dst, c)))
  {
    SumIs(m);
    LandsClamped(m.v, r.colclamp, 0);
    Powers();
    NumberOfDigits(Clamp8(m.v, r.colclamp), 8);
  }

  /** Every pair of pixels has its mix. */
  lemma MixExists(r: Registers, s: nat, d: nat, sa: nat, da: nat) returns (m: Mix)
    ensures Proper(r, s, d, sa, da, m)
  {
    var c := if r.selC == 0 then sa else if r.selC == 1 then da else r.fix;
    var (a, b, e) := (Pick(r.selA, s, d), Pick(r.selB, s, d), Pick(r.selD, s, d));
    m := Mix(a, b, c, e, (a - b) * c / 128 + e);
  }

  lemma BlendBytes(r: Registers, src: Word, dst: Word, k: nat)
    requires r.abe && k < 3
    ensures Blend(r, src, dst)[24..] == src[24..]
    ensures Blend(r, src, dst)[8 * k..8 * k + 8] ==
      BlendByte(r, src[8 * k..8 * k + 8], dst[8 * k..8 * k + 8],
                if r.selC == 0 then ByteOf(src, 3) else if r.selC == 1 then ByteOf(dst, 3) else r.fix)
  {
    hide BlendByte, Number;
    assert src[24..32] == src[24..] && dst[24..32] == dst[24..];
  }

  lemma BlendMixes(r: Registers, src: Word, dst: Word, k: nat, m: Mix)
    requires r.abe && k < 3 && Proper(r, ByteOf(src, k), ByteOf(dst, k), ByteOf(src, 3), ByteOf(dst, 3), m)
    ensures Lands(m.v, r.colclamp, ByteOf(Blend(r, src, dst), k))
    ensures ByteOf(Blend(r, src, dst), 3) == ByteOf(src, 3)
  {
    var blended := Blend(r, src, dst);
    BlendBytes(r, src, dst, k);
    ByteBlends(r, src[8 * k..8 * k + 8], dst[8 * k..8 * k + 8], ByteOf(src, 3), ByteOf(dst, 3), m.c, m);
    hide Blend, BlendByte, Number, Lands;
    assert blended[24..32] == blended[24..] && src[24..32] == src[24..];
  }

  // ---- 32-bit pixels ---------------------------------------------------------------------------

  function NoMask(): Word { seq(32, i => false) }

  function Unmasked(fb: Frame): Frame { Frame(fb.narrow, fb.sform, fb.fbp, fb.fbw, NoMask()) }

  lemma SamePlace(fb: Frame, x: nat, y: nat)
    ensures FrameLoc(Unmasked(fb), x, y) == FrameLoc(fb, x, y)
  {
  }

  /** The word a fragment's pixel is in, before and after its colour is written. */
  function Before(fb: Frame, vm: Memory, f: Fragment): Word
    requires FrameLoc(fb, f.x, f.y).word < VM_WORDS
  {
    vm[FrameLoc(fb, f.x, f.y).word]
  }

  function After(r: Registers, fb: Frame, vm: Memory, f: Fragment): Word
    requires FrameLoc(fb, f.x, f.y).word < VM_WORDS
  {
    ColourWritten(r, fb, vm, f)[FrameLoc(fb, f.x, f.y).word]
  }

  lemma MaskOff(dst: seq<bool>, src: seq<bool>, mask: seq<bool>)
    requires |dst| == |src| == |mask| && forall i :: 0 <= i < |mask| ==> !mask[i]
    ensures Masked(mask, dst, src) == src
  {
  }

  lemma WideAfter(r: Registers, fb: Frame, vm: Memory, f: Fragment)
    requires !fb.narrow && FrameLoc(fb, f.x, f.y).word < VM_WORDS
    ensures After(r, fb, vm, f) == Masked(fb.mask, Before(fb, vm, f), Blend(r, f.colour, Before(fb, vm, f)))
  {
    hide Blend, Masked, FrameLoc;
  }

  /** An unmasked 32-bit pixel: each colour byte is where the mix lands, and alpha is the
      source's. */
  lemma WideBlends(r: Registers, fb: Frame, vm: Memory, f: Fragment, k: nat, m: Mix)
    requires r.abe && !fb.narrow && FrameLoc(fb, f.x, f.y).word < VM_WORDS && k < 3
    requires var held := Before(fb, vm, f);
      Proper(r, ByteOf(f.colour, k), ByteOf(held, k), ByteOf(f.colour, 3), ByteOf(held, 3), m)
    ensures Lands(m.v, r.colclamp, ByteOf(After(r, Unmasked(fb), vm, f), k))
    ensures ByteOf(After(r, Unmasked(fb), vm, f), 3) == ByteOf(f.colour, 3)
  {
    var held := Before(fb, vm, f);
    hide Blend, FrameLoc, Number;
    WideAfter(r, Unmasked(fb), vm, f);
    MaskOff(held, Blend(r, f.colour, held), NoMask());
    hide Proper, Masked, Lands;
    BlendMixes(r, f.colour, held, k, m);
  }

  /** With blending off it is the source whole. */
  lemma WideCopies(r: Registers, fb: Frame, vm: Memory, f: Fragment)
    requires !r.abe && !fb.narrow && FrameLoc(fb, f.x, f.y).word < VM_WORDS
    ensures After(r, Unmasked(fb), vm, f) == f.colour
  {
    SamePlace(fb, f.x, f.y);
    hide FrameLoc;
    WideAfter(r, Unmasked(fb), vm, f);
    MaskOff(Before(fb, vm, f), f.colour, NoMask());
  }

  /** The mask's bits keep what the word held, and the others are as without a mask. */
  lemma WideMask(r: Registers, fb: Frame, vm: Memory, f: Fragment, i: nat)
    requires !fb.narrow && FrameLoc(fb, f.x, f.y).word < VM_WORDS && i < 32
    ensures After(r, fb, vm, f)[i] ==
              if fb.mask[i] then Before(fb, vm, f)[i] else After(r, Unmasked(fb), vm, f)[i]
  {
    SamePlace(fb, f.x, f.y);
    hide FrameLoc, Blend;
    WideAfter(r, fb, vm, f);
    WideAfter(r, Unmasked(fb), vm, f);
  }

  // ---- the ordinary mix ------------------------------------------------------------------------

  /** (Cs - Cd) * C + Cd. */
  predicate Ordinary(r: Registers) { r.abe && r.selA == 0 && r.selB == 1 && r.selD == 1 }

  lemma MixEnds(s: int, d: int, c: int, v: int)
    requires 128 * (v - d) <= (s - d) * c < 128 * (v - d) + 128
    ensures c == 128 ==> v == s
    ensures c == 0 ==> v == d
    ensures 0 <= c <= 128 ==> (s <= v <= d || d <= v <= s)
  {
    if 0 <= c <= 128 {
      if s >= d {
        Scaled(s - d, c);
        assert 0 <= 128 * (v - d) + 127 && 128 * (v - d) <= 128 * (s - d);
      } else {
        Scaled(d - s, c);
        assert (s - d) * c == -((d - s) * c);
        assert 128 * (s - d) <= 128 * (v - d) + 127 && 128 * (v - d) <= 0;
      }
    }
  }

  lemma Scaled(n: nat, c: int)
    requires 0 <= c <= 128
    ensures 0 <= n * c <= 128 * n
  {
  }

  /** A factor of 128 leaves the source and one of 0 the destination, and between them each
      colour lies between the two, with COLCLAMP set or clear. */
  lemma OrdinaryMix(r: Registers, fb: Frame, vm: Memory, f: Fragment, k: nat, m: Mix)
    requires Ordinary(r) && !fb.narrow && FrameLoc(fb, f.x, f.y).word < VM_WORDS && k < 3
    requires var held := Before(fb, vm, f);
      Proper(r, ByteOf(f.colour, k), ByteOf(held, k), ByteOf(f.colour, 3), ByteOf(held, 3), m)
    ensures var (s, d) := (ByteOf(f.colour, k), ByteOf(Before(fb, vm, f), k));
      var out := ByteOf(After(r, Unmasked(fb), vm, f), k);
      && (m.c == 128 ==> out == s) && (m.c == 0 ==> out == d)
      && (0 <= m.c <= 128 ==> s <= out <= d || d <= out <= s)
  {
    var held := Before(fb, vm, f);
    hide Blend, FrameLoc, Number;
    WideBlends(r, fb, vm, f, k, m);
    hide After, Before, Unmasked;
    ByteBelow(f.colour, k);
    ByteBelow(held, k);
    EndsLand(r, m, ByteOf(f.colour, k), ByteOf(held, k), ByteOf(f.colour, 3), ByteOf(held, 3),
             ByteOf(After(r, Unmasked(fb), vm, f), k));
  }

  lemma EndsLand(r: Registers, m: Mix, s: nat, d: nat, sa: nat, da: nat, out: nat)
    requires Ordinary(r) && Proper(r, s, d, sa, da, m) && Lands(m.v, r.colclamp, out)
    requires s <= 255 && d <= 255
    ensures (m.c == 128 ==> out == s) && (m.c == 0 ==> out == d)
    ensures 0 <= m.c <= 128 ==> s <= out <= d || d <= out <= s
  {
    MixEnds(m.a, m.b, m.c, m.v);
  }

  lemma ByteBelow(w: Word, k: nat)
    requires k < 4
    ensures ByteOf(w, k) <= 255
  {
    NumberFits(w[8 * k..8 * k + 8]);
    Powers();
  }

  // ---- 16-bit pixels ---------------------------------------------------------------------------

  /** A 16-bit pixel's five-bit colours and its alpha bit. */
  function FiveBits(p: seq<bool>, k: nat): nat
    requires |p| == 16 && k < 3
  {
    Number(p[5 * k..5 * k + 5])
  }

  lemma Eighth(s: seq<bool>)
    requires |s| >= 3
    ensures Number(s[3..]) == Number(s) / 8
  {
    ThreeOff(s);
  }

  lemma Eightfold(s: seq<bool>)
    ensures Number([false, false, false] + s) == 8 * Number(s)
  {
    var t := [false, false, false] + s;
    ThreeOff(t);
    assert t[3..] == s;
  }

  lemma Packs(c: Word, k: nat)
    requires k < 3
    ensures FiveBits(Pack16(c), k) == ByteOf(c, k) / 8
    ensures Pack16(c)[15] == c[31]
  {
    Eighth(c[8 * k..8 * k + 8]);
    hide Number;
    assert Pack16(c)[5 * k..5 * k + 5] == c[8 * k..8 * k + 8][3..];
  }

  lemma Expands(p: seq<bool>, k: nat)
    requires |p| == 16 && k < 3
    ensures ByteOf(Expand16(p), k) == 8 * FiveBits(p, k)
    ensures ByteOf(Expand16(p), 3) == if p[15] then 128 else 0
  {
    Eightfold(p[5 * k..5 * k + 5]);
    TopBit(p[15]);
    hide Number;
    assert Expand16(p)[8 * k..8 * k + 8] == [false, false, false] + p[5 * k..5 * k + 5];
    assert Expand16(p)[24..32] == [false, false, false, false, false, false, false, p[15]];
  }

  lemma TopBit(b: bool)
    ensures Number([false, false, false, false, false, false, false, b]) == if b then 128 else 0
  {
    SevenAndOne([false, false, false, false, false, false, false, b]);
  }

  lemma AlphaBit(w: Word)
    ensures w[31] <==> ByteOf(w, 3) >= 128
  {
    SevenAndOne(w[24..32]);
  }

  /** A byte from its bits. */
  lemma SevenAndOne(s: seq<bool>)
    requires |s| == 8
    ensures Number(s) == Bit(s[0]) + 2 * Bit(s[1]) + 4 * Bit(s[2]) + 8 * Bit(s[3]) + 16 * Bit(s[4]) + 32 * Bit(s[5])
                         + 64 * Bit(s[6]) + 128 * Bit(s[7])
  {
    var (t, u) := (s[3..], s[6..]);
    ThreeOff(s);
    ThreeOff(t);
    assert t[3..] == u && u[1..] == s[7..];
    assert Number(u) == Bit(s[6]) + 2 * Number(s[7..]);
    assert Number(s[7..]) == Bit(s[7]);
  }

  /** The half a fragment's pixel is in, and the other one, in a word. */
  function Mine(fb: Frame, f: Fragment, w: Word): (h: seq<bool>)
    requires fb.narrow
    ensures |h| == 16
  {
    if FrameLoc(fb, f.x, f.y).high then w[16..] else w[..16]
  }

  function Other(fb: Frame, f: Fragment, w: Word): (h: seq<bool>)
    requires fb.narrow
    ensures |h| == 16
  {
    if FrameLoc(fb, f.x, f.y).high then w[..16] else w[16..]
  }

  lemma SameHalf(fb: Frame, f: Fragment, w: Word)
    requires fb.narrow
    ensures Mine(Unmasked(fb), f, w) == Mine(fb, f, w) && Other(Unmasked(fb), f, w) == Other(fb, f, w)
  {
  }

  lemma NarrowAfter(r: Registers, fb: Frame, vm: Memory, f: Fragment)
    requires fb.narrow && FrameLoc(fb, f.x, f.y).word < VM_WORDS
    ensures var (held, left) := (Before(fb, vm, f), After(r, fb, vm, f));
      && Other(fb, f, left) == Other(fb, f, held)
      && Mine(fb, f, left) == Masked(Pack16(fb.mask), Mine(fb, f, held),
                                     Pack16(Blend(r, f.colour, Expand16(Mine(fb, f, held)))))
  {
    hide Blend, Masked, FrameLoc, Pack16, Expand16;
  }

  /** An unmasked 16-bit pixel: the blend runs on eight times the five-bit colours held and
      an alpha of 0 or 128, and its byte's eighth is kept; alpha is the source's top bit,
      and the word's other half stays. */
  lemma NarrowBlends(r: Registers, fb: Frame, vm: Memory, f: Fragment, k: nat, m: Mix, out: nat)
    requires r.abe && fb.narrow && FrameLoc(fb, f.x, f.y).word < VM_WORDS && k < 3
    requires var held := Mine(fb, f, Before(fb, vm, f));
      && Proper(r, ByteOf(f.colour, k), 8 * FiveBits(held, k), ByteOf(f.colour, 3), if held[15] then 128 else 0, m)
      && Lands(m.v, r.colclamp, out)
    ensures var left := After(r, Unmasked(fb), vm, f);
      && FiveBits(Mine(fb, f, left), k) == out / 8
      && (Mine(fb, f, left)[15] <==> ByteOf(f.colour, 3) >= 128)
      && Other(fb, f, left) == Other(fb, f, Before(fb, vm, f))
  {
    var held := Mine(fb, f, Before(fb, vm, f));
    hide Blend, FrameLoc, Number, Pack16, Expand16, Mine, Other, Proper, Masked;
    Expands(held, k);
    var blended := Blend(r, f.colour, Expand16(held));
    BlendMixes(r, f.colour, Expand16(held), k, m);
    LandsClamped(m.v, r.colclamp, out);
    LandsClamped(m.v, r.colclamp, ByteOf(blended, k));
    NarrowAfter(r, Unmasked(fb), vm, f);
    NoMaskPacks();
    MaskOff(held, Pack16(blended), Pack16(NoMask()));
    Packs(blended, k);
    AlphaBit(blended);
  }

  lemma NoMaskPacks()
    ensures forall i :: 0 <= i < 16 ==> !Pack16(NoMask())[i]
  {
  }

  /** With blending off it is the source's colour bytes' eighths. */
  lemma NarrowCopies(r: Registers, fb: Frame, vm: Memory, f: Fragment, k: nat)
    requires !r.abe && fb.narrow && FrameLoc(fb, f.x, f.y).word < VM_WORDS && k < 3
    ensures var left := After(r, Unmasked(fb), vm, f);
      && FiveBits(Mine(fb, f, left), k) == ByteOf(f.colour, k) / 8
      && (Mine(fb, f, left)[15] <==> ByteOf(f.colour, 3) >= 128)
      && Other(fb, f, left) == Other(fb, f, Before(fb, vm, f))
  {
    var held := Mine(fb, f, Before(fb, vm, f));
    hide FrameLoc, Number, Pack16, Expand16, Mine, Other, Masked;
    NarrowAfter(r, Unmasked(fb), vm, f);
    NoMaskPacks();
    MaskOff(held, Pack16(f.colour), Pack16(NoMask()));
    Packs(f.colour, k);
    AlphaBit(f.colour);
  }

  /** Where a 16-bit pixel's bit comes from in the 32-bit colour, and in the mask. */
  function Place(i: nat): nat { if i < 15 then i / 5 * 8 + 3 + i % 5 else 31 }

  lemma PackPlaces(c: Word, i: nat)
    requires i < 16
    ensures Pack16(c)[i] == c[Place(i)]
  {
    assert i / 5 < 4;
  }

  /** A mask's bit keeps the pixel's bit that the conversion takes it to. */
  lemma NarrowMask(r: Registers, fb: Frame, vm: Memory, f: Fragment, i: nat)
    requires fb.narrow && FrameLoc(fb, f.x, f.y).word < VM_WORDS && i < 16
    ensures Mine(fb, f, After(r, fb, vm, f))[i] ==
              if fb.mask[Place(i)] then Mine(fb, f, Before(fb, vm, f))[i]
              else Mine(fb, f, After(r, Unmasked(fb), vm, f))[i]
  {
    SamePlace(fb, f.x, f.y);
    SameHalf(fb, f, After(r, Unmasked(fb), vm, f));
    SameHalf(fb, f, Before(fb, vm, f));
    hide FrameLoc, Blend, Mine, Other, Pack16, Expand16, Place;
    NarrowAfter(r, fb, vm, f);
    NarrowAfter(r, Unmasked(fb), vm, f);
    NoMaskPacks();
    PackPlaces(fb.mask, i);
  }
}
