/** The R5900's multiply-accumulate chains from sim/ee/r5900_ref.py: PMULTW, PMULTUW and
    PMADDUW, and the halfword group.  HI and LO are 128 bits. */
module Accumulate {
  import opened Arith
  import opened Widths

  type Word32 = w: nat | w < TWO32

  type Double = d: nat | d < TWO64

  type Half16 = h: nat | h < TWO16

  function S16(h: Half16): int { if h >= 0x8000 then h - TWO16 else h }

  function To32(v: int): Word32 { v % TWO32 }

  function To64(v: int): Double { v % TWO64 }

  /** A word, sign-extended to sixty-four bits. */
  function Sext(w: Word32): Double { if w >= 0x8000_0000 then w + (TWO64 - TWO32) else w }

  function LowWord(d: Double): Word32 { d % TWO32 }

  function HighWord(d: Double): Word32 { d / TWO32 }

  // ---- the word forms: two lanes ---------------------------------------------------------------

  /** One lane of HI and LO. */
  datatype Lane = Lane(lo: Double, hi: Double)

  /** A 64-bit result, split over a lane with each half sign-extended. */
  function Split(v: Double): Lane { Lane(Sext(LowWord(v)), Sext(HighWord(v))) }

  /** The 64-bit value a lane holds: the low word of each half. */
  function Held(l: Lane): Double { LowWord(l.lo) + LowWord(l.hi) * TWO32 }

  lemma HeldOfSplit(v: Double)
    ensures Held(Split(v)) == v
  {
  }

  /** A register's four words. */
  type Quad = q: seq<Word32> | |q| == 4 witness [0, 0, 0, 0]

  function WordProduct(signed: bool, a: Quad, b: Quad, n: nat): int
    requires n < 2
  {
    if signed then S32(a[2 * n]) * S32(b[2 * n]) else (a[2 * n] as int) * (b[2 * n] as int)
  }

  /** PMULTW and PMULTUW: rd gets the products whole. */
  method PMultW(signed: bool, a: Quad, b: Quad) returns (rd: seq<Double>, hilo: seq<Lane>)
    ensures |rd| == |hilo| == 2
    ensures forall n :: 0 <= n < 2 ==> rd[n] == To64(WordProduct(signed, a, b, n)) && hilo[n] == Split(rd[n])
  {
    rd, hilo := [], [];
    var n := 0;
    while n < 2
      invariant |rd| == |hilo| == n <= 2
      invariant forall k :: 0 <= k < n ==> rd[k] == To64(WordProduct(signed, a, b, k)) && hilo[k] == Split(rd[k])
    {
      var p := To64(WordProduct(signed, a, b, n));
      rd := rd + [p];
      hilo := hilo + [Split(p)];
      n := n + 1;
    }
  }

  /** PMADDUW. */
  method PMaddUW(cur: seq<Lane>, a: Quad, b: Quad) returns (rd: seq<Double>, hilo: seq<Lane>)
    requires |cur| == 2
    ensures |rd| == |hilo| == 2
    ensures forall n :: 0 <= n < 2 ==>
      rd[n] == To64(Held(cur[n]) + WordProduct(false, a, b, n)) && hilo[n] == Split(rd[n])
  {
    rd, hilo := [], [];
    var n := 0;
    while n < 2
      invariant |rd| == |hilo| == n <= 2
      invariant forall k :: 0 <= k < n ==>
        rd[k] == To64(Held(cur[k]) + WordProduct(false, a, b, k)) && hilo[k] == Split(rd[k])
    {
      var acc := To64(Held(cur[n]) + WordProduct(false, a, b, n));
      rd := rd + [acc];
      hilo := hilo + [Split(acc)];
      n := n + 1;
    }
  }

  /** A chain's operands: the first for PMULTUW, the rest for PMADDUW. */
  datatype Pair = Pair(a: Quad, b: Quad)

  function SumOfProducts(ps: seq<Pair>, n: nat): int
    requires n < 2
  {
    if ps == [] then 0 else SumOfProducts(ps[..|ps| - 1], n) + WordProduct(false, ps[|ps| - 1].a, ps[|ps| - 1].b, n)
  }

  /** PMULTUW and then PMADDUW for each pair that follows: each lane of HI and LO holds,
      and rd is, the sum of all the products modulo 2^64. */
  method Chain(ps: seq<Pair>) returns (rd: seq<Double>, hilo: seq<Lane>)
    requires ps != []
    ensures |rd| == |hilo| == 2
    ensures forall n :: 0 <= n < 2 ==> rd[n] == To64(SumOfProducts(ps, n)) && Held(hilo[n]) == rd[n]
  {
    rd, hilo := PMultW(false, ps[0].a, ps[0].b);
    forall n | 0 <= n < 2 ensures rd[n] == To64(SumOfProducts(ps[..1], n)) && Held(hilo[n]) == rd[n] {
      assert ps[..1][..0] == [];
      HeldOfSplit(rd[n]);
    }
    var k := 1;
    while k < |ps|
      invariant 1 <= k <= |ps| && |rd| == |hilo| == 2
      invariant forall n :: 0 <= n < 2 ==> rd[n] == To64(SumOfProducts(ps[..k], n)) && Held(hilo[n]) == rd[n]
    {
      ghost var was := hilo;
      rd, hilo := PMaddUW(hilo, ps[k].a, ps[k].b);
      forall n | 0 <= n < 2 ensures rd[n] == To64(SumOfProducts(ps[..k + 1], n)) && Held(hilo[n]) == rd[n] {
        assert ps[..k + 1][..k] == ps[..k];
        AddModulo(SumOfProducts(ps[..k], n), WordProduct(false, ps[k].a, ps[k].b, n), TWO64);
        HeldOfSplit(rd[n]);
      }
      k := k + 1;
    }
    assert ps[..k] == ps;
  }

  lemma AddModulo(s: int, p: int, m: nat)
    requires m > 0
    ensures (s % m + p) % m == (s + p) % m
  {
    var r := (s % m + p) % m;
    Unique(s + p, s / m + (s % m + p) / m, r, m);
  }

  // ---- the halfword group ------------------------------------------------------------------------

  /** A register's eight halfwords. */
  type Octet = o: seq<Half16> | |o| == 8 witness [0, 0, 0, 0, 0, 0, 0, 0]

  /** HI and LO as four words each. */
  datatype HiLo = HiLo(lo: Quad, hi: Quad)

  datatype Form = PMULTH | PMADDH | PMSUBH | PHMADH | PHMSBH

  function HalfProduct(a: Octet, b: Octet, i: nat): int
    requires i < 8
  {
    S16(a[i]) * S16(b[i])
  }

  /** Products are dealt out in pairs, to LO and HI in turn: where the i-th one goes. */
  function WordAt(h: HiLo, i: nat): Word32
    requires i < 8
  {
    if i / 2 % 2 == 0 then h.lo[2 * (i / 4) + i % 2] else h.hi[2 * (i / 4) + i % 2]
  }

  /** What the i-th word becomes. */
  function NewWord(form: Form, cur: Word32, a: Octet, b: Octet, i: nat): Word32
    requires i < 8
  {
    var p := HalfProduct(a, b, i);
    match form
    case PMULTH => To32(p)
    case PMADDH => To32(S32(cur) + p)
    case PMSUBH => To32(S32(cur) - p)
    case PHMADH => if i % 2 == 0 then To32(HalfProduct(a, b, i + 1) + p) else To32(p)
    case PHMSBH => if i % 2 == 0 then To32(HalfProduct(a, b, i + 1) - p) else To32(-p - 1)
  }

  /** HI or LO with a pair of words replaced. */
  function Put(h: HiLo, g: nat, v0: Word32, v1: Word32): HiLo
    requires g < 4
  {
    var w := 2 * (g / 2);
    if g % 2 == 0 then h.(lo := h.lo[w := v0][w + 1 := v1]) else h.(hi := h.hi[w := v0][w + 1 := v1])
  }

  lemma PutAt(h: HiLo, g: nat, v0: Word32, v1: Word32, i: nat)
    requires g < 4 && i < 8
    ensures WordAt(Put(h, g, v0, v1), i) == if i == 2 * g then v0 else if i == 2 * g + 1 then v1 else WordAt(h, i)
  {
  }

  /** The group's loop, over the four pairs.  rd gets the first word of each. */
  method Hmac(form: Form, a: Octet, b: Octet, cur: HiLo) returns (rd: seq<Word32>, h: HiLo)
    ensures |rd| == 4
    ensures forall i :: 0 <= i < 8 ==> WordAt(h, i) == NewWord(form, WordAt(cur, i), a, b, i)
    ensures forall g :: 0 <= g < 4 ==> rd[g] == WordAt(h, 2 * g)
  {
    var words := seq(8, i requires 0 <= i < 8 => NewWord(form, WordAt(cur, i), a, b, i));
    rd, h := Deal(words, cur);
  }

  method Deal(words: seq<Word32>, cur: HiLo) returns (rd: seq<Word32>, h: HiLo)
    requires |words| == 8
    ensures |rd| == 4
    ensures forall i :: 0 <= i < 8 ==> WordAt(h, i) == words[i]
    ensures forall g :: 0 <= g < 4 ==> rd[g] == words[2 * g]
  {
    h := cur;
    rd := [];
    var g := 0;
    while g < 4
      invariant |rd| == g <= 4
      invariant forall i :: 0 <= i < 2 * g ==> WordAt(h, i) == words[i]
      invariant forall k :: 0 <= k < g ==> rd[k] == words[2 * k]
    {
      ghost var was := h;
      h := Put(h, g, words[2 * g], words[2 * g + 1]);
      forall i | 0 <= i < 2 * g + 2 ensures WordAt(h, i) == words[i] {
        PutAt(was, g, words[2 * g], words[2 * g + 1], i);
      }
      rd := rd + [words[2 * g]];
      g := g + 1;
    }
  }

  /** One step of a halfword chain: PMADDH or PMSUBH. */
  datatype Term = Term(minus: bool, a: Octet, b: Octet)

  function SignedSum(start: Term, ts: seq<Term>, i: nat): int
    requires i < 8
  {
    if ts == [] then HalfProduct(start.a, start.b, i)
    else
      var (t, before) := (ts[|ts| - 1], SignedSum(start, ts[..|ts| - 1], i));
      if t.minus then before - HalfProduct(t.a, t.b, i) else before + HalfProduct(t.a, t.b, i)
  }

  lemma SignedModulo(s: int, p: int)
    ensures To32(S32(To32(s)) + p) == To32(s + p)
  {
    var w := To32(s);
    AddModulo(s, p, TWO32);
    Unique(S32(w) + p, (w + p) / TWO32 - (if w >= 0x8000_0000 then 1 else 0), To32(w + p), TWO32);
  }

  /** PMULTH and then any mixture of PMADDH and PMSUBH: every one of the eight words of HI
      and LO is its own signed sum of products modulo 2^32, however the sums on the way
      overflowed, and rd is the first word of each pair. */
  method HalfChain(start: Term, ts: seq<Term>, cur: HiLo) returns (rd: seq<Word32>, h: HiLo)
    ensures |rd| == 4
    ensures forall i :: 0 <= i < 8 ==> WordAt(h, i) == To32(SignedSum(start, ts, i))
    ensures forall g :: 0 <= g < 4 ==> rd[g] == WordAt(h, 2 * g)
  {
    rd, h := Hmac(PMULTH, start.a, start.b, cur);
    var k := 0;
    while k < |ts|
      invariant k <= |ts| && |rd| == 4
      invariant forall i :: 0 <= i < 8 ==> WordAt(h, i) == To32(SignedSum(start, ts[..k], i))
      invariant forall g :: 0 <= g < 4 ==> rd[g] == WordAt(h, 2 * g)
    {
      ghost var was := h;
      rd, h := Hmac(if ts[k].minus then PMSUBH else PMADDH, ts[k].a, ts[k].b, h);
      forall i | 0 <= i < 8 ensures WordAt(h, i) == To32(SignedSum(start, ts[..k + 1], i)) {
        NextTerm(start, ts, k, was, i);
      }
      k := k + 1;
    }
    assert ts[..k] == ts;
  }

  lemma NextTerm(start: Term, ts: seq<Term>, k: nat, was: HiLo, i: nat)
    requires k < |ts| && i < 8 && WordAt(was, i) == To32(SignedSum(start, ts[..k], i))
    ensures NewWord(if ts[k].minus then PMSUBH else PMADDH, WordAt(was, i), ts[k].a, ts[k].b, i)
         == To32(SignedSum(start, ts[..k + 1], i))
  {
    assert ts[..k + 1][..k] == ts[..k];
    var s, p := SignedSum(start, ts[..k], i), HalfProduct(ts[k].a, ts[k].b, i);
    SignedModulo(s, if ts[k].minus then 0 - p else p);
  }

  // ---- on numbers ------------------------------------------------------------------------------

  /** A pattern of so many bits, read as a signed number. */
  predicate Reads(pattern: nat, bits: nat, x: int) {
    match bits
    case 16 => -0x8000 <= x < 0x8000 && (x - pattern) % 0x1_0000 == 0
    case 32 => -0x8000_0000 <= x < 0x8000_0000 && (x - pattern) % 0x1_0000_0000 == 0
    case _ => -0x8000_0000_0000_0000 <= x < 0x8000_0000_0000_0000 && (x - pattern) % 0x1_0000_0000_0000_0000 == 0
  }

  /** A lane's two halves: the 64-bit value's words, each sign-extended. */
  lemma SplitSigned(v: Double, low: int, high: int)
    requires Reads(v % 0x1_0000_0000, 32, low) && Reads(v / 0x1_0000_0000, 32, high)
    ensures Reads(Split(v).lo, 64, low) && Reads(Split(v).hi, 64, high)
  {
    SextReads(LowWord(v), low);
    SextReads(HighWord(v), high);
  }

  lemma SextReads(w: Word32, x: int)
    requires Reads(w, 32, x)
    ensures Reads(Sext(w), 64, x)
  {
  }

  /** The word forms multiply the words at the bottom of each half. */
  lemma WordProducts(signed: bool, a: Quad, b: Quad, x: int, y: int, n: nat)
    requires n < 2
    requires if signed then Reads(a[2 * n], 32, x) && Reads(b[2 * n], 32, y) else x == a[2 * n] && y == b[2 * n]
    ensures WordProduct(signed, a, b, n) == x * y
  {
    if signed {
      assert S32(a[2 * n]) == x && S32(b[2 * n]) == y;
    }
  }

  predicate Is32(w: Word32, v: int) { (v - w) % 0x1_0000_0000 == 0 }

  lemma To32Is(v: int)
    ensures Is32(To32(v), v)
  {
  }

  /** What each form makes of a word: the product, the word with the product added or taken off,
      or, in the two forms that pair halfwords, the even word the sum of the pair's products or
      the odd product less the even one, and the odd word the odd product or its complement. */
  lemma FormsCompute(form: Form, cur: Word32, a: Octet, b: Octet, i: nat, x: int, y: int, x1: int, y1: int)
    requires i < 8 && Reads(a[i], 16, x) && Reads(b[i], 16, y)
    requires i % 2 == 0 ==> Reads(a[i + 1], 16, x1) && Reads(b[i + 1], 16, y1)
    ensures var w := NewWord(form, cur, a, b, i);
      match form
      case PMULTH => Is32(w, x * y)
      case PMADDH => Is32(w, cur + x * y)
      case PMSUBH => Is32(w, cur - x * y)
      case PHMADH => Is32(w, if i % 2 == 0 then x * y + x1 * y1 else x * y)
      case PHMSBH => Is32(w, if i % 2 == 0 then x1 * y1 - x * y else -(x * y) - 1)
  {
    hide NewWord, Is32, Reads;
    ProductIs(a, b, i, x, y);
    if i % 2 == 0 {
      ProductIs(a, b, i + 1, x1, y1);
    }
    FormsFrom(form, cur, a, b, i, x * y, x1 * y1);
  }

  lemma ProductIs(a: Octet, b: Octet, i: nat, x: int, y: int)
    requires i < 8 && Reads(a[i], 16, x) && Reads(b[i], 16, y)
    ensures HalfProduct(a, b, i) == x * y
  {
    assert S16(a[i]) == x && S16(b[i]) == y;
  }

  lemma FormsFrom(form: Form, cur: Word32, a: Octet, b: Octet, i: nat, p: int, q: int)
    requires i < 8 && HalfProduct(a, b, i) == p && (i % 2 == 0 ==> HalfProduct(a, b, i + 1) == q)
    ensures var w := NewWord(form, cur, a, b, i);
      match form
      case PMULTH => Is32(w, p)
      case PMADDH => Is32(w, cur + p)
      case PMSUBH => Is32(w, cur - p)
      case PHMADH => Is32(w, if i % 2 == 0 then p + q else p)
      case PHMSBH => Is32(w, if i % 2 == 0 then q - p else -p - 1)
  {
    hide HalfProduct, To32, Is32;
    To32Is(p);
    To32Is(S32(cur) + p);
    To32Is(S32(cur) - p);
    To32Is(q + p);
    To32Is(q - p);
    To32Is(-p - 1);
    SameWord(To32(S32(cur) + p), S32(cur) + p, cur + p);
    SameWord(To32(S32(cur) - p), S32(cur) - p, cur - p);
  }

  lemma SameWord(w: Word32, v: int, u: int)
    requires Is32(w, v) && (u == v || u == v + TWO32)
    ensures Is32(w, u)
  {
  }

  /** The products' places in LO and HI. */
  lemma WordPlaces(h: HiLo)
    ensures [WordAt(h, 0), WordAt(h, 1), WordAt(h, 4), WordAt(h, 5)] == h.lo
    ensures [WordAt(h, 2), WordAt(h, 3), WordAt(h, 6), WordAt(h, 7)] == h.hi
  {
  }
}
