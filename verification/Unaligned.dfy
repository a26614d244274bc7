/** The R5900's unaligned loads and stores and its quadword realignment, from
    sim/ee/r5900_ref.py: each touches one aligned unit, and a pair moves bytes from or
    to any address. */
module Unaligned {
  import opened Arith
  import opened Bytes
  import Bits

  // ---- memory, little-endian --------------------------------------------------------------

  function Load(m: seq<Byte>, a: nat, n: nat): nat
    requires a + n <= |m|
  {
    Value(m[a..a + n])
  }

  function Store(m: seq<Byte>, a: nat, n: nat, v: nat): (r: seq<Byte>)
    requires a + n <= |m|
    ensures |r| == |m|
  {
    m[..a] + Low(v, n) + m[a + n..]
  }

  /** Any access.  The slice behind a load is cut short at the end of memory, so the missing
      bytes read as zero; the one behind a store is too, and memory grows to take the rest. */
  function Fetch(m: seq<Byte>, a: nat, n: nat): nat {
    if a + n <= |m| then Load(m, a, n) else if a < |m| then Value(m[a..]) else 0
  }

  function Put(m: seq<Byte>, a: nat, n: nat, v: nat): seq<Byte> {
    if a + n <= |m| then Store(m, a, n, v) else if a < |m| then m[..a] + Low(v, n) else m + Low(v, n)
  }

  /** An end of a slice, as the slice cuts it. */
  function Clip(m: seq<Byte>, a: nat): (k: nat)
    ensures k <= |m|
  {
    if a < |m| then a else |m|
  }

  /** Put is the assignment to a slice. */
  lemma PutSlice(m: seq<Byte>, a: nat, n: nat, v: nat)
    ensures m[..Clip(m, a)] + Low(v, n) + m[Clip(m, a + n)..] == Put(m, a, n, v)
  {
    if a + n > |m| {
      assert m[Clip(m, a + n)..] == [];
      assert a >= |m| ==> m[..Clip(m, a)] == m;
    }
  }

  lemma FetchSlice(m: seq<Byte>, a: nat, n: nat)
    ensures Value(m[Clip(m, a)..Clip(m, a + n)]) == Fetch(m, a, n)
  {
    assert a + n > |m| && a < |m| ==> m[a..|m|] == m[a..];
  }

  /** The aligned unit an address is in. */
  function Base(a: nat, n: nat): nat
    requires n > 0
  {
    a / n * n
  }

  predicate InMemory(m: seq<Byte>, a: nat, n: nat)
    requires n > 0
  {
    Base(a, n) + n <= |m|
  }

  // ---- the four merges, for a word (n = 4) or a doubleword (n = 8) -------------------------

  /** LWL and LDL: the unit shifted up, over the register's low bytes. */
  function LeftValue(unit: nat, k: nat, r: nat, n: nat): nat
    requires k < n
  {
    Keep(Keep(r, n - 1 - k) + Up(unit, n - 1 - k), n)
  }

  /** LWR and LDR: the unit shifted down, under the register's high bytes. */
  function RightValue(unit: nat, k: nat, r: nat, n: nat): nat
    requires k < n
  {
    Down(unit, k) + Up(Down(Keep(r, n), n - k), n - k)
  }

  /** SWL and SDL: the register shifted down, into the unit's low bytes. */
  function LeftMerge(unit: nat, k: nat, r: nat, n: nat): nat
    requires k < n
  {
    Keep(Down(r, n - 1 - k), k + 1) + Up(Down(unit, k + 1), k + 1)
  }

  /** SWR and SDR: the register shifted up, into the unit's high bytes. */
  function RightMerge(unit: nat, k: nat, r: nat, n: nat): nat
    requires k < n
  {
    Keep(unit, k) + Keep(Up(r, k), n)
  }

  // ---- as bytes ------------------------------------------------------------------------------

  lemma LeftBytes(unit: nat, k: nat, r: nat, n: nat)
    requires k < n
    ensures Low(LeftValue(unit, k, r, n), n) == Low(r, n - 1 - k) + Low(unit, k + 1)
  {
    var s := n - 1 - k;
    KeepFits(r, s);
    Filled(Keep(r, s), unit, s, n);
    KeptBelow(r, s);
    KeptBelow(Keep(r, s) + Up(unit, s), n);
  }

  lemma RightBytes(unit: nat, k: nat, r: nat, n: nat)
    requires k < n && unit < P(n)
    ensures Low(RightValue(unit, k, r, n), n) == Low(unit, n)[k..] + Low(r, n)[n - k..]
  {
    hide Keep, Down, Up, Low, P;
    DownFits(unit, k, n);
    Filled(Down(unit, k), Down(Keep(r, n), n - k), n - k, n);
    ShiftedDown(unit, n - k, k);
    ShiftedDown(Keep(r, n), k, n - k);
    KeptBelow(r, n);
  }

  lemma LeftMergeBytes(unit: nat, k: nat, r: nat, n: nat)
    requires k < n
    ensures Low(LeftMerge(unit, k, r, n), n) == Low(r, n)[n - 1 - k..] + Low(unit, n)[k + 1..]
  {
    var s := n - 1 - k;
    KeepFits(Down(r, s), k + 1);
    Filled(Keep(Down(r, s), k + 1), Down(unit, k + 1), k + 1, n);
    KeptBelow(Down(r, s), k + 1);
    ShiftedDown(r, k + 1, s);
    ShiftedDown(unit, n - (k + 1), k + 1);
  }

  lemma RightMergeBytes(unit: nat, k: nat, r: nat, n: nat)
    requires k < n
    ensures Low(RightMerge(unit, k, r, n), n) == Low(unit, k) + Low(r, n - k)
  {
    KeptUp(r, k, n - k);
    KeepFits(unit, k);
    Filled(Keep(unit, k), Keep(r, n - k), k, n);
    KeptBelow(unit, k);
    KeptBelow(r, n - k);
  }

  // ---- a pair of them, on memory -------------------------------------------------------------

  lemma UnitBytes(m: seq<Byte>, a: nat, n: nat)
    requires a + n <= |m|
    ensures Load(m, a, n) < P(n) && Low(Load(m, a, n), n) == m[a..a + n]
  {
    ValueFits(m[a..a + n]);
    LowOfValue(m[a..a + n]);
  }

  lemma Next(a: nat, n: nat)
    requires n > 0
    ensures Base(a, n) <= a < Base(a, n) + n && a - Base(a, n) == a % n
    ensures a % n == 0 ==> Base(a + n - 1, n) == a && (a + n - 1) % n == n - 1
    ensures a % n > 0 ==> Base(a + n - 1, n) == Base(a, n) + n && (a + n - 1) % n == a % n - 1
  {
    var q, k := a / n, a % n;
    assert a == q * n + k;
    if k == 0 {
      Unique(a + n - 1, q, n - 1, n);
    } else {
      assert (q + 1) * n == q * n + n;
      Unique(a + n - 1, q + 1, k - 1, n);
    }
  }

  // Memory cut at a unit: what is before it, the unit, and what is after it.

  lemma LoadPart(pre: seq<Byte>, unit: seq<Byte>, post: seq<Byte>)
    ensures Load(pre + unit + post, |pre|, |unit|) == Value(unit)
  {
    assert (pre + unit + post)[|pre|..|pre| + |unit|] == unit;
  }

  lemma StorePart(pre: seq<Byte>, unit: seq<Byte>, post: seq<Byte>, v: nat)
    ensures Store(pre + unit + post, |pre|, |unit|, v) == pre + Low(v, |unit|) + post
  {
    var m := pre + unit + post;
    assert m[..|pre|] == pre && m[|pre| + |unit|..] == post;
  }

  lemma ValuePrefix(u: seq<Byte>, k: nat)
    requires k <= |u|
    ensures Low(Value(u), k) == u[..k] && Low(Value(u), |u|) == u && Value(u) < P(|u|)
  {
    LowOfValue(u);
    LowPrefix(Value(u), |u|, k);
    ValueFits(u);
  }

  /** A right store into a unit keeps its first bytes. */
  lemma RightStored(pre: seq<Byte>, u: seq<Byte>, post: seq<Byte>, k: nat, r: nat)
    requires k < |u|
    ensures var m := pre + u + post;
      Store(m, |pre|, |u|, RightMerge(Load(m, |pre|, |u|), k, r, |u|)) == pre + (u[..k] + Low(r, |u| - k)) + post
  {
    LoadPart(pre, u, post);
    ValuePrefix(u, k);
    RightMergeBytes(Value(u), k, r, |u|);
    StorePart(pre, u, post, RightMerge(Value(u), k, r, |u|));
  }

  /** A left store keeps its last. */
  lemma LeftStored(pre: seq<Byte>, u: seq<Byte>, post: seq<Byte>, k: nat, r: nat)
    requires k < |u|
    ensures var m := pre + u + post;
      Store(m, |pre|, |u|, LeftMerge(Load(m, |pre|, |u|), k, r, |u|))
      == pre + (Low(r, |u|)[|u| - 1 - k..] + u[k + 1..]) + post
  {
    LoadPart(pre, u, post);
    LeftMerged(u, k, r);
    StorePart(pre, u, post, LeftMerge(Value(u), k, r, |u|));
  }

  lemma LeftMerged(u: seq<Byte>, k: nat, r: nat)
    requires k < |u|
    ensures Low(LeftMerge(Value(u), k, r, |u|), |u|) == Low(r, |u|)[|u| - 1 - k..] + u[k + 1..]
  {
    LowOfValue(u);
    LeftMergeBytes(Value(u), k, r, |u|);
  }

  // Aligned, a pair works on one unit; otherwise on two.

  lemma LoadAligned(m: seq<Byte>, base: nat, r2: nat, n: nat)
    requires 0 < n && base + n <= |m|
    ensures Low(LeftValue(Load(m, base, n), n - 1, r2, n), n) == m[base..base + n]
  {
    UnitBytes(m, base, n);
    LeftBytes(Load(m, base, n), n - 1, r2, n);
  }

  lemma LoadStraddles(lower: nat, upper: nat, k: nat, r: nat, r2: nat, n: nat)
    requires 0 < k < n && lower < P(n)
    requires Low(r2, n) == Low(RightValue(lower, k, r, n), n)
    ensures Low(LeftValue(upper, k - 1, r2, n), n) == Low(lower, n)[k..] + Low(upper, n)[..k]
  {
    RightBytes(lower, k, r, n);
    LeftBytes(upper, k - 1, r2, n);
    LowPrefix(r2, n, n - k);
    LowPrefix(upper, n, k);
  }

  lemma StoreAligned(pre: seq<Byte>, u: seq<Byte>, post: seq<Byte>, r: nat)
    requires u != []
    ensures var (m, n) := (pre + u + post, |u|);
      var m1 := Store(m, |pre|, n, RightMerge(Load(m, |pre|, n), 0, r, n));
      Store(m1, |pre|, n, LeftMerge(Load(m1, |pre|, n), n - 1, r, n)) == pre + Low(r, n) + post
  {
    var n := |u|;
    RightStored(pre, u, post, 0, r);
    assert u[..0] + Low(r, n) == Low(r, n);
    LeftStored(pre, Low(r, n), post, n - 1, r);
    assert Low(r, n)[0..] + Low(r, n)[n..] == Low(r, n);
  }

  lemma StoreStraddles(pre: seq<Byte>, u: seq<Byte>, u2: seq<Byte>, post: seq<Byte>, k: nat, r: nat)
    requires 0 < k < |u| == |u2|
    ensures var (m, n) := (pre + u + (u2 + post), |u|);
      var m1 := Store(m, |pre|, n, RightMerge(Load(m, |pre|, n), k, r, n));
      Store(m1, |pre| + n, n, LeftMerge(Load(m1, |pre| + n, n), k - 1, r, n))
      == pre + u[..k] + Low(r, n) + u2[k..] + post
  {
    hide Load, RightMerge, LeftMerge, Low;
    var n := |u|;
    RightStored(pre, u, u2 + post, k, r);
    var lower := pre + (u[..k] + Low(r, n - k));
    Grouped(lower, u2, post);
    LeftStored(lower, u2, post, k - 1, r);
    LowPrefix(r, n, n - k);
    Rejoined(pre, u[..k], Low(r, n), n - k, u2[k..], post);
  }

  lemma Grouped(a: seq<Byte>, b: seq<Byte>, c: seq<Byte>)
    ensures a + b + c == a + (b + c)
  {
  }

  lemma Rejoined(pre: seq<Byte>, x: seq<Byte>, bytes: seq<Byte>, k: nat, y2: seq<Byte>, post: seq<Byte>)
    requires k <= |bytes|
    ensures pre + (x + bytes[..k]) + (bytes[k..] + y2) + post == pre + x + bytes + y2 + post
  {
    assert bytes[..k] + bytes[k..] == bytes;
  }

  // ---- the machine -----------------------------------------------------------------------------

  const W := 4

  const D := 8

  const Q := 16

  /** The 128-bit registers, memory and the shift amount. */
  datatype Core = Core(gpr: seq<nat>, mem: seq<Byte>, sa: nat)

  /** The low 64 bits of a register. */
  function R(c: Core, i: nat): nat
    requires i < |c.gpr|
  {
    Keep(c.gpr[i], D)
  }

  /** A 64-bit write leaves the upper half alone; register 0 takes none. */
  function Written(c: Core, i: nat, v: nat): Core
    requires i < |c.gpr|
  {
    if i == 0 then c else c.(gpr := c.gpr[i := Keep(v, D) + Up(Down(c.gpr[i], D), D)])
  }

  function Written128(c: Core, i: nat, v: nat): Core
    requires i < |c.gpr|
  {
    if i == 0 then c else c.(gpr := c.gpr[i := Keep(v, Q)])
  }

  /** A word result is sign-extended into the register. */
  function Extended(v: nat, n: nat): nat
    requires 0 < n
  {
    if n == W && Keep(v, n) >= 128 * P(n - 1) then Keep(v, n) + Up(P(n) - 1, n) else Keep(v, n)
  }

  function Address(c: Core, rs: nat, imm: int): nat
    requires rs < |c.gpr|
  {
    (R(c, rs) + imm) % P(D)
  }

  function LoadRight(c: Core, n: nat, rt: nat, a: nat): Core
    requires rt < |c.gpr| && n > 0
  {
    Written(c, rt, Extended(RightValue(Fetch(c.mem, Base(a, n), n), a % n, R(c, rt), n), n))
  }

  function LoadLeft(c: Core, n: nat, rt: nat, a: nat): Core
    requires rt < |c.gpr| && n > 0
  {
    Written(c, rt, Extended(LeftValue(Fetch(c.mem, Base(a, n), n), a % n, R(c, rt), n), n))
  }

  function StoreRight(c: Core, n: nat, rt: nat, a: nat): Core
    requires rt < |c.gpr| && n > 0
  {
    c.(mem := Put(c.mem, Base(a, n), n, RightMerge(Fetch(c.mem, Base(a, n), n), a % n, R(c, rt), n)))
  }

  function StoreLeft(c: Core, n: nat, rt: nat, a: nat): Core
    requires rt < |c.gpr| && n > 0
  {
    c.(mem := Put(c.mem, Base(a, n), n, LeftMerge(Fetch(c.mem, Base(a, n), n), a % n, R(c, rt), n)))
  }

  /** LQ and SQ ignore the low four bits of the address. */
  function LoadQuad(c: Core, rt: nat, a: nat): Core
    requires rt < |c.gpr|
  {
    Written128(c, rt, Fetch(c.mem, Base(a, Q), Q))
  }

  function StoreQuad(c: Core, rt: nat, a: nat): Core
    requires rt < |c.gpr|
  {
    c.(mem := Put(c.mem, Base(a, Q), Q, c.gpr[rt]))
  }

  // the instructions, by base register and displacement

  function LoadInstr(c: Core, left: bool, n: nat, rt: nat, rs: nat, imm: int): Core
    requires rt < |c.gpr| && rs < |c.gpr| && n > 0
  {
    if left then LoadLeft(c, n, rt, Address(c, rs, imm)) else LoadRight(c, n, rt, Address(c, rs, imm))
  }

  function StoreInstr(c: Core, left: bool, n: nat, rt: nat, rs: nat, imm: int): Core
    requires rt < |c.gpr| && rs < |c.gpr| && n > 0
  {
    if left then StoreLeft(c, n, rt, Address(c, rs, imm)) else StoreRight(c, n, rt, Address(c, rs, imm))
  }

  function Lq(c: Core, rt: nat, rs: nat, imm: int): Core
    requires rt < |c.gpr| && rs < |c.gpr|
  {
    LoadQuad(c, rt, Address(c, rs, imm))
  }

  function Sq(c: Core, rt: nat, rs: nat, imm: int): Core
    requires rt < |c.gpr| && rs < |c.gpr|
  {
    StoreQuad(c, rt, Address(c, rs, imm))
  }

  /** Exclusive-or of the low four bits. */
  function Xor4(x: nat, y: nat): nat {
    Bits.Number(seq(4, i requires 0 <= i < 4 => Bits.Digits(x, 4)[i] != Bits.Digits(y, 4)[i]))
  }

  function Mtsab(c: Core, rs: nat, imm: nat): Core
    requires rs < |c.gpr|
  {
    c.(sa := Xor4(R(c, rs), imm))
  }

  /** The funnel shift: rs above rt, down by SA bytes, the low quadword kept. */
  function Qfsrv(c: Core, rd: nat, rs: nat, rt: nat): Core
    requires rd < |c.gpr| && rs < |c.gpr| && rt < |c.gpr|
  {
    Written128(c, rd, Down(c.gpr[rt] + Up(c.gpr[rs], Q), c.sa))
  }

  // ---- what the pairs come to --------------------------------------------------------------------

  lemma ExtendedBytes(v: nat, n: nat)
    requires 0 < n <= D
    ensures Low(Extended(v, n), n) == Low(v, n)
  {
    KeptBelow(v, n);
    KeepFits(v, n);
    if n == W && Keep(v, n) >= 128 * P(n - 1) {
      Filled(Keep(v, n), P(n) - 1, n, n);
    }
  }

  /** On numbers: a word goes to the register as the signed number its low 32 bits are, modulo
      2^64, and a doubleword as it is. */
  lemma ExtendedReads(v: nat, x: int)
    requires -0x8000_0000 <= x < 0x8000_0000 && (x - v) % 0x1_0000_0000 == 0
    ensures Extended(v, 4) == x % 0x1_0000_0000_0000_0000
    ensures Extended(v, 8) == v % 0x1_0000_0000_0000_0000
  {
    Powers256();
    var k := v % 0x1_0000_0000;
    SignedWord(v, k, x);
    var top := P(4) - 1;
    Arithmetic(v, 4);
    Arithmetic(v, 8);
    Arithmetic(top, 4);
    hide P, Keep, Up, Down;
    assert Keep(v, 4) == k && Up(top, 4) == 0xFFFF_FFFF_0000_0000;
  }

  lemma SignedWord(v: nat, k: nat, x: int)
    requires -0x8000_0000 <= x < 0x8000_0000 && (x - v) % 0x1_0000_0000 == 0 && k == v % 0x1_0000_0000
    ensures x % 0x1_0000_0000_0000_0000 == if k >= 0x8000_0000 then k + 0xFFFF_FFFF_0000_0000 else k
  {
    assert x == if k >= 0x8000_0000 then k - 0x1_0000_0000 else k;
  }

  lemma Powers256()
    ensures P(3) == 0x100_0000 && P(4) == 0x1_0000_0000 && P(8) == 0x1_0000_0000_0000_0000
  {
    assert P(2) == 0x1_0000 && P(3) == 256 * P(2) && P(4) == 256 * P(3);
    assert P(5) == 256 * P(4) && P(6) == 256 * P(5) && P(7) == 256 * P(6) && P(8) == 256 * P(7);
  }

  /** The extension looks at the low bytes only. */
  lemma ExtendedSame(v: nat, w: nat, n: nat)
    requires 0 < n && Low(v, n) == Low(w, n)
    ensures Extended(v, n) == Extended(w, n)
  {
    SameBytes(v, w, n);
  }

  lemma Replaced(v: nat, g: nat, n: nat)
    ensures Low(Keep(Keep(v, n) + Up(Down(g, n), n), n), n) == Low(v, n)
    ensures Down(Keep(v, n) + Up(Down(g, n), n), n) == Down(g, n)
  {
    KeepFits(v, n);
    Filled(Keep(v, n), Down(g, n), n, n);
    KeptBelow(v, n);
    KeptBelow(Keep(v, n) + Up(Down(g, n), n), n);
    DownOfFilled(Keep(v, n), Down(g, n), n);
  }

  lemma WrittenReads(c: Core, i: nat, v: nat, w: nat)
    requires 0 < i < |c.gpr|
    ensures Low(R(Written(c, i, v), i), D) == Low(v, D)
    ensures Written(Written(c, i, v), i, w) == Written(c, i, w)
  {
    hide Keep, Low, Up, Down;
    Replaced(v, c.gpr[i], D);
  }

  /** A displacement moves the address with it, if it does not wrap. */
  lemma Displaced(c: Core, rs: nat, imm: int, d: nat)
    requires rs < |c.gpr| && Address(c, rs, imm) + d < P(D)
    ensures Address(c, rs, imm + d) == Address(c, rs, imm) + d
  {
    Moved(R(c, rs) + imm, d, P(D));
  }

  lemma Moved(x: int, d: nat, p: nat)
    requires p > 0 && x % p + d < p
    ensures (x + d) % p == x % p + d
  {
    var q, r := x / p, x % p;
    assert x + d == q * p + (r + d);
    var e := (x + d) / p - q;
    assert e * p == r + d - (x + d) % p;
    Small(e, p);
  }

  lemma LowOfLonger(v: nat, w: nat, n: nat)
    requires n <= D && Low(v, D) == Low(w, D)
    ensures Low(v, n) == Low(w, n)
  {
    LowPrefix(v, D, n);
    LowPrefix(w, D, n);
  }

  /** Where the two accesses of a pair fall: one unit, or two in a row. */
  predicate PairedUnits(base: nat, k: nat, base2: nat, k2: nat, n: nat) {
    k < n && if k == 0 then base2 == base && k2 == n - 1 else base2 == base + n && k2 == k - 1
  }

  lemma Paired(a: nat, n: nat)
    requires n > 0
    ensures PairedUnits(Base(a, n), a % n, Base(a + n - 1, n), (a + n - 1) % n, n) && a == Base(a, n) + a % n
  {
    Next(a, n);
  }

  lemma PairValue(m: seq<Byte>, base: nat, k: nat, base2: nat, k2: nat, r: nat, r2: nat, n: nat)
    requires PairedUnits(base, k, base2, k2, n) && base2 + n <= |m|
    requires Low(r2, n) == Low(RightValue(Load(m, base, n), k, r, n), n)
    ensures Low(LeftValue(Load(m, base2, n), k2, r2, n), n) == m[base + k..base + k + n]
  {
    hide Load, LeftValue, RightValue;
    if k == 0 {
      LoadAligned(m, base, r2, n);
    } else {
      LoadedAcross(m, base, k, r, r2, n);
    }
  }

  lemma LoadedAcross(m: seq<Byte>, base: nat, k: nat, r: nat, r2: nat, n: nat)
    requires 0 < k < n && base + n + n <= |m|
    requires Low(r2, n) == Low(RightValue(Load(m, base, n), k, r, n), n)
    ensures Low(LeftValue(Load(m, base + n, n), k - 1, r2, n), n) == m[base + k..base + k + n]
  {
    hide Load, LeftValue, RightValue;
    UnitBytes(m, base, n);
    UnitBytes(m, base + n, n);
    LoadStraddles(Load(m, base, n), Load(m, base + n, n), k, r, r2, n);
    Halves(m, base, k, n);
  }

  /** The same of the extended value, the right load having gone through a register. */
  lemma PairExtended(m: seq<Byte>, base: nat, k: nat, base2: nat, k2: nat, r: nat, r2: nat, n: nat)
    requires PairedUnits(base, k, base2, k2, n) && base2 + n <= |m| && n <= D
    requires Low(r2, D) == Low(Extended(RightValue(Load(m, base, n), k, r, n), n), D)
    ensures Extended(LeftValue(Load(m, base2, n), k2, r2, n), n) == Extended(Load(m, base + k, n), n)
  {
    hide Load, LeftValue, RightValue, Extended, Low;
    Through(RightValue(Load(m, base, n), k, r, n), r2, n);
    PairValue(m, base, k, base2, k2, r, r2, n);
    UnitBytes(m, base + k, n);
    ExtendedSame(LeftValue(Load(m, base2, n), k2, r2, n), Load(m, base + k, n), n);
  }

  lemma Through(v: nat, r: nat, n: nat)
    requires 0 < n <= D && Low(r, D) == Low(Extended(v, n), D)
    ensures Low(r, n) == Low(v, n)
  {
    LowOfLonger(r, Extended(v, n), n);
    ExtendedBytes(v, n);
  }

  lemma Halves(m: seq<Byte>, base: nat, k: nat, n: nat)
    requires k <= n && base + n + n <= |m|
    ensures m[base..base + n][k..] + m[base + n..base + n + n][..k] == m[base + k..base + k + n]
  {
  }

  /** An address a pair can reach: both accesses inside memory, neither wrapping round. */
  predicate PairReaches(c: Core, a: nat, n: nat) {
    n > 0 && a + n - 1 < P(D) && InMemory(c.mem, a, n) && InMemory(c.mem, a + n - 1, n)
  }

  lemma LoadPairTo(c: Core, n: nat, rt: nat, a: nat)
    requires 0 < rt < |c.gpr| && (n == W || n == D) && PairReaches(c, a, n)
    ensures a + n <= |c.mem|
    ensures LoadLeft(LoadRight(c, n, rt, a), n, rt, a + n - 1) == Written(c, rt, Extended(Load(c.mem, a, n), n))
  {
    hide Load, RightValue, LeftValue, Extended, R;
    Paired(a, n);
    LoadPairAt(c, n, rt, Base(a, n), a % n, Base(a + n - 1, n), (a + n - 1) % n);
  }

  lemma LoadPairAt(c: Core, n: nat, rt: nat, base: nat, k: nat, base2: nat, k2: nat)
    requires 0 < rt < |c.gpr| && n <= D && PairedUnits(base, k, base2, k2, n) && base2 + n <= |c.mem|
    ensures var c1 := Written(c, rt, Extended(RightValue(Load(c.mem, base, n), k, R(c, rt), n), n));
      Written(c1, rt, Extended(LeftValue(Load(c1.mem, base2, n), k2, R(c1, rt), n), n))
      == Written(c, rt, Extended(Load(c.mem, base + k, n), n))
  {
    hide Load, LeftValue, RightValue, Extended, Keep;
    var right := Extended(RightValue(Load(c.mem, base, n), k, R(c, rt), n), n);
    var r2 := R(Written(c, rt, right), rt);
    WrittenReads(c, rt, right, Extended(LeftValue(Load(c.mem, base2, n), k2, r2, n), n));
    PairExtended(c.mem, base, k, base2, k2, R(c, rt), r2, n);
  }

  lemma PairStored(m: seq<Byte>, base: nat, k: nat, base2: nat, k2: nat, r: nat, n: nat)
    requires PairedUnits(base, k, base2, k2, n) && base2 + n <= |m|
    ensures var m1 := Store(m, base, n, RightMerge(Load(m, base, n), k, r, n));
      Store(m1, base2, n, LeftMerge(Load(m1, base2, n), k2, r, n)) == Store(m, base + k, n, r)
  {
    hide RightMerge, LeftMerge;
    if k == 0 {
      Cut(m, base, n);
      StoreAligned(m[..base], m[base..base + n], m[base + n..], r);
    } else {
      StoredAcross(m, base, k, r, n);
    }
  }

  lemma StoredAcross(m: seq<Byte>, base: nat, k: nat, r: nat, n: nat)
    requires 0 < k < n && base + n + n <= |m|
    ensures var m1 := Store(m, base, n, RightMerge(Load(m, base, n), k, r, n));
      Store(m1, base + n, n, LeftMerge(Load(m1, base + n, n), k - 1, r, n)) == Store(m, base + k, n, r)
  {
    CutTwice(m, base, n);
    StoreStraddles(m[..base], m[base..base + n], m[base + n..base + n + n], m[base + n + n..], k, r);
    CutAround(m, base, k, n);
    Grouped(m[..base + k] + Low(r, n), m[base + n..base + n + n][k..], m[base + n + n..]);
  }

  lemma Cut(m: seq<Byte>, a: nat, n: nat)
    requires a + n <= |m|
    ensures m[..a] + m[a..a + n] + m[a + n..] == m
  {
  }

  lemma CutTwice(m: seq<Byte>, a: nat, n: nat)
    requires a + n + n <= |m|
    ensures m[..a] + m[a..a + n] + (m[a + n..a + n + n] + m[a + n + n..]) == m
  {
  }

  lemma CutAround(m: seq<Byte>, a: nat, k: nat, n: nat)
    requires k <= n && a + n + n <= |m|
    ensures m[..a] + m[a..a + n][..k] == m[..a + k]
    ensures m[a + n..a + n + n][k..] + m[a + n + n..] == m[a + k + n..]
  {
  }

  /** The two stores, of units inside memory. */
  lemma StoreInside(c: Core, n: nat, rt: nat, a: nat)
    requires rt < |c.gpr| && 0 < n && InMemory(c.mem, a, n)
    ensures StoreRight(c, n, rt, a)
         == c.(mem := Store(c.mem, Base(a, n), n, RightMerge(Load(c.mem, Base(a, n), n), a % n, R(c, rt), n)))
    ensures StoreLeft(c, n, rt, a)
         == c.(mem := Store(c.mem, Base(a, n), n, LeftMerge(Load(c.mem, Base(a, n), n), a % n, R(c, rt), n)))
  {
    hide Load, Store, RightMerge, LeftMerge, R;
  }

  lemma StorePairTo(c: Core, n: nat, rt: nat, a: nat)
    requires rt < |c.gpr| && PairReaches(c, a, n)
    ensures a + n <= |c.mem|
    ensures StoreLeft(StoreRight(c, n, rt, a), n, rt, a + n - 1) == c.(mem := Store(c.mem, a, n, R(c, rt)))
  {
    Paired(a, n);
    InsideFits(c.mem, a + n - 1, n);
    hide Store, Load, RightMerge, LeftMerge, StoreRight, StoreLeft, Base, R, InMemory, PairedUnits;
    var d := StoreRight(c, n, rt, a);
    StoreInside(c, n, rt, a);
    SameSize(c.mem, d.mem, a + n - 1, n);
    SameRegister(c, d, rt);
    StoreInside(d, n, rt, a + n - 1);
    PairStored(c.mem, Base(a, n), a % n, Base(a + n - 1, n), (a + n - 1) % n, R(c, rt), n);
  }

  lemma SameRegister(c: Core, d: Core, i: nat)
    requires i < |c.gpr| && d.gpr == c.gpr
    ensures R(d, i) == R(c, i)
  {
  }

  lemma InsideFits(m: seq<Byte>, a: nat, n: nat)
    requires n > 0 && InMemory(m, a, n)
    ensures Base(a, n) + n <= |m|
  {
  }

  lemma SameSize(m: seq<Byte>, m2: seq<Byte>, a: nat, n: nat)
    requires n > 0 && |m| == |m2| && InMemory(m, a, n)
    ensures InMemory(m2, a, n)
  {
  }

  /** The second instruction of a pair names the same base register, which the first has
      left alone, n - 1 further on: it reaches a + n - 1. */
  lemma SecondAddress(c: Core, rt: nat, v: nat, rs: nat, imm: int, d: nat)
    requires rt < |c.gpr| && rs < |c.gpr| && rs != rt && Address(c, rs, imm) + d < P(D)
    ensures Address(Written(c, rt, v), rs, imm + d) == Address(c, rs, imm) + d
    ensures Address(Written128(c, rt, v), rs, imm + d) == Address(c, rs, imm) + d
  {
    Displaced(c, rs, imm, d);
  }

  /** LWR imm(rs) then LWL imm + 3(rs), or LDR then LDL imm + 7(rs), into a register other
      than the base: the word or doubleword at the address, aligned or not, as one load would
      have left it; nothing else is touched. */
  lemma LoadPair(c: Core, n: nat, rt: nat, rs: nat, imm: int)
    requires rt < |c.gpr| && rs < |c.gpr| && rs != rt && (n == W || n == D)
    requires PairReaches(c, Address(c, rs, imm), n)
    ensures Address(c, rs, imm) + n <= |c.mem|
    ensures LoadInstr(LoadInstr(c, false, n, rt, rs, imm), true, n, rt, rs, imm + n - 1)
         == Written(c, rt, Extended(Load(c.mem, Address(c, rs, imm), n), n))
  {
    var a := Address(c, rs, imm);
    Paired(a, n);
    SecondAddress(c, rt, Extended(RightValue(Fetch(c.mem, Base(a, n), n), a % n, R(c, rt), n), n), rs, imm, n - 1);
    assert LoadRight(c, n, rt, a)
        == Written(c, rt, Extended(RightValue(Fetch(c.mem, Base(a, n), n), a % n, R(c, rt), n), n));
    if rt != 0 {
      hide LoadRight, LoadLeft, Written, Extended, Load, Fetch, RightValue, R, Address;
      LoadPairTo(c, n, rt, a);
    }
  }

  /** SWR imm(rs) then SWL imm + 3(rs), or SDR then SDL imm + 7(rs): exactly the n bytes at
      the address become the register's low n, and every other byte and every register is
      as it was. */
  lemma StorePair(c: Core, n: nat, rt: nat, rs: nat, imm: int)
    requires rt < |c.gpr| && rs < |c.gpr| && n > 0 && PairReaches(c, Address(c, rs, imm), n)
    ensures Address(c, rs, imm) + n <= |c.mem|
    ensures var a := Address(c, rs, imm);
      StoreInstr(StoreInstr(c, false, n, rt, rs, imm), true, n, rt, rs, imm + n - 1)
      == c.(mem := c.mem[..a] + Low(R(c, rt), n) + c.mem[a + n..])
  {
    hide InMemory, StoreRight, StoreLeft, Address, R;
    var a := Address(c, rs, imm);
    StorePairTo(c, n, rt, a);
    SecondStore(c, n, rt, rs, imm);
  }

  lemma SecondStore(c: Core, n: nat, rt: nat, rs: nat, imm: int)
    requires rt < |c.gpr| && rs < |c.gpr| && n > 0 && Address(c, rs, imm) + n - 1 < P(D)
    ensures Address(StoreRight(c, n, rt, Address(c, rs, imm)), rs, imm + n - 1) == Address(c, rs, imm) + n - 1
  {
    hide RightMerge, Fetch, Put;
    Displaced(c, rs, imm, n - 1);
    SameRegister(c, StoreRight(c, n, rt, Address(c, rs, imm)), rs);
  }

  // ---- realigning a quadword ---------------------------------------------------------------------

  /** A unit's bytes out of two units, k bytes up. */
  lemma Funnel(lo: nat, hi: nat, k: nat, n: nat)
    requires lo < P(n) && k <= n
    ensures Low(Down(lo + Up(hi, n), k), n) == Low(lo, n)[k..] + Low(hi, k)
  {
    Filled(lo, hi, n, n + k);
    ShiftedDown(lo + Up(hi, n), n, k);
    assert Low(lo + Up(hi, n), n + k) == Low(lo, n) + Low(hi, k);
  }

  lemma FunnelAt(m: seq<Byte>, base: nat, k: nat, base2: nat, k2: nat, n: nat)
    requires PairedUnits(base, k, base2, k2, n) && base2 + n <= |m|
    ensures Low(Down(Load(m, base, n) + Up(Load(m, base2, n), n), k), n) == m[base + k..base + k + n]
  {
    hide Load, Down, Up, Low;
    UnitBytes(m, base, n);
    Funnel(Load(m, base, n), Load(m, base2, n), k, n);
    if k == 0 {
      assert m[base..base + n][0..] + Low(Load(m, base2, n), 0) == m[base..base + n];
    } else {
      UnitBytes(m, base2, n);
      LowPrefix(Load(m, base2, n), n, k);
      Halves(m, base, k, n);
    }
  }

  /** MTSAB sets the shift amount to the exclusive-or, bit by bit, of the register's and the
      immediate's low four bits. */
  lemma MtsabBits(c: Core, rs: nat, imm: nat, i: nat)
    requires rs < |c.gpr| && i < 4
    ensures var d := Mtsab(c, rs, imm);
      && d == c.(sa := d.sa) && d.sa < 16
      && Bits.Digits(d.sa, 4)[i] == (Bits.Digits(R(c, rs), 4)[i] != Bits.Digits(imm, 4)[i])
  {
    var (x, y) := (R(c, rs), imm);
    var bits := seq(4, i requires 0 <= i < 4 => Bits.Digits(x, 4)[i] != Bits.Digits(y, 4)[i]);
    Bits.DigitsOfNumber(bits);
    Bits.NumberFits(bits);
    Bits.Powers();
  }

  lemma XorZero(x: nat)
    ensures Xor4(x, 0) == x % 16
  {
    var bits := seq(4, i requires 0 <= i < 4 => Bits.Digits(x, 4)[i] != Bits.Digits(0, 4)[i]);
    assert Bits.Digits(0, 4) == [false, false, false, false];
    assert bits == Bits.Digits(x, 4);
    Bits.NumberOfLow(x, 4);
    Bits.Powers();
  }

  /** The quadword QFSRV makes of two loaded ones. */
  lemma Funnelled(m: seq<Byte>, base: nat, k: nat, base2: nat, k2: nat, n: nat)
    requires PairedUnits(base, k, base2, k2, n) && base2 + n <= |m|
    ensures Keep(Down(Load(m, base, n) + Up(Load(m, base2, n), n), k), n) == Load(m, base + k, n)
  {
    FunnelAt(m, base, k, base2, k2, n);
    LoadOfBytes(m, base + k, Down(Load(m, base, n) + Up(Load(m, base2, n), n), k), n);
  }

  lemma LoadOfBytes(m: seq<Byte>, a: nat, v: nat, n: nat)
    requires a + n <= |m| && Low(v, n) == m[a..a + n]
    ensures Keep(v, n) == Load(m, a, n)
  {
    ValueOfLow(v, n);
  }

  lemma UnitFits(m: seq<Byte>, a: nat, n: nat)
    requires a + n <= |m|
    ensures Keep(Load(m, a, n), n) == Load(m, a, n)
  {
    UnitBytes(m, a, n);
    KeepSmall(Load(m, a, n), n);
  }

  /** LQ 0(rs), LQ 15(rs), MTSAB rs, 0 and QFSRV: the sixteen bytes at the address in rs,
      aligned or not. */
  lemma Realign(c: Core, rd: nat, lo: nat, hi: nat, rs: nat)
    requires 0 < rd < |c.gpr| && 0 < lo < |c.gpr| && 0 < hi < |c.gpr| && rs < |c.gpr|
    requires lo != hi && rs != lo && rs != hi && PairReaches(c, R(c, rs), Q)
    ensures R(c, rs) + Q <= |c.mem|
    ensures var loaded := Lq(Lq(c, lo, rs, 0), hi, rs, Q - 1);
      Qfsrv(Mtsab(loaded, rs, 0), rd, hi, lo).gpr[rd] == Load(c.mem, R(c, rs), Q)
  {
    hide Load, LoadQuad, Qfsrv, Mtsab, R, InMemory, Address;
    NoDisplacement(c, rs);
    SecondQuad(c, lo, rs);
    RealignTo(c, rd, lo, hi, rs, R(c, rs));
  }

  lemma SecondQuad(c: Core, lo: nat, rs: nat)
    requires lo < |c.gpr| && rs < |c.gpr| && rs != lo && R(c, rs) + Q - 1 < P(D)
    ensures Address(LoadQuad(c, lo, R(c, rs)), rs, Q - 1) == R(c, rs) + Q - 1
  {
    hide Fetch, Base, R;
    NoDisplacement(c, rs);
    SecondAddress(c, lo, Fetch(c.mem, Base(R(c, rs), Q), Q), rs, 0, Q - 1);
  }

  lemma RealignTo(c: Core, rd: nat, lo: nat, hi: nat, rs: nat, a: nat)
    requires 0 < rd < |c.gpr| && 0 < lo < |c.gpr| && 0 < hi < |c.gpr| && rs < |c.gpr|
    requires lo != hi && rs != lo && rs != hi && R(c, rs) == a && PairReaches(c, a, Q)
    ensures a + Q <= |c.mem|
    ensures var loaded := LoadQuad(LoadQuad(c, lo, a), hi, a + Q - 1);
      Qfsrv(Mtsab(loaded, rs, 0), rd, hi, lo).gpr[rd] == Load(c.mem, a, Q)
  {
    Paired(a, Q);
    XorZero(a);
    RealignAt(c, rd, lo, hi, Base(a, Q), a % Q, Base(a + Q - 1, Q), (a + Q - 1) % Q);
  }

  lemma NoDisplacement(c: Core, rs: nat)
    requires rs < |c.gpr|
    ensures Address(c, rs, 0) == R(c, rs)
  {
    KeepFits(c.gpr[rs], D);
    SmallRemainder(R(c, rs), P(D));
  }

  lemma SmallRemainder(v: nat, n: nat)
    requires v < n
    ensures v % n == v
  {
  }

  lemma RealignAt(c: Core, rd: nat, lo: nat, hi: nat, base: nat, k: nat, base2: nat, k2: nat)
    requires 0 < rd < |c.gpr| && 0 < lo < |c.gpr| && 0 < hi < |c.gpr| && lo != hi
    requires PairedUnits(base, k, base2, k2, Q) && base2 + Q <= |c.mem|
    ensures var c1 := Written128(Written128(c, lo, Load(c.mem, base, Q)), hi, Load(c.mem, base2, Q));
      Qfsrv(c1.(sa := k), rd, hi, lo).gpr[rd] == Load(c.mem, base + k, Q)
  {
    UnitFits(c.mem, base, Q);
    UnitFits(c.mem, base2, Q);
    Funnelled(c.mem, base, k, base2, k2, Q);
  }

  /** SQ then LQ of the same quadword, anywhere in it: the register's 128 bits come back. */
  lemma QuadRoundTrip(c: Core, rt: nat, rd: nat, rs: nat, imm: int)
    requires rt < |c.gpr| && 0 < rd < |c.gpr| && rs < |c.gpr| && InMemory(c.mem, Address(c, rs, imm), Q)
    ensures Lq(Sq(c, rt, rs, imm), rd, rs, imm) == Written128(Sq(c, rt, rs, imm), rd, c.gpr[rt])
  {
    hide Keep, Base, InMemory, R;
    var a, d := Address(c, rs, imm), Sq(c, rt, rs, imm);
    SameRegister(c, d, rs);
    InsideFits(c.mem, a, Q);
    assert d == c.(mem := Store(c.mem, Base(a, Q), Q, c.gpr[rt])) && Address(d, rs, imm) == a;
    StoredLoads(c.mem, Base(a, Q), Q, c.gpr[rt]);
    KeepTwice(c.gpr[rt], Q);
    hide Store, Load, Address;
  }

  lemma StoredLoads(m: seq<Byte>, a: nat, n: nat, v: nat)
    requires a + n <= |m|
    ensures Load(Store(m, a, n, v), a, n) == Keep(v, n)
  {
    assert Store(m, a, n, v)[a..a + n] == Low(v, n);
    ValueOfLow(v, n);
  }

  lemma KeepTwice(v: nat, n: nat)
    ensures Keep(Keep(v, n), n) == Keep(v, n)
  {
    KeepFits(v, n);
    KeepSmall(Keep(v, n), n);
  }

  /** The registers and memory as the interpreter keeps them. */
  class R5900 {
    var gpr: seq<nat>
    var mem: seq<Byte>
    var sa: nat

    ghost function Now(): Core
      reads this
    {
      Core(gpr, mem, sa)
    }

    constructor (size: nat)
      ensures Now() == Core(seq(32, i => 0), seq(size, i => 0), 0)
    {
      gpr := seq(32, i => 0);
      mem := seq(size, i => 0);
      sa := 0;
    }

    method W64(i: nat, v: nat)
      requires i < |gpr|
      modifies this`gpr
      ensures Now() == Written(old(Now()), i, v)
    {
      if i == 0 {
        return;
      }
      gpr := gpr[i := Keep(v, D) + Up(Down(gpr[i], D), D)];
    }

    method W128(i: nat, v: nat)
      requires i < |gpr|
      modifies this`gpr
      ensures Now() == Written128(old(Now()), i, v)
    {
      if i == 0 {
        return;
      }
      gpr := gpr[i := Keep(v, Q)];
    }

    /** mem.store. */
    method StoreBytes(a: nat, n: nat, v: nat)
      modifies this`mem
      ensures Now() == old(Now()).(mem := Put(old(mem), a, n, v))
    {
      var from, to := Clip(mem, a), Clip(mem, a + n);
      PutSlice(mem, a, n, v);
      mem := mem[..from] + Low(v, n) + mem[to..];
    }

    /** mem.load. */
    method LoadBytes(a: nat, n: nat) returns (v: nat)
      ensures v == Fetch(mem, a, n)
    {
      var from, to := Clip(mem, a), Clip(mem, a + n);
      FetchSlice(mem, a, n);
      v := Value(mem[from..to]);
    }

    /** LWL, LWR, LDL and LDR. */
    method LoadUnaligned(left: bool, n: nat, rt: nat, rs: nat, imm: int)
      requires rt < |gpr| && rs < |gpr| && n > 0
      modifies this`gpr
      ensures Now() == LoadInstr(old(Now()), left, n, rt, rs, imm)
    {
      hide Keep, LeftValue, RightValue, Extended, Fetch;
      var a := (Keep(gpr[rs], D) + imm) % P(D);
      var base, k := Base(a, n), a % n;
      var unit := LoadBytes(base, n);
      var r := Keep(gpr[rt], D);
      if left {
        W64(rt, Extended(LeftValue(unit, k, r, n), n));
      } else {
        W64(rt, Extended(RightValue(unit, k, r, n), n));
      }
    }

    /** SWL, SWR, SDL and SDR. */
    method StoreUnaligned(left: bool, n: nat, rt: nat, rs: nat, imm: int)
      requires rt < |gpr| && rs < |gpr| && n > 0
      modifies this`mem
      ensures Now() == StoreInstr(old(Now()), left, n, rt, rs, imm)
    {
      hide Keep, LeftMerge, RightMerge, Put, Fetch;
      var a := (Keep(gpr[rs], D) + imm) % P(D);
      var base, k := Base(a, n), a % n;
      var unit := LoadBytes(base, n);
      var r := Keep(gpr[rt], D);
      if left {
        StoreBytes(base, n, LeftMerge(unit, k, r, n));
      } else {
        StoreBytes(base, n, RightMerge(unit, k, r, n));
      }
    }

    method LoadQuadword(rt: nat, rs: nat, imm: int)
      requires rt < |gpr| && rs < |gpr|
      modifies this`gpr
      ensures Now() == Lq(old(Now()), rt, rs, imm)
    {
      hide Value, Keep;
      var base := Base((Keep(gpr[rs], D) + imm) % P(D), Q);
      var quad := LoadBytes(base, Q);
      W128(rt, quad);
    }

    method StoreQuadword(rt: nat, rs: nat, imm: int)
      requires rt < |gpr| && rs < |gpr|
      modifies this`mem
      ensures Now() == Sq(old(Now()), rt, rs, imm)
    {
      hide Keep;
      StoreBytes(Base((Keep(gpr[rs], D) + imm) % P(D), Q), Q, gpr[rt]);
    }

    method SetSa(rs: nat, imm: nat)
      requires rs < |gpr|
      modifies this`sa
      ensures Now() == Mtsab(old(Now()), rs, imm)
    {
      hide Keep;
      sa := Xor4(Keep(gpr[rs], D), imm);
    }

    method FunnelShift(rd: nat, rs: nat, rt: nat)
      requires rd < |gpr| && rs < |gpr| && rt < |gpr|
      modifies this`gpr
      ensures Now() == Qfsrv(old(Now()), rd, rs, rt)
    {
      hide Keep;
      W128(rd, Down(gpr[rt] + Up(gpr[rs], Q), sa));
    }
  }
}
