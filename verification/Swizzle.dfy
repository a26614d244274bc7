/** The swizzled address maps of sim/gs/gs_ref.py: which word, half, byte or nibble
    of local memory a pixel occupies, in eight formats. */
module Swizzle {
  import opened Arith
  import opened Bits

  /** What a pixel occupies: a word (PSMCT32, PSMCT24, PSMZ32, PSMZ24), half of one
      (PSMCT16, PSMCT16S, PSMZ16, PSMZ16S), a byte (PSMT8) or a nibble (PSMT4). */
  datatype Format = Word(depth: bool) | Half(sform: bool, depth: bool) | Byte | Nibble

  // ---- the block and column maps: each output bit is one input bit, or an exclusive-or --------

  /** Block index in a page, from the bits of the block's row and column. */
  function Block32(v: seq<bool>, u: seq<bool>): seq<bool>
    requires |v| == 2 && |u| == 3
  {
    [u[0], v[0], u[1], v[1], u[2]]
  }

  function Block16(v: seq<bool>, u: seq<bool>): seq<bool>
    requires |v| == 3 && |u| == 2
  {
    [v[0], u[0], v[1], u[1], v[2]]
  }

  function Block16S(v: seq<bool>, u: seq<bool>): seq<bool>
    requires |v| == 3 && |u| == 2
  {
    [v[0], u[0], v[2], v[1], u[1]]
  }

  /** Word index in a block. */
  function Column32(y: seq<bool>, x: seq<bool>): seq<bool>
    requires |y| == |x| == 3
  {
    [x[0], y[0], x[1], x[2], y[1], y[2]]
  }

  function Xor(a: bool, b: bool): bool { a != b }

  /** Byte index in a PSMT8 block. */
  function Column8(y: seq<bool>, x: seq<bool>): seq<bool>
    requires |y| == |x| == 4
  {
    [y[1], x[3], x[0], y[0], x[1], Xor(Xor(y[1], y[2]), x[2]), y[2], y[3]]
  }

  /** Nibble index in a PSMT4 block. */
  function Column4(y: seq<bool>, x: seq<bool>): seq<bool>
    requires |y| == 4 && |x| == 5
  {
    [y[1], x[3], x[4], x[0], y[0], x[1], Xor(Xor(y[1], y[2]), x[2]), y[2], y[3]]
  }

  /** The depth formats' exclusive-or of the block index by 24. */
  function BlkXor(b: seq<bool>, depth: bool): seq<bool>
    requires |b| == 5
  {
    [b[0], b[1], b[2], Xor(b[3], depth), Xor(b[4], depth)]
  }

  // ---- the address maps --------------------------------------------------------------------------

  function Block32Index(v: nat, u: nat, depth: bool): nat {
    Number(BlkXor(Block32(Digits(v, 2), Digits(u, 3)), depth))
  }

  function Block16Index(v: nat, u: nat, sform: bool, depth: bool): nat {
    Number(BlkXor(if sform then Block16S(Digits(v, 3), Digits(u, 2)) else Block16(Digits(v, 3), Digits(u, 2)), depth))
  }

  function Column32Index(y: nat, x: nat): nat { Number(Column32(Digits(y, 3), Digits(x, 3))) }

  function Column8Index(y: nat, x: nat): nat { Number(Column8(Digits(y, 4), Digits(x, 4))) }

  function Column4Index(y: nat, x: nat): nat { Number(Column4(Digits(y, 4), Digits(x, 5))) }

  function Joined(q: nat, n: nat, r: nat): nat {
    q * n + r
  }

  /** Page number from the row and column of pages. */
  function Page(base: nat, stride: nat, row: nat, col: nat): nat {
    base + Joined(row, stride, col)
  }

  /** Word address of a pixel, base in pages. */
  function Addr32p(base: nat, bw: nat, x: nat, y: nat, depth: bool): nat {
    Page(base, bw, y / 32, x / 64) * 2048 + Block32Index(y / 8 % 4, x / 8 % 8, depth) * 64 + Column32Index(y % 8, x % 8)
  }

  /** Word address, and which half of that word. */
  function Addr16p(base: nat, bw: nat, x: nat, y: nat, sform: bool, depth: bool): (nat, nat) {
    (Page(base, bw, y / 64, x / 64) * 2048 + Block16Index(y / 8 % 8, x / 16 % 4, sform, depth) * 64
     + Column32Index(y % 8, x % 8),
     x / 8 % 2)
  }

  /** Byte address.  TBW counts 64 texels, and a page is 128 across. */
  function Addr8p(base: nat, bw: nat, x: nat, y: nat): nat {
    Page(base, bw / 2, y / 64, x / 128) * 8192 + Block32Index(y / 16 % 4, x / 16 % 8, false) * 256
    + Column8Index(y % 16, x % 16)
  }

  /** Nibble address.  The block order is PSMCT32's with x and y exchanged. */
  function Addr4p(base: nat, bw: nat, x: nat, y: nat): nat {
    Page(base, bw / 2, y / 128, x / 128) * 16384 + Block32Index(x / 32 % 4, y / 16 % 8, false) * 512
    + Column4Index(y % 16, x % 32)
  }

  // ---- inverses of the bit maps ------------------------------------------------------------------

  function Block32X(b: seq<bool>): seq<bool> requires |b| == 5 { [b[0], b[2], b[4]] }

  function Block32Y(b: seq<bool>): seq<bool> requires |b| == 5 { [b[1], b[3]] }

  function Block16X(b: seq<bool>, sform: bool): seq<bool>
    requires |b| == 5
  {
    [b[1], if sform then b[4] else b[3]]
  }

  function Block16Y(b: seq<bool>, sform: bool): seq<bool>
    requires |b| == 5
  {
    [b[0], if sform then b[3] else b[2], if sform then b[2] else b[4]]
  }

  function Column32X(c: seq<bool>): seq<bool> requires |c| == 6 { [c[0], c[2], c[3]] }

  function Column32Y(c: seq<bool>): seq<bool> requires |c| == 6 { [c[1], c[4], c[5]] }

  function Column8X(c: seq<bool>): seq<bool>
    requires |c| == 8
  {
    [c[2], c[4], Xor(Xor(c[0], c[6]), c[5]), c[1]]
  }

  function Column8Y(c: seq<bool>): seq<bool> requires |c| == 8 { [c[3], c[0], c[6], c[7]] }

  function Column4X(c: seq<bool>): seq<bool>
    requires |c| == 9
  {
    [c[3], c[5], Xor(Xor(c[0], c[7]), c[6]), c[1], c[2]]
  }

  function Column4Y(c: seq<bool>): seq<bool> requires |c| == 9 { [c[4], c[0], c[7], c[8]] }

  lemma Block32Inverse(v: seq<bool>, u: seq<bool>, b: seq<bool>)
    requires |v| == 2 && |u| == 3 && |b| == 5
    ensures Block32(v, u) == b <==> v == Block32Y(b) && u == Block32X(b)
  {
  }

  lemma Block16Inverse(v: seq<bool>, u: seq<bool>, b: seq<bool>, sform: bool)
    requires |v| == 3 && |u| == 2 && |b| == 5
    ensures (if sform then Block16S(v, u) else Block16(v, u)) == b
        <==> v == Block16Y(b, sform) && u == Block16X(b, sform)
  {
  }

  lemma Column32Inverse(y: seq<bool>, x: seq<bool>, c: seq<bool>)
    requires |y| == |x| == 3 && |c| == 6
    ensures Column32(y, x) == c <==> y == Column32Y(c) && x == Column32X(c)
  {
  }

  lemma Column8Inverse(y: seq<bool>, x: seq<bool>, c: seq<bool>)
    requires |y| == |x| == 4 && |c| == 8
    ensures Column8(y, x) == c <==> y == Column8Y(c) && x == Column8X(c)
  {
  }

  lemma Column4Inverse(y: seq<bool>, x: seq<bool>, c: seq<bool>)
    requires |y| == 4 && |x| == 5 && |c| == 9
    ensures Column4(y, x) == c <==> y == Column4Y(c) && x == Column4X(c)
  {
  }

  lemma BlkXorInverse(b: seq<bool>, c: seq<bool>, depth: bool)
    requires |b| == |c| == 5
    ensures BlkXor(b, depth) == c <==> b == BlkXor(c, depth)
  {
  }

  // ---- and of the index functions ----------------------------------------------------------------

  function Block32Col(b: nat, depth: bool): nat { Number(Block32X(BlkXor(Digits(b, 5), depth))) }

  function Block32Row(b: nat, depth: bool): nat { Number(Block32Y(BlkXor(Digits(b, 5), depth))) }

  function Block16Col(b: nat, sform: bool, depth: bool): nat { Number(Block16X(BlkXor(Digits(b, 5), depth), sform)) }

  function Block16Row(b: nat, sform: bool, depth: bool): nat { Number(Block16Y(BlkXor(Digits(b, 5), depth), sform)) }

  function Column32Col(c: nat): nat { Number(Column32X(Digits(c, 6))) }

  function Column32Row(c: nat): nat { Number(Column32Y(Digits(c, 6))) }

  function Column8Col(c: nat): nat { Number(Column8X(Digits(c, 8))) }

  function Column8Row(c: nat): nat { Number(Column8Y(Digits(c, 8))) }

  function Column4Col(c: nat): nat { Number(Column4X(Digits(c, 9))) }

  function Column4Row(c: nat): nat { Number(Column4Y(Digits(c, 9))) }

  lemma Block32Pairs(v: nat, u: nat, depth: bool, b: nat)
    requires v < 4 && u < 8 && b < 32
    ensures Block32Index(v, u, depth) < 32 && Block32Row(b, depth) < 4 && Block32Col(b, depth) < 8
    ensures Block32Index(v, u, depth) == b <==> v == Block32Row(b, depth) && u == Block32Col(b, depth)
  {
    Powers();
    var (vs, us, bs) := (Digits(v, 2), Digits(u, 3), Digits(b, 5));
    var out, back := BlkXor(Block32(vs, us), depth), BlkXor(bs, depth);
    NumberFits(out);
    NumberFits(Block32Y(back));
    NumberFits(Block32X(back));
    SameNumber(out, b);
    BlkXorInverse(Block32(vs, us), bs, depth);
    Block32Inverse(vs, us, back);
    SameNumber(Block32Y(back), v);
    SameNumber(Block32X(back), u);
  }

  lemma Block16Pairs(v: nat, u: nat, sform: bool, depth: bool, b: nat)
    requires v < 8 && u < 4 && b < 32
    ensures Block16Index(v, u, sform, depth) < 32 && Block16Row(b, sform, depth) < 8 && Block16Col(b, sform, depth) < 4
    ensures Block16Index(v, u, sform, depth) == b
       <==> v == Block16Row(b, sform, depth) && u == Block16Col(b, sform, depth)
  {
    Powers();
    var (vs, us, bs) := (Digits(v, 3), Digits(u, 2), Digits(b, 5));
    var plain, back := if sform then Block16S(vs, us) else Block16(vs, us), BlkXor(bs, depth);
    NumberFits(BlkXor(plain, depth));
    NumberFits(Block16Y(back, sform));
    NumberFits(Block16X(back, sform));
    SameNumber(BlkXor(plain, depth), b);
    BlkXorInverse(plain, bs, depth);
    Block16Inverse(vs, us, back, sform);
    SameNumber(Block16Y(back, sform), v);
    SameNumber(Block16X(back, sform), u);
  }

  lemma Column32Pairs(y: nat, x: nat, c: nat)
    requires y < 8 && x < 8 && c < 64
    ensures Column32Index(y, x) < 64 && Column32Row(c) < 8 && Column32Col(c) < 8
    ensures Column32Index(y, x) == c <==> y == Column32Row(c) && x == Column32Col(c)
  {
    Powers();
    var (ys, xs, cs) := (Digits(y, 3), Digits(x, 3), Digits(c, 6));
    NumberFits(Column32(ys, xs));
    NumberFits(Column32Y(cs));
    NumberFits(Column32X(cs));
    SameNumber(Column32(ys, xs), c);
    Column32Inverse(ys, xs, cs);
    SameNumber(Column32Y(cs), y);
    SameNumber(Column32X(cs), x);
  }

  lemma Column8Pairs(y: nat, x: nat, c: nat)
    requires y < 16 && x < 16 && c < 256
    ensures Column8Index(y, x) < 256 && Column8Row(c) < 16 && Column8Col(c) < 16
    ensures Column8Index(y, x) == c <==> y == Column8Row(c) && x == Column8Col(c)
  {
    Powers();
    var (ys, xs, cs) := (Digits(y, 4), Digits(x, 4), Digits(c, 8));
    NumberFits(Column8(ys, xs));
    NumberFits(Column8Y(cs));
    NumberFits(Column8X(cs));
    SameNumber(Column8(ys, xs), c);
    Column8Inverse(ys, xs, cs);
    SameNumber(Column8Y(cs), y);
    SameNumber(Column8X(cs), x);
  }

  lemma Column4Pairs(y: nat, x: nat, c: nat)
    requires y < 16 && x < 32 && c < 512
    ensures Column4Index(y, x) < 512 && Column4Row(c) < 16 && Column4Col(c) < 32
    ensures Column4Index(y, x) == c <==> y == Column4Row(c) && x == Column4Col(c)
  {
    Powers();
    var (ys, xs, cs) := (Digits(y, 4), Digits(x, 5), Digits(c, 9));
    NumberFits(Column4(ys, xs));
    NumberFits(Column4Y(cs));
    NumberFits(Column4X(cs));
    SameNumber(Column4(ys, xs), c);
    Column4Inverse(ys, xs, cs);
    SameNumber(Column4Y(cs), y);
    SameNumber(Column4X(cs), x);
  }

  // ---- one shape for all eight formats -----------------------------------------------------------

  function PageWidth(f: Format): nat { if f.Byte? || f.Nibble? then 128 else 64 }

  function PageHeight(f: Format): nat {
    match f
    case Word(_) => 32
    case Half(_, _) => 64
    case Byte => 64
    case Nibble => 128
  }

  /** How many pixels a page holds: its words, halves, bytes or nibbles. */
  function PageCells(f: Format): (n: nat)
    ensures n > 0
  {
    match f
    case Word(_) => 2048
    case Half(_, _) => 4096
    case Byte => 8192
    case Nibble => 16384
  }

  /** Pages across a row of the buffer. */
  function Stride(f: Format, bw: nat): nat { if f.Byte? || f.Nibble? then bw / 2 else bw }

  /** The cell a pixel occupies: its word, twice its word plus its half, its byte or
      its nibble. */
  function Cell(f: Format, base: nat, bw: nat, x: nat, y: nat): nat {
    match f
    case Word(depth) => Addr32p(base, bw, x, y, depth)
    case Half(sform, depth) => var (word, half) := Addr16p(base, bw, x, y, sform, depth); 2 * word + half
    case Byte => Addr8p(base, bw, x, y)
    case Nibble => Addr4p(base, bw, x, y)
  }

  function Place32(y: nat, x: nat, depth: bool): nat {
    Block32Index(y / 8, x / 8, depth) * 64 + Column32Index(y % 8, x % 8)
  }

  function Row32(o: nat, depth: bool): nat { Block32Row(o / 64, depth) * 8 + Column32Row(o % 64) }

  function Col32(o: nat, depth: bool): nat { Block32Col(o / 64, depth) * 8 + Column32Col(o % 64) }

  function Place16(y: nat, x: nat, sform: bool, depth: bool): nat {
    (Block16Index(y / 8, x / 8 / 2, sform, depth) * 64 + Column32Index(y % 8, x % 8)) * 2 + x / 8 % 2
  }

  function Row16(o: nat, sform: bool, depth: bool): nat {
    Block16Row(o / 2 / 64, sform, depth) * 8 + Column32Row(o / 2 % 64)
  }

  function Col16(o: nat, sform: bool, depth: bool): nat {
    (Block16Col(o / 2 / 64, sform, depth) * 2 + o % 2) * 8 + Column32Col(o / 2 % 64)
  }

  function Place8(y: nat, x: nat): nat { Block32Index(y / 16, x / 16, false) * 256 + Column8Index(y % 16, x % 16) }

  function Row8(o: nat): nat { Block32Row(o / 256, false) * 16 + Column8Row(o % 256) }

  function Col8(o: nat): nat { Block32Col(o / 256, false) * 16 + Column8Col(o % 256) }

  function Place4(y: nat, x: nat): nat { Block32Index(x / 32, y / 16, false) * 512 + Column4Index(y % 16, x % 32) }

  function Row4(o: nat): nat { Block32Col(o / 512, false) * 16 + Column4Row(o % 512) }

  function Col4(o: nat): nat { Block32Row(o / 512, false) * 32 + Column4Col(o % 512) }

  /** The row within a page of the pixel at a place in that page ... */
  function RowIn(f: Format, o: nat): nat {
    match f
    case Word(depth) => Row32(o, depth)
    case Half(sform, depth) => Row16(o, sform, depth)
    case Byte => Row8(o)
    case Nibble => Row4(o)
  }

  /** ... and its column. */
  function ColumnIn(f: Format, o: nat): nat {
    match f
    case Word(depth) => Col32(o, depth)
    case Half(sform, depth) => Col16(o, sform, depth)
    case Byte => Col8(o)
    case Nibble => Col4(o)
  }

  /** Quotient and remainder determine a number, and it them. */
  lemma Parts(n: nat, q: nat, r: nat, v: nat)
    requires r < n
    ensures q * n + r == v <==> q == v / n && r == v % n
  {
    if q * n + r == v {
      Divides(n, q, r);
    }
  }

  lemma Regroup(q: nat, n: nat, k: nat, m: nat, r1: nat, r0: nat)
    requires n == k * m
    ensures q * n + (r1 * m + r0) == (q * k + r1) * m + r0
  {
    assert q * (k * m) == (q * k) * m;
  }

  lemma Nested(v: nat, q: nat, r: nat, n: nat, k: nat, m: nat, r1: nat, r0: nat)
    requires n == k * m && r1 < k && r0 < m
    requires v == q * n + r && r == r1 * m + r0
    ensures v / m % k == r1 && v % m == r0
  {
    Regroup(q, n, k, m, r1, r0);
    Divides(m, q * k + r1, r0);
    Divides(k, q, r1);
  }

  /** Dividing what is left of a page gives what is left of the quotient. */
  lemma Nest(v: nat, n: nat, k: nat, m: nat)
    requires n == k * m && 0 < m && 0 < n
    ensures v % n / m < k && v % n / m == v / m % k && v % n % m == v % m
  {
    var q, r := v / n, v % n;
    Whole(v, n);
    Whole(r, m);
    QuotientBelow(r, k, m);
    Nested(v, q, r, n, k, m, r / m, r % m);
  }

  // Within a page, pixels and places pair off.

  lemma Pairs32(y: nat, x: nat, depth: bool, o: nat)
    requires y < 32 && x < 64 && o < 2048
    ensures Place32(y, x, depth) < 2048 && Row32(o, depth) < 32 && Col32(o, depth) < 64
    ensures Place32(y, x, depth) == o <==> y == Row32(o, depth) && x == Col32(o, depth)
  {
    Block32Pairs(y / 8, x / 8, depth, o / 64);
    Column32Pairs(y % 8, x % 8, o % 64);
    Parts(64, Block32Index(y / 8, x / 8, depth), Column32Index(y % 8, x % 8), o);
    Parts(8, Block32Row(o / 64, depth), Column32Row(o % 64), y);
    Parts(8, Block32Col(o / 64, depth), Column32Col(o % 64), x);
  }

  lemma Pairs16(y: nat, x: nat, sform: bool, depth: bool, o: nat)
    requires y < 64 && x < 64 && o < 4096
    ensures Place16(y, x, sform, depth) < 4096 && Row16(o, sform, depth) < 64 && Col16(o, sform, depth) < 64
    ensures Place16(y, x, sform, depth) == o <==> y == Row16(o, sform, depth) && x == Col16(o, sform, depth)
  {
    var v, u := Block16Row(o / 2 / 64, sform, depth), Block16Col(o / 2 / 64, sform, depth);
    Block16Pairs(y / 8, x / 8 / 2, sform, depth, o / 2 / 64);
    Column32Pairs(y % 8, x % 8, o / 2 % 64);
    var b, c := Block16Index(y / 8, x / 8 / 2, sform, depth), Column32Index(y % 8, x % 8);
    Parts(2, b * 64 + c, x / 8 % 2, o);
    Parts(64, b, c, o / 2);
    Parts(8, v, Column32Row(o / 2 % 64), y);
    Parts(8, u * 2 + o % 2, Column32Col(o / 2 % 64), x);
    Parts(2, u, o % 2, x / 8);
  }

  lemma Pairs8(y: nat, x: nat, o: nat)
    requires y < 64 && x < 128 && o < 8192
    ensures Place8(y, x) < 8192 && Row8(o) < 64 && Col8(o) < 128
    ensures Place8(y, x) == o <==> y == Row8(o) && x == Col8(o)
  {
    Block32Pairs(y / 16, x / 16, false, o / 256);
    Column8Pairs(y % 16, x % 16, o % 256);
    Parts(256, Block32Index(y / 16, x / 16, false), Column8Index(y % 16, x % 16), o);
    Parts(16, Block32Row(o / 256, false), Column8Row(o % 256), y);
    Parts(16, Block32Col(o / 256, false), Column8Col(o % 256), x);
  }

  lemma Pairs4(y: nat, x: nat, o: nat)
    requires y < 128 && x < 128 && o < 16384
    ensures Place4(y, x) < 16384 && Row4(o) < 128 && Col4(o) < 128
    ensures Place4(y, x) == o <==> y == Row4(o) && x == Col4(o)
  {
    Block32Pairs(x / 32, y / 16, false, o / 512);
    Column4Pairs(y % 16, x % 32, o % 512);
    Parts(512, Block32Index(x / 32, y / 16, false), Column4Index(y % 16, x % 32), o);
    Parts(16, Block32Col(o / 512, false), Column4Row(o % 512), y);
    Parts(32, Block32Row(o / 512, false), Column4Col(o % 512), x);
  }

  // ---- and across pages, the width permitting ----------------------------------------------------

  lemma Shape32(base: nat, bw: nat, x: nat, y: nat, depth: bool)
    ensures Addr32p(base, bw, x, y, depth)
         == Joined(Page(base, bw, y / 32, x / 64), 2048, Place32(y % 32, x % 64, depth))
  {
    Nest(y, 32, 4, 8);
    Nest(x, 64, 8, 8);
  }

  lemma Shape16(base: nat, bw: nat, x: nat, y: nat, sform: bool, depth: bool)
    ensures var (word, half) := Addr16p(base, bw, x, y, sform, depth);
      2 * word + half == Joined(Page(base, bw, y / 64, x / 64), 4096, Place16(y % 64, x % 64, sform, depth))
  {
    Nest(y, 64, 8, 8);
    Nest(x, 64, 8, 8);
    Nest(x / 8, 8, 4, 2);
    assert x / 8 / 2 == x / 16;
  }

  lemma Shape8(base: nat, bw: nat, x: nat, y: nat)
    ensures Addr8p(base, bw, x, y) == Joined(Page(base, bw / 2, y / 64, x / 128), 8192, Place8(y % 64, x % 128))
  {
    Nest(y, 64, 4, 16);
    Nest(x, 128, 8, 16);
  }

  lemma Shape4(base: nat, bw: nat, x: nat, y: nat)
    ensures Addr4p(base, bw, x, y) == Joined(Page(base, bw / 2, y / 128, x / 128), 16384, Place4(y % 128, x % 128))
  {
    Nest(y, 128, 8, 16);
    Nest(x, 128, 4, 32);
  }

  /** A row in the buffer, from a cell and the row within its page ... */
  function OuterY(c: nat, n: nat, base: nat, stride: nat, h: nat, row: nat): nat
    requires 0 < n && 0 < stride && base <= c / n
  {
    Joined((c / n - base) / stride, h, row)
  }

  /** ... and a column. */
  function OuterX(c: nat, n: nat, base: nat, stride: nat, w: nat, col: nat): nat
    requires 0 < n && 0 < stride && base <= c / n
  {
    Joined((c / n - base) % stride, w, col)
  }

  /** The pixel a cell belongs to: its row ... */
  function PixelY(f: Format, base: nat, bw: nat, c: nat): nat
    requires Stride(f, bw) > 0 && base <= c / PageCells(f)
  {
    OuterY(c, PageCells(f), base, Stride(f, bw), PageHeight(f), RowIn(f, c % PageCells(f)))
  }

  /** ... and its column. */
  function PixelX(f: Format, base: nat, bw: nat, c: nat): nat
    requires Stride(f, bw) > 0 && base <= c / PageCells(f)
  {
    OuterX(c, PageCells(f), base, Stride(f, bw), PageWidth(f), ColumnIn(f, c % PageCells(f)))
  }

  lemma PagePairs(base: nat, stride: nat, row: nat, col: nat, p: nat)
    requires col < stride && base <= p
    ensures base <= Page(base, stride, row, col)
    ensures Page(base, stride, row, col) == p <==> row == (p - base) / stride && col == (p - base) % stride
  {
    Parts(stride, row, col, p - base);
  }

  lemma ColumnFits(v: nat, k: nat, m: nat)
    requires 0 < m && v < m * k
    ensures v / m < k
  {
    QuotientBelow(v, k, m);
  }

  lemma FitsColumn(q: nat, r: nat, k: nat, m: nat)
    requires q < k && r < m
    ensures q * m + r < m * k
  {
    Times(q + 1, k, m);
  }

  lemma PageBelow(page: nat, base: nat, n: nat, place: nat)
    requires base <= page && place < n
    ensures base <= (page * n + place) / n
  {
    Divides(n, page, place);
  }

  lemma OuterPairs(w: nat, h: nat, n: nat, base: nat, stride: nat, x: nat, y: nat, c: nat, row: nat, col: nat)
    requires 0 < w && 0 < h && 0 < n && x / w < stride && base <= c / n && row < h && col < w
    ensures y == OuterY(c, n, base, stride, h, row) && x == OuterX(c, n, base, stride, w, col)
       <==> Page(base, stride, y / h, x / w) == c / n && y % h == row && x % w == col
  {
    PagePairs(base, stride, y / h, x / w, c / n);
    Parts(h, (c / n - base) / stride, row, y);
    Parts(w, (c / n - base) % stride, col, x);
  }

  lemma OuterFits(c: nat, n: nat, base: nat, stride: nat, w: nat, col: nat)
    requires 0 < n && 0 < stride && base <= c / n && col < w
    ensures OuterX(c, n, base, stride, w, col) < w * stride
  {
    FitsColumn((c / n - base) % stride, col, stride, w);
  }

  /** The step from one page to the whole buffer, with the page's own pairing given. */
  lemma Across(w: nat, h: nat, n: nat, base: nat, stride: nat, x: nat, y: nat, c: nat, place: nat, row: nat, col: nat)
    requires 0 < w && 0 < h && 0 < n && 0 < stride && x < w * stride && base <= c / n
    requires place < n && row < h && col < w
    requires place == c % n <==> y % h == row && x % w == col
    ensures var cell := Joined(Page(base, stride, y / h, x / w), n, place);
      && base <= cell / n
      && (cell == c <==> x == OuterX(c, n, base, stride, w, col) && y == OuterY(c, n, base, stride, h, row))
    ensures OuterX(c, n, base, stride, w, col) < w * stride
  {
    ColumnFits(x, stride, w);
    PageBelow(Page(base, stride, y / h, x / w), base, n, place);
    Parts(n, Page(base, stride, y / h, x / w), place, c);
    OuterPairs(w, h, n, base, stride, x, y, c, row, col);
    OuterFits(c, n, base, stride, w, col);
  }

  lemma Bijection32(base: nat, bw: nat, x: nat, y: nat, c: nat, depth: bool)
    requires 0 < bw && x < 64 * bw && base <= c / 2048
    ensures var cell := Addr32p(base, bw, x, y, depth);
      && base <= cell / 2048
      && (cell == c <==> && x == OuterX(c, 2048, base, bw, 64, Col32(c % 2048, depth))
                         && y == OuterY(c, 2048, base, bw, 32, Row32(c % 2048, depth)))
    ensures OuterX(c, 2048, base, bw, 64, Col32(c % 2048, depth)) < 64 * bw
  {
    Shape32(base, bw, x, y, depth);
    Pairs32(y % 32, x % 64, depth, c % 2048);
    Across(64, 32, 2048, base, bw, x, y, c, Place32(y % 32, x % 64, depth),
           Row32(c % 2048, depth), Col32(c % 2048, depth));
  }

  lemma Bijection16(base: nat, bw: nat, x: nat, y: nat, c: nat, sform: bool, depth: bool)
    requires 0 < bw && x < 64 * bw && base <= c / 4096
    ensures var (word, half) := Addr16p(base, bw, x, y, sform, depth); var cell := 2 * word + half;
      && base <= cell / 4096
      && (cell == c <==> && x == OuterX(c, 4096, base, bw, 64, Col16(c % 4096, sform, depth))
                         && y == OuterY(c, 4096, base, bw, 64, Row16(c % 4096, sform, depth)))
    ensures OuterX(c, 4096, base, bw, 64, Col16(c % 4096, sform, depth)) < 64 * bw
  {
    Shape16(base, bw, x, y, sform, depth);
    Pairs16(y % 64, x % 64, sform, depth, c % 4096);
    Across(64, 64, 4096, base, bw, x, y, c, Place16(y % 64, x % 64, sform, depth),
           Row16(c % 4096, sform, depth), Col16(c % 4096, sform, depth));
  }

  lemma Bijection8(base: nat, bw: nat, x: nat, y: nat, c: nat)
    requires 0 < (bw / 2) && x < 128 * (bw / 2) && base <= c / 8192
    ensures var cell := Addr8p(base, bw, x, y);
      && base <= cell / 8192
      && (cell == c <==> && x == OuterX(c, 8192, base, bw / 2, 128, Col8(c % 8192))
                         && y == OuterY(c, 8192, base, bw / 2, 64, Row8(c % 8192)))
    ensures OuterX(c, 8192, base, bw / 2, 128, Col8(c % 8192)) < 128 * (bw / 2)
  {
    Shape8(base, bw, x, y);
    Pairs8(y % 64, x % 128, c % 8192);
    Across(128, 64, 8192, base, bw / 2, x, y, c, Place8(y % 64, x % 128), Row8(c % 8192), Col8(c % 8192));
  }

  lemma Bijection4(base: nat, bw: nat, x: nat, y: nat, c: nat)
    requires 0 < (bw / 2) && x < 128 * (bw / 2) && base <= c / 16384
    ensures var cell := Addr4p(base, bw, x, y);
      && base <= cell / 16384
      && (cell == c <==> && x == OuterX(c, 16384, base, bw / 2, 128, Col4(c % 16384))
                         && y == OuterY(c, 16384, base, bw / 2, 128, Row4(c % 16384)))
    ensures OuterX(c, 16384, base, bw / 2, 128, Col4(c % 16384)) < 128 * (bw / 2)
  {
    Shape4(base, bw, x, y);
    Pairs4(y % 128, x % 128, c % 16384);
    Across(128, 128, 16384, base, bw / 2, x, y, c, Place4(y % 128, x % 128), Row4(c % 16384), Col4(c % 16384));
  }

  lemma Positive(x: nat, w: nat, s: nat)
    requires x < w * s
    ensures 0 < s
  {
  }

  /** Every address map is a bijection: a pixel inside the buffer's width has a cell, a
      cell from the buffer's first page on has one pixel, and each is the other's.  The
      height is not bounded. */
  lemma Bijection(f: Format, base: nat, bw: nat, x: nat, y: nat, c: nat)
    requires x < PageWidth(f) * Stride(f, bw) && base <= c / PageCells(f)
    ensures Stride(f, bw) > 0
    ensures base <= Cell(f, base, bw, x, y) / PageCells(f)
    ensures PixelX(f, base, bw, c) < PageWidth(f) * Stride(f, bw)
    ensures Cell(f, base, bw, x, y) == c <==> x == PixelX(f, base, bw, c) && y == PixelY(f, base, bw, c)
  {
    Positive(x, PageWidth(f), Stride(f, bw));
    match f
    case Word(depth) => Bijection32(base, bw, x, y, c, depth);
    case Half(sform, depth) => Bijection16(base, bw, x, y, c, sform, depth);
    case Byte => Bijection8(base, bw, x, y, c);
    case Nibble => Bijection4(base, bw, x, y, c);
  }

  /** Both round trips. */
  lemma RoundTrip(f: Format, base: nat, bw: nat, x: nat, y: nat, c: nat)
    requires x < PageWidth(f) * Stride(f, bw) && base <= c / PageCells(f)
    ensures Stride(f, bw) > 0
    ensures var a := Cell(f, base, bw, x, y);
      base <= a / PageCells(f) && PixelX(f, base, bw, a) == x && PixelY(f, base, bw, a) == y
    ensures Cell(f, base, bw, PixelX(f, base, bw, c), PixelY(f, base, bw, c)) == c
  {
    Bijection(f, base, bw, x, y, c);
    Bijection(f, base, bw, x, y, Cell(f, base, bw, x, y));
    Bijection(f, base, bw, PixelX(f, base, bw, c), PixelY(f, base, bw, c), c);
  }

  /** No two pixels of columns below a limit share a cell. */
  ghost predicate Distinct(f: Format, base: nat, bw: nat, limit: nat) {
    forall x1: nat, y1: nat, x2: nat, y2: nat ::
      x1 < limit && x2 < limit && Cell(f, base, bw, x1, y1) == Cell(f, base, bw, x2, y2) ==> x1 == x2 && y1 == y2
  }

  lemma Commutes(a: nat, b: nat)
    ensures a * b == b * a + 0
  {
  }

  lemma Edge(w: nat, s: nat, x: nat)
    requires 0 < w && x == w * s
    ensures x / w == s && x % w == 0
  {
    Commutes(w, s);
    Divides(w, s, 0);
  }

  lemma NextRow(base: nat, s: nat)
    ensures Page(base, s, 0, s) == Page(base, s, 1, 0)
  {
  }

  lemma Wraps32(base: nat, bw: nat, x: nat, depth: bool)
    requires x == 64 * bw
    ensures Addr32p(base, bw, x, 0, depth) == Addr32p(base, bw, 0, 32, depth)
  {
    Edge(64, bw, x);
    NextRow(base, bw);
    Shape32(base, bw, x, 0, depth);
    Shape32(base, bw, 0, 32, depth);
  }

  lemma Wraps16(base: nat, bw: nat, x: nat, sform: bool, depth: bool)
    requires x == 64 * bw
    ensures var (edge, below) := (Addr16p(base, bw, x, 0, sform, depth), Addr16p(base, bw, 0, 64, sform, depth));
      2 * edge.0 + edge.1 == 2 * below.0 + below.1
  {
    Edge(64, bw, x);
    NextRow(base, bw);
    Shape16(base, bw, x, 0, sform, depth);
    Shape16(base, bw, 0, 64, sform, depth);
  }

  lemma Wraps8(base: nat, bw: nat, x: nat)
    requires x == 128 * (bw / 2)
    ensures Addr8p(base, bw, x, 0) == Addr8p(base, bw, 0, 64)
  {
    Edge(128, bw / 2, x);
    NextRow(base, bw / 2);
    Shape8(base, bw, x, 0);
    Shape8(base, bw, 0, 64);
  }

  lemma Wraps4(base: nat, bw: nat, x: nat)
    requires x == 128 * (bw / 2)
    ensures Addr4p(base, bw, x, 0) == Addr4p(base, bw, 0, 128)
  {
    Edge(128, bw / 2, x);
    NextRow(base, bw / 2);
    Shape4(base, bw, x, 0);
    Shape4(base, bw, 0, 128);
  }

  /** The pixel just past the last page of a row lands on the next row of pages. */
  lemma Wraps(f: Format, base: nat, bw: nat, edge: nat)
    requires edge == PageWidth(f) * Stride(f, bw)
    ensures Cell(f, base, bw, edge, 0) == Cell(f, base, bw, 0, PageHeight(f))
  {
    match f
    case Word(depth) => Wraps32(base, bw, edge, depth);
    case Half(sform, depth) => Wraps16(base, bw, edge, sform, depth);
    case Byte => Wraps8(base, bw, edge);
    case Nibble => Wraps4(base, bw, edge);
  }

  /** A limit keeps pixels apart exactly when whole pages cover it. */
  lemma DistinctIff(f: Format, base: nat, bw: nat, limit: nat)
    ensures Distinct(f, base, bw, limit) <==> limit <= PageWidth(f) * Stride(f, bw)
  {
    var edge := PageWidth(f) * Stride(f, bw);
    if limit <= edge {
      forall x1: nat, y1: nat, x2: nat, y2: nat
        | x1 < limit && x2 < limit && Cell(f, base, bw, x1, y1) == Cell(f, base, bw, x2, y2)
        ensures x1 == x2 && y1 == y2
      {
        Apart(f, base, bw, x1, y1, x2, y2);
      }
    } else {
      Wraps(f, base, bw, edge);
      SharesCell(f, base, bw, limit, edge, 0, 0, PageHeight(f));
    }
  }

  lemma Apart(f: Format, base: nat, bw: nat, x1: nat, y1: nat, x2: nat, y2: nat)
    requires x1 < PageWidth(f) * Stride(f, bw) && x2 < PageWidth(f) * Stride(f, bw)
    requires Cell(f, base, bw, x1, y1) == Cell(f, base, bw, x2, y2)
    ensures x1 == x2 && y1 == y2
  {
    Divides(PageCells(f), base, 0);
    RoundTrip(f, base, bw, x1, y1, base * PageCells(f));
    RoundTrip(f, base, bw, x2, y2, base * PageCells(f));
  }

  lemma SharesCell(f: Format, base: nat, bw: nat, limit: nat, x1: nat, y1: nat, x2: nat, y2: nat)
    requires x1 < limit && x2 < limit && (x1 != x2 || y1 != y2)
    requires Cell(f, base, bw, x1, y1) == Cell(f, base, bw, x2, y2)
    ensures !Distinct(f, base, bw, limit)
  {
  }

  /** A buffer of TBW units of 64 pixels keeps its pixels apart, except that the two
      indexed formats need an even TBW, their pages being 128 across. */
  lemma WidthIff(f: Format, base: nat, bw: nat)
    ensures Distinct(f, base, bw, 64 * bw) <==> (f.Byte? || f.Nibble? ==> bw % 2 == 0)
  {
    DistinctIff(f, base, bw, 64 * bw);
  }
}
