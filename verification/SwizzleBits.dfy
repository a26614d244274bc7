/** The swizzled addresses on numbers: which coordinate's bit is which bit of the address. */
module SwizzleBits {
  import opened Arith
  import opened Bits
  import opened Swizzle

  /** A number's bit of some place value, set or clear ... */
  predicate Has(v: nat, place: nat)
    requires place > 0
  {
    v / place % 2 == 1
  }

  /** ... and as a number. */
  function At(v: nat, place: nat): nat
    requires place > 0
  {
    Bit(Has(v, place))
  }

  /** The sum of two bits without its carry. */
  function Odd(a: nat, b: nat): nat { (a + b) % 2 }

  lemma OddIs(a: bool, b: bool)
    ensures Odd(Bit(a), Bit(b)) == Bit(Xor(a, b))
    ensures Odd(Bit(a), 0) == Bit(a)
  {
  }

  // ---- lists of bits and their numbers -----------------------------------------------------------

  /** The number of some bits, from the lowest. */
  function Of5(a: nat, b: nat, c: nat, d: nat, e: nat): nat { a + 2 * b + 4 * c + 8 * d + 16 * e }

  function Of6(a: nat, b: nat, c: nat, d: nat, e: nat, f: nat): nat { a + 2 * b + 4 * c + 8 * d + 16 * e + 32 * f }

  function Of8(a: nat, b: nat, c: nat, d: nat, e: nat, f: nat, g: nat, h: nat): nat {
    a + 2 * b + 4 * c + 8 * d + 16 * e + 32 * f + 64 * g + 128 * h
  }

  function Of9(a: nat, b: nat, c: nat, d: nat, e: nat, f: nat, g: nat, h: nat, i: nat): nat {
    a + 2 * b + 4 * c + 8 * d + 16 * e + 32 * f + 64 * g + 128 * h + 256 * i
  }

  lemma Front(a: bool, b: bool, c: bool, rest: seq<bool>)
    ensures Number([a, b, c] + rest) == Bit(a) + 2 * Bit(b) + 4 * Bit(c) + 8 * Number(rest)
  {
    var s := [a, b, c] + rest;
    ThreeOff(s);
    assert s[3..] == rest;
  }

  lemma TwoBits(a: bool, b: bool)
    ensures Number([a, b]) == Bit(a) + 2 * Bit(b)
  {
    assert [a, b][1..] == [b] && [b][1..] == [];
    assert Number([b]) == Bit(b);
  }

  lemma Bits5(a: bool, b: bool, c: bool, d: bool, e: bool)
    ensures Number([a, b, c, d, e]) == Of5(Bit(a), Bit(b), Bit(c), Bit(d), Bit(e))
  {
    Front(a, b, c, [d, e]);
    TwoBits(d, e);
    hide Number, Bit;
    assert [a, b, c, d, e] == [a, b, c] + [d, e];
  }

  lemma Bits6(a: bool, b: bool, c: bool, d: bool, e: bool, f: bool)
    ensures Number([a, b, c, d, e, f]) == Of6(Bit(a), Bit(b), Bit(c), Bit(d), Bit(e), Bit(f))
  {
    Front(d, e, f, []);
    assert Number([]) == 0;
    Front(a, b, c, [d, e, f]);
    hide Number, Bit;
    assert [d, e, f] == [d, e, f] + [];
    assert [a, b, c, d, e, f] == [a, b, c] + [d, e, f];
  }

  lemma Bits8(a: bool, b: bool, c: bool, d: bool, e: bool, f: bool, g: bool, h: bool)
    ensures Number([a, b, c, d, e, f, g, h])
         == Of8(Bit(a), Bit(b), Bit(c), Bit(d), Bit(e), Bit(f), Bit(g), Bit(h))
  {
    hide Number, Bit;
    Front(a, b, c, [d, e, f, g, h]);
    assert [a, b, c, d, e, f, g, h] == [a, b, c] + [d, e, f, g, h];
    Bits5(d, e, f, g, h);
  }

  lemma Bits9(a: bool, b: bool, c: bool, d: bool, e: bool, f: bool, g: bool, h: bool, i: bool)
    ensures Number([a, b, c, d, e, f, g, h, i])
         == Of9(Bit(a), Bit(b), Bit(c), Bit(d), Bit(e), Bit(f), Bit(g), Bit(h), Bit(i))
  {
    hide Number, Bit;
    Front(a, b, c, [d, e, f, g, h, i]);
    assert [a, b, c, d, e, f, g, h, i] == [a, b, c] + [d, e, f, g, h, i];
    Bits6(d, e, f, g, h, i);
  }

  lemma Twice(v: nat, a: nat, m: nat)
    requires a > 0 && m > 0
    ensures a * m > 0 && v / a / m == v / (a * m)
  {
    var (q, r) := (v / a / m, v / a % m);
    Whole(v, a);
    Whole(v / a, m);
    assert v == q * (a * m) + (r * a + v % a) by {
      assert (q * m + r) * a == q * (a * m) + r * a;
    }
    Times(r, m - 1, a);
    assert (m - 1) * a == a * m - a;
    Unique(v, q, r * a + v % a, a * m);
  }

  lemma {:induction false} DigitAt(v: nat, n: nat, i: nat)
    requires i < n
    ensures Digits(v % Two(n), n)[i] == Has(v, Two(i))
  {
    HalfRemainder(v, Two(n - 1));
    if i > 0 {
      DigitAt(v / 2, n - 1, i - 1);
      Twice(v, 2, Two(i - 1));
    }
  }

  /** A coordinate's field is so many of its bits. */
  lemma FieldAt(v: nat, a: nat, n: nat, i: nat)
    requires a > 0 && i < n
    ensures a * Two(i) > 0 && Digits(v / a % Two(n), n)[i] == Has(v, a * Two(i))
  {
    DigitAt(v / a, n, i);
    Twice(v, a, Two(i));
  }

  lemma Two2(v: nat, a: nat)
    requires a > 0
    ensures Digits(v / a % 4, 2) == [Has(v, a), Has(v, 2 * a)]
  {
    Powers();
    hide Has, Digits;
    FieldAt(v, a, 2, 0);
    FieldAt(v, a, 2, 1);
    assert a * Two(0) == a && a * Two(1) == 2 * a;
  }

  lemma Three(v: nat, a: nat)
    requires a > 0
    ensures Digits(v / a % 8, 3) == [Has(v, a), Has(v, 2 * a), Has(v, 4 * a)]
  {
    Powers();
    hide Has, Digits;
    FieldAt(v, a, 3, 0);
    FieldAt(v, a, 3, 1);
    FieldAt(v, a, 3, 2);
    assert a * Two(0) == a && a * Two(1) == 2 * a && a * Two(2) == 4 * a;
  }

  lemma Four(v: nat)
    ensures Digits(v % 16, 4) == Low4(v)
  {
    Powers();
    DigitAt(v, 4, 0);
    DigitAt(v, 4, 1);
    DigitAt(v, 4, 2);
    DigitAt(v, 4, 3);
  }

  lemma Five(v: nat)
    ensures Digits(v % 32, 5) == Low5(v)
  {
    Powers();
    DigitAt(v, 5, 0);
    DigitAt(v, 5, 1);
    DigitAt(v, 5, 2);
    DigitAt(v, 5, 3);
    DigitAt(v, 5, 4);
  }

  lemma ThreeLow(v: nat)
    ensures Digits(v % 8, 3) == Low3(v)
  {
    Three(v, 1);
    assert v / 1 == v;
  }

  // ---- the maps on numbers -------------------------------------------------------------------

  /** A block's index in a 32-bit page, row field from place a and column field from place b. */
  lemma BlockOf32(v: nat, a: nat, u: nat, b: nat, depth: bool)
    requires a > 0 && b > 0
    ensures var flip := Bit(depth);
      Block32Index(v / a % 4, u / b % 8, depth)
      == Of5(At(u, b), At(v, a), At(u, 2 * b), Odd(At(v, 2 * a), flip), Odd(At(u, 4 * b), flip))
  {
    Two2(v, a);
    Three(u, b);
    OddIs(Has(v, 2 * a), depth);
    OddIs(Has(u, 4 * b), depth);
    hide Digits, Number, Has, Odd, Bit, Of5;
    Bits5(Has(u, b), Has(v, a), Has(u, 2 * b), Xor(Has(v, 2 * a), depth), Xor(Has(u, 4 * b), depth));
  }

  lemma BlockOf16(y: nat, x: nat, depth: bool)
    ensures var flip := Bit(depth);
      Block16Index(y / 8 % 8, x / 16 % 4, false, depth)
      == Of5(At(y, 8), At(x, 16), At(y, 16), Odd(At(x, 32), flip), Odd(At(y, 32), flip))
  {
    Three(y, 8);
    Two2(x, 16);
    OddIs(Has(x, 32), depth);
    OddIs(Has(y, 32), depth);
    hide Digits, Number, Has, Odd, Bit, Of5;
    Bits5(Has(y, 8), Has(x, 16), Has(y, 16), Xor(Has(x, 32), depth), Xor(Has(y, 32), depth));
  }

  lemma BlockOf16S(y: nat, x: nat, depth: bool)
    ensures var flip := Bit(depth);
      Block16Index(y / 8 % 8, x / 16 % 4, true, depth)
      == Of5(At(y, 8), At(x, 16), At(y, 32), Odd(At(y, 16), flip), Odd(At(x, 32), flip))
  {
    Three(y, 8);
    Two2(x, 16);
    OddIs(Has(y, 16), depth);
    OddIs(Has(x, 32), depth);
    hide Digits, Number, Has, Odd, Bit, Of5;
    Bits5(Has(y, 8), Has(x, 16), Has(y, 32), Xor(Has(y, 16), depth), Xor(Has(x, 32), depth));
  }

  function Low3(v: nat): (s: seq<bool>)
    ensures |s| == 3
  {
    [Has(v, 1), Has(v, 2), Has(v, 4)]
  }

  function Low4(v: nat): (s: seq<bool>)
    ensures |s| == 4
  {
    [Has(v, 1), Has(v, 2), Has(v, 4), Has(v, 8)]
  }

  function Low5(v: nat): (s: seq<bool>)
    ensures |s| == 5
  {
    [Has(v, 1), Has(v, 2), Has(v, 4), Has(v, 8), Has(v, 16)]
  }

  /** Where a pixel lies in a block: the 32-bit and 16-bit formats' one layout, and the two
      indexed formats'. */
  function InColumn(x: nat, y: nat): nat { Of6(At(x, 1), At(y, 1), At(x, 2), At(x, 4), At(y, 2), At(y, 4)) }

  function InBytes(x: nat, y: nat): nat {
    Of8(At(y, 2), At(x, 8), At(x, 1), At(y, 1), At(x, 2), Odd(Odd(At(y, 2), At(y, 4)), At(x, 4)), At(y, 4), At(y, 8))
  }

  function InNibbles(x: nat, y: nat): nat {
    Of9(At(y, 2), At(x, 8), At(x, 16), At(x, 1), At(y, 1), At(x, 2), Odd(Odd(At(y, 2), At(y, 4)), At(x, 4)),
        At(y, 4), At(y, 8))
  }

  lemma InColumnIs(x: nat, y: nat)
    ensures Column32Index(y % 8, x % 8) == InColumn(x, y)
  {
    ThreeLow(x);
    ThreeLow(y);
    hide Digits, Number, Has, Bit, Of6;
    Bits6(Has(x, 1), Has(y, 1), Has(x, 2), Has(x, 4), Has(y, 2), Has(y, 4));
  }

  lemma Tangle(y: nat, x: nat)
    ensures Odd(Odd(At(y, 2), At(y, 4)), At(x, 4)) == Bit(Xor(Xor(Has(y, 2), Has(y, 4)), Has(x, 4)))
  {
    OddIs(Has(y, 2), Has(y, 4));
    OddIs(Xor(Has(y, 2), Has(y, 4)), Has(x, 4));
  }

  lemma InBytesIs(x: nat, y: nat)
    ensures Column8Index(y % 16, x % 16) == InBytes(x, y)
  {
    Four(x);
    Four(y);
    Tangle(y, x);
    hide Digits, Number, Has, Bit, Odd, Of8;
    var crossed := Xor(Xor(Has(y, 2), Has(y, 4)), Has(x, 4));
    Bits8(Has(y, 2), Has(x, 8), Has(x, 1), Has(y, 1), Has(x, 2), crossed, Has(y, 4), Has(y, 8));
  }

  lemma InNibblesIs(x: nat, y: nat)
    ensures Column4Index(y % 16, x % 32) == InNibbles(x, y)
  {
    Five(x);
    Four(y);
    Tangle(y, x);
    hide Digits, Number, Has, Bit, Odd, Of9;
    var crossed := Xor(Xor(Has(y, 2), Has(y, 4)), Has(x, 4));
    Bits9(Has(y, 2), Has(x, 8), Has(x, 16), Has(x, 1), Has(y, 1), Has(x, 2), crossed, Has(y, 4), Has(y, 8));
  }

  // ---- the addresses on numbers --------------------------------------------------------------

  lemma Eighth(x: nat)
    ensures At(x, 8) == x / 8 % 2
  {
  }

  /** 32-bit formats: pages of 64 by 32 pixels and 2048 words.  A depth buffer's blocks are a
      colour buffer's with the index's two top bits the other way round. */
  lemma WordAddress(base: nat, bw: nat, x: nat, y: nat, depth: bool)
    ensures var flip := Bit(depth);
      Addr32p(base, bw, x, y, depth) == 2048 * (base + (y / 32) * bw + x / 64) + InColumn(x, y)
        + 64 * Of5(At(x, 8), At(y, 8), At(x, 16), Odd(At(y, 16), flip), Odd(At(x, 32), flip))
  {
    BlockOf32(y, 8, x, 8, depth);
    InColumnIs(x, y);
    hide At, Odd, Bit, Of5, InColumn, Block32Index, Column32Index;
  }

  /** 16-bit formats: pages of 64 by 64, the two pixels eight apart sharing a word. */
  lemma HalfAddress(base: nat, bw: nat, x: nat, y: nat, depth: bool)
    ensures var (flip, page) := (Bit(depth), base + (y / 64) * bw + x / 64);
      Addr16p(base, bw, x, y, false, depth) == (2048 * page + InColumn(x, y)
        + 64 * Of5(At(y, 8), At(x, 16), At(y, 16), Odd(At(x, 32), flip), Odd(At(y, 32), flip)), At(x, 8))
  {
    BlockOf16(y, x, depth);
    InColumnIs(x, y);
    Eighth(x);
    hide At, Odd, Bit, Has, Of5, InColumn, Block16Index, Column32Index;
  }

  lemma HalfAddressS(base: nat, bw: nat, x: nat, y: nat, depth: bool)
    ensures var (flip, page) := (Bit(depth), base + (y / 64) * bw + x / 64);
      Addr16p(base, bw, x, y, true, depth) == (2048 * page + InColumn(x, y)
        + 64 * Of5(At(y, 8), At(x, 16), At(y, 32), Odd(At(y, 16), flip), Odd(At(x, 32), flip)), At(x, 8))
  {
    BlockOf16S(y, x, depth);
    InColumnIs(x, y);
    Eighth(x);
    hide At, Odd, Bit, Has, Of5, InColumn, Block16Index, Column32Index;
  }

  /** Eight bits an index: pages of 128 by 64 and 8192 bytes, half as many across as the width
      in 64s says. */
  lemma ByteAddress(base: nat, bw: nat, x: nat, y: nat)
    ensures Addr8p(base, bw, x, y) == 8192 * (base + (y / 64) * (bw / 2) + x / 128) + InBytes(x, y)
        + 256 * Of5(At(x, 16), At(y, 16), At(x, 32), At(y, 32), At(x, 64))
  {
    BlockOf32(y, 16, x, 16, false);
    InBytesIs(x, y);
    OddIs(Has(y, 32), false);
    OddIs(Has(x, 64), false);
    assert Bit(false) == 0;
    hide Odd, Bit, Has, Of5, InBytes, Block32Index, Column8Index;
  }

  /** Four bits an index: pages of 128 by 128. */
  lemma NibbleAddress(base: nat, bw: nat, x: nat, y: nat)
    ensures Addr4p(base, bw, x, y) == 16384 * (base + (y / 128) * (bw / 2) + x / 128) + InNibbles(x, y)
        + 512 * Of5(At(y, 16), At(x, 32), At(y, 32), At(x, 64), At(y, 64))
  {
    BlockOf32(x, 32, y, 16, false);
    InNibblesIs(x, y);
    OddIs(Has(x, 64), false);
    OddIs(Has(y, 64), false);
    assert Bit(false) == 0;
    hide Odd, Bit, Has, Of5, InNibbles, Block32Index, Column4Index;
  }
}
