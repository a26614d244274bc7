/** Numbers as lists of bits, least significant first. */
module Bits {
  import opened Arith

  function Two(n: nat): (r: nat)
    ensures r > 0
  {
    if n == 0 then 1 else 2 * Two(n - 1)
  }

  function Number(s: seq<bool>): nat {
    if s == [] then 0 else (if s[0] then 1 else 0) + 2 * Number(s[1..])
  }

  function Digits(v: nat, n: nat): (s: seq<bool>)
    ensures |s| == n
  {
    if n == 0 then [] else [v % 2 == 1] + Digits(v / 2, n - 1)
  }

  lemma {:induction false} NumberFits(s: seq<bool>)
    ensures Number(s) < Two(|s|)
  {
    if s != [] {
      NumberFits(s[1..]);
    }
  }

  lemma {:induction false} NumberOfDigits(v: nat, n: nat)
    requires v < Two(n)
    ensures Number(Digits(v, n)) == v
  {
    if n > 0 {
      NumberOfDigits(v / 2, n - 1);
      assert Digits(v, n)[1..] == Digits(v / 2, n - 1);
    }
  }

  lemma {:induction false} NumberOfLow(v: nat, n: nat)
    ensures Number(Digits(v, n)) == v % Two(n)
  {
    if n > 0 {
      NumberOfLow(v / 2, n - 1);
      assert Digits(v, n)[1..] == Digits(v / 2, n - 1);
      HalfRemainder(v, Two(n - 1));
    }
  }

  lemma {:induction false} DigitsOfNumber(s: seq<bool>)
    ensures Digits(Number(s), |s|) == s
  {
    if s != [] {
      DigitsOfNumber(s[1..]);
      assert s == [s[0]] + s[1..];
    }
  }

  /** A list of bits and the number it stands for determine each other. */
  lemma SameNumber(s: seq<bool>, v: nat)
    requires v < Two(|s|)
    ensures Number(s) == v <==> s == Digits(v, |s|)
  {
    NumberOfDigits(v, |s|);
    DigitsOfNumber(s);
  }

  function Bit(b: bool): nat { if b then 1 else 0 }

  lemma ThreeOff(s: seq<bool>)
    requires |s| >= 3
    ensures Number(s) == Bit(s[0]) + 2 * Bit(s[1]) + 4 * Bit(s[2]) + 8 * Number(s[3..])
  {
    var (t, u) := (s[1..], s[2..]);
    assert t[1..] == u && u[1..] == s[3..] && t[0] == s[1] && u[0] == s[2];
    assert Number(s) == Bit(s[0]) + 2 * Number(t);
    assert Number(t) == Bit(s[1]) + 2 * Number(u);
    assert Number(u) == Bit(s[2]) + 2 * Number(s[3..]);
  }

  lemma Powers()
    ensures Two(2) == 4 && Two(3) == 8 && Two(4) == 16 && Two(5) == 32
    ensures Two(6) == 64 && Two(8) == 256 && Two(9) == 512
  {
  }

  lemma Places()
    ensures Two(8) == 0x100 && Two(16) == 0x1_0000 && Two(24) == 0x100_0000
    ensures Two(32) == 0x1_0000_0000 && Two(56) == 0x100_0000_0000_0000
  {
    TwoSum(16, 16);
    TwoSum(32, 24);
    Powers();
    TwoSum(8, 8);
    TwoSum(16, 8);
  }

  lemma {:induction false} TwoSum(a: nat, b: nat)
    ensures Two(a + b) == Two(a) * Two(b)
  {
    if a > 0 {
      TwoSum(a - 1, b);
      assert 2 * (Two(a - 1) * Two(b)) == Two(a) * Two(b);
    }
  }
}
