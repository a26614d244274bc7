/** Numbers as little-endian lists of bytes, and shifts and masks by whole bytes. */
module Bytes {
  import opened Arith

  type Byte = b: nat | b < 256

  /** 256 to the power n. */
  function P(n: nat): (r: nat)
    ensures r > 0
  {
    if n == 0 then 1 else 256 * P(n - 1)
  }

  /** Shift left by n bytes, ... */
  function Up(v: nat, n: nat): nat { if n == 0 then v else 256 * Up(v, n - 1) }

  /** ... shift right, ... */
  function Down(v: nat, n: nat): nat { if n == 0 then v else Down(v / 256, n - 1) }

  /** ... and mask to the low n bytes. */
  function Keep(v: nat, n: nat): nat { if n == 0 then 0 else v % 256 + 256 * Keep(v / 256, n - 1) }

  function Value(s: seq<Byte>): nat {
    if s == [] then 0 else s[0] + 256 * Value(s[1..])
  }

  /** The low n bytes of a number. */
  function Low(v: nat, n: nat): (s: seq<Byte>)
    ensures |s| == n
  {
    if n == 0 then [] else [v % 256] + Low(v / 256, n - 1)
  }

  lemma {:induction false} ValueFits(s: seq<Byte>)
    ensures Value(s) < P(|s|)
  {
    if s != [] {
      ValueFits(s[1..]);
    }
  }

  lemma FirstByte(b: Byte, rest: nat)
    ensures (b + 256 * rest) % 256 == b && (b + 256 * rest) / 256 == rest
  {
  }

  lemma {:induction false} LowOfValue(s: seq<Byte>)
    ensures Low(Value(s), |s|) == s
  {
    if s != [] {
      LowOfValue(s[1..]);
      FirstByte(s[0], Value(s[1..]));
      assert s == [s[0]] + s[1..];
    }
  }

  lemma {:induction false} ValueOfLow(v: nat, n: nat)
    ensures Value(Low(v, n)) == Keep(v, n)
  {
    if n > 0 {
      ValueOfLow(v / 256, n - 1);
      assert Low(v, n)[1..] == Low(v / 256, n - 1);
    }
  }

  lemma KeepFits(v: nat, n: nat)
    ensures Keep(v, n) < P(n)
  {
    ValueOfLow(v, n);
    ValueFits(Low(v, n));
  }

  lemma {:induction false} LowPrefix(v: nat, n: nat, k: nat)
    requires k <= n
    ensures Low(v, n)[..k] == Low(v, k)
  {
    if k > 0 {
      LowPrefix(v / 256, n - 1, k - 1);
      assert Low(v, n)[..k] == [v % 256] + Low(v / 256, n - 1)[..k - 1];
    }
  }

  /** Shifting right drops low bytes. */
  lemma {:induction false} ShiftedDown(v: nat, n: nat, k: nat)
    ensures Low(v, n + k)[k..] == Low(Down(v, k), n)
  {
    if k > 0 {
      ShiftedDown(v / 256, n, k - 1);
      assert Low(v, n + k)[k..] == Low(v / 256, n + (k - 1))[k - 1..];
    }
  }

  /** A value shifted left with another filled in below puts their bytes end to end. */
  lemma {:induction false} Filled(lo: nat, hi: nat, k: nat, n: nat)
    requires k <= n && lo < P(k)
    ensures Low(lo + Up(hi, k), n) == Low(lo, k) + Low(hi, n - k)
  {
    if k > 0 {
      Filled(lo / 256, hi, k - 1, n - 1);
      Carried(lo, Up(hi, k - 1));
    }
  }

  lemma Carried(lo: nat, u: nat)
    ensures (lo + 256 * u) % 256 == lo % 256 && (lo + 256 * u) / 256 == lo / 256 + u
  {
  }

  /** Masked-off bytes do not matter to the others. */
  lemma KeptBelow(v: nat, n: nat)
    ensures Low(Keep(v, n), n) == Low(v, n)
  {
    ValueOfLow(v, n);
    LowOfValue(Low(v, n));
  }

  lemma {:induction false} DownFits(v: nat, k: nat, n: nat)
    requires k <= n && v < P(n)
    ensures Down(v, k) < P(n - k)
  {
    if k > 0 {
      DownFits(v / 256, k - 1, n - 1);
    }
  }

  lemma {:induction false} KeptUp(v: nat, k: nat, n: nat)
    ensures Keep(Up(v, k), n + k) == Up(Keep(v, n), k)
  {
    if k > 0 {
      FirstByte(0, Up(v, k - 1));
      KeptUp(v, k - 1, n);
    }
  }

  /** They are multiplication, division and remainder by a power of 256. */
  lemma {:induction false} Arithmetic(v: nat, n: nat)
    ensures Up(v, n) == v * P(n) && Down(v, n) == v / P(n) && Keep(v, n) == v % P(n)
    ensures v == Keep(v, n) + Up(Down(v, n), n)
  {
    if n > 0 {
      Arithmetic(v, n - 1);
      Arithmetic(v / 256, n - 1);
      Regroup(v, P(n - 1));
      Regroup(Down(v / 256, n - 1), P(n - 1));
      UpLinear(Down(v / 256, n - 1), n - 1);
      Unique(v, Down(v, n), Keep(v, n), P(n));
    }
  }

  lemma {:induction false} UpLinear(v: nat, n: nat)
    ensures Up(v, n) == v * P(n)
  {
    if n > 0 {
      UpLinear(v, n - 1);
      Regroup(v, P(n - 1));
    }
  }

  lemma Regroup(q: nat, t: nat)
    ensures 256 * (q * t) == q * (256 * t)
  {
  }

  lemma {:induction false} KeepSmall(v: nat, n: nat)
    requires v < P(n)
    ensures Keep(v, n) == v
  {
    if n > 0 {
      KeepSmall(v / 256, n - 1);
    }
  }

  /** Numbers with the same low bytes have the same value there. */
  lemma SameBytes(v: nat, w: nat, n: nat)
    requires Low(v, n) == Low(w, n)
    ensures Keep(v, n) == Keep(w, n)
  {
    ValueOfLow(v, n);
    ValueOfLow(w, n);
  }

  /** What is shifted in above a value comes back when it is shifted down. */
  lemma {:induction false} DownOfFilled(lo: nat, hi: nat, k: nat)
    requires lo < P(k)
    ensures Down(lo + Up(hi, k), k) == hi
  {
    if k > 0 {
      Carried(lo, Up(hi, k - 1));
      DownOfFilled(lo / 256, hi, k - 1);
    }
  }
}
