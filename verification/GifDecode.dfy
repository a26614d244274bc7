/** What the GIF parser makes of a packet, on numbers and bit places: the tag's fields, each
    PACKED register's fields, the halves of REGLIST and the doublewords of IMAGE. */
module GifDecode {
  import opened Bits
  import opened Gif

  /** The number in so many bits of a quadword. */
  function Field(q: Quad, at: nat, width: nat): nat
    requires at + width <= 128
  {
    Number(q[at..at + width])
  }

  // ---- the tag ---------------------------------------------------------------------------------

  /** A tag's fields: FLG from 0 to 3, and the registers named, up to sixteen. */
  datatype Header = Header(nloop: nat, eop: bool, pre: bool, prim: nat, flg: nat, regs: seq<nat>)

  predicate Tagged(q: Quad, h: Header) {
    && Field(q, 0, 15) == h.nloop && q[15] == h.eop
    && q[46] == h.pre && Field(q, 47, 11) == h.prim && Field(q, 58, 2) == h.flg
    && 1 <= |h.regs| <= 16 && Field(q, 60, 4) == |h.regs| % 16
    && forall i :: 0 <= i < |h.regs| ==> Field(q, 64 + 4 * i, 4) == h.regs[i]
  }

  lemma TwoBits(s: seq<bool>)
    requires |s| == 2
    ensures Number(s) == (if s[0] then 1 else 0) + if s[1] then 2 else 0
  {
    var t := s[1..];
    assert Number(t) == (if t[0] then 1 else 0) + 2 * Number(t[1..]);
  }

  lemma TagFields(q: Quad, h: Header)
    requires Tagged(q, h)
    ensures var t := TagOf(q);
      && t.nloop == h.nloop && t.eop == h.eop && t.pre == h.pre && t.prim == h.prim && t.descriptors == h.regs
      && h.flg < 4
      && t.mode == (match h.flg case 0 => PackedMode case 1 => RegListMode case 2 => ImageMode case _ => DisableMode)
  {
    TwoBits(q[58..60]);
    assert q[58..60] == [q[58], q[59]] && q[0..15] == q[..15];
    NumberFits(q[60..64]);
    Powers();
    assert |h.regs| == NReg(q[60..64]);
    forall i | 0 <= i < |h.regs| ensures h.regs[i] == Descriptor(q, i) {
      assert Field(q, 64 + 4 * i, 4) == h.regs[i];
      assert 64 + 4 * i + 4 == 68 + 4 * i;
    }
  }

  /** PRE writes PRIM before the data, except ahead of an image. */
  function Opening(h: Header): seq<Event> { if h.pre && h.flg != 2 then [Write(0x00, h.prim)] else [] }

  // ---- PACKED ----------------------------------------------------------------------------------

  /** A PACKED quadword's content. */
  datatype Item =
    | Prim(v: nat)
    | Rgbaq(r: nat, g: nat, b: nat, a: nat)
    | Uv(u: nat, v: nat)
    | Xyzf(x: nat, y: nat, z: nat, f: nat)
    | Xyz(x: nat, y: nat, z: nat)
    | Direct(v: nat)
    | AddressData(addr: nat, v: nat)
    | Nop
    | Reserved

  /** Where its fields lie, for the register it goes to.  The other bits may be anything. */
  predicate Encodes(item: Item, reg: nat, q: Quad) {
    match item
    case Prim(v) => reg == 0 && Field(q, 0, 11) == v
    case Rgbaq(r, g, b, a) =>
      reg == 1 && Field(q, 0, 8) == r && Field(q, 32, 8) == g && Field(q, 64, 8) == b && Field(q, 96, 8) == a
    case Uv(u, v) => reg == 3 && Field(q, 0, 14) == u && Field(q, 32, 14) == v
    case Xyzf(x, y, z, f) =>
      reg in {4, 12} && Field(q, 0, 16) == x && Field(q, 32, 16) == y && Field(q, 68, 24) == z && Field(q, 100, 8) == f
    case Xyz(x, y, z) => reg in {5, 13} && Field(q, 0, 16) == x && Field(q, 32, 16) == y && Field(q, 64, 32) == z
    case Direct(v) => reg in {2, 6, 7, 8, 9, 10} && Field(q, 0, 64) == v
    case AddressData(addr, v) => reg == 14 && Field(q, 64, 8) == addr && Field(q, 0, 64) == v
    case Nop => reg == 15
    case Reserved => reg == 11
  }

  /** What it does: the register's own layout, as a number. */
  function Meaning(item: Item, reg: nat): seq<Event> {
    match item
    case Prim(v) => [Write(0, v)]
    case Rgbaq(r, g, b, a) => [Write(1, r + 0x100 * g + 0x1_0000 * b + 0x100_0000 * a)]
    case Uv(u, v) => [Write(3, u + 0x1_0000 * v)]
    case Xyzf(x, y, z, f) => [Write(reg, x + 0x1_0000 * y + 0x1_0000_0000 * z + 0x100_0000_0000_0000 * f)]
    case Xyz(x, y, z) => [Write(reg, x + 0x1_0000 * y + 0x1_0000_0000 * z)]
    case Direct(v) => [Write(reg, v)]
    case AddressData(addr, v) => [Write(addr, v)]
    case Nop => []
    case Reserved => [Unknown]
  }

  /** Every quadword has its content, for each of the sixteen registers a tag can name. */
  lemma ItemExists(reg: nat, q: Quad) returns (item: Item)
    requires reg < 16
    ensures Encodes(item, reg, q)
  {
    item :=
      if reg == 0 then Prim(Field(q, 0, 11))
      else if reg == 1 then Rgbaq(Field(q, 0, 8), Field(q, 32, 8), Field(q, 64, 8), Field(q, 96, 8))
      else if reg == 3 then Uv(Field(q, 0, 14), Field(q, 32, 14))
      else if reg in {4, 12} then Xyzf(Field(q, 0, 16), Field(q, 32, 16), Field(q, 68, 24), Field(q, 100, 8))
      else if reg in {5, 13} then Xyz(Field(q, 0, 16), Field(q, 32, 16), Field(q, 64, 32))
      else if reg == 14 then AddressData(Field(q, 64, 8), Field(q, 0, 64))
      else if reg == 15 then Nop
      else if reg == 11 then Reserved
      else Direct(Field(q, 0, 64));
  }

  lemma {:induction false} Joined(a: seq<bool>, b: seq<bool>)
    ensures Number(a + b) == Number(a) + Two(|a|) * Number(b)
  {
    if a == [] {
      assert a + b == b;
    } else {
      Joined(a[1..], b);
      assert (a + b)[1..] == a[1..] + b;
      assert 2 * (Two(|a| - 1) * Number(b)) == Two(|a|) * Number(b);
    }
  }

  lemma ThreeJoined(a: seq<bool>, b: seq<bool>, c: seq<bool>)
    ensures Number(a + b + c) == Number(a) + Two(|a|) * Number(b) + Two(|a| + |b|) * Number(c)
  {
    Joined(a + b, c);
    Joined(a, b);
  }

  lemma FourJoined(a: seq<bool>, b: seq<bool>, c: seq<bool>, d: seq<bool>)
    ensures Number(a + b + c + d) == Number(a) + Two(|a|) * Number(b) + Two(|a| + |b|) * Number(c)
                                     + Two(|a| + |b| + |c|) * Number(d)
  {
    Joined(a + b + c, d);
    ThreeJoined(a, b, c);
  }

  lemma Pair(u: seq<bool>, v: seq<bool>)
    requires |u| == 14
    ensures Number(u + [false, false] + v) == Number(u) + 0x1_0000 * Number(v)
  {
    Places();
    ThreeJoined(u, [false, false], v);
    TwoBits([false, false]);
  }

  /** One PACKED quadword does what its content means. */
  lemma PackedMeans(item: Item, reg: nat, q: Quad)
    requires Encodes(item, reg, q)
    ensures PackedItem(reg, q) == Meaning(item, reg)
  {
    Places();
    hide Two, Number;
    assert q[0..8] == q[..8] && q[0..11] == q[..11] && q[0..14] == q[..14];
    assert q[0..16] == q[..16] && q[0..64] == q[..64];
    match item
    case Rgbaq(_, _, _, _) => FourJoined(q[..8], q[32..40], q[64..72], q[96..104]);
    case Uv(_, _) => Pair(q[..14], q[32..46]);
    case Xyzf(_, _, _, _) => FourJoined(q[..16], q[32..48], q[68..92], q[100..108]);
    case Xyz(_, _, _) => ThreeJoined(q[..16], q[32..48], q[64..96]);
    case _ =>
  }

  /** The registers take the items in turn, over and over. */
  function Meanings(items: seq<Item>, regs: seq<nat>): seq<Event>
    requires regs != []
  {
    if items == [] then []
    else
      var k := |items| - 1;
      Meanings(items[..k], regs) + Meaning(items[k], regs[k % |regs|])
  }

  predicate AllEncode(items: seq<Item>, regs: seq<nat>, data: seq<Quad>)
    requires regs != []
  {
    |items| <= |data| && forall k :: 0 <= k < |items| ==> Encodes(items[k], regs[k % |regs|], data[k])
  }

  lemma {:induction false} ItemsMean(log: seq<Event>, items: seq<Item>, regs: seq<nat>, nloop: nat, data: seq<Quad>)
    requires regs != [] && AllEncode(items, regs, data) && |items| <= Product(nloop, |regs|)
    ensures |items| <= |Repeat(regs, nloop)|
    ensures LogItems(Gs().packed, log, Repeat(regs, nloop), data, |items|) == log + Meanings(items, regs)
  {
    hide Encodes, Meaning, PackedItem;
    RepeatLength(regs, nloop);
    if items != [] {
      var k := |items| - 1;
      var front := items[..k];
      assert AllEncode(front, regs, data) by {
        forall i | 0 <= i < |front| ensures Encodes(front[i], regs[i % |regs|], data[i]) {
          assert Encodes(items[i], regs[i % |regs|], data[i]);
        }
      }
      ItemsMean(log, front, regs, nloop, data);
      RepeatAt(regs, nloop, k);
      PackedMeans(items[k], regs[k % |regs|], data[k]);
    }
  }

  // ---- where a packet goes on ------------------------------------------------------------------

  /** A tag that does these things and takes so many quadwords: the packet ends behind it
      when EOP is set, and goes on there when it is clear. */
  ghost predicate Does(log: seq<Event>, qs: seq<Quad>, at: nat, eop: bool, events: seq<Event>, taken: nat)
    requires at < |qs|
  {
    var (m, next) := (Gs(), at + 1 + taken);
    && next <= |qs|
    && (eop ==> AfterPacket(m, log, qs, at) == log + events && PacketEnd(m, qs, at) == next)
    && (!eop ==> AfterPacket(m, log, qs, at) == AfterPacket(m, log + events, qs, next)
                 && PacketEnd(m, qs, at) == PacketEnd(m, qs, next))
  }

  lemma TagDoes(log: seq<Event>, qs: seq<Quad>, at: nat, events: seq<Event>, taken: nat)
    requires at < |qs| && AfterTag(Gs(), log, qs, at) == log + events && TagEnd(Gs(), qs, at) == at + 1 + taken
    ensures Does(log, qs, at, TagOf(qs[at]).eop, events, taken)
  {
    hide AfterTag, TagEnd, TagOf;
  }

  /** PACKED: an item for each register of each round, or as many as the list still holds. */
  lemma PackedDecodes(log: seq<Event>, qs: seq<Quad>, at: nat, h: Header, items: seq<Item>)
    requires at < |qs| && Tagged(qs[at], h) && h.flg == 0
    requires |items| == Least(h.nloop * |h.regs|, |qs| - (at + 1)) && AllEncode(items, h.regs, qs[at + 1..])
    ensures Does(log, qs, at, h.eop, Opening(h) + Meanings(items, h.regs), |items|)
  {
    hide Tagged, Encodes, Meaning, TagOf, PackedItem;
    TagFields(qs[at], h);
    Consumes(TagOf(qs[at]));
    RepeatLength(h.regs, h.nloop);
    ProductIsProduct(h.nloop, |h.regs|);
    ItemsMean(log + Opening(h), items, h.regs, h.nloop, qs[at + 1..]);
    Opens(log, h, TagOf(qs[at]));
    assert (log + Opening(h)) + Meanings(items, h.regs) == log + (Opening(h) + Meanings(items, h.regs));
    hide AllEncode, Meanings, Opening, Opened, LogItems;
    TagDoes(log, qs, at, Opening(h) + Meanings(items, h.regs), |items|);
  }

  lemma Opens(log: seq<Event>, h: Header, t: Tag)
    requires t.pre == h.pre && t.prim == h.prim && (t.mode.ImageMode? <==> h.flg == 2)
    ensures Opened(log, t) == log + Opening(h)
  {
  }

  // ---- REGLIST ---------------------------------------------------------------------------------

  /** A doubleword for a register: nothing for the two without a name, and A+D means nothing
      here. */
  function ListedMeaning(v: nat, reg: nat): seq<Event> {
    if reg in {11, 15} then [] else if reg == 14 then [Unknown] else [Write(reg, v)]
  }

  function ListedMeanings(vs: seq<nat>, regs: seq<nat>): seq<Event>
    requires regs != []
  {
    if vs == [] then []
    else
      var k := |vs| - 1;
      ListedMeanings(vs[..k], regs) + ListedMeaning(vs[k], regs[k % |regs|])
  }

  /** Doublewords, two to a quadword, the low one first. */
  function Doubleword(data: seq<Quad>, k: nat): nat
    requires k < 2 * |data|
  {
    if k % 2 == 0 then Field(data[k / 2], 0, 64) else Field(data[k / 2], 64, 64)
  }

  predicate Doublewords(vs: seq<nat>, data: seq<Quad>) {
    |vs| <= 2 * |data| && forall k :: 0 <= k < |vs| ==> Doubleword(data, k) == vs[k]
  }

  lemma DoublewordsFront(vs: seq<nat>, data: seq<Quad>, n: nat)
    requires Doublewords(vs, data) && n <= |vs|
    ensures Doublewords(vs[..n], data)
  {
    hide Doubleword;
    forall k | 0 <= k < n ensures Doubleword(data, k) == vs[..n][k] {
      assert Doubleword(data, k) == vs[k];
    }
  }

  lemma HalfIs(data: seq<Quad>, k: nat)
    requires k < 2 * |data|
    ensures Number(Halves(data)[k]) == Doubleword(data, k)
  {
    hide Number, Halves, Field;
    HalvesAre(data, k / 2);
  }

  lemma HalvesAre(data: seq<Quad>, i: nat)
    requires i < |data|
    ensures Number(Halves(data)[2 * i]) == Field(data[i], 0, 64)
    ensures Number(Halves(data)[2 * i + 1]) == Field(data[i], 64, 64)
  {
    hide Number, Halves;
    HalvesAt(data, i);
    assert data[i][0..64] == data[i][..64];
  }

  lemma {:induction false} ListMeans(log: seq<Event>, vs: seq<nat>, regs: seq<nat>, nloop: nat, data: seq<Quad>)
    requires regs != [] && Doublewords(vs, data) && |vs| <= Product(nloop, |regs|)
    ensures |vs| <= |Repeat(regs, nloop)|
    ensures LogItems(Gs().listed, log, Repeat(regs, nloop), Halves(data), |vs|) == log + ListedMeanings(vs, regs)
  {
    hide Number, Doubleword;
    RepeatLength(regs, nloop);
    if vs != [] {
      var k := |vs| - 1;
      DoublewordsFront(vs, data, k);
      ListMeans(log, vs[..k], regs, nloop, data);
      RepeatAt(regs, nloop, k);
      HalfIs(data, k);
      assert Doubleword(data, k) == vs[k];
    }
  }

  lemma Halved(total: nat, room: nat)
    ensures (Least(total, 2 * room) + 1) / 2 == Least((total + 1) / 2, room)
  {
  }

  lemma RegListTag(log: seq<Event>, qs: seq<Quad>, at: nat, h: Header, n: nat)
    requires at < |qs| && Tagged(qs[at], h) && h.flg == 1
    requires n == Least(h.nloop * |h.regs|, 2 * (|qs| - (at + 1)))
    ensures n <= |Repeat(h.regs, h.nloop)| && n == Least(Product(h.nloop, |h.regs|), 2 * (|qs| - (at + 1)))
    ensures AfterTag(Gs(), log, qs, at)
         == LogItems(Gs().listed, log + Opening(h), Repeat(h.regs, h.nloop), Halves(qs[at + 1..]), n)
    ensures TagEnd(Gs(), qs, at) == at + 1 + (n + 1) / 2
  {
    hide Tagged, TagOf, LogItems, Halves, Repeat;
    TagFields(qs[at], h);
    RepeatLength(h.regs, h.nloop);
    ProductIsProduct(h.nloop, |h.regs|);
    Opens(log, h, TagOf(qs[at]));
    Halved(h.nloop * |h.regs|, |qs| - (at + 1));
    hide Opening, Opened, Product;
  }

  lemma RegListDecodes(log: seq<Event>, qs: seq<Quad>, at: nat, h: Header, vs: seq<nat>)
    requires at < |qs| && Tagged(qs[at], h) && h.flg == 1
    requires |vs| == Least(h.nloop * |h.regs|, 2 * (|qs| - (at + 1))) && Doublewords(vs, qs[at + 1..])
    ensures Does(log, qs, at, h.eop, Opening(h) + ListedMeanings(vs, h.regs), (|vs| + 1) / 2)
  {
    RegListTag(log, qs, at, h, |vs|);
    TagFields(qs[at], h);
    hide *;
    RegListJoins(log, qs, at, h, vs);
  }

  lemma RegListJoins(log: seq<Event>, qs: seq<Quad>, at: nat, h: Header, vs: seq<nat>)
    requires at < |qs| && h.regs != [] && TagOf(qs[at]).eop == h.eop
    requires Doublewords(vs, qs[at + 1..]) && |vs| <= Product(h.nloop, |h.regs|)
    requires |vs| <= |Repeat(h.regs, h.nloop)| && |vs| <= |Halves(qs[at + 1..])|
    requires AfterTag(Gs(), log, qs, at)
          == LogItems(Gs().listed, log + Opening(h), Repeat(h.regs, h.nloop), Halves(qs[at + 1..]), |vs|)
    requires TagEnd(Gs(), qs, at) == at + 1 + (|vs| + 1) / 2
    ensures Does(log, qs, at, h.eop, Opening(h) + ListedMeanings(vs, h.regs), (|vs| + 1) / 2)
  {
    hide *;
    ListMeans(log + Opening(h), vs, h.regs, h.nloop, qs[at + 1..]);
    assert (log + Opening(h)) + ListedMeanings(vs, h.regs) == log + (Opening(h) + ListedMeanings(vs, h.regs));
    TagDoes(log, qs, at, Opening(h) + ListedMeanings(vs, h.regs), (|vs| + 1) / 2);
  }

  // ---- IMAGE and disabled ----------------------------------------------------------------------

  /** Image data goes to HWREG as it is. */
  function ImageMeanings(vs: seq<nat>): seq<Event> { seq(|vs|, k requires 0 <= k < |vs| => HwReg(vs[k])) }

  lemma {:induction false} ImageMeans(log: seq<Event>, vs: seq<nat>, data: seq<Quad>, n: nat)
    requires n <= |data| && |vs| == 2 * n && Doublewords(vs, data)
    ensures ImageItems(log, data, n) == log + ImageMeanings(vs)
  {
    hide Number;
    if n > 0 {
      var k := n - 1;
      var front := vs[..2 * k];
      DoublewordsFront(vs, data, 2 * k);
      ImageMeans(log, front, data, k);
      assert Doubleword(data, 2 * k) == vs[2 * k] && Doubleword(data, 2 * k + 1) == vs[2 * k + 1];
      assert data[k][0..64] == data[k][..64];
      assert ImageMeanings(vs) == ImageMeanings(front) + [HwReg(vs[2 * k])] + [HwReg(vs[2 * k + 1])];
    }
  }

  lemma ImageDecodes(log: seq<Event>, qs: seq<Quad>, at: nat, h: Header, vs: seq<nat>)
    requires at < |qs| && Tagged(qs[at], h) && h.flg == 2
    requires |vs| == 2 * Least(h.nloop, |qs| - (at + 1)) && Doublewords(vs, qs[at + 1..])
    ensures Does(log, qs, at, h.eop, ImageMeanings(vs), |vs| / 2)
  {
    hide Tagged, TagOf;
    TagFields(qs[at], h);
    ImageMeans(log, vs, qs[at + 1..], |vs| / 2);
    Opens(log, h, TagOf(qs[at]));
    hide Doublewords, ImageMeanings, ImageItems;
    TagDoes(log, qs, at, ImageMeanings(vs), |vs| / 2);
  }

  /** FLG 3 transfers nothing. */
  lemma DisabledDecodes(log: seq<Event>, qs: seq<Quad>, at: nat, h: Header)
    requires at < |qs| && Tagged(qs[at], h) && h.flg == 3
    ensures Does(log, qs, at, h.eop, Opening(h), 0)
  {
    hide Tagged, TagOf;
    TagFields(qs[at], h);
    Opens(log, h, TagOf(qs[at]));
    TagDoes(log, qs, at, Opening(h), 0);
  }
}
