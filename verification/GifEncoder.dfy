/** The A+D packet encoder of hw/ps2probe/compare.py, against the parser. */
module GifEncoder {
  import opened Bits
  import opened Gif

  /** A register address and the value to write to it. */
  datatype Item = Item(addr: nat, data: nat)

  /** Descriptor 0xE. */
  function AdReg(): seq<bool> { [false, true, true, true] }

  function Zeros(n: nat): seq<bool> { seq(n, i => false) }

  /** `n` descriptors, the first lowest. */
  function Regs(n: nat): (rs: seq<bool>)
    ensures |rs| == 4 * n
  {
    if n == 0 then [] else Regs(n - 1) + AdReg()
  }

  /** NLOOP 1, EOP set, the four low bits of the count for NREG, and the descriptors from
      bit 64 up. */
  function TagBit(nreg: nat, regs: seq<bool>, i: nat): bool {
    i == 0 || i == 15
    || (60 <= i < 64 && Digits(nreg % 16, 4)[i - 60])
    || (64 <= i < 64 + |regs| && regs[i - 64])
  }

  function TagQuad(nreg: nat, regs: seq<bool>): Quad {
    seq(if |regs| < 64 then 128 else 64 + |regs|, (i: nat) => TagBit(nreg, regs, i))
  }

  const DATA_BITS := 64

  /** The data below, the address above.  Both are cut to 64 bits. */
  function ItemQuad(i: Item): Quad { Digits(i.data, DATA_BITS) + Digits(i.addr, DATA_BITS) }

  function ItemQuads(items: seq<Item>): (qs: seq<Quad>)
    ensures |qs| == |items|
  {
    seq(|items|, k requires 0 <= k < |items| => ItemQuad(items[k]))
  }

  function AdPacket(items: seq<Item>): (qs: seq<Quad>)
    ensures |qs| == 1 + |items|
  {
    [TagQuad(|items|, Regs(|items|))] + ItemQuads(items)
  }

  method Ad(items: seq<Item>) returns (out: seq<Quad>)
    ensures out == AdPacket(items)
  {
    var regs := [];
    for i := 0 to |items|
      invariant regs == Regs(i)
    {
      regs := regs + AdReg();
    }
    var tag := TagQuad(|items|, regs);
    out := AppendItems([tag], items);
  }

  method AppendItems(start: seq<Quad>, items: seq<Item>) returns (out: seq<Quad>)
    ensures out == start + ItemQuads(items)
  {
    out := start;
    for i := 0 to |items|
      invariant out == start + ItemQuads(items)[..i]
    {
      out := out + [ItemQuad(items[i])];
    }
  }

  // ---- what the parser makes of it -------------------------------------------------------------

  /** An item as performed: the register file's eight address bits, 64 of data. */
  function Performed(i: Item): Event { Write(i.addr % 256, i.data % Two(DATA_BITS)) }

  function AllPerformed(items: seq<Item>): seq<Event> {
    seq(|items|, k requires 0 <= k < |items| => Performed(items[k]))
  }

  lemma {:induction false} DigitsPrefix(v: nat, n: nat, k: nat)
    requires k <= n
    ensures Digits(v, n)[..k] == Digits(v, k)
  {
    if k > 0 {
      DigitsPrefix(v / 2, n - 1, k - 1);
      assert Digits(v, n)[..k] == [v % 2 == 1] + Digits(v / 2, n - 1)[..k - 1];
    }
  }

  lemma ItemPerforms(i: Item)
    ensures PackedItem(0xE, ItemQuad(i)) == [Performed(i)]
  {
    var qw := ItemQuad(i);
    assert qw[..64] == Digits(i.data, DATA_BITS);
    assert qw[64..72] == Digits(i.addr, DATA_BITS)[..8];
    DigitsPrefix(i.addr, DATA_BITS, 8);
    NumberOfLow(i.data, DATA_BITS);
    NumberOfLow(i.addr, 8);
    Powers();
  }

  lemma {:induction false} NumberOfZeros(n: nat)
    ensures Number(Zeros(n)) == 0
  {
    if n > 0 {
      NumberOfZeros(n - 1);
      assert Zeros(n)[1..] == Zeros(n - 1);
    }
  }

  /** The count a decoder reads back. */
  function Decoded(n: nat): (m: nat)
    ensures 1 <= m <= 16 && (n > 0 ==> m <= n)
  {
    if n % 16 == 0 then 16 else n % 16
  }

  lemma {:induction false} RegsAt(n: nat, i: nat)
    requires i < n
    ensures Regs(n)[4 * i..4 * i + 4] == AdReg()
  {
    if i < n - 1 {
      RegsAt(n - 1, i);
      assert Regs(n)[4 * i..4 * i + 4] == Regs(n - 1)[4 * i..4 * i + 4];
    }
  }

  /** A tag as the parser must see the encoder's: one loop of A+D for as many registers
      as were encoded, and of PRIM beyond, where the tag has nothing. */
  predicate AdTag(t: Tag, n: nat) {
    && t.nloop == 1 && t.eop && !t.pre && t.mode == PackedMode
    && |t.descriptors| == Decoded(n)
    && forall i :: 0 <= i < Decoded(n) ==> t.descriptors[i] == if i < n then 0xE else 0
  }

  lemma TagLoop(nreg: nat, regs: seq<bool>)
    ensures Number(TagQuad(nreg, regs)[..15]) == 1
  {
    var head := TagQuad(nreg, regs)[..15];
    assert head == [true] + Zeros(14);
    assert head[1..] == Zeros(14);
    NumberOfZeros(14);
  }

  lemma TagCount(nreg: nat, regs: seq<bool>)
    ensures NReg(TagQuad(nreg, regs)[60..64]) == Decoded(nreg)
  {
    assert TagQuad(nreg, regs)[60..64] == Digits(nreg % 16, 4);
    Powers();
    NumberOfDigits(nreg % 16, 4);
  }

  lemma TagNibble(nreg: nat, regs: seq<bool>, i: nat, j: nat)
    requires i < 16 && j < 4
    ensures TagQuad(nreg, regs)[64 + 4 * i..68 + 4 * i][j] == (4 * i + j < |regs| && regs[4 * i + j])
  {
    hide Digits;
  }

  lemma TagDescriptor(n: nat, i: nat)
    requires i < 16
    ensures Descriptor(TagQuad(n, Regs(n)), i) == if i < n then 0xE else 0
  {
    hide TagQuad, Regs;
    var regs := Regs(n);
    var nibble := TagQuad(n, regs)[64 + 4 * i..68 + 4 * i];
    forall j | 0 <= j < 4 ensures nibble[j] == (i < n && AdReg()[j]) {
      TagNibble(n, regs, i, j);
      if i < n {
        RegsAt(n, i);
        assert regs[4 * i + j] == regs[4 * i..4 * i + 4][j];
      }
    }
    if i < n {
      assert nibble == AdReg();
    } else {
      assert nibble == Zeros(4);
      NumberOfZeros(4);
    }
  }

  lemma TagReads(n: nat)
    ensures AdTag(TagOf(TagQuad(n, Regs(n))), n)
  {
    var q := TagQuad(n, Regs(n));
    TagLoop(n, Regs(n));
    TagCount(n, Regs(n));
    forall i | 0 <= i < Decoded(n) ensures TagOf(q).descriptors[i] == if i < n then 0xE else 0 {
      TagDescriptor(n, i);
    }
  }

  // ---- a packet, wherever it stands ------------------------------------------------------------

  /** The reading of what the encoder makes: its tags, its items, and PRIM where a tag
      names a register it has no descriptor for. */
  ghost predicate ReadsAd(m: Reading) {
    && (forall n: nat {:trigger TagQuad(n, Regs(n))} :: AdTag(m.tag(TagQuad(n, Regs(n))), n))
    && (forall i: Item {:trigger ItemQuad(i)} :: m.packed(0xE, ItemQuad(i)) == [Performed(i)])
    && (forall q: Quad :: m.packed(0, q) == [PrimWrite(q)])
  }

  function PrimWrite(q: Quad): Event { Write(0, Number(q[..11])) }

  lemma GsReadsAd()
    ensures ReadsAd(Gs())
  {
    forall n: nat ensures AdTag(Gs().tag(TagQuad(n, Regs(n))), n) { TagReads(n); }
    forall i: Item ensures Gs().packed(0xE, ItemQuad(i)) == [Performed(i)] { ItemPerforms(i); }
  }

  lemma AllPerformedNext(items: seq<Item>, k: nat)
    requires 0 < k <= |items|
    ensures AllPerformed(items[..k]) == AllPerformed(items[..k - 1]) + [Performed(items[k - 1])]
  {
  }

  /** The items of a packed run of A+D quadwords are its register writes, in order. */
  lemma {:induction false} LogWrites(m: Reading, log: seq<Event>, rs: seq<nat>, data: seq<Quad>, items: seq<Item>,
                                     k: nat)
    requires ReadsAd(m) && k <= |rs| && k <= |items| <= |data|
    requires forall i :: 0 <= i < k ==> rs[i] == 0xE && data[i] == ItemQuad(items[i])
    ensures LogItems(m.packed, log, rs, data, k) == log + AllPerformed(items[..k])
  {
    if k > 0 {
      LogWrites(m, log, rs, data, items, k - 1);
      AllPerformedNext(items, k);
    }
  }

  lemma PackedTag(m: Reading, log: seq<Event>, qs: seq<Quad>, at: nat)
    requires at < |qs| && var t := m.tag(qs[at]); t.eop && !t.pre && t.mode == PackedMode && t.nloop == 1
    ensures var rs := m.tag(qs[at]).descriptors;
      && PacketEnd(m, qs, at) == at + 1 + Least(|rs|, |qs| - (at + 1))
      && AfterPacket(m, log, qs, at) == LogItems(m.packed, log, rs, qs[at + 1..], Least(|rs|, |qs| - (at + 1)))
  {
    var ds := m.tag(qs[at]).descriptors;
    assert Repeat(ds, 0) == [] && Repeat(ds, 1) == ds;
  }

  /** An encoded packet standing at a place in a stream. */
  ghost predicate Holds(m: Reading, qs: seq<Quad>, at: nat, items: seq<Item>) {
    && at + 1 + |items| <= |qs|
    && AdTag(m.tag(qs[at]), |items|)
    && forall i :: 0 <= i < |items| ==> qs[at + 1 + i] == ItemQuad(items[i])
  }

  lemma PacketHolds(m: Reading, done: seq<Quad>, items: seq<Item>, rest: seq<Quad>)
    requires ReadsAd(m)
    ensures Holds(m, done + AdPacket(items) + rest, |done|, items)
  {
    PartHolds(m, done, AdPacket(items), rest, items);
  }

  lemma PartHolds(m: Reading, done: seq<Quad>, part: seq<Quad>, rest: seq<Quad>, items: seq<Item>)
    requires |part| == 1 + |items| && AdTag(m.tag(part[0]), |items|)
    requires forall i :: 0 <= i < |items| ==> part[i + 1] == ItemQuad(items[i])
    ensures Holds(m, done + part + rest, |done|, items)
  {
    var qs, at := done + part + rest, |done|;
    assert qs[at] == part[0];
    forall i | 0 <= i < |items| ensures qs[at + 1 + i] == ItemQuad(items[i]) {
      assert qs[at + 1 + i] == part[i + 1];
    }
  }

  /** A packet of at least one item, anywhere in a stream: the first NREG items are
      performed, in order, and the parser stops behind them. */
  lemma PacketPerforms(m: Reading, log: seq<Event>, qs: seq<Quad>, at: nat, items: seq<Item>)
    requires ReadsAd(m) && items != [] && Holds(m, qs, at, items)
    ensures PacketEnd(m, qs, at) == at + 1 + Decoded(|items|)
    ensures AfterPacket(m, log, qs, at) == log + AllPerformed(items[..Decoded(|items|)])
  {
    PackedTag(m, log, qs, at);
    LogWrites(m, log, m.tag(qs[at]).descriptors, qs[at + 1..], items, Decoded(|items|));
  }

  /** The round trip of one packet by itself holds up to sixteen items and no further. */
  lemma AloneIff(log: seq<Event>, items: seq<Item>)
    ensures var qs := AdPacket(items);
      PacketEnd(Gs(), qs, 0) == |qs| && AfterPacket(Gs(), log, qs, 0) == log + AllPerformed(items) <==> |items| <= 16
  {
    GsReadsAd();
    Alone(Gs(), log, items);
  }

  lemma Alone(m: Reading, log: seq<Event>, items: seq<Item>)
    requires ReadsAd(m)
    ensures var qs := AdPacket(items);
      PacketEnd(m, qs, 0) == |qs| && AfterPacket(m, log, qs, 0) == log + AllPerformed(items) <==> |items| <= 16
  {
    if items == [] {
      Swallows(m, log, []);
      assert AdPacket([]) + [] == AdPacket([]);
    } else {
      AloneHolds(m, items);
      AloneHeld(m, log, AdPacket(items), items);
    }
  }

  lemma AloneHolds(m: Reading, items: seq<Item>)
    requires ReadsAd(m)
    ensures Holds(m, AdPacket(items), 0, items)
  {
    PacketHolds(m, [], items, []);
    assert [] + AdPacket(items) + [] == AdPacket(items);
  }

  lemma AloneHeld(m: Reading, log: seq<Event>, qs: seq<Quad>, items: seq<Item>)
    requires ReadsAd(m) && items != [] && Holds(m, qs, 0, items) && |qs| == 1 + |items|
    ensures PacketEnd(m, qs, 0) == |qs| && AfterPacket(m, log, qs, 0) == log + AllPerformed(items) <==> |items| <= 16
  {
    if |items| <= 16 {
      AllDone(m, log, qs, 0, items);
    } else {
      PacketPerforms(m, log, qs, 0, items);
    }
  }

  // ---- whole streams -----------------------------------------------------------------------------

  function Encoded(packets: seq<seq<Item>>): seq<Quad> {
    if packets == [] then [] else AdPacket(packets[0]) + Encoded(packets[1..])
  }

  function EveryItem(packets: seq<seq<Item>>): seq<Item> {
    if packets == [] then [] else packets[0] + EveryItem(packets[1..])
  }

  /** Any stream of packets of one to sixteen items comes back as exactly its items'
      writes, in order, with nothing after them. */
  lemma RoundTrip(log: seq<Event>, packets: seq<seq<Item>>)
    requires forall k :: 0 <= k < |packets| ==> 1 <= |packets[k]| <= 16
    ensures Walk(Gs(), log, Encoded(packets), 0) == log + AllPerformed(EveryItem(packets))
  {
    GsReadsAd();
    assert [] + Encoded(packets) == Encoded(packets);
    EncodedSpells(Gs(), [], packets);
    WalkFrom(Gs(), log, Encoded(packets), 0, packets);
  }

  /** The same of the code: what the encoder's loops make of some packets, the parser's
      loops turn back into their writes. */
  method EncodeAndParse(packets: seq<seq<Item>>) returns (events: seq<Event>)
    requires forall k :: 0 <= k < |packets| ==> 1 <= |packets[k]| <= 16
    ensures events == AllPerformed(EveryItem(packets))
  {
    var qs: seq<Quad> := [];
    for k := 0 to |packets|
      invariant qs + Encoded(packets[k..]) == Encoded(packets)
    {
      var packet := Ad(packets[k]);
      Grouped(qs, packet, Encoded(packets[k + 1..]));
      assert packets[k..][1..] == packets[k + 1..];
      qs := qs + packet;
    }
    var parser := new Parser();
    GsReads();
    parser.Stream(Gs(), qs);
    events := parser.events;
    assert qs + [] == qs;
    RoundTrip([], packets);
    assert [] + AllPerformed(EveryItem(packets)) == AllPerformed(EveryItem(packets));
  }

  /** Packets standing one after another, to the end of the stream. */
  ghost predicate Spells(m: Reading, qs: seq<Quad>, at: nat, packets: seq<seq<Item>>)
    decreases |packets|
  {
    if packets == [] then at == |qs|
    else Holds(m, qs, at, packets[0]) && Spells(m, qs, at + 1 + |packets[0]|, packets[1..])
  }

  lemma {:induction false} EncodedSpells(m: Reading, done: seq<Quad>, packets: seq<seq<Item>>)
    requires ReadsAd(m)
    ensures Spells(m, done + Encoded(packets), |done|, packets)
    decreases |packets|
  {
    hide ReadsAd, AdPacket, Holds;
    if packets != [] {
      var part, rest := AdPacket(packets[0]), packets[1..];
      EncodedSpells(m, done + part, rest);
      PacketHolds(m, done, packets[0], Encoded(rest));
      Grouped(done, part, Encoded(rest));
      SpellsFrom(m, done + Encoded(packets), |done|, packets);
    }
  }

  lemma Grouped(a: seq<Quad>, b: seq<Quad>, c: seq<Quad>)
    ensures a + b + c == a + (b + c)
  {
  }

  lemma SpellsFrom(m: Reading, qs: seq<Quad>, at: nat, packets: seq<seq<Item>>)
    requires packets != [] && Holds(m, qs, at, packets[0]) && Spells(m, qs, at + 1 + |packets[0]|, packets[1..])
    ensures Spells(m, qs, at, packets)
  {
  }

  lemma {:induction false} WalkFrom(m: Reading, log: seq<Event>, qs: seq<Quad>, at: nat, packets: seq<seq<Item>>)
    requires ReadsAd(m) && at <= |qs| && Spells(m, qs, at, packets)
    requires forall k :: 0 <= k < |packets| ==> 1 <= |packets[k]| <= 16
    ensures Walk(m, log, qs, at) == log + AllPerformed(EveryItem(packets))
    decreases |packets|
  {
    if packets == [] {
      assert log + AllPerformed([]) == log;
    } else {
      var items, rest := packets[0], packets[1..];
      WalkFrom(m, log + AllPerformed(items), qs, at + 1 + |items|, rest);
      WalkOver(m, log, qs, at, items);
      PerformedInTurn(log, items, EveryItem(rest), EveryItem(packets));
    }
  }

  lemma WalkOver(m: Reading, log: seq<Event>, qs: seq<Quad>, at: nat, items: seq<Item>)
    requires ReadsAd(m) && 1 <= |items| <= 16 && Holds(m, qs, at, items)
    ensures Walk(m, log, qs, at) == Walk(m, log + AllPerformed(items), qs, at + 1 + |items|)
  {
    AllDone(m, log, qs, at, items);
    WalkStep(m, log, qs, at, log + AllPerformed(items), at + 1 + |items|);
  }

  lemma AllDone(m: Reading, log: seq<Event>, qs: seq<Quad>, at: nat, items: seq<Item>)
    requires ReadsAd(m) && 1 <= |items| <= 16 && Holds(m, qs, at, items)
    ensures AfterPacket(m, log, qs, at) == log + AllPerformed(items) && PacketEnd(m, qs, at) == at + 1 + |items|
  {
    PacketPerforms(m, log, qs, at, items);
    assert items[..|items|] == items;
  }

  lemma WalkStep(m: Reading, log: seq<Event>, qs: seq<Quad>, at: nat, after: seq<Event>, end: nat)
    requires at < |qs| && AfterPacket(m, log, qs, at) == after && PacketEnd(m, qs, at) == end
    ensures Walk(m, log, qs, at) == Walk(m, after, qs, end)
  {
  }

  lemma PerformedInTurn(log: seq<Event>, a: seq<Item>, b: seq<Item>, both: seq<Item>)
    requires both == a + b
    ensures log + AllPerformed(a) + AllPerformed(b) == log + AllPerformed(both)
  {
    assert AllPerformed(a) + AllPerformed(b) == AllPerformed(both);
  }

  /** An empty packet announces sixteen registers it does not hold: it takes up to sixteen
      of the quadwords after it and writes PRIM from each. */
  lemma EmptySwallows(log: seq<Event>, rest: seq<Quad>)
    ensures var (qs, k) := (AdPacket([]) + rest, Least(16, |rest|));
      PacketEnd(Gs(), qs, 0) == 1 + k && AfterPacket(Gs(), log, qs, 0) == log + PrimWrites(rest[..k])
  {
    GsReadsAd();
    Swallows(Gs(), log, rest);
  }

  function PrimWrites(data: seq<Quad>): seq<Event> {
    seq(|data|, k requires 0 <= k < |data| => PrimWrite(data[k]))
  }

  lemma Swallows(m: Reading, log: seq<Event>, rest: seq<Quad>)
    requires ReadsAd(m)
    ensures var (qs, k) := (AdPacket([]) + rest, Least(16, |rest|));
      PacketEnd(m, qs, 0) == 1 + k && AfterPacket(m, log, qs, 0) == log + PrimWrites(rest[..k])
  {
    var qs, k := AdPacket([]) + rest, Least(16, |rest|);
    assert qs[0] == TagQuad(0, Regs(0)) && qs[1..] == rest;
    PackedTag(m, log, qs, 0);
    LogPrims(m, log, m.tag(qs[0]).descriptors, rest, k);
  }

  lemma {:induction false} LogPrims(m: Reading, log: seq<Event>, rs: seq<nat>, data: seq<Quad>, k: nat)
    requires ReadsAd(m) && k <= |rs| && k <= |data| && forall i :: 0 <= i < k ==> rs[i] == 0
    ensures LogItems(m.packed, log, rs, data, k) == log + PrimWrites(data[..k])
  {
    if k > 0 {
      LogPrims(m, log, rs, data, k - 1);
      assert PrimWrites(data[..k]) == PrimWrites(data[..k - 1]) + [PrimWrite(data[k - 1])];
    }
  }
}
