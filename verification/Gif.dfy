/** GIF packets: the parser of sim/gs/gs_ref.py and the A+D encoder of
    hw/ps2probe/compare.py.  A quadword is its bits, the least significant first. */
module Gif {
  import opened Arith
  import opened Bits

  type Quad = q: seq<bool> | |q| >= 128 witness seq(128, i => false)

  /** What a packet does to the rest of the machine. */
  datatype Event = Write(addr: nat, data: nat) | HwReg(data: nat) | Unknown

  // ---- the GIFtag --------------------------------------------------------------------------

  datatype Mode = PackedMode | RegListMode | ImageMode | DisableMode

  /** A tag's fields.  The descriptors are the registers its data goes to, in turn. */
  datatype Tag = Tag(nloop: nat, eop: bool, pre: bool, prim: nat, mode: Mode, descriptors: seq<nat>)

  function ModeOf(low: bool, high: bool): Mode {
    if high then if low then DisableMode else ImageMode
    else if low then RegListMode else PackedMode
  }

  /** NREG counts from one to sixteen, sixteen written as zero. */
  function NReg(field: seq<bool>): (n: nat)
    requires |field| == 4
    ensures 1 <= n <= 16
  {
    NumberFits(field);
    Powers();
    if Number(field) == 0 then 16 else Number(field)
  }

  function Descriptor(q: Quad, i: nat): nat
    requires i < 16
  {
    Number(q[64 + 4 * i..68 + 4 * i])
  }

  function TagOf(q: Quad): (t: Tag)
    ensures t.descriptors != []
  {
    Tag(Number(q[..15]), q[15], q[46], Number(q[47..58]), ModeOf(q[58], q[59]),
        seq(NReg(q[60..64]), i requires 0 <= i < NReg(q[60..64]) => Descriptor(q, i)))
  }

  // ---- one item of each mode -----------------------------------------------------------------

  function PackedItem(desc: nat, qw: Quad): seq<Event> {
    if desc == 0x0 then [Write(0x00, Number(qw[..11]))]
    else if desc == 0x1 then [Write(0x01, Number(qw[..8] + qw[32..40] + qw[64..72] + qw[96..104]))]
    else if desc == 0x2 then [Write(0x02, Number(qw[..64]))]
    else if desc == 0x3 then [Write(0x03, Number(qw[..14] + [false, false] + qw[32..46]))]
    else if desc == 0x4 || desc == 0xC then [Write(desc, Number(qw[..16] + qw[32..48] + qw[68..92] + qw[100..108]))]
    else if desc == 0x5 || desc == 0xD then [Write(desc, Number(qw[..16] + qw[32..48] + qw[64..96]))]
    else if desc == 0xE then [Write(Number(qw[64..72]), Number(qw[..64]))]
    else if desc == 0xF then []
    else if desc == 0xB then [Unknown]
    else [Write(desc, Number(qw[..64]))]
  }

  function RegListItem(desc: nat, data: seq<bool>): seq<Event> {
    if desc == 0xB || desc == 0xF then []
    else if desc == 0xE then [Unknown]
    else [Write(desc, Number(data))]
  }

  // ---- what a whole packet does --------------------------------------------------------------

  /** NLOOP times NREG, added up. */
  function Product(a: nat, b: nat): nat { if a == 0 then 0 else Product(a - 1, b) + b }

  lemma {:induction false} ProductIsProduct(a: nat, b: nat)
    ensures Product(a, b) == a * b
  {
    if a > 0 {
      ProductIsProduct(a - 1, b);
      assert a * b == (a - 1) * b + b;
    }
  }

  lemma {:induction false} Rounds(i: nat, nloop: nat, n: nat)
    requires i < nloop
    ensures Product(i, n) + n <= Product(nloop, n)
  {
    if i < nloop - 1 {
      Rounds(i, nloop - 1, n);
    }
  }

  /** The registers of every item: the descriptors, over and over. */
  function Repeat(ds: seq<nat>, nloop: nat): seq<nat> {
    if nloop == 0 then [] else Repeat(ds, nloop - 1) + ds
  }

  lemma {:induction false} RepeatLength(ds: seq<nat>, nloop: nat)
    ensures |Repeat(ds, nloop)| == Product(nloop, |ds|)
  {
    if nloop > 0 {
      RepeatLength(ds, nloop - 1);
    }
  }

  lemma {:induction false} RepeatPart(ds: seq<nat>, nloop: nat, i: nat, r: nat)
    requires i < nloop && r < |ds|
    ensures Product(i, |ds|) + r < |Repeat(ds, nloop)| && Repeat(ds, nloop)[Product(i, |ds|) + r] == ds[r]
  {
    RepeatLength(ds, nloop - 1);
    if i < nloop - 1 {
      RepeatPart(ds, nloop - 1, i, r);
    }
  }

  lemma RepeatAt(ds: seq<nat>, nloop: nat, k: nat)
    requires ds != [] && k < Product(nloop, |ds|)
    ensures k < |Repeat(ds, nloop)| && Repeat(ds, nloop)[k] == ds[k % |ds|]
  {
    ProductIsProduct(nloop, |ds|);
    ProductIsProduct(k / |ds|, |ds|);
    Whole(k, |ds|);
    QuotientBelow(k, nloop, |ds|);
    RepeatPart(ds, nloop, k / |ds|, k % |ds|);
  }

  /** What one item does, by the register it goes to. */
  type Action<!T> = (nat, T) -> seq<Event>

  /** How a machine reads a tag and what items do in it. */
  datatype Reading = Reading(tag: Quad -> Tag, packed: Action<Quad>, listed: Action<seq<bool>>)

  /** How the GS does. */
  function Gs(): Reading { Reading(TagOf, PackedItem, RegListItem) }

  /** The log after the first `k` items of a tag's data. */
  function LogItems<T>(item: Action<T>, log: seq<Event>, ds: seq<nat>, data: seq<T>, k: nat): seq<Event>
    requires k <= |ds| && k <= |data|
  {
    if k == 0 then log else LogItems(item, log, ds, data, k - 1) + item(ds[k - 1], data[k - 1])
  }

  /** Two REGLIST items to a quadword. */
  function Halves(data: seq<Quad>): (hs: seq<seq<bool>>)
    ensures |hs| == 2 * |data|
  {
    if data == [] then [] else [data[0][..64], data[0][64..128]] + Halves(data[1..])
  }

  lemma {:induction false} HalvesAt(data: seq<Quad>, k: nat)
    requires k < |data|
    ensures Halves(data)[2 * k] == data[k][..64] && Halves(data)[2 * k + 1] == data[k][64..128]
  {
    if k > 0 {
      HalvesAt(data[1..], k - 1);
    }
  }

  function ImageItems(log: seq<Event>, data: seq<Quad>, k: nat): seq<Event>
    requires k <= |data|
  {
    if k == 0 then log
    else ImageItems(log, data, k - 1) + [HwReg(Number(data[k - 1][..64]))] + [HwReg(Number(data[k - 1][64..128]))]
  }

  function Least(a: nat, b: nat): nat { if b < a then b else a }

  /** The registers of a tag's items, in order. */
  function Registers(t: Tag): seq<nat> { Repeat(t.descriptors, t.nloop) }

  /** The quadwords that hold them. */
  function Quads(t: Tag): nat {
    match t.mode
    case PackedMode => |Registers(t)|
    case RegListMode => (|Registers(t)| + 1) / 2
    case ImageMode => t.nloop
    case DisableMode => 0
  }

  /** What a complete tag takes from the list. */
  lemma Consumes(t: Tag)
    ensures Quads(t) == match t.mode
                        case PackedMode => t.nloop * |t.descriptors|
                        case RegListMode => (t.nloop * |t.descriptors| + 1) / 2
                        case ImageMode => t.nloop
                        case DisableMode => 0
  {
    RepeatLength(t.descriptors, t.nloop);
    ProductIsProduct(t.nloop, |t.descriptors|);
  }

  /** PRE loads PRIM before the data, except ahead of an image. */
  function Opened(log: seq<Event>, t: Tag): seq<Event> {
    if t.pre && !t.mode.ImageMode? then log + [Write(0x00, t.prim)] else log
  }

  /** The log after a tag's data, given the quadwords after the tag; a short list ends
      it early. */
  function AfterData(m: Reading, log: seq<Event>, t: Tag, data: seq<Quad>): seq<Event> {
    match t.mode
    case PackedMode => LogItems(m.packed, log, Registers(t), data, Least(|Registers(t)|, |data|))
    case RegListMode => LogItems(m.listed, log, Registers(t), Halves(data), Least(|Registers(t)|, 2 * |data|))
    case ImageMode => ImageItems(log, data, Least(t.nloop, |data|))
    case DisableMode => log
  }

  /** Where a tag's data ends. */
  function TagEnd(m: Reading, qs: seq<Quad>, at: nat): (next: nat)
    requires at < |qs|
    ensures at < next <= |qs|
  {
    at + 1 + Least(Quads(m.tag(qs[at])), |qs| - (at + 1))
  }

  /** The log after one tag and its data. */
  function AfterTag(m: Reading, log: seq<Event>, qs: seq<Quad>, at: nat): seq<Event>
    requires at < |qs|
  {
    AfterData(m, Opened(log, m.tag(qs[at])), m.tag(qs[at]), qs[at + 1..])
  }

  /** A packet: tags up to one with EOP set, or the end of the list. */
  function AfterPacket(m: Reading, log: seq<Event>, qs: seq<Quad>, at: nat): seq<Event>
    requires at <= |qs|
    decreases |qs| - at
  {
    if at == |qs| then log
    else if m.tag(qs[at]).eop then AfterTag(m, log, qs, at)
    else AfterPacket(m, AfterTag(m, log, qs, at), qs, TagEnd(m, qs, at))
  }

  function PacketEnd(m: Reading, qs: seq<Quad>, at: nat): (next: nat)
    requires at <= |qs|
    ensures at <= next <= |qs|
    ensures at < |qs| ==> at < next
    decreases |qs| - at
  {
    if at == |qs| then at
    else if m.tag(qs[at]).eop then TagEnd(m, qs, at)
    else PacketEnd(m, qs, TagEnd(m, qs, at))
  }

  /** The loop that walks a stream of packets. */
  function Walk(m: Reading, log: seq<Event>, qs: seq<Quad>, at: nat): seq<Event>
    requires at <= |qs|
    decreases |qs| - at
  {
    if at == |qs| then log else Walk(m, AfterPacket(m, log, qs, at), qs, PacketEnd(m, qs, at))
  }

  /** Names for what an item does, so that a loop need not look inside it. */
  ghost predicate Packs(item: Action<Quad>) {
    forall d: nat, q: Quad {:trigger PackedItem(d, q)} :: item(d, q) == PackedItem(d, q)
  }

  ghost predicate Lists(item: Action<seq<bool>>) {
    forall d: nat, half: seq<bool> {:trigger RegListItem(d, half)} :: item(d, half) == RegListItem(d, half)
  }

  ghost predicate Reads(m: Reading) {
    && Packs(m.packed) && Lists(m.listed)
    && forall q: Quad {:trigger TagOf(q)} :: m.tag(q) == TagOf(q)
  }

  /** So what is proved of any such reading is proved of the GS's. */
  lemma GsReads()
    ensures Reads(Gs())
  {
  }

  // ---- the parser ----------------------------------------------------------------------------

  class Parser {
    var events: seq<Event>

    constructor ()
      ensures events == []
    {
      events := [];
    }

    method Emit(e: Event)
      modifies this
      ensures events == old(events) + [e]
    {
      events := events + [e];
    }

    method PackedQuad(ghost item: Action<Quad>, desc: nat, qw: Quad)
      requires Packs(item)
      modifies this
      ensures events == old(events) + item(desc, qw)
    {
      ghost var after := events + PackedItem(desc, qw);
      if desc == 0xB {
        Emit(Unknown);
      } else if desc == 0xF {
      } else if desc == 0xE {
        Emit(Write(Number(qw[64..72]), Number(qw[..64])));
      } else if desc == 0x0 {
        Emit(Write(0x00, Number(qw[..11])));
      } else if desc == 0x1 {
        Emit(Write(0x01, Number(qw[..8] + qw[32..40] + qw[64..72] + qw[96..104])));
      } else if desc == 0x3 {
        Emit(Write(0x03, Number(qw[..14] + [false, false] + qw[32..46])));
      } else if desc == 0x4 || desc == 0xC {
        Emit(Write(desc, Number(qw[..16] + qw[32..48] + qw[68..92] + qw[100..108])));
      } else if desc == 0x5 || desc == 0xD {
        Emit(Write(desc, Number(qw[..16] + qw[32..48] + qw[64..96])));
      } else {
        Emit(Write(desc, Number(qw[..64])));
      }
    }

    method RegListHalf(ghost item: Action<seq<bool>>, desc: nat, data: seq<bool>)
      requires Lists(item)
      modifies this
      ensures events == old(events) + item(desc, data)
    {
      ghost var after := events + RegListItem(desc, data);
      if desc == 0xB || desc == 0xF {
        return;
      }
      if desc == 0xE {
        Emit(Unknown);
        return;
      }
      Emit(Write(desc, Number(data)));
    }

    /** One round of PACKED data: a quadword for each descriptor, stopping where the
        list does. */
    method PackedRound(ghost item: Action<Quad>, ghost log: seq<Event>, ghost all: seq<nat>, ghost first: nat,
                       ds: seq<nat>, qs: seq<Quad>, start: nat, from: nat) returns (at: nat)
      requires start <= from == start + first <= |qs| && first + |ds| <= |all|
      requires forall r :: 0 <= r < |ds| ==> all[first + r] == ds[r]
      requires Packs(item) && events == LogItems(item, log, all, qs[start..], first)
      modifies this
      ensures at == start + Least(first + |ds|, |qs| - start)
      ensures events == LogItems(item, log, all, qs[start..], at - start)
    {
      at := from;
      ghost var data, k := qs[start..], first;
      var r := 0;
      while r < |ds|
        invariant r <= |ds| && k == first + r <= |data| && at == start + k
        invariant events == LogItems(item, log, all, data, k)
      {
        if at >= |qs| {
          return;
        }
        PackedQuad(item, ds[r], qs[at]);
        at := at + 1;
        r := r + 1;
        k := k + 1;
      }
    }

    /** PACKED: NLOOP rounds. */
    method PackedData(ghost item: Action<Quad>, nloop: nat, ds: seq<nat>, qs: seq<Quad>, start: nat) returns (at: nat)
      requires start <= |qs| && ds != [] && Packs(item)
      modifies this
      ensures var k := Least(|Repeat(ds, nloop)|, |qs| - start);
        at == start + k && events == LogItems(item, old(events), Repeat(ds, nloop), qs[start..], k)
    {
      at := start;
      ghost var log, all, k := events, Repeat(ds, nloop), 0;
      RepeatLength(ds, nloop);
      var i := 0;
      while i < nloop
        invariant i <= nloop && k == Product(i, |ds|) && k <= |all| && at == start + k <= |qs|
        invariant events == LogItems(item, log, all, qs[start..], k)
      {
        Rounds(i, nloop, |ds|);
        forall r | 0 <= r < |ds| ensures all[k + r] == ds[r] {
          RepeatPart(ds, nloop, i, r);
        }
        at := PackedRound(item, log, all, k, ds, qs, start, at);
        k := k + |ds|;
        if at >= |qs| {
          return;
        }
        i := i + 1;
      }
    }

    method InTurn(nloop: nat, ds: seq<nat>, i: nat) returns (d: nat)
      requires ds != [] && i < Product(nloop, |ds|)
      ensures i < |Repeat(ds, nloop)| && d == Repeat(ds, nloop)[i]
    {
      RepeatAt(ds, nloop, i);
      d := ds[i % |ds|];
    }

    /** One quadword of REGLIST data: its low half, and its high half if an item is left. */
    method RegListQuad(ghost item: Action<seq<bool>>, nloop: nat, ds: seq<nat>, total: nat, i: nat, qw: Quad)
      returns (next: nat)
      requires ds != [] && Lists(item) && i < total == Product(nloop, |ds|) == |Repeat(ds, nloop)|
      modifies this
      ensures next == Least(i + 2, total)
      ensures var low := old(events) + item(Repeat(ds, nloop)[i], qw[..64]);
        events == if i + 1 < total then low + item(Repeat(ds, nloop)[i + 1], qw[64..128]) else low
    {
      var d := InTurn(nloop, ds, i);
      RegListHalf(item, d, qw[..64]);
      next := i + 1;
      if next < total {
        d := InTurn(nloop, ds, next);
        RegListHalf(item, d, qw[64..128]);
        next := next + 1;
      }
    }

    /** REGLIST: two items to a quadword. */
    method RegListData(ghost item: Action<seq<bool>>, nloop: nat, ds: seq<nat>, qs: seq<Quad>, start: nat)
      returns (at: nat)
      requires start <= |qs| && ds != [] && Lists(item)
      modifies this
      ensures var total := |Repeat(ds, nloop)|;
        && at == start + Least((total + 1) / 2, |qs| - start)
        && events == LogItems(item, old(events), Repeat(ds, nloop), Halves(qs[start..]),
                              Least(total, 2 * (|qs| - start)))
    {
      at := start;
      ghost var log, all, data, k := events, Repeat(ds, nloop), Halves(qs[start..]), 0;
      var total := Product(nloop, |ds|);
      RepeatLength(ds, nloop);
      var i := 0;
      while i < total
        invariant at == start + k <= |qs| && i <= total && i <= |data|
        invariant if i < total then i == 2 * k else k == (total + 1) / 2
        invariant events == LogItems(item, log, all, data, i)
      {
        if at >= |qs| {
          return;
        }
        var qw := qs[at];
        HalvesAt(qs[start..], k);
        assert data[i] == qw[..64] && data[i + 1] == qw[64..128];
        i := RegListQuad(item, nloop, ds, total, i, qw);
        at := at + 1;
        k := k + 1;
      }
    }

    /** IMAGE: straight to HWREG. */
    method ImageData(nloop: nat, qs: seq<Quad>, start: nat) returns (at: nat)
      requires start <= |qs|
      modifies this
      ensures var k := Least(nloop, |qs| - start);
        at == start + k && events == ImageItems(old(events), qs[start..], k)
    {
      at := start;
      var i := 0;
      while i < nloop
        invariant i <= nloop && start <= at <= |qs| && at - start == i
        invariant events == ImageItems(old(events), qs[start..], i)
      {
        if at >= |qs| {
          return;
        }
        assert qs[start..][i] == qs[at];
        Emit(HwReg(Number(qs[at][..64])));
        Emit(HwReg(Number(qs[at][64..128])));
        at := at + 1;
        i := i + 1;
      }
    }

    /** A tag's data. */
    method Data(ghost m: Reading, t: Tag, qs: seq<Quad>, start: nat) returns (end: nat)
      requires start <= |qs| && t.descriptors != [] && Reads(m)
      modifies this
      ensures end == start + Least(Quads(t), |qs| - start)
      ensures events == AfterData(m, old(events), t, qs[start..])
    {
      match t.mode
      case PackedMode => end := PackedData(m.packed, t.nloop, t.descriptors, qs, start);
      case RegListMode => end := RegListData(m.listed, t.nloop, t.descriptors, qs, start);
      case ImageMode => end := ImageData(t.nloop, qs, start);
      case DisableMode => end := start;
    }

    /** One tag and its data. */
    method OneTag(ghost m: Reading, qs: seq<Quad>, at: nat) returns (end: nat, eop: bool)
      requires at < |qs| && Reads(m)
      modifies this
      ensures end == TagEnd(m, qs, at) && eop == m.tag(qs[at]).eop
      ensures events == AfterTag(m, old(events), qs, at)
    {
      var t := TagOf(qs[at]);
      if t.pre && !t.mode.ImageMode? {
        Emit(Write(0x00, t.prim));
      }
      end := Data(m, t, qs, at + 1);
      eop := t.eop;
    }

    /** One packet: consume from `at`, return where it stopped. */
    method GifPacket(ghost m: Reading, qs: seq<Quad>, at: nat) returns (next: nat)
      requires at <= |qs| && Reads(m)
      modifies this
      ensures next == PacketEnd(m, qs, at) && events == AfterPacket(m, old(events), qs, at)
    {
      next := at;
      ghost var all := AfterPacket(m, events, qs, at);
      while next < |qs|
        invariant at <= next <= |qs|
        invariant PacketEnd(m, qs, at) == PacketEnd(m, qs, next)
        invariant AfterPacket(m, events, qs, next) == all
        decreases |qs| - next
      {
        var eop;
        next, eop := OneTag(m, qs, next);
        if eop {
          return;
        }
      }
    }

    /** A stream of packets. */
    method Stream(ghost m: Reading, qs: seq<Quad>)
      requires Reads(m)
      modifies this
      ensures events == Walk(m, old(events), qs, 0)
    {
      var at := 0;
      while at < |qs|
        invariant at <= |qs| && Walk(m, old(events), qs, 0) == Walk(m, events, qs, at)
      {
        var next := GifPacket(m, qs, at);
        if next <= at {
          break;
        }
        at := next;
      }
    }
  }
}
