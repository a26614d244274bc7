/** Whole runs of the DMA writer: what reaches HBM, what the AXI slave sees, and
    when a transfer ends, for every sequence of inputs. */
module HbmWriterRuns {
  import opened HbmAxi
  import opened Widths
  import opened HbmWriter

  // ---- histories -----------------------------------------------------------------

  datatype Event = AddressTaken | DataTaken(last: bool) | Responded

  /** The engine with what its environment has seen since the last start: the
      words it accepted, the beats it delivered, the burst addresses, and the
      memory as an AXI slave writes it.  The trace is never cleared. */
  datatype Run = Run(
    s: State, base: nat, length: nat,
    accepted: seq<Lane>, beats: seq<seq<Lane>>, targets: seq<nat>, index: nat,
    hbm: map<nat, seq<Lane>>, before: map<nat, seq<Lane>>,
    trace: seq<Event>)

  predicate AwTaken(s: State, i: Input) { AwValid(s) && i.awReady }

  predicate BTaken(s: State, i: Input) { BReady(s) && i.bValid }

  function EventOf(s: State, i: Input): seq<Event> {
    if AwTaken(s, i) then [AddressTaken]
    else if Taken(s, i) then [DataTaken(WLast(s))]
    else if BTaken(s, i) then [Responded]
    else []
  }

  /** A slave taking an incrementing burst of 32-byte beats puts the j-th 32 j bytes on
      from the burst's aligned address. */
  function Landed(r: Run, i: Input): map<nat, seq<Lane>> {
    if Taken(r.s, i) && |r.targets| > 0 then r.hbm[Aligned(r.targets[|r.targets| - 1]) + 32 * r.index := r.s.acc]
    else r.hbm
  }

  predicate Shaped(n: Packing, s: State) {
    |s.acc| == n && s.half < n
  }

  function Advance(n: Packing, r: Run, i: Input): Run
    requires Shaped(n, r.s)
  {
    var s, t := r.s, Step(n, r.s, i);
    if Flushes(s, i) then
      Run(t, i.base, i.length, [], [], [], 0, r.hbm, r.hbm, r.trace)
    else
      r.(s := t,
         accepted := r.accepted + (if Accepts(s, i) then [i.srcData] else []),
         beats := r.beats + (if Taken(s, i) then [s.acc] else []),
         targets := r.targets + (if AwTaken(s, i) then [s.addr] else []),
         index := if AwTaken(s, i) then 0 else if Taken(s, i) then r.index + 1 else r.index,
         hbm := Landed(r, i),
         trace := r.trace + EventOf(s, i))
  }

  /** The run after a sequence of inputs, from reset, over any memory. */
  function Exec(n: Packing, hbm: map<nat, seq<Lane>>, ins: seq<Input>): (r: Run)
    requires forall i | i in ins :: InRange(i)
    ensures Shaped(n, r.s)
  {
    if ins == [] then
      Run(Reset(n), 0, 0, [], [], [], 0, hbm, hbm, [])
    else
      Advance(n, Exec(n, hbm, ins[..|ins| - 1]), ins[|ins| - 1])
  }

  // ---- the invariant ---------------------------------------------------------------

  function Flat(beats: seq<seq<Lane>>): seq<Lane> {
    if beats == [] then [] else Flat(beats[..|beats| - 1]) + beats[|beats| - 1]
  }

  /** What the packer still holds. */
  function Held(n: Packing, s: State): seq<Lane>
    requires Shaped(n, s)
  {
    if s.full then s.acc else s.acc[..s.half]
  }

  /** Every accepted word has been delivered or is held, in order. */
  predicate PackInv(n: Packing, r: Run) {
    && Shaped(n, r.s)
    && (r.s.full ==> r.s.half == 0)
    && r.accepted == Flat(r.beats) + Held(n, r.s)
    && forall k | 0 <= k < |r.beats| :: |r.beats[k]| == n
  }

  function Saturating(length: nat, moved: nat): nat {
    if length > moved then length - moved else 0
  }

  /** Beats delivered, bursts addressed and the registers agree. */
  predicate BurstInv(r: Run) {
    var (c, m) := (|r.targets|, |r.beats|);
    && r.base < ADDR_SPACE && r.length < TWO32
    && r.s.written == 32 * m % TWO32
    && r.s.remain == Saturating(r.length, 32 * m)
    && (forall k | 0 <= k < c :: r.targets[k] == (r.base + 512 * k) % ADDR_SPACE)
    && (c > 0 ==> r.length > 512 * (c - 1))
    && (match r.s.phase
        case W => c > 0 && m == 16 * (c - 1) + r.s.beat && r.s.beat < BURST && r.index == r.s.beat
                  && r.s.addr == r.targets[c - 1]
        case B => c > 0 && m == 16 * c && r.s.addr == r.targets[c - 1]
        case Aw => m == 16 * c && r.s.addr == (r.base + 512 * c) % ADDR_SPACE
        case Idle => m == 16 * c)
    && (r.s.done ==> r.s.phase == Idle && r.s.remain == 0)
  }

  lemma {:induction false} ExecInv(n: Packing, hbm: map<nat, seq<Lane>>, ins: seq<Input>)
    requires forall i | i in ins :: InRange(i)
    ensures PackInv(n, Exec(n, hbm, ins)) && BurstInv(Exec(n, hbm, ins))
  {
    if ins != [] {
      var front, i := ins[..|ins| - 1], ins[|ins| - 1];
      ExecInv(n, hbm, front);
      PackStep(n, Exec(n, hbm, front), i);
      BurstStep(n, Exec(n, hbm, front), i);
    }
  }

  /** A beat taken empties the packer before a word accepted goes in. */
  lemma HeldStep(n: Packing, s: State, i: Input)
    requires Shaped(n, s) && (s.full ==> s.half == 0) && !Flushes(s, i)
    ensures var t := Step(n, s, i);
      && Shaped(n, t) && (t.full ==> t.half == 0)
      && Held(n, t) == (if Taken(s, i) then [] else Held(n, s)) + (if Accepts(s, i) then [i.srcData] else [])
  {
    if Accepts(s, i) {
      var acc := s.acc[s.half := i.srcData];
      assert acc[..s.half + 1] == s.acc[..s.half] + [i.srcData];
      assert acc[..n] == acc;
    }
  }

  lemma PackStep(n: Packing, r: Run, i: Input)
    requires PackInv(n, r)
    ensures PackInv(n, Advance(n, r, i))
  {
    hide Engine, Landed, EventOf;
    if !Flushes(r.s, i) {
      HeldStep(n, r.s, i);
      if Taken(r.s, i) { PackTaken(n, r, i); } else { PackKept(n, r, i); }
    }
  }

  lemma PackTaken(n: Packing, r: Run, i: Input)
    requires PackInv(n, r) && !Flushes(r.s, i) && Taken(r.s, i)
    ensures var q := Advance(n, r, i);
      && |q.beats| == |r.beats| + 1 && (forall k | 0 <= k < |q.beats| :: |q.beats[k]| == n)
      && Flat(q.beats) == r.accepted
  {
    hide Engine, Landed, EventOf;
    var q := Advance(n, r, i);
    assert q.beats[..|q.beats| - 1] == r.beats;
    assert Held(n, r.s) == r.s.acc;
  }

  lemma PackKept(n: Packing, r: Run, i: Input)
    requires PackInv(n, r) && !Flushes(r.s, i) && !Taken(r.s, i)
    ensures var q := Advance(n, r, i);
      && q.beats == r.beats
      && (forall x: seq<Lane> :: r.accepted + x == Flat(r.beats) + (Held(n, r.s) + x))
  {
    hide Engine, Landed, EventOf, Flat, Held;
  }

  lemma BurstStep(n: Packing, r: Run, i: Input)
    requires Shaped(n, r.s) && BurstInv(r) && InRange(i)
    ensures BurstInv(Advance(n, r, i))
  {
    match r.s.phase
    case Idle => BurstIdle(n, r, i);
    case Aw => BurstAw(n, r, i);
    case W => BurstW(n, r, i);
    case B => BurstB(n, r, i);
  }

  lemma BurstIdle(n: Packing, r: Run, i: Input)
    requires Shaped(n, r.s) && BurstInv(r) && InRange(i) && r.s.phase == Idle
    ensures BurstInv(Advance(n, r, i))
  {
    hide Packer, Landed, EventOf;
    var q := Advance(n, r, i);
    if Flushes(r.s, i) {
      assert q.base == i.base && q.length == i.length && q.beats == [] && q.targets == [];
      assert q.s.phase == Aw && q.s.addr == i.base && q.s.remain == i.length && q.s.written == 0 && !q.s.done;
    } else {
      assert q.targets == r.targets && q.beats == r.beats && q.base == r.base && q.length == r.length;
      assert q.s.phase == Idle && q.s.remain == r.s.remain && q.s.written == r.s.written && q.s.done == r.s.done;
      hide Advance, Step;
    }
  }

  lemma BurstAw(n: Packing, r: Run, i: Input)
    requires Shaped(n, r.s) && BurstInv(r) && r.s.phase == Aw
    ensures BurstInv(Advance(n, r, i))
  {
    hide Packer, Landed, EventOf;
    var q, c := Advance(n, r, i), |r.targets|;
    assert q.beats == r.beats && q.base == r.base && q.length == r.length;
    if AwTaken(r.s, i) {
      assert q.targets == r.targets + [r.s.addr];
      assert q.s.phase == W && q.s.beat == 0 && q.s.addr == r.s.addr && q.s.remain == r.s.remain > 0;
    } else {
      assert q.targets == r.targets && q.s.addr == r.s.addr && q.s.remain == r.s.remain;
    }
  }

  lemma CountWraps(m: nat)
    ensures (32 * m % TWO32 + 32) % TWO32 == 32 * (m + 1) % TWO32
  {
  }

  lemma BurstW(n: Packing, r: Run, i: Input)
    requires Shaped(n, r.s) && BurstInv(r) && r.s.phase == W
    ensures BurstInv(Advance(n, r, i))
  {
    hide Packer, Landed, EventOf;
    var q := Advance(n, r, i);
    assert q.targets == r.targets;
    if Taken(r.s, i) {
      CountWraps(|r.beats|);
    } else {
      assert q.beats == r.beats;
    }
  }

  lemma AddressWraps(base: nat, c: nat)
    requires c > 0
    ensures ((base + 512 * (c - 1)) % ADDR_SPACE + 512) % ADDR_SPACE == (base + 512 * c) % ADDR_SPACE
  {
  }

  lemma BurstB(n: Packing, r: Run, i: Input)
    requires Shaped(n, r.s) && BurstInv(r) && r.s.phase == B
    ensures BurstInv(Advance(n, r, i))
  {
    hide Packer, Landed, EventOf;
    var q := Advance(n, r, i);
    assert q.targets == r.targets && q.beats == r.beats && q.base == r.base && q.length == r.length;
    assert q.s.remain == r.s.remain && q.s.written == r.s.written && q.s.done == r.s.done;
    AddressWraps(r.base, |r.targets|);
  }

  // ---- the data: HBM holds exactly a prefix of the accepted stream ------------------

  /** Where the k-th group of `n` words starts. */
  function Start(n: Packing, k: nat): nat {
    if k == 0 then 0 else Start(n, k - 1) + n
  }

  lemma {:induction false} StartIsProduct(n: Packing, k: nat)
    ensures Start(n, k) == k * n
  {
    if k > 0 { StartIsProduct(n, k - 1); }
  }

  lemma {:induction false} FlatLength(n: Packing, beats: seq<seq<Lane>>)
    requires forall j | 0 <= j < |beats| :: |beats[j]| == n
    ensures |Flat(beats)| == Start(n, |beats|)
  {
    if beats != [] { FlatLength(n, beats[..|beats| - 1]); }
  }

  lemma {:induction false} FlatSlices(n: Packing, beats: seq<seq<Lane>>, k: nat)
    requires k < |beats| && forall j | 0 <= j < |beats| :: |beats[j]| == n
    ensures Start(n, k + 1) <= Start(n, |beats|) == |Flat(beats)|
    ensures Flat(beats)[Start(n, k)..Start(n, k + 1)] == beats[k]
  {
    var front := beats[..|beats| - 1];
    FlatLength(n, beats);
    FlatLength(n, front);
    assert Flat(beats) == Flat(front) + beats[|front|];
    if k < |front| {
      FlatSlices(n, front, k);
      FrontSlice(Flat(front), beats[|front|], Start(n, k), Start(n, k + 1));
    }
  }

  lemma FrontSlice(a: seq<Lane>, b: seq<Lane>, i: nat, j: nat)
    requires i <= j <= |a|
    ensures (a + b)[i..j] == a[i..j]
  {
  }

  /** `group` is the k-th group of `n` words. */
  predicate IsGroup(n: Packing, words: seq<Lane>, k: nat, group: seq<Lane>) {
    k * n <= (k + 1) * n <= |words| && words[k * n..(k + 1) * n] == group
  }

  lemma BeatsAreGroups(n: Packing, r: Run)
    requires PackInv(n, r)
    ensures |r.beats| * n <= |r.accepted| <= (|r.beats| + 1) * n
    ensures forall k | 0 <= k < |r.beats| :: IsGroup(n, r.accepted, k, r.beats[k])
  {
    FlatLength(n, r.beats);
    StartIsProduct(n, |r.beats|);
    StartIsProduct(n, |r.beats| + 1);
    forall k | 0 <= k < |r.beats|
      ensures IsGroup(n, r.accepted, k, r.beats[k])
    {
      FlatSlices(n, r.beats, k);
      StartIsProduct(n, k);
      StartIsProduct(n, k + 1);
    }
  }

  // where each beat lands

  /** Byte address of the k-th beat of a transfer. */
  function BeatAddr(base: nat, k: nat): nat {
    base + 32 * k
  }

  /** Memory with some beats laid end to end over it from a base address. */
  function Laid(mem: map<nat, seq<Lane>>, base: nat, beats: seq<seq<Lane>>): map<nat, seq<Lane>> {
    if beats == [] then mem
    else Laid(mem, base, beats[..|beats| - 1])[BeatAddr(base, |beats| - 1) := beats[|beats| - 1]]
  }

  lemma {:induction false} LaidAt(mem: map<nat, seq<Lane>>, base: nat, beats: seq<seq<Lane>>)
    ensures var l := Laid(mem, base, beats);
      && (forall k | 0 <= k < |beats| :: BeatAddr(base, k) in l && l[BeatAddr(base, k)] == beats[k])
      && (forall a: nat :: (a < base || BeatAddr(base, |beats|) <= a || (a - base) % 32 != 0) ==>
            (a in l <==> a in mem) && (a in mem ==> l[a] == mem[a]))
  {
    if beats != [] { LaidAt(mem, base, beats[..|beats| - 1]); }
  }

  /** While no address wraps, memory is what it was at the start with the beats
      delivered so far laid over it from the aligned base. */
  predicate MemInv(r: Run) {
    r.base + 32 * |r.beats| <= ADDR_SPACE ==> r.hbm == Laid(r.before, Aligned(r.base), r.beats)
  }

  /** The k-th beat is 32 k bytes from the base itself exactly for an aligned base. */
  lemma AlignedIff(base: nat, k: nat)
    ensures BeatAddr(Aligned(base), k) == base + 32 * k <==> base % 32 == 0
  {
  }

  lemma MemStep(n: Packing, r: Run, i: Input)
    requires Shaped(n, r.s) && BurstInv(r) && MemInv(r)
    ensures MemInv(Advance(n, r, i))
  {
    hide EventOf, Engine, Packer;
    var q := Advance(n, r, i);
    if !Flushes(r.s, i) {
      if Taken(r.s, i) {
        assert q.beats[..|q.beats| - 1] == r.beats;
        if q.base + 32 * |q.beats| <= ADDR_SPACE {
          var c := |r.targets|;
          assert r.targets[c - 1] == r.base + 512 * (c - 1);
          AlignedAhead(r.base, 16 * (c - 1));
          assert q.hbm == r.hbm[BeatAddr(Aligned(r.base), |r.beats|) := r.s.acc];
        }
      } else {
        assert q.beats == r.beats;
      }
    }
  }

  lemma {:induction false} ExecMem(n: Packing, hbm: map<nat, seq<Lane>>, ins: seq<Input>)
    requires forall i | i in ins :: InRange(i)
    ensures MemInv(Exec(n, hbm, ins))
  {
    if ins != [] {
      var front := ins[..|ins| - 1];
      ExecMem(n, hbm, front);
      ExecInv(n, hbm, front);
      MemStep(n, Exec(n, hbm, front), ins[|ins| - 1]);
    }
  }

  /** The beats delivered since the start are the accepted stream cut into groups,
      at most one beat behind it; HBM holds them end to end from the aligned base
      and is otherwise untouched; `written` counts them. */
  predicate StreamLanded(n: Packing, r: Run) {
    && (forall k | 0 <= k < |r.beats| :: IsGroup(n, r.accepted, k, r.beats[k]))
    && |r.beats| * n <= |r.accepted| <= (|r.beats| + 1) * n
    && MemInv(r)
    && r.s.written == 32 * |r.beats| % TWO32
  }

  /** That holds in every run, for every ready and valid pattern, across any number
      of transfers and aborts: nothing is lost, repeated, reordered or carried
      over from an earlier transfer. */
  lemma WrittenIsAPrefix(n: Packing, hbm: map<nat, seq<Lane>>, ins: seq<Input>)
    requires forall i | i in ins :: InRange(i)
    ensures StreamLanded(n, Exec(n, hbm, ins))
  {
    hide Exec, PackInv, IsGroup, MemInv;
    ExecInv(n, hbm, ins);
    ExecMem(n, hbm, ins);
    var r := Exec(n, hbm, ins);
    BeatsAreGroups(n, r);
  }

  // ---- the protocol ------------------------------------------------------------------

  /** What the slave may see at each place of an endless stream of bursts: an
      address, sixteen beats with `last` on the sixteenth only, a response. */
  function Pattern(k: nat): Event {
    var j := k % 18;
    if j == 0 then AddressTaken else if j == 17 then Responded else DataTaken(j == 16)
  }

  /** Where the machine is within the pattern. */
  function Place(s: State): nat {
    match s.phase
    case Idle => 0
    case Aw => 0
    case W => 1 + s.beat
    case B => 17
  }

  predicate TraceInv(r: Run) {
    && (forall k | 0 <= k < |r.trace| :: r.trace[k] == Pattern(k))
    && |r.trace| % 18 == Place(r.s)
    && (r.s.phase == W ==> r.s.beat < BURST)
  }

  lemma NextPlace(k: nat)
    ensures (k + 1) % 18 == if k % 18 == 17 then 0 else k % 18 + 1
  {
  }

  lemma TraceStep(n: Packing, r: Run, i: Input)
    requires Shaped(n, r.s) && TraceInv(r)
    ensures TraceInv(Advance(n, r, i))
  {
    hide Packer, Landed;
    var q := Advance(n, r, i);
    NextPlace(|r.trace|);
    if !Flushes(r.s, i) {
      assert q.trace == r.trace + EventOf(r.s, i);
      EventFits(r.s, i, |r.trace|);
    }
  }

  lemma EventFits(s: State, i: Input, k: nat)
    requires k % 18 == Place(s) && (s.phase == W ==> s.beat < BURST)
    ensures EventOf(s, i) == [] || EventOf(s, i) == [Pattern(k)]
  {
  }

  /** From reset on, over every run, each accepted address is followed by exactly
      sixteen beats, `last` on the last of them only, and then one response --
      also when an abort arrives in the middle of a burst. */
  lemma {:induction false} BurstsComplete(n: Packing, hbm: map<nat, seq<Lane>>, ins: seq<Input>)
    requires forall i | i in ins :: InRange(i)
    ensures TraceInv(Exec(n, hbm, ins))
  {
    if ins != [] {
      var front := ins[..|ins| - 1];
      BurstsComplete(n, hbm, front);
      TraceStep(n, Exec(n, hbm, front), ins[|ins| - 1]);
    }
  }

  /** In every run a data beat offered and not taken is offered again unchanged. */
  lemma DataHeld(n: Packing, hbm: map<nat, seq<Lane>>, ins: seq<Input>, i: Input)
    requires (forall j | j in ins :: InRange(j)) && !i.wReady
    ensures var s := Exec(n, hbm, ins).s;
      var t := Step(n, s, i);
      WValid(s) ==> WValid(t) && t.acc == s.acc && WLast(t) == WLast(s)
  {
    ExecInv(n, hbm, ins);
  }

  /** In every run an address is held the same way exactly when no abort arrives: the
      code may withdraw it, which section A3.2.1 of ARM IHI 0022E does not allow. */
  lemma AddressHeldIff(n: Packing, hbm: map<nat, seq<Lane>>, ins: seq<Input>, i: Input)
    requires (forall j | j in ins :: InRange(j)) && !i.awReady
    ensures var s := Exec(n, hbm, ins).s;
      var t := Step(n, s, i);
      AwValid(s) ==> (AwValid(t) <==> !i.abort) && (AwValid(t) ==> t.addr == s.addr)
  {
    ExecInv(n, hbm, ins);
  }

  /** A burst of sixteen beats stays inside a 4 KB page. */
  predicate StaysInPage(target: nat) {
    target % 4096 + 512 <= 4096
  }

  lemma PageOffset(base: nat, c: nat)
    ensures (base + 512 * c) % ADDR_SPACE % 4096 == (base / 512 + c) % 8 * 512 + base % 512
  {
    BlockOffset(base / 512 + c, base % 512);
  }

  lemma BlockOffset(q: nat, o: nat)
    requires o < 512
    ensures (512 * q + o) % ADDR_SPACE % 4096 == q % 8 * 512 + o
  {
    WrapKeepsOffset(512 * q + o);
    PageOf(q / 8, q % 8 * 512 + o);
    assert 512 * q + o == 4096 * (q / 8) + (q % 8 * 512 + o);
  }

  lemma PageOf(p: nat, o: nat)
    requires o < 4096
    ensures (4096 * p + o) % 4096 == o
  {
  }

  lemma WrapKeepsOffset(x: nat)
    ensures x % ADDR_SPACE % 4096 == x % 4096
  {
    var a := x / ADDR_SPACE;
    assert x == 4096 * (0x20_0000 * a) + x % ADDR_SPACE;
  }

  /** No burst of any transfer from `base` leaves its page just when the base
      address is a multiple of the burst size. */
  lemma PagesIff(base: nat)
    requires base < ADDR_SPACE
    ensures (forall c: nat :: StaysInPage((base + 512 * c) % ADDR_SPACE)) <==> base % 512 == 0
  {
    if base % 512 == 0 {
      forall c: nat
        ensures StaysInPage((base + 512 * c) % ADDR_SPACE)
      {
        PageOffset(base, c);
      }
    } else {
      var c := 7 - base / 512 % 8;
      PageOffset(base, c);
      assert (base / 512 + c) % 8 == 7;
      assert !StaysInPage((base + 512 * c) % ADDR_SPACE);
    }
  }

  // ---- the end of a transfer ------------------------------------------------------------

  function Blocks(bytes: nat): nat {
    (bytes + 511) / 512
  }

  /** AXI handshakes still to come in this transfer. */
  function Pending(s: State): nat
    requires s.phase == W ==> s.beat < BURST
  {
    match s.phase
    case Idle => 0
    case Aw => 18 * Blocks(s.remain)
    case W => 17 - s.beat + 18 * Blocks(Saturating(s.remain, 32 * (16 - s.beat)))
    case B => 1 + 18 * Blocks(s.remain)
  }

  /** Source words the accumulator still lacks. */
  function Room(n: Packing, s: State): nat
    requires s.half < n
  {
    if s.full then 0 else n - s.half
  }

  predicate Counts(s: State) {
    s.phase == W ==> s.beat < BURST
  }

  predicate Decreases(n: Packing, s: State, i: Input)
    requires Shaped(n, s) && Counts(s)
  {
    var t := Step(n, s, i);
    && Counts(t)
    && (t.phase != Idle ==> Pending(t) == Pending(s) - |EventOf(s, i)|)
    && (t.phase == Idle && !s.aborting ==> Pending(s) == 0)
    && (EventOf(s, i) == [] && Accepts(s, i) ==> Room(n, t) < Room(n, s))
    && (EventOf(s, i) == [] && !Accepts(s, i) ==> Room(n, t) == Room(n, s))
  }

  lemma NextBlock(remain: nat)
    requires remain > 0
    ensures Blocks(remain) == 1 + Blocks(Saturating(remain, 512))
  {
  }

  lemma AddressDecreases(n: Packing, s: State, i: Input)
    requires Shaped(n, s) && s.phase == Aw
    ensures Decreases(n, s, i)
  {
    if s.remain > 0 { NextBlock(s.remain); }
  }

  lemma DataDecreases(n: Packing, s: State, i: Input)
    requires Shaped(n, s) && s.phase == W && Counts(s) && (s.full ==> s.half == 0)
    ensures Decreases(n, s, i)
  {
    var t := Step(n, s, i);
    if Taken(s, i) {
      assert t.remain == Saturating(s.remain, 32);
      assert Saturating(s.remain, 32 * (16 - s.beat)) == Saturating(t.remain, 32 * (15 - s.beat));
    }
  }

  lemma ResponseDecreases(n: Packing, s: State, i: Input)
    requires Shaped(n, s) && s.phase == B
    ensures Decreases(n, s, i)
  {
  }

  lemma EdgeDecreases(n: Packing, s: State, i: Input)
    requires Shaped(n, s) && Counts(s) && s.phase != Idle && (s.full ==> s.half == 0)
    ensures Decreases(n, s, i)
  {
    match s.phase
    case Aw => AddressDecreases(n, s, i);
    case W => DataDecreases(n, s, i);
    case B => ResponseDecreases(n, s, i);
  }

  /** In every run, every AXI handshake takes one from what is pending, and no other edge
      of a running transfer adds to it; a source word taken on its own fills room.  So the
      pair decreases lexicographically with every handshake, and a transfer that no abort
      cuts short makes exactly `Pending` of them. */
  lemma HandshakesDecrease(n: Packing, hbm: map<nat, seq<Lane>>, ins: seq<Input>, i: Input)
    requires forall j | j in ins :: InRange(j)
    ensures var s := Exec(n, hbm, ins).s;
      Counts(s) && (s.phase != Idle ==> Decreases(n, s, i))
  {
    ExecInv(n, hbm, ins);
    var s := Exec(n, hbm, ins).s;
    if s.phase != Idle { EdgeDecreases(n, s, i); }
  }

  // ---- whatever it waits for comes, and so a transfer ends --------------------------------

  /** An endless feed of inputs. */
  type Feed = nat -> Input

  /** Does an edge bring what the engine is waiting for: an address handshake, a source word
      or, with a beat packed, a data handshake, or a response?  A slave raises `bValid` only
      in B, where a response is due. */
  predicate Helps(s: State, i: Input) {
    match s.phase
    case Idle => true
    case Aw => s.aborting || s.remain == 0 || i.awReady
    case W => if s.full then i.wReady else i.srcValid
    case B => i.bValid
  }

  /** The state after the first k edges of a feed. */
  function Fed(n: Packing, s: State, feed: Feed, k: nat): (t: State)
    requires Shaped(n, s)
    ensures Shaped(n, t)
  {
    if k == 0 then s else Step(n, Fed(n, s, feed, k - 1), feed(k - 1))
  }

  ghost predicate HelpFrom(n: Packing, s: State, feed: Feed, j: nat)
    requires Shaped(n, s)
  {
    exists k: nat :: j <= k && Helps(Fed(n, s, feed, k), feed(k))
  }

  /** However often it stalls, what the engine is waiting for comes in the end. */
  ghost predicate Fair(n: Packing, s: State, feed: Feed)
    requires Shaped(n, s)
  {
    forall j: nat :: HelpFrom(n, s, feed, j)
  }

  /** An edge that brings it makes a handshake or ends the transfer. */
  lemma NeverStuck(n: Packing, s: State, i: Input)
    requires Shaped(n, s) && s.phase != Idle && Helps(s, i)
    ensures EventOf(s, i) != [] || Accepts(s, i) || Step(n, s, i).phase == Idle
  {
  }

  predicate Sound(n: Packing, s: State) {
    Shaped(n, s) && Counts(s) && (s.full ==> s.half == 0)
  }

  lemma SoundStep(n: Packing, s: State, i: Input)
    requires Sound(n, s) && s.phase != Idle
    ensures Sound(n, Step(n, s, i))
    ensures Step(n, s, i).phase == Idle ==> s.aborting || Step(n, s, i).done
    ensures !s.aborting && !i.abort ==> !Step(n, s, i).aborting
  {
    EdgeDecreases(n, s, i);
  }

  /** The pair that decreases: handshakes pending, then room in the accumulator. */
  predicate Nearer(n: Packing, t: State, s: State)
    requires Sound(n, s) && Sound(n, t)
  {
    Pending(t) < Pending(s) || (Pending(t) == Pending(s) && Room(n, t) < Room(n, s))
  }

  predicate AsNear(n: Packing, t: State, s: State)
    requires Sound(n, s) && Sound(n, t)
  {
    Nearer(n, t, s) || (Pending(t) == Pending(s) && Room(n, t) == Room(n, s))
  }

  /** What an edge of a running transfer comes to. */
  predicate Onward(n: Packing, s: State, i: Input, t: State)
    requires Sound(n, s)
  {
    && Sound(n, t)
    && (t.phase == Idle ==> s.aborting || t.done)
    && (!s.aborting && !i.abort ==> !t.aborting)
    && (t.phase != Idle ==> AsNear(n, t, s) && (Helps(s, i) ==> Nearer(n, t, s)))
  }

  lemma EdgeEnds(n: Packing, s: State, i: Input)
    requires Sound(n, s) && s.phase != Idle
    ensures Onward(n, s, i, Step(n, s, i))
  {
    hide Step, Pending, Room, EventOf, Accepts, Helps;
    SoundStep(n, s, i);
    EdgeDecreases(n, s, i);
    if Helps(s, i) { NeverStuck(n, s, i); }
  }

  lemma FedNext(n: Packing, s: State, feed: Feed, j: nat, next: nat)
    requires Shaped(n, s) && next == j + 1
    ensures Fed(n, s, feed, next) == Step(n, Fed(n, s, feed, j), feed(j))
  {
    hide Step;
  }

  lemma FedEdge(n: Packing, s: State, feed: Feed, j: nat, next: nat)
    requires Shaped(n, s) && Sound(n, Fed(n, s, feed, j)) && Fed(n, s, feed, j).phase != Idle && next == j + 1
    ensures Onward(n, Fed(n, s, feed, j), feed(j), Fed(n, s, feed, next))
  {
    hide Onward, Step, Fed;
    FedNext(n, s, feed, j, next);
    EdgeEnds(n, Fed(n, s, feed, j), feed(j));
  }

  /** From edge j of a feed a transfer still running ends at some edge, done if nothing
      has aborted it; m is an edge to come that helps. */
  lemma EndsFrom(n: Packing, s: State, feed: Feed, j: nat, m: nat) returns (k: nat)
    requires Shaped(n, s) && Sound(n, Fed(n, s, feed, j)) && Fair(n, s, feed)
    requires Fed(n, s, feed, j).phase != Idle && j <= m && Helps(Fed(n, s, feed, m), feed(m))
    ensures k > j && Fed(n, s, feed, k).phase == Idle
    ensures (forall e: nat :: !feed(e).abort) && !Fed(n, s, feed, j).aborting ==> Fed(n, s, feed, k).done
    decreases Pending(Fed(n, s, feed, j)), Room(n, Fed(n, s, feed, j)), m - j
  {
    hide Fed, Step, Pending, Room, Helps;
    var next := j + 1;
    FedEdge(n, s, feed, j, next);
    if Fed(n, s, feed, next).phase == Idle {
      k := next;
    } else if j < m {
      k := EndsFrom(n, s, feed, next, m);
    } else {
      assert HelpFrom(n, s, feed, next);
      var later: nat :| next <= later && Helps(Fed(n, s, feed, later), feed(later));
      k := EndsFrom(n, s, feed, next, later);
    }
  }

  ghost predicate Unaborted(s: State, feed: Feed) { !s.aborting && forall e: nat :: !feed(e).abort }

  /** The transfer is over at edge k, and unless it was aborted it ended done. */
  ghost predicate EndsAt(n: Packing, s: State, feed: Feed, k: nat)
    requires Shaped(n, s)
  {
    && Fed(n, s, feed, k).phase == Idle
    && (s.phase != Idle && Unaborted(s, feed) ==> Fed(n, s, feed, k).done)
  }

  lemma StateEnds(n: Packing, s: State, feed: Feed)
    requires Sound(n, s) && Fair(n, s, feed)
    ensures exists k: nat :: EndsAt(n, s, feed, k)
  {
    if s.phase == Idle {
      assert EndsAt(n, s, feed, 0);
    } else {
      assert HelpFrom(n, s, feed, 0);
      var m: nat :| 0 <= m && Helps(Fed(n, s, feed, m), feed(m));
      var k := EndsFrom(n, s, feed, 0, m);
      assert EndsAt(n, s, feed, k);
    }
  }

  /** In every run a transfer ends, whatever stalls it meets on the way, so long as whatever
      it is waiting for always comes in the end; and unless it is aborted it ends done. */
  lemma TransferEnds(n: Packing, hbm: map<nat, seq<Lane>>, ins: seq<Input>, feed: Feed)
    requires (forall i | i in ins :: InRange(i)) && Fair(n, Exec(n, hbm, ins).s, feed)
    ensures exists k: nat :: EndsAt(n, Exec(n, hbm, ins).s, feed, k)
  {
    ExecInv(n, hbm, ins);
    StateEnds(n, Exec(n, hbm, ins).s, feed);
  }

  // an environment that watches the engine

  type Environment = (nat, State) -> Input

  function Watched(n: Packing, s: State, env: Environment, k: nat): (t: State)
    requires Shaped(n, s)
    ensures Shaped(n, t)
  {
    if k == 0 then s
    else
      var t := Watched(n, s, env, k - 1);
      Step(n, t, env(k - 1, t))
  }

  function FeedOf(n: Packing, s: State, env: Environment): Feed
    requires Shaped(n, s)
  {
    (k: nat) => env(k, Watched(n, s, env, k))
  }

  lemma {:induction false} WatchedIsFed(n: Packing, s: State, env: Environment, k: nat)
    requires Shaped(n, s)
    ensures Fed(n, s, FeedOf(n, s, env), k) == Watched(n, s, env, k)
  {
    hide Step;
    if k > 0 { WatchedIsFed(n, s, env, k - 1); }
  }

  /** It answers on some edges and stalls on others, but never stops answering. */
  ghost predicate Answers(env: Environment, times: nat -> nat) {
    && (forall j: nat :: j <= times(j))
    && (forall j: nat, s: State :: Helps(s, env(times(j), s)))
  }

  /** Any such environment is fair, a slave that raises `bValid` only when a response is
      due among them: its transfers end. */
  lemma AnsweredEnds(n: Packing, s: State, env: Environment, times: nat -> nat)
    requires Sound(n, s) && Answers(env, times)
    ensures Fair(n, s, FeedOf(n, s, env))
    ensures exists k: nat :: EndsAt(n, s, FeedOf(n, s, env), k)
  {
    var feed := FeedOf(n, s, env);
    forall j: nat ensures HelpFrom(n, s, feed, j) {
      var k := times(j);
      WatchedIsFed(n, s, env, k);
      assert Helps(Fed(n, s, feed, k), feed(k));
    }
    StateEnds(n, s, feed);
  }

  /** One that answers every third edge, and responds only when a response is due. */
  function EveryThird(k: nat, s: State): Input {
    var now := k % 3 == 0;
    Input(false, false, 0, 0, now, 0, now, now, now && BReady(s), 0)
  }

  lemma PoliteSlave(n: Packing, s: State)
    requires Sound(n, s)
    ensures exists k: nat :: EndsAt(n, s, FeedOf(n, s, EveryThird), k)
  {
    var times := (j: nat) => 3 * j;
    forall j: nat, t: State ensures Helps(t, EveryThird(times(j), t)) {
    }
    AnsweredEnds(n, s, EveryThird, times);
  }

  predicate WroteItsLength(r: Run) {
    |r.beats| == 16 * Blocks(r.length) && r.s.written == 512 * Blocks(r.length) % TWO32
  }

  lemma DoneWrote(r: Run)
    requires BurstInv(r) && r.s.done
    ensures WroteItsLength(r)
  {
    var c := |r.targets|;
    assert r.length <= 512 * c && (c > 0 ==> r.length > 512 * (c - 1));
    assert Blocks(r.length) == c;
  }

  /** A transfer reported done has written its length rounded up to whole bursts,
      in the counter's thirty-two bits. */
  lemma DoneMeansWritten(n: Packing, hbm: map<nat, seq<Lane>>, ins: seq<Input>)
    requires forall i | i in ins :: InRange(i)
    ensures var r := Exec(n, hbm, ins);
      r.s.done ==> WroteItsLength(r)
  {
    var r := Exec(n, hbm, ins);
    ExecInv(n, hbm, ins);
    if r.s.done { DoneWrote(r); }
  }
}
