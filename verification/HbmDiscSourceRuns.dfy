/** Whole runs of the disc source: what the drive's sector buffer receives for
    each request, when, and from where in HBM. */
module HbmDiscSourceRuns {
  import opened HbmAxi
  import opened HbmDiscSource

  /** One write into the sector buffer. */
  datatype Strobe = Strobe(time: nat, addr: nat, data: Word)

  /** The engine with what has happened since it accepted the current request;
      `burst` and `index` are the slave's own copy of the burst being read. */
  datatype Run = Run(
    s: State, now: nat, base: nat, lba: nat,
    strobes: seq<Strobe>, bursts: seq<nat>, index: nat, dones: nat)

  type Memory = nat -> Word

  /** The eight words at a beat's byte address. */
  function BeatAt(mem: Memory, a: nat): (b: seq<Word>)
    ensures |b| == 8
  {
    seq(8, (j: nat) => mem(a + 4 * j))
  }

  predicate Serving(p: Phase) {
    p != Idle && p != Wait
  }

  /** What the environment owes: a request that is being served keeps its sector,
      and the j-th beat of a burst carries the memory 32 j bytes on from its start. */
  predicate Honest(mem: Memory, r: Run, i: Input) {
    && InRange(i)
    && (Serving(r.s.phase) ==> i.base == r.base && i.lba == r.lba)
    && (RTaken(r.s, i) && |r.bursts| > 0 ==> i.rData == BeatAt(mem, Aligned(r.bursts[|r.bursts| - 1]) + 32 * r.index))
  }

  function Advance(throttle: Throttle, r: Run, i: Input): Run
    requires Shaped(r.s) && InRange(i)
  {
    var s, t := r.s, Step(throttle, r.s, i);
    if s.phase == Idle && t.phase == Ar then
      Run(t, r.now + 1, i.base, i.lba, [], [], 0, 0)
    else
      r.(s := t,
         now := r.now + 1,
         strobes := r.strobes + (if FillWe(s) then [Strobe(r.now, s.word, s.shift[0])] else []),
         bursts := r.bursts + (if ArTaken(s, i) then [ArAddr(s, i)] else []),
         index := if ArTaken(s, i) then 0 else if RTaken(s, i) then r.index + 1 else r.index,
         dones := r.dones + (if FillDone(s) then 1 else 0))
  }

  function Fresh(): Run {
    Run(Reset(), 0, 0, 0, [], [], 0, 0)
  }

  /** A run the environment keeps honest throughout. */
  predicate Possible(throttle: Throttle, mem: Memory, r: Run, ins: seq<Input>)
    requires Shaped(r.s)
    decreases |ins|
  {
    ins != [] ==>
      && Honest(mem, r, ins[0])
      && Possible(throttle, mem, Advance(throttle, r, ins[0]), ins[1..])
  }

  function Exec(throttle: Throttle, mem: Memory, r: Run, ins: seq<Input>): (q: Run)
    requires Shaped(r.s) && Possible(throttle, mem, r, ins)
    ensures Shaped(q.s)
    decreases |ins|
  {
    if ins == [] then r
    else Exec(throttle, mem, Advance(throttle, r, ins[0]), ins[1..])
  }

  // ---- the sector, word by word -----------------------------------------------------

  /** Byte address of burst `c` of a sector, in the port's thirty-three bits. */
  function BurstAddr(base: nat, lba: nat, c: nat): nat {
    (base + lba * 2048 + c * 512) % ADDR_SPACE
  }

  /** Byte address of word `w` of a sector: 128 words to a burst. */
  function WordAddr(base: nat, lba: nat, w: nat): nat {
    Aligned(BurstAddr(base, lba, w / 128)) + 4 * (w % 128)
  }

  /** Unless the sector runs off the end of HBM, its words follow one another, and from
      the very byte asked for exactly when the base is a multiple of a beat. */
  lemma WordsAreConsecutive(base: nat, lba: nat, w: nat)
    requires w < 512 && base + 2048 * lba + 2048 <= ADDR_SPACE
    ensures WordAddr(base, lba, w) == Aligned(base) + 2048 * lba + 4 * w
    ensures WordAddr(base, lba, w) == base + 2048 * lba + 4 * w <==> base % 32 == 0
  {
    var c := w / 128;
    assert BurstAddr(base, lba, c) == base + 32 * (64 * lba + 16 * c);
    AlignedAhead(base, 64 * lba + 16 * c);
  }

  /** The sector a request names, as it lies in HBM. */
  function Sector(mem: Memory, base: nat, lba: nat): (sec: seq<Word>)
    ensures |sec| == 512
  {
    seq<Word>(512, (w: nat) => mem(WordAddr(base, lba, w)))
  }

  /** Every strobe so far is the next word of the sector, and they keep their
      distance. */
  predicate StrobesInv(throttle: Throttle, sec: seq<Word>, strobes: seq<Strobe>) {
    && |strobes| <= |sec|
    && (forall k | 0 <= k < |strobes| :: strobes[k].addr == k && strobes[k].data == sec[k])
    && (forall k | 0 < k < |strobes| :: strobes[k].time >= strobes[k - 1].time + throttle)
  }

  /** Cycles since the last strobe. */
  function Since(r: Run): int
    requires r.strobes != []
  {
    r.now - r.strobes[|r.strobes| - 1].time
  }

  predicate BurstsInv(r: Run) {
    forall c | 0 <= c < |r.bursts| :: r.bursts[c] == BurstAddr(r.base, r.lba, c)
  }

  /** The counters and the histories agree, state by state. */
  predicate PlaceInv(throttle: Throttle, sec: seq<Word>, r: Run)
    requires |sec| == 512
  {
    var s, b, k := r.s, |r.bursts|, |r.strobes|;
    && Shaped(s)
    && (s.phase != Emit ==> s.emit == 0 && s.gap == 0)
    && (s.phase != Drain ==> s.drain == 0)
    && (Serving(s.phase) ==> r.dones == 0)
    && (match s.phase
        case Idle => true
        case Ar => s.beat == 16 * b < BEATS && s.word == 8 * s.beat == k && (k > 0 ==> Since(r) >= throttle)
        case R => 0 < b <= 4 && s.beat == 16 * (b - 1) + r.index && r.index < 16
                  && s.word == 8 * s.beat == k && (k > 0 ==> Since(r) >= throttle)
        case Emit =>
          && 0 < b <= 4 && s.beat == 16 * (b - 1) + r.index && 1 <= r.index <= 16
          && s.emit < 8 && s.gap < throttle
          && s.word == 8 * (s.beat - 1) + s.emit
          && k == s.word + (if s.gap > 0 then 1 else 0)
          && (k > 0 ==> Since(r) >= (if s.gap > 0 then s.gap else throttle))
          && (forall j | 0 <= j < 8 - s.emit :: s.shift[j] == sec[s.word + j])
        case Drain => s.beat == BEATS && b == 4 && k == 512 && s.drain < 64 && Since(r) >= throttle + s.drain
        case Done => s.beat == BEATS && b == 4 && k == 512 && Since(r) >= throttle + 64
        case Wait => b == 4 && k == 512 && r.dones == 1)
  }

  predicate Inv(throttle: Throttle, mem: Memory, r: Run) {
    var sec := Sector(mem, r.base, r.lba);
    PlaceInv(throttle, sec, r) && StrobesInv(throttle, sec, r.strobes) && BurstsInv(r)
  }

  // ---- every edge keeps it ------------------------------------------------------------

  lemma PlaceKept(throttle: Throttle, sec: seq<Word>, r: Run, i: Input)
    requires |sec| == 512 && InRange(i)
    requires PlaceInv(throttle, sec, r) && r.s.phase in {Ar, Drain, Done, Wait}
    ensures PlaceInv(throttle, sec, Advance(throttle, r, i))
  {
  }

  lemma PlaceKeptR(throttle: Throttle, sec: seq<Word>, r: Run, i: Input)
    requires |sec| == 512 && InRange(i)
    requires PlaceInv(throttle, sec, r) && r.s.phase == R
    requires i.rValid ==> forall k | 0 <= k < 8 :: i.rData[k] == sec[r.s.word + k]
    ensures PlaceInv(throttle, sec, Advance(throttle, r, i))
  {
  }

  /** A strobe goes out on the first cycle of each word. */
  lemma StrobeKept(throttle: Throttle, sec: seq<Word>, r: Run, i: Input)
    requires |sec| == 512 && InRange(i)
    requires PlaceInv(throttle, sec, r) && StrobesInv(throttle, sec, r.strobes) && r.s.phase == Emit
    ensures var q := Advance(throttle, r, i);
      && StrobesInv(throttle, sec, q.strobes)
      && |q.strobes| == r.s.word + 1 && Since(q) >= r.s.gap + 1
  {
    if FillWe(r.s) {
      assert r.s.shift[0] == sec[r.s.word + 0];
    }
  }

  lemma PlaceKeptEmit(throttle: Throttle, sec: seq<Word>, r: Run, i: Input)
    requires |sec| == 512 && InRange(i)
    requires PlaceInv(throttle, sec, r) && r.s.phase == Emit
    requires |Advance(throttle, r, i).strobes| == r.s.word + 1 && Since(Advance(throttle, r, i)) >= r.s.gap + 1
    ensures PlaceInv(throttle, sec, Advance(throttle, r, i))
  {
    var q := Advance(throttle, r, i);
    if r.s.gap == throttle - 1 && r.s.emit < 7 {
      forall j | 0 <= j < 8 - q.s.emit
        ensures q.s.shift[j] == sec[q.s.word + j]
      {
        assert q.s.shift[j] == r.s.shift[j + 1];
      }
    }
  }

  /** Beat `j` of a burst holds eight consecutive words of the sector. */
  lemma BeatWords(mem: Memory, base: nat, lba: nat, c: nat, j: nat, k: nat)
    requires c < 4 && j < 16 && k < 8
    ensures BeatAt(mem, Aligned(BurstAddr(base, lba, c)) + 32 * j)[k] == Sector(mem, base, lba)[128 * c + 8 * j + k]
  {
    var w := 128 * c + (8 * j + k);
    assert w / 128 == c && w % 128 == 8 * j + k;
    assert Sector(mem, base, lba)[w] == mem(WordAddr(base, lba, w));
    assert WordAddr(base, lba, w) == Aligned(BurstAddr(base, lba, c)) + 32 * j + 4 * k;
  }

  lemma ReadIsSector(throttle: Throttle, mem: Memory, r: Run, i: Input)
    requires Inv(throttle, mem, r) && Honest(mem, r, i) && RTaken(r.s, i)
    ensures forall k | 0 <= k < 8 :: i.rData[k] == Sector(mem, r.base, r.lba)[r.s.word + k]
  {
    forall k | 0 <= k < 8
      ensures i.rData[k] == Sector(mem, r.base, r.lba)[r.s.word + k]
    {
      BeatWords(mem, r.base, r.lba, |r.bursts| - 1, r.index, k);
    }
  }

  lemma BurstsKept(throttle: Throttle, sec: seq<Word>, r: Run, i: Input)
    requires |sec| == 512 && InRange(i) && PlaceInv(throttle, sec, r) && BurstsInv(r)
    requires Serving(r.s.phase) ==> i.base == r.base && i.lba == r.lba
    ensures BurstsInv(Advance(throttle, r, i))
  {
    if ArTaken(r.s, i) {
      assert ArAddr(r.s, i) == BurstAddr(r.base, r.lba, |r.bursts|);
    }
  }

  /** An accepted request starts the histories afresh. */
  lemma AcceptedInv(throttle: Throttle, mem: Memory, r: Run, i: Input)
    requires Shaped(r.s) && InRange(i) && r.s.phase == Idle && r.s.emit == r.s.gap == r.s.drain == 0
    requires i.enable && i.req
    ensures Inv(throttle, mem, Advance(throttle, r, i))
  {
  }

  lemma Keeps(throttle: Throttle, mem: Memory, r: Run, i: Input)
    requires Inv(throttle, mem, r) && Honest(mem, r, i)
    ensures Inv(throttle, mem, Advance(throttle, r, i))
  {
    if r.s.phase == Idle {
      if i.enable && i.req { AcceptedInv(throttle, mem, r, i); }
    } else {
      KeepsServing(throttle, mem, r, i, Sector(mem, r.base, r.lba));
    }
  }

  lemma KeepsServing(throttle: Throttle, mem: Memory, r: Run, i: Input, sec: seq<Word>)
    requires Inv(throttle, mem, r) && Honest(mem, r, i) && r.s.phase != Idle
    requires sec == Sector(mem, r.base, r.lba)
    ensures Inv(throttle, mem, Advance(throttle, r, i))
  {
    BurstsKept(throttle, sec, r, i);
    if r.s.phase == R {
      if i.rValid { ReadIsSector(throttle, mem, r, i); }
      PlaceKeptR(throttle, sec, r, i);
    } else if r.s.phase == Emit {
      StrobeKept(throttle, sec, r, i);
      PlaceKeptEmit(throttle, sec, r, i);
    } else {
      PlaceKept(throttle, sec, r, i);
    }
  }

  lemma {:induction false} ExecKeeps(throttle: Throttle, mem: Memory, r: Run, ins: seq<Input>)
    requires Inv(throttle, mem, r) && Possible(throttle, mem, r, ins)
    ensures Inv(throttle, mem, Exec(throttle, mem, r, ins))
    decreases |ins|
  {
    if ins != [] {
      Keeps(throttle, mem, r, ins[0]);
      ExecKeeps(throttle, mem, Advance(throttle, r, ins[0]), ins[1..]);
    }
  }

  // ---- what the drive sees ---------------------------------------------------------------

  /** A sector delivered: four bursts, 512 strobes at addresses 0 to 511 in order,
      each carrying its own word of the sector, `throttle` cycles or more apart. */
  predicate SectorDelivered(throttle: Throttle, mem: Memory, r: Run) {
    && |r.bursts| == 4 && BurstsInv(r)
    && |r.strobes| == 512 && StrobesInv(throttle, Sector(mem, r.base, r.lba), r.strobes)
  }

  /** In every honest run: when done is pulsed the whole sector is in the buffer,
      the last word at least sixty-four cycles ago and a throttle more; and it
      is pulsed once for the request, with nothing written after it. */
  lemma DoneMeansDelivered(throttle: Throttle, mem: Memory, ins: seq<Input>)
    requires Possible(throttle, mem, Fresh(), ins)
    ensures var r := Exec(throttle, mem, Fresh(), ins);
      && (FillDone(r.s) ==> SectorDelivered(throttle, mem, r) && r.dones == 0 && Since(r) >= 64 + throttle)
      && (r.s.phase == Wait ==> SectorDelivered(throttle, mem, r) && r.dones == 1)
  {
    ExecKeeps(throttle, mem, Fresh(), ins);
  }

  /** And at every moment before that, what has been written is a prefix of the
      sector: the strobes are its first words, each at its own address. */
  lemma PrefixDelivered(throttle: Throttle, mem: Memory, ins: seq<Input>)
    requires Possible(throttle, mem, Fresh(), ins)
    ensures var r := Exec(throttle, mem, Fresh(), ins);
      StrobesInv(throttle, Sector(mem, r.base, r.lba), r.strobes)
  {
    ExecKeeps(throttle, mem, Fresh(), ins);
  }

  /** One cycle in WAIT serves nothing. */
  lemma WaitsForRelease(throttle: Throttle, s: State, i: Input)
    requires Shaped(s) && InRange(i) && s.phase == Wait
    ensures !FillWe(s) && !FillDone(s) && !ArTaken(s, i)
    ensures Step(throttle, s, i) == s.(phase := if i.req then Wait else Idle)
  {
  }

  predicate Holds(ins: seq<Input>) {
    forall k | 0 <= k < |ins| :: ins[k].req
  }

  /** A request held after its done is not served again, however long it is held: no
      burst, no strobe and no second done. */
  lemma {:induction false} HeldServesOnce(throttle: Throttle, mem: Memory, r: Run, ins: seq<Input>)
    requires Shaped(r.s) && r.s.phase == Wait && Possible(throttle, mem, r, ins) && Holds(ins)
    ensures Exec(throttle, mem, r, ins) == r.(now := r.now + |ins|)
    decreases |ins|
  {
    if ins != [] {
      WaitsForRelease(throttle, r.s, ins[0]);
      assert Advance(throttle, r, ins[0]) == r.(now := r.now + 1);
      HeldServesOnce(throttle, mem, Advance(throttle, r, ins[0]), ins[1..]);
    }
  }

  // ---- and it gets there -------------------------------------------------------------------

  function Rank(p: Phase): nat {
    match p
    case Emit => 4
    case Ar => 3
    case R => 2
    case Drain => 2
    case Done => 1
    case _ => 0
  }

  predicate Lower(a: (int, int, int, int, int), b: (int, int, int, int, int)) {
    a.0 < b.0 || (a.0 == b.0 && (a.1 < b.1 || (a.1 == b.1 && (a.2 < b.2 || (a.2 == b.2 &&
      (a.3 < b.3 || (a.3 == b.3 && a.4 < b.4)))))))
  }

  function Measure(throttle: Throttle, s: State): (int, int, int, int, int) {
    (BEATS - s.beat, Rank(s.phase), 8 - s.emit, throttle - s.gap, 64 - s.drain)
  }

  /** Waiting on the slave, for an address or for data. */
  predicate Stalled(s: State, i: Input) { (s.phase == Ar && !i.arReady) || (s.phase == R && !i.rValid) }

  lemma PlaceAdvances(throttle: Throttle, sec: seq<Word>, r: Run, i: Input)
    requires |sec| == 512 && PlaceInv(throttle, sec, r) && InRange(i) && Serving(r.s.phase)
    ensures var (s, t) := (r.s, Step(throttle, r.s, i));
      if Stalled(s, i) then t == s
      else
        var (m, n) := (Measure(throttle, s), Measure(throttle, t));
        Lower(n, m) && m.0 >= 0 && m.2 >= 0 && m.3 >= 0 && m.4 >= 0
  {
  }

  /** In every run, every cycle of a service brings its end nearer, in a lexicographic
      measure of naturals, but for those spent waiting on the slave, which change nothing. */
  lemma ServiceAdvances(throttle: Throttle, mem: Memory, ins: seq<Input>, i: Input)
    requires Possible(throttle, mem, Fresh(), ins) && InRange(i)
    ensures var s := Exec(throttle, mem, Fresh(), ins).s;
      var t := Step(throttle, s, i);
      Serving(s.phase) ==>
        if Stalled(s, i) then t == s
        else
          var (m, n) := (Measure(throttle, s), Measure(throttle, t));
          Lower(n, m) && m.0 >= 0 && m.2 >= 0 && m.3 >= 0 && m.4 >= 0
  {
    ExecKeeps(throttle, mem, Fresh(), ins);
    var r := Exec(throttle, mem, Fresh(), ins);
    if Serving(r.s.phase) { PlaceAdvances(throttle, Sector(mem, r.base, r.lba), r, i); }
  }

  /** An endless feed of inputs. */
  type Feed = nat -> Input

  ghost predicate Fits(feed: Feed) { forall k: nat :: InRange(feed(k)) }

  /** The run after the first k edges of a feed. */
  ghost function Fed(throttle: Throttle, r: Run, feed: Feed, k: nat): (q: Run)
    requires Shaped(r.s) && Fits(feed)
    ensures Shaped(q.s)
  {
    if k == 0 then r else Advance(throttle, Fed(throttle, r, feed, k - 1), feed(k - 1))
  }

  ghost predicate HonestFeed(throttle: Throttle, mem: Memory, r: Run, feed: Feed)
    requires Shaped(r.s) && Fits(feed)
  {
    forall k: nat :: Honest(mem, Fed(throttle, r, feed, k), feed(k))
  }

  ghost predicate HelpFrom(throttle: Throttle, r: Run, feed: Feed, j: nat)
    requires Shaped(r.s) && Fits(feed)
  {
    exists k: nat :: j <= k && !Stalled(Fed(throttle, r, feed, k).s, feed(k))
  }

  /** However often it stalls, the slave always takes an address and gives its data in the
      end. */
  ghost predicate Fair(throttle: Throttle, r: Run, feed: Feed)
    requires Shaped(r.s) && Fits(feed)
  {
    forall j: nat :: HelpFrom(throttle, r, feed, j)
  }

  lemma FedNext(throttle: Throttle, r: Run, feed: Feed, j: nat, next: nat)
    requires Shaped(r.s) && Fits(feed) && next == j + 1
    ensures Fed(throttle, r, feed, next) == Advance(throttle, Fed(throttle, r, feed, j), feed(j))
  {
    hide Advance;
  }

  /** What a cycle of a service that is not yet done comes to. */
  ghost predicate Onward(throttle: Throttle, mem: Memory, r: Run, i: Input, q: Run) {
    && Inv(throttle, mem, q) && Serving(q.s.phase) && q.base == r.base && q.lba == r.lba
    && if Stalled(r.s, i) then q.s == r.s
       else
         var (m, n) := (Measure(throttle, r.s), Measure(throttle, q.s));
         Lower(n, m) && m.0 >= 0 && m.2 >= 0 && m.3 >= 0 && m.4 >= 0
  }

  lemma ServiceEdge(throttle: Throttle, mem: Memory, r: Run, i: Input)
    requires Inv(throttle, mem, r) && Honest(mem, r, i) && Serving(r.s.phase) && !FillDone(r.s)
    ensures Onward(throttle, mem, r, i, Advance(throttle, r, i))
  {
    Keeps(throttle, mem, r, i);
    PlaceAdvances(throttle, Sector(mem, r.base, r.lba), r, i);
    hide Inv, PlaceInv, Honest, Measure, Lower;
  }

  /** From cycle j of a feed a service reaches its done; m is a cycle to come on which the
      slave does not stall it. */
  lemma EndsFrom(throttle: Throttle, mem: Memory, r: Run, feed: Feed, j: nat, m: nat) returns (k: nat)
    requires Shaped(r.s) && Fits(feed) && HonestFeed(throttle, mem, r, feed) && Fair(throttle, r, feed)
    requires Inv(throttle, mem, Fed(throttle, r, feed, j)) && Serving(Fed(throttle, r, feed, j).s.phase)
    requires j <= m && !Stalled(Fed(throttle, r, feed, m).s, feed(m))
    ensures var (q, p) := (Fed(throttle, r, feed, k), Fed(throttle, r, feed, j));
      Inv(throttle, mem, q) && FillDone(q.s) && q.base == p.base && q.lba == p.lba
    decreases BEATS - Fed(throttle, r, feed, j).s.beat, Rank(Fed(throttle, r, feed, j).s.phase),
      8 - Fed(throttle, r, feed, j).s.emit, throttle - Fed(throttle, r, feed, j).s.gap,
      64 - Fed(throttle, r, feed, j).s.drain, m - j
  {
    hide Fed, Inv, Honest, Advance, Rank, Serving, Stalled;
    var p := Fed(throttle, r, feed, j);
    if FillDone(p.s) {
      k := j;
    } else {
      var next := j + 1;
      ServiceEdge(throttle, mem, p, feed(j));
      FedNext(throttle, r, feed, j, next);
      if j < m {
        k := EndsFrom(throttle, mem, r, feed, next, m);
      } else {
        assert HelpFrom(throttle, r, feed, next);
        var later: nat :| next <= later && !Stalled(Fed(throttle, r, feed, later).s, feed(later));
        k := EndsFrom(throttle, mem, r, feed, next, later);
      }
    }
  }

  ghost predicate DeliveredAt(throttle: Throttle, mem: Memory, r: Run, feed: Feed, k: nat)
    requires Shaped(r.s) && Fits(feed)
  {
    var q := Fed(throttle, r, feed, k);
    FillDone(q.s) && q.base == r.base && q.lba == r.lba && SectorDelivered(throttle, mem, q)
  }

  /** In every run a service reaches its done, with the sector asked for delivered, so long
      as the slave always answers in the end. */
  lemma ServiceEnds(throttle: Throttle, mem: Memory, ins: seq<Input>, feed: Feed)
    requires Possible(throttle, mem, Fresh(), ins) && Serving(Exec(throttle, mem, Fresh(), ins).s.phase) && Fits(feed)
    requires HonestFeed(throttle, mem, Exec(throttle, mem, Fresh(), ins), feed)
    requires Fair(throttle, Exec(throttle, mem, Fresh(), ins), feed)
    ensures exists k: nat :: DeliveredAt(throttle, mem, Exec(throttle, mem, Fresh(), ins), feed, k)
  {
    var r := Exec(throttle, mem, Fresh(), ins);
    ExecKeeps(throttle, mem, Fresh(), ins);
    assert HelpFrom(throttle, r, feed, 0);
    var m: nat :| 0 <= m && !Stalled(Fed(throttle, r, feed, m).s, feed(m));
    var k := EndsFrom(throttle, mem, r, feed, 0, m);
    assert DeliveredAt(throttle, mem, r, feed, k);
  }

  // ---- the counters ---------------------------------------------------------------------------

  /** The services a run completes, and the last read response it takes. */
  function Served(throttle: Throttle, mem: Memory, r: Run, ins: seq<Input>): nat
    requires Shaped(r.s) && Possible(throttle, mem, r, ins)
    decreases |ins|
  {
    if ins == [] then 0
    else (if FillDone(r.s) then 1 else 0) + Served(throttle, mem, Advance(throttle, r, ins[0]), ins[1..])
  }

  function LastResponse(throttle: Throttle, mem: Memory, r: Run, ins: seq<Input>, first: nat): nat
    requires Shaped(r.s) && Possible(throttle, mem, r, ins)
    decreases |ins|
  {
    if ins == [] then first
    else
      LastResponse(throttle, mem, Advance(throttle, r, ins[0]), ins[1..],
                   if RTaken(r.s, ins[0]) then ins[0].rResp else first)
  }

  /** In every run the sectors counter goes up by one for each service completed, in sixteen
      bits, and the response register is the last one taken. */
  lemma {:induction false} CountersCount(throttle: Throttle, mem: Memory, r: Run, ins: seq<Input>)
    requires Shaped(r.s) && Possible(throttle, mem, r, ins) && r.s.served < 0x1_0000
    ensures var q := Exec(throttle, mem, r, ins);
      && q.s.served == (r.s.served + Served(throttle, mem, r, ins)) % 0x1_0000
      && q.s.resp == LastResponse(throttle, mem, r, ins, r.s.resp)
    decreases |ins|
  {
    if ins != [] {
      assert InRange(ins[0]);
      hide Advance, Honest;
      CountEdge(throttle, r, ins[0]);
      CountersCount(throttle, mem, Advance(throttle, r, ins[0]), ins[1..]);
    }
  }

  lemma CountEdge(throttle: Throttle, r: Run, i: Input)
    requires Shaped(r.s) && InRange(i)
    ensures var t := Advance(throttle, r, i).s;
      && Shaped(t)
      && t.served == (if FillDone(r.s) then (r.s.served + 1) % 0x1_0000 else r.s.served)
      && t.resp == (if RTaken(r.s, i) then i.rResp else r.s.resp)
  {
  }

  /** A service starts exactly on an idle edge with the enable and the request both up, and
      until then an idle engine keeps everything. */
  lemma StartsIff(throttle: Throttle, r: Run, i: Input)
    requires Shaped(r.s) && InRange(i) && r.s.phase == Idle
    ensures var q := Advance(throttle, r, i);
      if i.enable && i.req
      then q.s.phase == Ar && q.base == i.base && q.lba == i.lba && q.bursts == [] && q.strobes == []
      else q == r.(now := r.now + 1)
  {
  }
}
