/** What an abort of the DMA writer comes to, and what the engine's other counters count, in
    every run and without a look inside the engine: by the events the slave sees. */
module HbmWriterAborts {
  import opened Widths
  import opened HbmWriter
  import opened HbmWriterRuns

  // ---- a run that goes on over a feed ---------------------------------------------------------

  /** The run after k more edges. */
  function After(n: Packing, r: Run, feed: Feed, k: nat): (q: Run)
    requires Shaped(n, r.s)
    ensures Shaped(n, q.s)
  {
    if k == 0 then r else Advance(n, After(n, r, feed, k - 1), feed(k - 1))
  }

  lemma AfterNext(n: Packing, r: Run, feed: Feed, k: nat, next: nat)
    requires Shaped(n, r.s) && next == k + 1
    ensures After(n, r, feed, next) == Advance(n, After(n, r, feed, k), feed(k))
  {
    hide Advance;
  }

  lemma {:induction false} AfterIsFed(n: Packing, r: Run, feed: Feed, k: nat)
    requires Shaped(n, r.s)
    ensures After(n, r, feed, k).s == Fed(n, r.s, feed, k)
  {
    hide Step;
    if k > 0 {
      AfterIsFed(n, r, feed, k - 1);
      AdvanceSteps(n, After(n, r, feed, k - 1), feed(k - 1));
    }
  }

  lemma AdvanceSteps(n: Packing, r: Run, i: Input)
    requires Shaped(n, r.s)
    ensures Advance(n, r, i).s == Step(n, r.s, i)
  {
    hide Step, Landed, EventOf;
  }

  /** The engine is busy throughout the first k edges and after them. */
  predicate BusyFor(n: Packing, r: Run, feed: Feed, k: nat)
    requires Shaped(n, r.s)
  {
    After(n, r, feed, k).s.phase != Idle && (k == 0 || BusyFor(n, r, feed, k - 1))
  }

  /** It comes to rest at edge k and not before. */
  predicate RestsAt(n: Packing, r: Run, feed: Feed, k: nat)
    requires Shaped(n, r.s)
  {
    After(n, r, feed, k).s.phase == Idle && k > 0 && BusyFor(n, r, feed, k - 1)
  }

  // ---- after an abort ---------------------------------------------------------------------------

  /** What an aborted run has done since: no new address, so no new burst, and no done. */
  predicate Stopping(r: Run, q: Run) {
    && q.targets == r.targets && r.trace <= q.trace && AddressTaken !in q.trace[|r.trace|..]
    && q.base == r.base && q.length == r.length && !q.s.done
  }

  lemma StoppingEdge(n: Packing, r: Run, q: Run, i: Input)
    requires Shaped(n, q.s) && Stopping(r, q) && q.s.phase != Idle && q.s.aborting
    ensures Stopping(r, Advance(n, q, i))
    ensures Advance(n, q, i).s.phase != Idle ==> Advance(n, q, i).s.aborting
  {
    hide Packer, Landed;
    var p := Advance(n, q, i);
    assert p.trace == q.trace + EventOf(q.s, i);
    assert p.trace[|r.trace|..] == q.trace[|r.trace|..] + EventOf(q.s, i);
  }

  lemma {:induction false} StoppingFor(n: Packing, r: Run, feed: Feed, k: nat)
    requires Shaped(n, r.s) && r.s.aborting && !r.s.done && BusyFor(n, r, feed, k)
    ensures Stopping(r, After(n, r, feed, k)) && After(n, r, feed, k).s.aborting
  {
    if k > 0 {
      StoppingFor(n, r, feed, k - 1);
      StoppingEdge(n, r, After(n, r, feed, k - 1), feed(k - 1));
      hide Stopping, Advance;
    }
  }

  /** The edge an abort arrives on, the transfer still running behind it. */
  predicate AbortedBy(n: Packing, q: Run, i: Input)
    requires Shaped(n, q.s)
  {
    i.abort && InRange(i) && Advance(n, q, i).s.phase != Idle
  }

  lemma AbortLatched(n: Packing, q: Run, i: Input)
    requires Shaped(n, q.s) && BurstInv(q) && AbortedBy(n, q, i)
    ensures Advance(n, q, i).s.aborting && !Advance(n, q, i).s.done
    ensures BurstInv(Advance(n, q, i))
  {
    BurstStep(n, q, i);
    hide BurstInv, Packer, Landed, EventOf;
  }

  /** In every run, once an abort has arrived no address is taken until the engine is back
      at rest, for as long as that may be. */
  lemma AbortTakesNoAddress(n: Packing, hbm: map<nat, seq<Lane>>, ins: seq<Input>, i: Input, feed: Feed, k: nat)
    requires (forall j | j in ins :: InRange(j)) && AbortedBy(n, Exec(n, hbm, ins), i)
    requires BusyFor(n, Advance(n, Exec(n, hbm, ins), i), feed, k)
    ensures Stopping(Advance(n, Exec(n, hbm, ins), i), After(n, Advance(n, Exec(n, hbm, ins), i), feed, k))
  {
    ExecInv(n, hbm, ins);
    hide Exec, Advance, Stopping, AbortedBy, PackInv, BurstInv;
    AbortLatched(n, Exec(n, hbm, ins), i);
    StoppingFor(n, Advance(n, Exec(n, hbm, ins), i), feed, k);
  }

  /** At rest after an abort: not done, with the bursts addressed before it written whole
      and nothing else. */
  predicate Stopped(r: Run, q: Run) {
    && Stopping(r, q) && q.s.phase == Idle
    && |q.beats| == 16 * |r.targets| && q.s.written == 512 * |r.targets| % TWO32
  }

  lemma {:induction false} BurstsFor(n: Packing, r: Run, feed: Feed, k: nat)
    requires Shaped(n, r.s) && BurstInv(r) && BusyFor(n, r, feed, k)
    ensures BurstInv(After(n, r, feed, k))
  {
    if k > 0 {
      BurstsFor(n, r, feed, k - 1);
      BusyBurst(n, After(n, r, feed, k - 1), feed(k - 1));
      hide BurstInv, Advance;
    }
  }

  lemma BusyBurst(n: Packing, r: Run, i: Input)
    requires Shaped(n, r.s) && BurstInv(r) && r.s.phase != Idle
    ensures BurstInv(Advance(n, r, i))
  {
    hide BurstInv, Advance;
    match r.s.phase
    case Aw => BurstAw(n, r, i);
    case W => BurstW(n, r, i);
    case B => BurstB(n, r, i);
  }

  lemma RestStops(n: Packing, r: Run, feed: Feed, k: nat)
    requires Shaped(n, r.s) && BurstInv(r) && r.s.aborting && !r.s.done && RestsAt(n, r, feed, k)
    ensures Stopped(r, After(n, r, feed, k))
  {
    var j := k - 1;
    StoppingFor(n, r, feed, j);
    BurstsFor(n, r, feed, j);
    var q := After(n, r, feed, j);
    assert q.s.phase != Idle;
    StoppingEdge(n, r, q, feed(j));
    BusyBurst(n, q, feed(j));
    hide Advance, Stopping;
  }

  /** What has come to rest at some edge first came to rest at some edge. */
  lemma FirstRest(n: Packing, r: Run, feed: Feed, k: nat) returns (j: nat)
    requires Shaped(n, r.s) && r.s.phase != Idle && After(n, r, feed, k).s.phase == Idle
    ensures RestsAt(n, r, feed, j) && j <= k
  {
    hide Advance;
    var e := 0;
    while After(n, r, feed, e).s.phase != Idle
      invariant e <= k && (e > 0 ==> BusyFor(n, r, feed, e - 1))
      decreases k - e
    {
      e := e + 1;
    }
    j := e;
  }

  predicate StopsAt(n: Packing, r: Run, feed: Feed, k: nat)
    requires Shaped(n, r.s)
  {
    RestsAt(n, r, feed, k) && Stopped(r, After(n, r, feed, k))
  }

  /** In every run an abort stops the transfer: if whatever the engine waits for always comes
      in the end, it comes to rest, not done, with no address taken since, and with what is
      written exactly the bursts addressed by then. */
  lemma AbortStops(n: Packing, hbm: map<nat, seq<Lane>>, ins: seq<Input>, i: Input, feed: Feed)
    requires (forall j | j in ins :: InRange(j)) && AbortedBy(n, Exec(n, hbm, ins), i)
    requires Fair(n, Advance(n, Exec(n, hbm, ins), i).s, feed)
    ensures exists k: nat :: StopsAt(n, Advance(n, Exec(n, hbm, ins), i), feed, k)
  {
    var q := Exec(n, hbm, ins);
    ExecInv(n, hbm, ins);
    var r := Advance(n, q, i);
    AbortLatched(n, q, i);
    PackStep(n, q, i);
    hide Exec, Advance, Stopped, BurstInv;
    BusySound(n, r);
    StateEnds(n, r.s, feed);
    var e: nat :| EndsAt(n, r.s, feed, e);
    AfterIsFed(n, r, feed, e);
    var k := FirstRest(n, r, feed, e);
    RestStops(n, r, feed, k);
    assert StopsAt(n, r, feed, k);
  }

  lemma BusySound(n: Packing, r: Run)
    requires PackInv(n, r) && BurstInv(r)
    ensures Sound(n, r.s)
  {
  }

  // ---- and without one ----------------------------------------------------------------------------

  /** An edge that starts a transfer, with no abort on it. */
  predicate CleanStart(n: Packing, q: Run, i: Input) {
    q.s.phase == Idle && i.start && !i.abort && InRange(i)
  }

  predicate FinishesAt(n: Packing, r: Run, feed: Feed, k: nat)
    requires Shaped(n, r.s)
  {
    RestsAt(n, r, feed, k) && After(n, r, feed, k).s.done
  }

  lemma {:induction false} CleanFor(n: Packing, r: Run, feed: Feed, k: nat)
    requires Shaped(n, r.s) && !r.s.aborting && (forall e: nat :: !feed(e).abort) && BusyFor(n, r, feed, k)
    ensures !After(n, r, feed, k).s.aborting
  {
    if k > 0 {
      hide Advance;
      CleanFor(n, r, feed, k - 1);
      CleanEdge(n, After(n, r, feed, k - 1), feed(k - 1));
    }
  }

  lemma CleanEdge(n: Packing, q: Run, i: Input)
    requires Shaped(n, q.s) && q.s.phase != Idle && !q.s.aborting && !i.abort
    ensures !Advance(n, q, i).s.aborting && (Advance(n, q, i).s.phase == Idle ==> Advance(n, q, i).s.done)
  {
    hide Packer, Landed, EventOf;
  }

  /** In every run a transfer started and not aborted since finishes, whatever was aborted
      before it. */
  lemma CleanStartFinishes(n: Packing, hbm: map<nat, seq<Lane>>, ins: seq<Input>, i: Input, feed: Feed)
    requires (forall j | j in ins :: InRange(j)) && CleanStart(n, Exec(n, hbm, ins), i)
    requires Fair(n, Advance(n, Exec(n, hbm, ins), i).s, feed) && forall e: nat :: !feed(e).abort
    ensures exists k: nat :: FinishesAt(n, Advance(n, Exec(n, hbm, ins), i), feed, k)
  {
    hide Exec, Advance, BurstInv, PackInv, CleanStart, InRange;
    var q := Exec(n, hbm, ins);
    ExecInv(n, hbm, ins);
    CleanStarted(n, q, i);
    CleanFinishes(n, Advance(n, q, i), feed);
  }

  lemma CleanStarted(n: Packing, q: Run, i: Input)
    requires PackInv(n, q) && BurstInv(q) && CleanStart(n, q, i)
    ensures var r := Advance(n, q, i); PackInv(n, r) && BurstInv(r) && r.s.phase != Idle && !r.s.aborting
  {
    BurstStep(n, q, i);
    PackStep(n, q, i);
    hide BurstInv, PackInv, Packer, Landed, EventOf;
  }

  lemma CleanFinishes(n: Packing, r: Run, feed: Feed)
    requires PackInv(n, r) && BurstInv(r) && r.s.phase != Idle && !r.s.aborting
    requires Fair(n, r.s, feed) && forall e: nat :: !feed(e).abort
    ensures exists k: nat :: FinishesAt(n, r, feed, k)
  {
    BusySound(n, r);
    hide BurstInv, PackInv, Advance, Sound, Step;
    StateEnds(n, r.s, feed);
    var e: nat :| EndsAt(n, r.s, feed, e);
    AfterIsFed(n, r, feed, e);
    var k := FirstRest(n, r, feed, e);
    RestFinishes(n, r, feed, k);
    assert FinishesAt(n, r, feed, k);
  }

  lemma RestFinishes(n: Packing, r: Run, feed: Feed, k: nat)
    requires Shaped(n, r.s) && !r.s.aborting && (forall e: nat :: !feed(e).abort) && RestsAt(n, r, feed, k)
    ensures After(n, r, feed, k).s.done
  {
    hide Advance;
    var j := k - 1;
    CleanFor(n, r, feed, j);
    CleanEdge(n, After(n, r, feed, j), feed(j));
    AfterNext(n, r, feed, j, k);
    assert After(n, r, feed, j).s.phase != Idle;
  }

  // ---- the other counters ---------------------------------------------------------------------------

  function Count(trace: seq<Event>, e: Event): nat {
    if trace == [] then 0 else Count(trace[..|trace| - 1], e) + (if trace[|trace| - 1] == e then 1 else 0)
  }

  /** The response of the last burst answered in a run, whichever transfer it was in. */
  function LastResponse(n: Packing, hbm: map<nat, seq<Lane>>, ins: seq<Input>): nat
    requires forall i | i in ins :: InRange(i)
  {
    if ins == [] then 0
    else
      var front, i := ins[..|ins| - 1], ins[|ins| - 1];
      if EventOf(Exec(n, hbm, front).s, i) == [Responded] then i.bResp else LastResponse(n, hbm, front)
  }

  lemma CountNext(trace: seq<Event>, more: seq<Event>, e: Event)
    requires |more| <= 1
    ensures Count(trace + more, e) == Count(trace, e) + (if more == [e] then 1 else 0)
  {
    if more == [] {
      assert trace + more == trace;
    } else {
      assert (trace + more)[..|trace|] == trace;
    }
  }

  /** In every run the bursts counter is the addresses taken since reset, in 32 bits, and the
      response register holds the last one given. */
  lemma {:induction false} CountersCount(n: Packing, hbm: map<nat, seq<Lane>>, ins: seq<Input>)
    requires forall i | i in ins :: InRange(i)
    ensures var r := Exec(n, hbm, ins);
      && r.s.bursts == Count(r.trace, AddressTaken) % TWO32
      && r.s.resp == LastResponse(n, hbm, ins)
  {
    hide Advance, EventOf, Reset;
    if ins == [] {
      CountersReset(n);
    } else {
      var front, i := ins[..|ins| - 1], ins[|ins| - 1];
      var q := Exec(n, hbm, front);
      CountersCount(n, hbm, front);
      CountEdge(n, q, i);
      CountNext(q.trace, EventOf(q.s, i), AddressTaken);
      OneMore(Count(q.trace, AddressTaken));
    }
  }

  lemma CountersReset(n: Packing)
    ensures Reset(n).bursts == 0 && Reset(n).resp == 0
  {
  }

  lemma OneMore(c: nat)
    ensures (c % TWO32 + 1) % TWO32 == (c + 1) % TWO32
  {
  }

  lemma CountEdge(n: Packing, q: Run, i: Input)
    requires Shaped(n, q.s)
    ensures var r := Advance(n, q, i);
      && r.trace == q.trace + EventOf(q.s, i) && |EventOf(q.s, i)| <= 1
      && r.s.bursts == (if EventOf(q.s, i) == [AddressTaken] then (q.s.bursts + 1) % TWO32 else q.s.bursts)
      && r.s.resp == if EventOf(q.s, i) == [Responded] then i.bResp else q.s.resp
  {
    hide Packer, Landed;
  }
}
