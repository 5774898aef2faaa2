/**
 Calls of emacInterfaceInput as runs of the combined driver, and the run after which such a
 call, if the IP task refuses its list, does not return.
 */
module EthernetCalls {
  import opened Prelude
  import opened Ring
  import opened EthernetChain
  import opened EthernetDriver
  import T = EthernetTx
  import R = EthernetRx
  import V = EthernetReceive

  // ----- a call is a run

  function DrainSteps(gots: seq<Option<Buf>>): seq<Step> {
    if gots == [] then [DrainBegin] else DrainSteps(gots[..|gots| - 1]) + [DrainNext(gots[|gots| - 1])]
  }

  lemma {:induction false} RunsThen(s: Driver, steps: seq<Step>, step: Step)
    requires Runs(s, steps) && Enabled(Final(s, steps), step)
    ensures Runs(s, steps + [step]) && Final(s, steps + [step]) == Next(Final(s, steps), step)
    decreases |steps|
  {
    var longer := steps + [step];
    if steps == [] {
      assert longer[1..] == [];
    } else {
      assert longer[1..] == steps[1..] + [step];
      RunsThen(Next(s, steps[0]), steps[1..], step);
    }
  }

  /** The drain loop with nothing in between is a run of the driver that takes its replacements from the pool. */
  lemma {:induction false} DrainIsRun(s: Driver, gots: seq<Option<Buf>>)
    requires R.MayBegin(s.rx) && s.tx.sweep.NoSweep?
    requires V.Drains(R.Begin(s.rx), gots) && V.Taken(gots) <= s.pool
    ensures Runs(s, DrainSteps(gots))
    ensures Final(s, DrainSteps(gots)) == s.(rx := V.Drained(R.Begin(s.rx), gots), pool := s.pool - V.Taken(gots))
  {
    if gots == [] {
      RunsThen(s, [], DrainBegin);
      assert [] + [DrainBegin] == [DrainBegin];
    } else {
      var front, got := gots[..|gots| - 1], gots[|gots| - 1];
      TakenBefore(V.Taken(front), AsBag(got), s.pool);
      DrainIsRun(s, front);
      RunsThen(s, DrainSteps(front), DrainNext(got));
    }
  }

  lemma TakenBefore(front: multiset<Buf>, last: multiset<Buf>, pool: multiset<Buf>)
    requires front + last <= pool
    ensures front <= pool && last <= pool - front && pool - front - last == pool - (front + last)
  {
    forall b ensures front[b] <= pool[b] && last[b] <= (pool - front)[b] {
      assert (front + last)[b] <= pool[b];
    }
  }

  /** The whole call, if it returns: the state it leaves is where the run ends. */
  lemma CallIsRun(s: Driver, gots: seq<Option<Buf>>, x: R.Rx, sent: bool, rounds: nat)
    requires Framed(s) && s.tx.sweep.NoSweep? && V.Visited(s.rx, gots, x) && V.Taken(gots) <= s.pool
    requires V.Finishes(x.drain.chain, sent, rounds)
    ensures var steps := DrainSteps(gots) + [DrainEnd(sent, OnList(x.drain.chain))];
            && Runs(s, steps) && Final(s, steps).rx == R.End(x) && Final(s, steps).tx == s.tx
            && V.HandedOver(x.drain.chain, sent, rounds, s.pool - V.Taken(gots), s.held,
                            Final(s, steps).pool, Final(s, steps).held)
  {
    var steps, list := DrainSteps(gots), OnList(x.drain.chain);
    DrainIsRun(s, gots);
    RunKeepsFramed(s, steps);
    WalkEnds(x.drain.chain);
    HandsOverList(Final(s, steps), sent, list);
    RunsThen(s, steps, DrainEnd(sent, list));
  }

  lemma BootIsFramed(s: Driver, stock: set<Buf>)
    requires Booted(s, stock)
    ensures Framed(s)
  {
    BootIsSound(s, stock);
    SoundIsFramed(s, stock);
  }

  /**
   In every run from start-up, stale or not, a drain hands over the list of its links, and
   its release comes to an end exactly when the two buffers linked last differ.
   */
  lemma BootedRunHandsOver(s: Driver, steps: seq<Step>, stock: set<Buf>)
    requires Booted(s, stock) && Runs(s, steps) && R.MayEnd(Final(s, steps).rx)
    ensures var t := Final(s, steps);
            && (exists list :: Enabled(t, DrainEnd(true, list)))
            && ((exists list :: Enabled(t, DrainEnd(false, list))) <==> !Circular(t.rx.drain.chain))
            && (forall sent, list :: Enabled(t, DrainEnd(sent, list)) ==> list == OnList(t.rx.drain.chain))
  {
    var t := Final(s, steps);
    BootIsFramed(s, stock);
    RunKeepsFramed(s, steps);
    var list := OnList(t.rx.drain.chain);
    HandsOverList(t, true, list);
    HandsOverList(t, false, list);
    assert Enabled(t, DrainEnd(true, list));
    assert !Circular(t.rx.drain.chain) ==> Enabled(t, DrainEnd(false, list));
    forall sent, l ensures Enabled(t, DrainEnd(sent, l)) ==> l == list && (sent || !Circular(t.rx.drain.chain)) {
      HandsOverList(t, sent, l);
    }
  }

  /** What the call finds and links. */
  ghost predicate ReturnsClean(x: R.Rx, gots: seq<Option<Buf>>, sent: bool) {
    && R.Walkable(x) && R.PendingDistinct(x) && |gots| <= |x.ring|
    && var chain := V.AcceptedBuffers(x, gots);
    && Distinct(chain) && OnList(chain) == chain
    && forall rounds: nat :: |chain| <= rounds ==> V.Finishes(chain, sent, rounds) && Walk(chain, rounds) == chain
  }

  lemma DistinctReturns(chain: seq<Buf>, sent: bool, rounds: nat)
    requires Distinct(chain) && |chain| <= rounds
    ensures OnList(chain) == chain && V.Finishes(chain, sent, rounds) && Walk(chain, rounds) == chain
  {
    DistinctIsWhole(chain);
    WalkEnds(chain);
  }

  lemma OrderedReturns(x: R.Rx, gots: seq<Option<Buf>>, sent: bool)
    requires R.Ordered(x) && R.MayBegin(x) && V.Drains(R.Begin(x), gots)
    ensures ReturnsClean(x, gots, sent)
  {
    R.OrderedDistinct(x);
    R.OrderedWalks(x);
    V.DrainWalks(R.Begin(x), gots);
    V.DistinctPending(x, gots);
    var chain := V.AcceptedBuffers(x, gots);
    DistinctIsWhole(chain);
    forall rounds: nat | |chain| <= rounds ensures V.Finishes(chain, sent, rounds) && Walk(chain, rounds) == chain {
      DistinctReturns(chain, sent, rounds);
    }
  }

  /**
   In every run from start-up without a stale drain no two pending frames share a buffer, so
   that the next call links each accepted buffer once and returns, whatever the IP task does.
   */
  lemma CleanRunCallReturns(s: Driver, steps: seq<Step>, stock: set<Buf>, gots: seq<Option<Buf>>, sent: bool)
    requires Booted(s, stock) && Runs(s, steps) && NeverStale(s, steps)
    requires var x := Final(s, steps).rx; R.MayBegin(x) && V.Drains(R.Begin(x), gots)
    ensures ReturnsClean(Final(s, steps).rx, gots, sent)
  {
    BootIsSound(s, stock);
    RunKeepsSound(s, steps, stock);
    OrderedReturns(Final(s, steps).rx, gots, sent);
  }

  // ----- the run that ends in a circle

  lemma Then(s: Driver, steps: seq<Step>, step: Step) returns (longer: seq<Step>, t: Driver)
    requires Framed(s) && Runs(s, steps) && Enabled(Final(s, steps), step)
    ensures Runs(s, longer) && t == Final(s, longer) == Next(Final(s, steps), step) && Framed(t)
  {
    RunsThen(s, steps, step);
    longer := steps + [step];
    RunKeepsFramed(s, longer);
    t := Final(s, longer);
  }

  /** Nothing is pending, no task of the interface is at work, and the first two descriptors hold the same buffer. */
  predicate Twin(s: Driver, n: nat, p: Buf, q: Buf) {
    && n >= 2 && |s.rx.ring| == n && s.rx.drain.NoDrain? && s.tx.sweep.NoSweep? && R.Pending(s.rx) == 0
    && s.rx.ring[0].buf == s.rx.ring[1].buf && multiset{p, q} <= s.pool
  }

  lemma FrameComes(s: Driver, steps: seq<Step>, a: R.Arrival) returns (longer: seq<Step>, t: Driver)
    requires Framed(s) && Runs(s, steps) && Framed(Final(s, steps))
    requires var x := Final(s, steps); R.Pending(x.rx) < |x.rx.ring|
    ensures Runs(s, longer) && t == Final(s, longer) && Framed(t)
    ensures var x := Final(s, steps);
            && R.MayArrive(x.rx) && t == x.(rx := R.Arrive(x.rx, a))
  {
    longer, t := Then(s, steps, Receive(a));
  }

  // ----- the first drain: a wanted and a filtered frame

  /** Two frames have arrived in the first two descriptors. */
  ghost predicate TwoWait(s: Driver, stock: set<Buf>, wanted: R.Arrival, other: R.Arrival) {
    && Sound(s, stock) && s.rx.drain.NoDrain? && s.tx.sweep.NoSweep?
    && s.rx.cur == 0 && s.rx.arrived == [wanted, other] && s.rx.outcomes == []
  }

  lemma TwoFramesCome(s: Driver, stock: set<Buf>, wanted: R.Arrival, other: R.Arrival)
    returns (steps: seq<Step>, t: Driver)
    requires Booted(s, stock)
    ensures Runs(s, steps) && t == Final(s, steps) && TwoWait(t, stock, wanted, other)
    ensures t.tx == s.tx && t.pool == s.pool && |t.rx.ring| == |s.rx.ring|
  {
    BootIsIdle(s, stock);
    BootIsFramed(s, stock);
    var u := Arrives(s, stock, wanted);
    u := Arrives(u, stock, other);
    steps, t := FrameComes(s, [], wanted);
    steps, t := FrameComes(s, steps, other);
  }

  /** The wanted frame is drained. */
  lemma WantedDrained(s: Driver, before: seq<Step>, stock: set<Buf>, b: Buf, wanted: R.Arrival, other: R.Arrival)
    returns (steps: seq<Step>, t: Driver)
    requires Framed(s) && Runs(s, before) && TwoWait(Final(s, before), stock, wanted, other)
    requires b in Final(s, before).pool && R.Acceptable(wanted)
    ensures Runs(s, steps) && t == Final(s, steps) && Sound(t, stock)
    ensures t.rx.drain.Draining? && t.rx.drain.spare == Some(b)
    ensures t.rx.arrived == [wanted, other] && |t.rx.outcomes| == 1 && t.rx.cur == 1 && |t.rx.drain.chain| == 1
    ensures var x := Final(s, before); t.tx == x.tx && t.pool == x.pool - multiset{b} && |t.rx.ring| == |x.rx.ring|
  {
    StepKeepsSound(Final(s, before), DrainBegin, stock);
    steps, t := Then(s, before, DrainBegin);
    WantedLeavesSpare(t, stock, b);
    steps, t := Then(s, steps, DrainNext(Some(b)));
  }

  /** The next frame is filtered: the replacement is installed again, next to where it is. */
  lemma StaleInstalls(x: R.Rx)
    requires R.Walkable(x) && R.MayDrain(x) && R.Stale(x) && x.cur == 1 && R.Pending(x) == 1 && |x.ring| >= 2
    ensures var y := R.DrainNext(x, None);
            && R.MayEnd(y) && |y.ring| == |x.ring| && y.ring[0].buf == y.ring[1].buf && y.cur == Succ(1, |x.ring|)
            && R.Pending(y) == 0 && y.drain.chain == x.drain.chain
  {
    R.DrainKeepsWalkable(x, None);
  }

  lemma FirstFramesDrained(s: Driver, stock: set<Buf>, b: Buf, wanted: R.Arrival, other: R.Arrival)
    returns (steps: seq<Step>, t: Driver)
    requires Booted(s, stock) && b in s.pool && R.Acceptable(wanted) && !R.Acceptable(other)
    ensures Runs(s, steps) && t == Final(s, steps) && Framed(t) && R.MayEnd(t.rx)
    ensures |t.rx.ring| == |s.rx.ring| && t.rx.ring[0].buf == t.rx.ring[1].buf && t.rx.cur == Succ(1, |s.rx.ring|)
    ensures t.tx == s.tx && t.pool == s.pool - multiset{b} && R.Pending(t.rx) == 0 && |t.rx.drain.chain| == 1
  {
    BootIsFramed(s, stock);
    steps, t := TwoFramesCome(s, stock, wanted, other);
    steps, t := WantedDrained(s, steps, stock, b, wanted, other);
    SoundIsFramed(t, stock);
    FilteredIsStale(t, stock);
    StaleInstalls(t.rx);
    steps, t := Then(s, steps, DrainNext(None));
  }

  /** A list of one buffer is refused and released. */
  lemma OneReleased(s: Driver, before: seq<Step>, q: Buf) returns (steps: seq<Step>, t: Driver)
    requires Framed(s) && Runs(s, before) && Framed(Final(s, before)) && R.MayEnd(Final(s, before).rx)
    requires Final(s, before).rx.drain.chain == [q]
    ensures Runs(s, steps) && t == Final(s, steps) && Framed(t)
    ensures var x := Final(s, before); t == x.(rx := R.End(x.rx), pool := x.pool + multiset{q})
  {
    DistinctIsWhole([q]);
    BagOfOne(q);
    HandsOverList(Final(s, before), false, [q]);
    steps, t := Then(s, before, DrainEnd(false, [q]));
  }

  lemma BagOfOne(q: Buf)
    ensures multiset([q]) == multiset{q}
  {
  }

  lemma TwinFromBoot(s: Driver, stock: set<Buf>, b: Buf, p: Buf, wanted: R.Arrival, other: R.Arrival)
    returns (steps: seq<Step>, t: Driver, q: Buf)
    requires Booted(s, stock) && multiset{b, p} <= s.pool && R.Acceptable(wanted) && !R.Acceptable(other)
    ensures Runs(s, steps) && t == Final(s, steps) && Framed(t)
    ensures Twin(t, |s.rx.ring|, p, q) && t.rx.cur == Succ(1, |s.rx.ring|)
  {
    BootIsFramed(s, stock);
    assert multiset{b, p}[b] >= 1;
    steps, t := FirstFramesDrained(s, stock, b, wanted, other);
    q := t.rx.drain.chain[0];
    PoolGrows(s.pool, b, p, q);
    steps, t := OneReleased(s, steps, q);
  }

  lemma PoolGrows(pool: multiset<Buf>, b: Buf, p: Buf, q: Buf)
    requires multiset{b, p} <= pool
    ensures multiset{p, q} <= pool - multiset{b} + multiset{q}
  {
    forall c ensures multiset{p, q}[c] <= (pool - multiset{b} + multiset{q})[c] {
      assert multiset{b, p}[c] <= pool[c];
    }
  }

  // ----- filtered frames turn the ring

  /** A frame comes and is drained without a replacement. */
  lemma FrameDropped(x: R.Rx, a: R.Arrival)
    requires R.Walkable(x) && x.drain.NoDrain? && R.Pending(x) == 0 && !R.Acceptable(a)
    ensures R.MayArrive(x) && R.MayDrain(R.Begin(R.Arrive(x, a)))
    ensures var y := R.DrainNext(R.Begin(R.Arrive(x, a)), None);
            && R.MayEnd(y) && y.drain.chain == [] && R.Covers(y.heap, y.drain.first, [])
            && |y.ring| == |x.ring| && y.cur == Succ(x.cur, |x.ring|) && R.Pending(y) == 0
            && forall j :: 0 <= j < |x.ring| ==> y.ring[j].buf == x.ring[j].buf
  {
    R.ArriveKeepsWalkable(x, a);
    var y := R.Begin(R.Arrive(x, a));
    assert Rel(y.cur, y.cur, |y.ring|) == 0;
    R.DrainKeepsWalkable(y, None);
  }

  lemma OneTurn(s: Driver, before: seq<Step>, other: R.Arrival, n: nat, p: Buf, q: Buf)
    returns (steps: seq<Step>, t: Driver)
    requires Framed(s) && Runs(s, before) && Framed(Final(s, before)) && Twin(Final(s, before), n, p, q)
    requires !R.Acceptable(other)
    ensures Runs(s, steps) && t == Final(s, steps) && Framed(t)
    ensures Twin(t, n, p, q) && t.rx.cur == Succ(Final(s, before).rx.cur, n)
  {
    FrameDropped(Final(s, before).rx, other);
    steps, t := Then(s, before, Receive(other));
    steps, t := Then(s, steps, DrainBegin);
    steps, t := Then(s, steps, DrainNext(None));
    steps, t := Then(s, steps, DrainEnd(true, []));
  }

  lemma {:induction false} TurnToStart(s: Driver, before: seq<Step>, other: R.Arrival, n: nat, p: Buf, q: Buf)
    returns (steps: seq<Step>, t: Driver)
    requires Framed(s) && Runs(s, before) && Framed(Final(s, before)) && Twin(Final(s, before), n, p, q)
    requires !R.Acceptable(other)
    ensures Runs(s, steps) && t == Final(s, steps) && Framed(t)
    ensures Twin(t, n, p, q) && t.rx.cur == 0
    decreases if Final(s, before).rx.cur == 0 then 0 else n - Final(s, before).rx.cur
  {
    if Final(s, before).rx.cur == 0 {
      steps, t := before, Final(s, before);
    } else {
      steps, t := OneTurn(s, before, other, n, p, q);
      steps, t := TurnToStart(s, steps, other, n, p, q);
    }
  }

  // ----- two wanted frames in the same buffer

  /** Two wanted frames came to the first two descriptors, which share a buffer, and the drain began. */
  predicate TwinWaits(x: R.Rx, n: nat) {
    && n >= 2 && |x.ring| == n && x.cur == 0 && x.ring[0].buf == x.ring[1].buf
    && x.drain == R.Draining(None, None, None, 0, []) && R.Pending(x) == 2
    && R.Wanted(x.ring[0], x.heap) && R.Wanted(x.ring[1], x.heap)
  }

  lemma TwinComes(x: R.Rx, a: R.Arrival, n: nat)
    requires R.Walkable(x) && x.drain.NoDrain? && R.Pending(x) == 0 && R.Acceptable(a)
    requires n >= 2 && |x.ring| == n && x.cur == 0 && x.ring[0].buf == x.ring[1].buf
    ensures R.MayArrive(x) && R.MayArrive(R.Arrive(x, a))
    ensures var y := R.Arrive(R.Arrive(x, a), a); R.MayBegin(y) && TwinWaits(R.Begin(y), n)
  {
    R.ArriveKeepsWalkable(x, a);
  }

  lemma TwinLinks(x: R.Rx, n: nat, p: Buf, q: Buf)
    requires R.Walkable(x) && TwinWaits(x, n)
    ensures R.MayDrain(x) && R.MayDrain(R.DrainNext(x, Some(p)))
    ensures var y := R.DrainNext(x, Some(p)); R.Wanted(y.ring[y.cur], y.heap) && y.ring[y.cur] == x.ring[1]
    ensures R.DrainNext(R.DrainNext(x, Some(p)), Some(q)).drain.chain == [x.ring[0].buf, x.ring[0].buf]
    ensures R.MayEnd(R.DrainNext(R.DrainNext(x, Some(p)), Some(q)))
  {
    assert Rel(0, 0, n) == 0 && Rel(0, 1, n) == 1;
    R.DrainKeepsWalkable(x, Some(p));
    R.DrainKeepsWalkable(R.DrainNext(x, Some(p)), Some(q));
  }

  lemma SharedFramesDrained(s: Driver, before: seq<Step>, wanted: R.Arrival, n: nat, p: Buf, q: Buf)
    returns (steps: seq<Step>, t: Driver)
    requires Framed(s) && Runs(s, before) && Framed(Final(s, before)) && Twin(Final(s, before), n, p, q)
    requires Final(s, before).rx.cur == 0 && R.Acceptable(wanted)
    ensures Runs(s, steps) && t == Final(s, steps) && Framed(t)
    ensures R.MayEnd(t.rx) && Circular(t.rx.drain.chain)
  {
    TwinComes(Final(s, before).rx, wanted, n);
    steps, t := Then(s, before, Receive(wanted));
    steps, t := Then(s, steps, Receive(wanted));
    steps, t := Then(s, steps, DrainBegin);
    TwinLinks(t.rx, n, p, q);
    steps, t := Then(s, steps, DrainNext(Some(p)));
    steps, t := Then(s, steps, DrainNext(Some(q)));
  }

  /**
   From every start-up state with two free buffers some run drains two accepted frames from
   the same buffer: the list leads to itself, and no number of rounds of the release loop ends.
   */
  lemma StartUpCircles(s: Driver, stock: set<Buf>, b: Buf, p: Buf, wanted: R.Arrival, other: R.Arrival)
    returns (steps: seq<Step>, t: Driver)
    requires Booted(s, stock) && multiset{b, p} <= s.pool && R.Acceptable(wanted) && !R.Acceptable(other)
    ensures Runs(s, steps) && t == Final(s, steps)
    ensures R.MayEnd(t.rx) && Circular(t.rx.drain.chain)
    ensures forall rounds: nat :: !V.Finishes(t.rx.drain.chain, false, rounds)
    ensures forall list :: !Enabled(t, DrainEnd(false, list))
  {
    BootIsFramed(s, stock);
    var n, q := |s.rx.ring|, b;
    steps, t, q := TwinFromBoot(s, stock, b, p, wanted, other);
    steps, t := TurnToStart(s, steps, other, n, p, q);
    steps, t := SharedFramesDrained(s, steps, wanted, n, p, q);
    WalkEnds(t.rx.drain.chain);
    forall list ensures !Enabled(t, DrainEnd(false, list)) {
      HandsOverList(t, false, list);
    }
  }
}
