/**
 Both directions of the network interface over one buffer pool, and the question
 the zero-copy design lives by: is every network buffer always in exactly one place?
 */
module EthernetDriver {
  import opened Prelude
  import opened Ring
  import opened EthernetChain
  import opened T = EthernetTx
  import R = EthernetRx

  /** `held` are the buffers in the hands of the IP stack and its callers. */
  datatype Driver = Driver(tx: Tx, rx: R.Rx, pool: multiset<Buf>, held: multiset<Buf>)

  datatype Step =
    | Transmit(step: TxStep)
    | Receive(arrival: R.Arrival)
    | DrainBegin
    | DrainNext(got: Option<Buf>)
    | DrainEnd(sent: bool, list: seq<Buf>)  // list: the buffers on the linked list
    | Obtain(b: Buf)
    | Release(b: Buf)

  /**
   The EMAC task either sweeps or drains. A drain may block while it waits for a
   buffer, so the output task can run during a drain but not during a sweep. The IP task
   takes whatever can be reached on the list; a list it refuses is released link by link,
   which is a step only if the list ends.
   */
  predicate Enabled(s: Driver, step: Step) {
    match step
    case Transmit(t) =>
      && T.Enabled(s.tx, t)
      && (t.SweepBegin? ==> s.rx.drain.NoDrain?)
      && (t.Call? ==> t.job.buf in s.held)
    case Receive(_) => R.MayArrive(s.rx)
    case DrainBegin => R.MayBegin(s.rx) && s.tx.sweep.NoSweep?
    case DrainNext(got) =>
      && R.MayDrain(s.rx)
      && (got.Some? ==> R.Wanted(s.rx.ring[s.rx.cur], s.rx.heap) && got.value in s.pool)
    case DrainEnd(sent, list) =>
      && R.MayEnd(s.rx)
      && (if sent then R.Covers(s.rx.heap, s.rx.drain.first, list) else R.Linked(s.rx.heap, s.rx.drain.first, list))
    case Obtain(b) => b in s.pool
    case Release(b) => b in s.held
  }

  /** Buffers a call took from the caller, and below those it left with the caller after all. */
  function Given(s: Tx, t: TxStep): multiset<Buf> {
    if t.Call? then multiset{t.job.buf} else multiset{}
  }

  function Returned(s: Tx, t: TxStep): multiset<Buf>
    requires T.Enabled(s, t)
  {
    match t
    case Call(job, linkUp) => if !linkUp && !job.release then multiset{job.buf} else multiset{}
    case Timeout => if !s.output.job.release then multiset{s.output.job.buf} else multiset{}
    case _ => multiset{}
  }

  function Next(s: Driver, step: Step): Driver
    requires Enabled(s, step)
  {
    match step
    case Transmit(t) =>
      s.(tx := T.Next(s.tx, t), pool := s.pool + Freed(s.tx, t),
         held := s.held - Given(s.tx, t) + Returned(s.tx, t))
    case Receive(a) => s.(rx := R.Arrive(s.rx, a))
    case DrainBegin => s.(rx := R.Begin(s.rx))
    case DrainNext(got) => s.(rx := R.DrainNext(s.rx, got), pool := s.pool - AsBag(got))
    case DrainEnd(sent, list) =>
      if sent then s.(rx := R.End(s.rx), held := s.held + multiset(list))
      else s.(rx := R.End(s.rx), pool := s.pool + multiset(list))
    case Obtain(b) => s.(pool := s.pool - multiset{b}, held := s.held + multiset{b})
    case Release(b) => s.(held := s.held - multiset{b}, pool := s.pool + multiset{b})
  }

  predicate Runs(s: Driver, steps: seq<Step>)
    decreases |steps|
  {
    steps == [] || (Enabled(s, steps[0]) && Runs(Next(s, steps[0]), steps[1..]))
  }

  function Final(s: Driver, steps: seq<Step>): Driver
    requires Runs(s, steps)
    decreases |steps|
  {
    if steps == [] then s else Final(Next(s, steps[0]), steps[1..])
  }

  // ----- where the buffers are

  function SlotBag(d: TxDesc): multiset<Buf> { AsBag(d.buf) }

  /** The descriptor the output task still answers for. */
  function OutputBag(o: Output): multiset<Buf> {
    if o.Waiting? || o.Taken? || o.Checked? || o.Stuck? then multiset{o.job.buf} else multiset{}
  }

  function TxBag(s: Tx): multiset<Buf> { OutputBag(s.output) + Gather(s.ring, SlotBag) }

  /** Every buffer, once for each place it is in. */
  function Total(s: Driver): multiset<Buf> { s.pool + s.held + TxBag(s.tx) + R.Bag(s.rx) }

  lemma TxSlotBag(ring: seq<TxDesc>, i: nat, d: TxDesc)
    requires i < |ring|
    ensures Gather(ring[i := d], SlotBag) + AsBag(ring[i].buf) == Gather(ring, SlotBag) + AsBag(d.buf)
    ensures ring[i].buf == d.buf ==> Gather(ring[i := d], SlotBag) == Gather(ring, SlotBag)
  {
    GatherUpdate(ring, SlotBag, i, d);
    assert SlotBag(ring[i]) == AsBag(ring[i].buf) && SlotBag(d) == AsBag(d.buf);
    if ring[i].buf == d.buf {
      Cancel(Gather(ring[i := d], SlotBag), Gather(ring, SlotBag), AsBag(d.buf));
    }
  }

  lemma HandsOver(s: Tx, t: TxStep)
    requires T.Enabled(s, t) && (t.Call? || t.Timeout?)
    ensures OutputBag(T.Next(s, t).output) + (Freed(s, t) + Returned(s, t)) == OutputBag(s.output) + Given(s, t)
  {
  }

  lemma HandOverConserves(s: Tx, t: TxStep)
    requires T.Enabled(s, t) && (t.Call? || t.Timeout?)
    ensures TxBag(T.Next(s, t)) + Freed(s, t) + Returned(s, t) == TxBag(s) + Given(s, t)
  {
    var o, o' := OutputBag(s.output), OutputBag(T.Next(s, t).output);
    HandsOver(s, t);
    assert T.Next(s, t).ring == s.ring;
    BesideBoth(o', Gather(s.ring, SlotBag), Freed(s, t), Returned(s, t), o, Given(s, t));
  }

  lemma ControlConserves(s: Tx, t: TxStep)
    requires T.Enabled(s, t)
    requires t.Take? || t.Check? || t.Advance? || t.SweepBegin? || t.SweepEnd?
    ensures TxBag(T.Next(s, t)) == TxBag(s)
  {
    assert T.Next(s, t).ring == s.ring;
    assert OutputBag(T.Next(s, t).output) == OutputBag(s.output);
  }

  lemma Beside(o': multiset<Buf>, ring: multiset<Buf>, out: multiset<Buf>, o: multiset<Buf>, given: multiset<Buf>)
    requires o' + out == o + given
    ensures (o' + ring) + out == (o + ring) + given
  {
    assert (o' + ring) + out == (o' + out) + ring;
    assert (o + ring) + given == (o + given) + ring;
  }

  lemma BesideBoth(o': multiset<Buf>, ring: multiset<Buf>, out: multiset<Buf>, back: multiset<Buf>,
                   o: multiset<Buf>, given: multiset<Buf>)
    requires o' + (out + back) == o + given
    ensures (o' + ring) + out + back == (o + ring) + given
  {
    Beside(o', ring, out + back, o, given);
    assert (o' + ring) + out + back == (o' + ring) + (out + back);
  }

  /** A step that only writes other fields of a descriptor. */
  lemma SameBuffers(s: Tx, s': Tx, i: nat, d: TxDesc)
    requires i < |s.ring| && s'.ring == s.ring[i := d] && d.buf == s.ring[i].buf
    requires OutputBag(s'.output) == OutputBag(s.output)
    ensures TxBag(s') == TxBag(s)
  {
    TxSlotBag(s.ring, i, d);
  }

  lemma RingConserves(s: Tx, t: TxStep)
    requires T.Enabled(s, t) && (t.Prepare? || t.Arm? || t.DmaDone?)
    ensures TxBag(T.Next(s, t)) == TxBag(s)
  {
    var s' := T.Next(s, t);
    var i := if t.DmaDone? then t.k else s.head;
    SameBuffers(s, s', i, s'.ring[i]);
  }

  lemma EntersRing(b: multiset<Buf>, ring': multiset<Buf>, ring: multiset<Buf>)
    requires ring' + multiset{} == ring + b
    ensures multiset{} + ring' == b + ring
  {
    assert multiset{} + ring' == ring' + multiset{};
  }

  lemma StoreConserves(s: Tx)
    requires T.Valid(s) && T.Enabled(s, Store)
    ensures TxBag(T.Next(s, Store)) == TxBag(s)
  {
    assert T.SlotOk(s, s.head);
    var d := s.ring[s.head].(buf := Some(s.output.job.buf));
    TxSlotBag(s.ring, s.head, d);
    EntersRing(AsBag(d.buf), Gather(s.ring[s.head := d], SlotBag), Gather(s.ring, SlotBag));
  }

  lemma SweepConserves(s: Tx)
    requires T.MayReclaim(s)
    ensures TxBag(T.Reclaim(s)) + AsBag(s.ring[s.tail].buf) == TxBag(s)
  {
    var d := s.ring[s.tail].(buf := None);
    TxSlotBag(s.ring, s.tail, d);
    LeavesRing(OutputBag(s.output), Gather(s.ring[s.tail := d], SlotBag), AsBag(s.ring[s.tail].buf),
               Gather(s.ring, SlotBag));
  }

  lemma LeavesRing(o: multiset<Buf>, ring': multiset<Buf>, out: multiset<Buf>, ring: multiset<Buf>)
    requires ring' + out == ring + multiset{}
    ensures (o + ring') + out == o + ring
  {
    assert (o + ring') + out == o + (ring' + out);
  }

  /** A transmit step moves buffers between ring, output task, pool and caller, and nothing else. */
  lemma TxConserves(s: Tx, t: TxStep)
    requires T.Valid(s) && T.Enabled(s, t)
    ensures TxBag(T.Next(s, t)) + Freed(s, t) + Returned(s, t) == TxBag(s) + Given(s, t)
  {
    match t
    case Store => StoreConserves(s);
    case Prepare => RingConserves(s, t);
    case Arm => RingConserves(s, t);
    case DmaDone(k) => RingConserves(s, t);
    case SweepNext => SweepConserves(s);
    case Call(_, _) => HandOverConserves(s, t);
    case Timeout => HandOverConserves(s, t);
    case _ => ControlConserves(s, t);
  }

  predicate IsStale(s: Driver, step: Step)
    requires Enabled(s, step)
  {
    step.DrainNext? && R.Stale(s.rx)
  }

  lemma EndBag(s: R.Rx)
    requires R.MayEnd(s)
    ensures R.Bag(R.End(s)) + multiset(s.drain.chain) == R.Bag(s)
  {
    assert R.ChainBag(R.End(s).drain) == multiset{};
  }

  lemma BeginBag(s: R.Rx)
    requires R.MayBegin(s)
    ensures R.Bag(R.Begin(s)) == R.Bag(s)
  {
    assert R.ChainBag(R.Begin(s).drain) == multiset{} == R.ChainBag(s.drain);
  }

  lemma TransmitConserves(s: Driver, t: TxStep)
    requires T.Valid(s.tx) && Enabled(s, Transmit(t))
    ensures Total(Next(s, Transmit(t))) == Total(s)
  {
    TxConserves(s.tx, t);
    Transfer(s.pool, s.held, TxBag(s.tx), R.Bag(s.rx), TxBag(T.Next(s.tx, t)),
             Given(s.tx, t), Freed(s.tx, t), Returned(s.tx, t));
  }

  lemma DrainConserves(s: Driver, got: Option<Buf>)
    requires Enabled(s, DrainNext(got)) && !R.Stale(s.rx)
    ensures Total(Next(s, DrainNext(got))) == Total(s)
  {
    R.DrainBag(s.rx, got);
    MoveOut(s.pool, s.held, TxBag(s.tx), R.Bag(s.rx), AsBag(got));
  }

  lemma EndConserves(s: Driver, sent: bool, list: seq<Buf>)
    requires Enabled(s, DrainEnd(sent, list)) && list == s.rx.drain.chain
    ensures Total(Next(s, DrainEnd(sent, list))) == Total(s)
  {
    EndBag(s.rx);
    MoveIn(s.pool, s.held, TxBag(s.tx), R.Bag(R.End(s.rx)), multiset(s.rx.drain.chain));
  }

  lemma StackConserves(s: Driver, step: Step)
    requires Enabled(s, step) && (step.Obtain? || step.Release?)
    ensures Total(Next(s, step)) == Total(s)
  {
    if step.Obtain? {
      MoveOut(s.pool, s.held, TxBag(s.tx), R.Bag(s.rx), multiset{step.b});
    } else {
      MoveOut(s.held, s.pool, TxBag(s.tx), R.Bag(s.rx), multiset{step.b});
    }
  }

  /** What holds in every run, stale or not. */
  ghost predicate Framed(s: Driver) {
    T.Valid(s.tx) && R.Walkable(s.rx) && R.Threaded(s.rx) && |s.tx.ring| >= 2 && |s.rx.ring| >= 2
  }

  lemma StepKeepsFramed(s: Driver, step: Step)
    requires Framed(s) && Enabled(s, step)
    ensures Framed(Next(s, step))
  {
    match step
    case Transmit(t) => T.StepKeepsValid(s.tx, t);
    case Receive(a) => R.ArriveKeepsWalkable(s.rx, a); R.ArriveKeepsThreaded(s.rx, a);
    case DrainNext(got) => R.DrainKeepsWalkable(s.rx, got); R.DrainKeepsThreaded(s.rx, got);
    case _ =>
  }

  /** The hand-over of a list that lacks a buffer linked to it. */
  predicate IsCut(s: Driver, step: Step)
    requires Enabled(s, step)
  {
    step.DrainEnd? && step.list != s.rx.drain.chain
  }

  /** What a drain hands over in any run: the list that its links make, and if it is refused, only a list that ends. */
  lemma HandsOverList(s: Driver, sent: bool, list: seq<Buf>)
    requires Framed(s) && R.MayEnd(s.rx)
    ensures Enabled(s, DrainEnd(sent, list)) <==>
              list == OnList(s.rx.drain.chain) && (sent || !Circular(s.rx.drain.chain))
    ensures Enabled(s, DrainEnd(sent, list)) ==> (IsCut(s, DrainEnd(sent, list)) <==> !Distinct(s.rx.drain.chain))
  {
    R.DrainListExactly(s.rx, list);
    WholeIffDistinct(s.rx.drain.chain);
  }

  /** Every step but a stale one and a cut conserves the buffers. */
  lemma StepConserves(s: Driver, step: Step)
    requires T.Valid(s.tx) && Enabled(s, step) && !IsStale(s, step) && !IsCut(s, step)
    ensures Total(Next(s, step)) == Total(s)
  {
    match step
    case Transmit(t) => TransmitConserves(s, t);
    case Receive(a) => R.ArriveBag(s.rx, a);
    case DrainBegin => BeginBag(s.rx);
    case DrainNext(got) => DrainConserves(s, got);
    case DrainEnd(sent, list) => EndConserves(s, sent, list);
    case _ => StackConserves(s, step);
  }

  lemma StaleExchanges(s: Driver, step: Step)
    requires Enabled(s, step) && IsStale(s, step)
    ensures Total(Next(s, step)) + multiset{s.rx.ring[s.rx.cur].buf} == Total(s) + multiset{s.rx.drain.spare.value}
  {
    R.StaleBag(s.rx, step.got);
    assert AsBag(step.got) == multiset{};
    Exchange(s.pool + s.held + TxBag(s.tx), R.Bag(R.DrainNext(s.rx, step.got)), R.Bag(s.rx),
             multiset{s.rx.ring[s.rx.cur].buf}, multiset{s.rx.drain.spare.value});
  }

  // ----- whole runs

  /** Everything that holds while no stale spare has been installed. */
  ghost predicate Sound(s: Driver, stock: set<Buf>) {
    && T.Valid(s.tx) && R.Ordered(s.rx)
    && |s.tx.ring| >= 2 && |s.rx.ring| >= 2
    && Total(s) == multiset(stock)
  }

  /** A conserved total leaves no buffer in two places of the receive path. */
  lemma ConservedIsUnique(s: Driver, stock: set<Buf>)
    requires Total(s) == multiset(stock)
    ensures R.Unique(s.rx)
  {
    forall b ensures R.Bag(s.rx)[b] <= 1 {
      assert Total(s)[b] <= 1;
    }
  }

  lemma SoundIsFramed(s: Driver, stock: set<Buf>)
    requires Sound(s, stock)
    ensures Framed(s) && (s.rx.drain.Draining? ==> Distinct(s.rx.drain.chain))
  {
    R.OrderedWalks(s.rx);
    R.OrderedThreads(s.rx);
  }

  /** While no buffer is installed twice, no list is cut. */
  lemma SoundCutsNothing(s: Driver, step: Step, stock: set<Buf>)
    requires Sound(s, stock) && Enabled(s, step)
    ensures !IsCut(s, step)
  {
    SoundIsFramed(s, stock);
    if step.DrainEnd? {
      HandsOverList(s, step.sent, step.list);
    }
  }

  lemma StepKeepsSound(s: Driver, step: Step, stock: set<Buf>)
    requires Sound(s, stock) && Enabled(s, step) && !IsStale(s, step)
    ensures Sound(Next(s, step), stock)
  {
    SoundIsFramed(s, stock);
    SoundCutsNothing(s, step, stock);
    StepKeepsFramed(s, step);
    StepConserves(s, step);
    ConservedIsUnique(Next(s, step), stock);
    match step
    case Transmit(_) =>
    case Receive(a) => R.ArriveKeepsOrdered(s.rx, a);
    case DrainBegin => R.BeginKeepsOrdered(s.rx);
    case DrainNext(got) => R.DrainKeepsOrdered(s.rx, got);
    case DrainEnd(_, _) => R.EndKeepsOrdered(s.rx);
    case _ =>
  }

  /** In every run, stale or not, the receive ring stays one the drain loop can walk. */
  lemma {:induction false} RunKeepsFramed(s: Driver, steps: seq<Step>)
    requires Framed(s) && Runs(s, steps)
    ensures Framed(Final(s, steps))
    decreases |steps|
  {
    if steps != [] {
      StepKeepsFramed(s, steps[0]);
      RunKeepsFramed(Next(s, steps[0]), steps[1..]);
    }
  }

  predicate NeverStale(s: Driver, steps: seq<Step>)
    requires Runs(s, steps)
    decreases |steps|
  {
    steps == [] || (!IsStale(s, steps[0]) && NeverStale(Next(s, steps[0]), steps[1..]))
  }

  /** A stale install happens to a buffer other than the spare, so that buffer is then nowhere. */
  lemma StaleLoses(s: Driver, step: Step, stock: set<Buf>)
    requires Sound(s, stock) && Enabled(s, step) && IsStale(s, step)
    ensures s.rx.ring[s.rx.cur].buf in stock
    ensures Total(Next(s, step))[s.rx.ring[s.rx.cur].buf] == 0
  {
    var c := s.rx.ring[s.rx.cur].buf;
    R.RingMember(s.rx, s.rx.cur);
    assert Total(s)[c] >= 1;
    R.RingDistinct(s.rx, s.rx.cur, Pred(s.rx.cur, |s.rx.ring|));
    StaleExchanges(s, step);
    assert (Total(Next(s, step)) + multiset{c})[c] == (Total(s) + multiset{s.rx.drain.spare.value})[c];
  }

  lemma NowhereStays(p: multiset<Buf>, h: multiset<Buf>, x: multiset<Buf>, y: multiset<Buf>,
                     y': multiset<Buf>, chain: multiset<Buf>, list: multiset<Buf>, c: Buf)
    requires (p + h + x + y)[c] == 0 && y' + chain == y && (list[c] > 0 ==> chain[c] > 0)
    ensures ((p + list) + h + x + y')[c] == 0 && (p + (h + list) + x + y')[c] == 0
  {
    assert (y' + chain)[c] == y[c];
  }

  lemma OnListCounts(chain: seq<Buf>, c: Buf)
    ensures multiset(OnList(chain))[c] > 0 ==> multiset(chain)[c] > 0
  {
    assert c in OnList(chain) ==> c in chain;
  }

  /** A cut list holds nothing that was not linked. */
  lemma CutKeepsLost(s: Driver, step: Step, c: Buf)
    requires Framed(s) && Enabled(s, step) && step.DrainEnd? && Total(s)[c] == 0
    ensures Total(Next(s, step))[c] == 0
  {
    var chain, list := multiset(s.rx.drain.chain), multiset(step.list);
    HandsOverList(s, step.sent, step.list);
    OnListCounts(s.rx.drain.chain, c);
    EndBag(s.rx);
    NowhereStays(s.pool, s.held, TxBag(s.tx), R.Bag(s.rx), R.Bag(R.End(s.rx)), chain, list, c);
  }

  /** A buffer that is nowhere stays nowhere. */
  lemma StepKeepsLost(s: Driver, step: Step, c: Buf)
    requires Framed(s) && Enabled(s, step) && Total(s)[c] == 0
    ensures Total(Next(s, step))[c] == 0
  {
    if step.DrainEnd? {
      CutKeepsLost(s, step, c);
    } else if IsStale(s, step) {
      R.RingMember(s.rx, Pred(s.rx.cur, |s.rx.ring|));
      assert R.RingBag(s.rx.ring)[s.rx.drain.spare.value] <= Total(s)[s.rx.drain.spare.value];
      StaleExchanges(s, step);
      assert (Total(Next(s, step)) + multiset{s.rx.ring[s.rx.cur].buf})[c]
          == (Total(s) + multiset{s.rx.drain.spare.value})[c];
    } else {
      StepConserves(s, step);
    }
  }

  lemma {:induction false} RunKeepsLost(s: Driver, steps: seq<Step>, c: Buf)
    requires Framed(s) && Runs(s, steps) && Total(s)[c] == 0
    ensures Total(Final(s, steps))[c] == 0
    decreases |steps|
  {
    if steps != [] {
      StepKeepsFramed(s, steps[0]);
      StepKeepsLost(s, steps[0], c);
      RunKeepsLost(Next(s, steps[0]), steps[1..], c);
    }
  }

  /** Without stale installs every run conserves the stock and delivers in order. */
  lemma {:induction false} RunKeepsSound(s: Driver, steps: seq<Step>, stock: set<Buf>)
    requires Sound(s, stock) && Runs(s, steps) && NeverStale(s, steps)
    ensures Sound(Final(s, steps), stock)
    decreases |steps|
  {
    if steps != [] {
      StepKeepsSound(s, steps[0], stock);
      RunKeepsSound(Next(s, steps[0]), steps[1..], stock);
    }
  }

  lemma {:induction false} StaleRunLoses(s: Driver, steps: seq<Step>, stock: set<Buf>)
    requires Sound(s, stock) && Runs(s, steps) && !NeverStale(s, steps)
    ensures exists c :: c in stock && Total(Final(s, steps))[c] == 0
    decreases |steps|
  {
    var t := Next(s, steps[0]);
    if IsStale(s, steps[0]) {
      var c := s.rx.ring[s.rx.cur].buf;
      StaleLoses(s, steps[0], stock);
      SoundIsFramed(s, stock);
      StepKeepsFramed(s, steps[0]);
      RunKeepsLost(t, steps[1..], c);
    } else {
      StepKeepsSound(s, steps[0], stock);
      StaleRunLoses(t, steps[1..], stock);
    }
  }

  /**
   The buffers are conserved over a run exactly when the run never drains a filtered
   frame while newDescriptor still holds the replacement of an earlier frame.
   */
  lemma ConservedIffNeverStale(s: Driver, steps: seq<Step>, stock: set<Buf>)
    requires Sound(s, stock) && Runs(s, steps)
    ensures Total(Final(s, steps)) == multiset(stock) <==> NeverStale(s, steps)
  {
    if NeverStale(s, steps) {
      RunKeepsSound(s, steps, stock);
    } else {
      StaleRunLoses(s, steps, stock);
    }
  }

  // ----- from start-up on

  /** After xNetworkInterfaceInitialise: empty transmit ring, every receive descriptor armed with its own buffer. */
  ghost predicate Booted(s: Driver, stock: set<Buf>) {
    && |s.tx.ring| >= 2 && s.tx == T.Initial(|s.tx.ring|)
    && |s.rx.ring| >= 2 && s.rx == R.Initial(s.rx.ring)
    && (forall j :: 0 <= j < |s.rx.ring| ==> s.rx.ring[j].owned && s.rx.ring[j].next == Succ(j, |s.rx.ring|))
    && s.held == multiset{} && R.RingBag(s.rx.ring) + s.pool == multiset(stock)
  }

  lemma {:induction false} EmptySlots(ring: seq<TxDesc>)
    requires forall i :: 0 <= i < |ring| ==> ring[i].buf.None?
    ensures Gather(ring, SlotBag) == multiset{}
  {
    if ring != [] {
      EmptySlots(ring[..|ring| - 1]);
    }
  }

  lemma BootIsSound(s: Driver, stock: set<Buf>)
    requires Booted(s, stock)
    ensures Sound(s, stock)
  {
    T.InitialValid(|s.tx.ring|);
    EmptySlots(s.tx.ring);
    R.InitialOrdered(s.rx.ring, s.pool, multiset(stock));
  }

  /** Every run from start-up conserves the stock exactly when it never drains stale. */
  lemma BootedRunConserves(s: Driver, steps: seq<Step>, stock: set<Buf>)
    requires Booted(s, stock) && Runs(s, steps)
    ensures Total(Final(s, steps)) == multiset(stock) <==> NeverStale(s, steps)
  {
    BootIsSound(s, stock);
    ConservedIffNeverStale(s, steps, stock);
  }

  /** A buffer carries the frame; its data length is the reported one, of 14 bits, less four bytes, in 32 bits. */
  ghost predicate CarriesFrame(b: R.NetBuf, a: R.Arrival) {
    && b.packet == a.packet
    && var n := a.length % 0x4000; b.length + 4 == if n >= 4 then n else 0x1_0000_0000 + n
  }

  lemma ChainCarries(x: R.Rx, picked: seq<R.Arrival>, i: nat)
    requires x.drain.Draining? && i < |x.drain.chain| && x.passed + i < |picked| && R.ChainOk(x, picked, i)
    ensures CarriesFrame(R.At(x.heap, x.drain.chain[i]), picked[x.passed + i])
  {
    R.LengthInNumbers(picked[x.passed + i].length);
  }

  /** The driver's own tests, spelled out. */
  predicate IsWanted(a: R.Arrival) {
    && a.ethernetType && !a.crcError && !a.ipHeaderError
    && (a.packet.kind == R.Arp || (a.packet.kind == R.Ipv4 && a.packet.passesFilter))
  }

  /**
   What the receive side has done: a frame was dropped before the pool was asked exactly when
   it was not wanted; the accepted frames, in arrival order, stand at `places` among those
   that arrived; those accepted since the last hand-over are carried by the buffers linked,
   one each and in order, as a list that ends.
   */
  ghost predicate Delivers(x: R.Rx, places: seq<nat>) {
    && |x.outcomes| <= |x.arrived|
    && (forall i :: 0 <= i < |x.outcomes| ==> (x.outcomes[i].Filtered? <==> !IsWanted(x.arrived[i])))
    && R.AcceptedAt(places, x.outcomes)
    && x.passed <= |places|
    && (x.drain.NoDrain? ==> x.passed == |places|)
    && (x.drain.Draining? ==>
          && R.Linked(x.heap, x.drain.first, x.drain.chain)
          && x.passed + |x.drain.chain| == |places|
          && forall i :: 0 <= i < |x.drain.chain| ==>
               CarriesFrame(R.At(x.heap, x.drain.chain[i]), x.arrived[places[x.passed + i]]))
  }

  /** In every run from start-up without a stale drain, the IP task receives the wanted frames in order. */
  lemma BootedRunDelivers(s: Driver, steps: seq<Step>, stock: set<Buf>) returns (places: seq<nat>)
    requires Booted(s, stock) && Runs(s, steps) && NeverStale(s, steps)
    ensures Delivers(Final(s, steps).rx, places)
  {
    BootIsSound(s, stock);
    RunKeepsSound(s, steps, stock);
    places := OrderedDelivers(Final(s, steps).rx);
  }

  lemma OrderedDelivers(x: R.Rx) returns (places: seq<nat>)
    requires R.Ordered(x)
    ensures Delivers(x, places)
  {
    var picked := R.Pick(x.arrived, x.outcomes);
    places := R.PickPlaces(x.arrived, x.outcomes);
    if x.drain.Draining? {
      forall i | 0 <= i < |x.drain.chain|
        ensures CarriesFrame(R.At(x.heap, x.drain.chain[i]), x.arrived[places[x.passed + i]])
      {
        ChainCarries(x, picked, i);
      }
    }
  }

  /**
   How the drain judges the next frame: one that is not wanted is filtered, and a wanted one
   is accepted exactly when the pool gives a buffer.
   */
  lemma JudgesExactly(s: Driver, got: Option<Buf>, stock: set<Buf>)
    requires Sound(s, stock) && Enabled(s, DrainNext(got))
    ensures |s.rx.outcomes| < |s.rx.arrived|
    ensures var a, t := s.rx.arrived[|s.rx.outcomes|], Next(s, DrainNext(got)).rx;
            && |t.outcomes| == |s.rx.outcomes| + 1
            && (t.outcomes[|s.rx.outcomes|] == R.Accepted <==> IsWanted(a) && got.Some?)
            && (t.outcomes[|s.rx.outcomes|] == R.NoBuffer <==> IsWanted(a) && got.None?)
  {
    R.DrainFindsArrival(s.rx);
  }

  // ----- the condition on the trace of a run

  /** What the drains of a run did, in order. */
  datatype Event = Began | Judged(outcome: R.Outcome)

  function EventsOf(s: Driver, step: Step): seq<Event>
    requires Enabled(s, step)
  {
    match step
    case DrainBegin => [Began]
    case DrainNext(got) => [Judged(R.OutcomeOf(R.Wanted(s.rx.ring[s.rx.cur], s.rx.heap), got))]
    case _ => []
  }

  function Events(s: Driver, steps: seq<Step>): seq<Event>
    requires Runs(s, steps)
    decreases |steps|
  {
    if steps == [] then [] else EventsOf(s, steps[0]) + Events(Next(s, steps[0]), steps[1..])
  }

  predicate DropsAt(events: seq<Event>, i: nat) {
    i + 1 < |events| && events[i] == Judged(R.Accepted) && events[i + 1] == Judged(R.Filtered)
  }

  /** Some drain accepts a frame and filters the very next one. */
  ghost predicate FilteredAfterAccepted(events: seq<Event>) { exists i: nat :: DropsAt(events, i) }

  lemma AfterFirst(e: Event, events: seq<Event>)
    ensures FilteredAfterAccepted([e] + events) <==>
              FilteredAfterAccepted(events)
              || (e == Judged(R.Accepted) && events != [] && events[0] == Judged(R.Filtered))
  {
    var all := [e] + events;
    assert all[1..] == events;
    if i: nat :| DropsAt(all, i) {
      assert i > 0 ==> DropsAt(events, i - 1);
    }
    if i: nat :| DropsAt(events, i) {
      assert DropsAt(all, i + 1);
    }
    assert e == Judged(R.Accepted) && events != [] && events[0] == Judged(R.Filtered) ==> DropsAt(all, 0);
  }

  /** newDescriptor is set exactly when the last event accepted a frame, before anything stale happened. */
  function Before(s: Driver): seq<Event> {
    if s.rx.drain.Draining? && s.rx.drain.spare.Some? then [Judged(R.Accepted)] else []
  }

  lemma StaleStepShows(s: Driver, step: Step, rest: seq<Event>)
    requires Enabled(s, step) && IsStale(s, step)
    ensures FilteredAfterAccepted(Before(s) + (EventsOf(s, step) + rest))
  {
    assert DropsAt(Before(s) + (EventsOf(s, step) + rest), 0);
  }

  /** A step that judges nothing. */
  lemma SilentStepHides(s: Driver, step: Step, rest: seq<Event>)
    requires Enabled(s, step) && EventsOf(s, step) == []
    requires rest != [] && rest[0] == Judged(R.Filtered) ==> Next(s, step).rx.drain.Draining?
    ensures FilteredAfterAccepted(Before(s) + rest) <==> FilteredAfterAccepted(Before(Next(s, step)) + rest)
  {
    AfterFirst(Judged(R.Accepted), rest);
    assert [] + rest == rest;
  }

  lemma BeginHides(s: Driver, rest: seq<Event>)
    requires Enabled(s, DrainBegin)
    ensures FilteredAfterAccepted(Before(s) + ([Began] + rest)) <==> FilteredAfterAccepted(rest)
    ensures Before(Next(s, DrainBegin)) == []
  {
    AfterFirst(Began, rest);
    assert [] + ([Began] + rest) == [Began] + rest;
  }

  lemma JudgedHides(s: Driver, got: Option<Buf>, e: Event, rest: seq<Event>)
    requires Enabled(s, DrainNext(got)) && !R.Stale(s.rx) && [e] == EventsOf(s, DrainNext(got))
    ensures FilteredAfterAccepted(Before(s) + ([e] + rest)) <==> FilteredAfterAccepted([e] + rest)
    ensures Before(Next(s, DrainNext(got))) == if e == Judged(R.Accepted) then [e] else []
  {
    AfterFirst(Judged(R.Accepted), [e] + rest);
    assert [] + ([e] + rest) == [e] + rest;
  }

  lemma OtherStepHides(s: Driver, step: Step, rest: seq<Event>)
    requires Enabled(s, step) && !IsStale(s, step)
    requires rest != [] && rest[0] == Judged(R.Filtered) ==> Next(s, step).rx.drain.Draining?
    ensures FilteredAfterAccepted(Before(s) + (EventsOf(s, step) + rest))
       <==> FilteredAfterAccepted(Before(Next(s, step)) + rest)
  {
    var e := EventsOf(s, step);
    if step.DrainNext? {
      JudgedHides(s, step.got, e[0], rest);
      AfterFirst(e[0], rest);
      assert e == [e[0]] && [] + rest == rest;
    } else if step.DrainBegin? {
      BeginHides(s, rest);
      assert [] + rest == rest;
    } else {
      SilentStepHides(s, step, rest);
      assert e + rest == rest;
    }
  }

  /** Only a drain judges frames. */
  lemma FirstEvent(s: Driver, steps: seq<Step>)
    requires Runs(s, steps) && Events(s, steps) != [] && Events(s, steps)[0].Judged?
    ensures s.rx.drain.Draining?
    decreases |steps|
  {
    if EventsOf(s, steps[0]) == [] && !s.rx.drain.Draining? {
      FirstEvent(Next(s, steps[0]), steps[1..]);
    }
  }

  lemma {:induction false} StaleOnTrace(s: Driver, steps: seq<Step>)
    requires Runs(s, steps)
    ensures NeverStale(s, steps) <==> !FilteredAfterAccepted(Before(s) + Events(s, steps))
    decreases |steps|
  {
    if steps != [] {
      var step, t := steps[0], Next(s, steps[0]);
      var rest := Events(t, steps[1..]);
      if IsStale(s, step) {
        StaleStepShows(s, step, rest);
      } else {
        if rest != [] && rest[0].Judged? {
          FirstEvent(t, steps[1..]);
        }
        OtherStepHides(s, step, rest);
        StaleOnTrace(t, steps[1..]);
      }
    } else {
      assert !FilteredAfterAccepted(Before(s) + []);
    }
  }

  /**
   The condition as the trace shows it: every run from start-up conserves the stock exactly
   when no drain accepts a frame and filters the very next one.
   */
  lemma ConservedIffOnTrace(s: Driver, steps: seq<Step>, stock: set<Buf>)
    requires Booted(s, stock) && Runs(s, steps)
    ensures Total(Final(s, steps)) == multiset(stock) <==> !FilteredAfterAccepted(Events(s, steps))
  {
    BootedRunConserves(s, steps, stock);
    StaleOnTrace(s, steps);
    assert Before(s) + Events(s, steps) == Events(s, steps);
  }

  // ----- how the condition fails

  lemma RunsCons(s: Driver, step: Step, t: Driver, rest: seq<Step>, steps: seq<Step>)
    requires Enabled(s, step) && t == Next(s, step) && Runs(t, rest) && steps == [step] + rest
    ensures Runs(s, steps) && Final(s, steps) == Final(t, rest)
    ensures NeverStale(s, steps) <==> !IsStale(s, step) && NeverStale(t, rest)
  {
    assert steps[1..] == rest;
  }

  lemma PendingMayDrain(s: R.Rx)
    requires R.Ordered(s) && s.drain.Draining? && |s.outcomes| < |s.arrived|
    ensures R.MayDrain(s) && R.Wanted(s.ring[s.cur], s.heap) == R.Acceptable(s.arrived[|s.outcomes|])
  {
    assert R.SlotOk(s, s.cur);
    R.DrainFindsArrival(s);
  }

  /** Draining a wanted frame leaves its replacement in newDescriptor for the next iteration. */
  lemma WantedLeavesSpare(s: Driver, stock: set<Buf>, b: Buf)
    requires Sound(s, stock) && s.rx.drain.Draining? && s.rx.drain.spare.None? && b in s.pool
    requires |s.rx.outcomes| < |s.rx.arrived| && R.Acceptable(s.rx.arrived[|s.rx.outcomes|])
    ensures Enabled(s, DrainNext(Some(b))) && !IsStale(s, DrainNext(Some(b)))
    ensures var t := Next(s, DrainNext(Some(b)));
            && Sound(t, stock) && t.rx.drain.Draining? && t.rx.drain.spare == Some(b)
            && |t.rx.outcomes| == |s.rx.outcomes| + 1 && t.rx.arrived == s.rx.arrived
  {
    PendingMayDrain(s.rx);
    StepKeepsSound(s, DrainNext(Some(b)), stock);
  }

  /** If the next frame is filtered, the iteration is stale. */
  lemma FilteredIsStale(s: Driver, stock: set<Buf>)
    requires Sound(s, stock) && s.rx.drain.Draining? && s.rx.drain.spare.Some?
    requires |s.rx.outcomes| < |s.rx.arrived| && !R.Acceptable(s.rx.arrived[|s.rx.outcomes|])
    ensures Enabled(s, DrainNext(None)) && IsStale(s, DrainNext(None))
  {
    PendingMayDrain(s.rx);
  }

  lemma RunsTwo(s: Driver, a: Step, t: Driver, b: Step)
    requires Enabled(s, a) && t == Next(s, a) && Enabled(t, b)
    ensures Runs(s, [a, b])
    ensures NeverStale(s, [a, b]) <==> !IsStale(s, a) && !IsStale(t, b)
  {
    RunsCons(t, b, Next(t, b), [], [b]);
    RunsCons(s, a, t, [b], [a, b]);
  }

  lemma WantedThenFiltered(s: Driver, stock: set<Buf>, b: Buf)
    requires Sound(s, stock) && s.rx.drain.Draining? && s.rx.drain.spare.None? && b in s.pool
    requires |s.rx.outcomes| + 1 < |s.rx.arrived|
    requires R.Acceptable(s.rx.arrived[|s.rx.outcomes|]) && !R.Acceptable(s.rx.arrived[|s.rx.outcomes| + 1])
    ensures Runs(s, [DrainNext(Some(b)), DrainNext(None)])
    ensures !NeverStale(s, [DrainNext(Some(b)), DrainNext(None)])
  {
    WantedLeavesSpare(s, stock, b);
    var t := Next(s, DrainNext(Some(b)));
    FilteredIsStale(t, stock);
    RunsTwo(s, DrainNext(Some(b)), t, DrainNext(None));
  }

  /**
   The condition is not idle. Whenever a wanted frame is pending directly before a filtered
   one and the pool can answer, one drain installs a buffer twice and loses another.
   */
  lemma FilteredAfterWantedLoses(s: Driver, stock: set<Buf>, b: Buf, steps: seq<Step>)
    requires Sound(s, stock) && s.rx.drain.NoDrain? && s.tx.sweep.NoSweep? && b in s.pool
    requires |s.rx.outcomes| + 1 < |s.rx.arrived|
    requires R.Acceptable(s.rx.arrived[|s.rx.outcomes|]) && !R.Acceptable(s.rx.arrived[|s.rx.outcomes| + 1])
    requires steps == [DrainBegin, DrainNext(Some(b)), DrainNext(None)]
    ensures Runs(s, steps) && !NeverStale(s, steps)
    ensures exists c :: c in stock && Total(Final(s, steps))[c] == 0
  {
    var t, rest := Next(s, DrainBegin), [DrainNext(Some(b)), DrainNext(None)];
    StepKeepsSound(s, DrainBegin, stock);
    WantedThenFiltered(t, stock, b);
    RunsCons(s, DrainBegin, t, rest, steps);
    StaleRunLoses(s, steps, stock);
  }

  /** A frame that arrives in a descriptor of the DMA engine. */
  lemma Arrives(s: Driver, stock: set<Buf>, a: R.Arrival) returns (t: Driver)
    requires Sound(s, stock) && |s.rx.arrived| < |s.rx.outcomes| + |s.rx.ring|
    ensures Enabled(s, Receive(a)) && t == Next(s, Receive(a)) && Sound(t, stock)
    ensures t.rx.arrived == s.rx.arrived + [a] && t.rx.outcomes == s.rx.outcomes && |t.rx.ring| == |s.rx.ring|
    ensures t.tx == s.tx && t.pool == s.pool && t.rx.drain == s.rx.drain
  {
    R.OrderedWalks(s.rx);
    assert s.rx.ring[s.rx.dma].owned;
    StepKeepsSound(s, Receive(a), stock);
    t := Next(s, Receive(a));
  }

  lemma BootIsIdle(s: Driver, stock: set<Buf>)
    requires Booted(s, stock)
    ensures Sound(s, stock) && s.rx.arrived == [] && s.rx.outcomes == []
    ensures s.rx.drain.NoDrain? && s.tx.sweep.NoSweep?
  {
    BootIsSound(s, stock);
  }

  lemma RunsAfterTwo(s: Driver, a: Step, t: Driver, b: Step, u: Driver, rest: seq<Step>)
    requires Enabled(s, a) && t == Next(s, a) && Enabled(t, b) && u == Next(t, b)
    requires Runs(u, rest) && !NeverStale(u, rest)
    ensures Runs(s, [a, b] + rest) && !NeverStale(s, [a, b] + rest)
  {
    RunsCons(t, b, u, rest, [b] + rest);
    RunsCons(s, a, t, [b] + rest, [a] + ([b] + rest));
    assert [a] + ([b] + rest) == [a, b] + rest;
  }

  lemma TwoFramesLose(s: Driver, stock: set<Buf>, b: Buf, wanted: R.Arrival, other: R.Arrival, drain: seq<Step>)
    requires Sound(s, stock) && s.rx.arrived == [] && s.rx.outcomes == [] && s.rx.drain.NoDrain? && s.tx.sweep.NoSweep?
    requires b in s.pool && R.Acceptable(wanted) && !R.Acceptable(other)
    requires drain == [DrainBegin, DrainNext(Some(b)), DrainNext(None)]
    ensures Runs(s, [Receive(wanted), Receive(other)] + drain)
    ensures !NeverStale(s, [Receive(wanted), Receive(other)] + drain)
  {
    var t := Arrives(s, stock, wanted);
    var u := Arrives(t, stock, other);
    assert u.rx.arrived == [wanted, other];
    FilteredAfterWantedLoses(u, stock, b, drain);
    RunsAfterTwo(s, Receive(wanted), t, Receive(other), u, drain);
  }

  /**
   It fails from start-up on: two frames, the first wanted and the second not, and the one
   drain that looks at them, lose a buffer whatever the pool holds.
   */
  lemma StartUpLoses(s: Driver, stock: set<Buf>, b: Buf, wanted: R.Arrival, other: R.Arrival)
    requires Booted(s, stock) && b in s.pool && R.Acceptable(wanted) && !R.Acceptable(other)
    ensures var steps := [Receive(wanted), Receive(other)] + [DrainBegin, DrainNext(Some(b)), DrainNext(None)];
            Runs(s, steps) && exists c :: c in stock && Total(Final(s, steps))[c] == 0
  {
    BootIsIdle(s, stock);
    var drain := [DrainBegin, DrainNext(Some(b)), DrainNext(None)];
    TwoFramesLose(s, stock, b, wanted, other, drain);
    StaleRunLoses(s, [Receive(wanted), Receive(other)] + drain, stock);
  }
}
