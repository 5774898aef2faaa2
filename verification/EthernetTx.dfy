/**
 The transmit side of the LAN8720A network interface: a ring of DMA descriptors
 filled by one output task, completed by the DMA engine and reclaimed by the
 EMAC handler task. The handler has top priority: it may preempt the output task
 between any two of its accesses, while the output task never preempts a sweep.
 The DMA engine may step at any time.
 */
module EthernetTx {
  import opened Prelude
  import opened Ring

  const TX_BUFFER_SIZE: nat := 1536

  datatype Frame = Frame(buf: Buf, size: nat)

  datatype TxDesc = TxDesc(owned: bool, buf: Option<Buf>, size: nat, next: nat)

  /** One request to xNetworkInterfaceOutput. */
  datatype Job = Job(buf: Buf, length: nat, release: bool)

  /** Where the output task stands. */
  datatype Output =
    | Idle
    | Waiting(job: Job)   // before the semaphore take
    | Taken(job: Job)     // semaphore taken, assertions not yet evaluated
    | Checked(job: Job)   // assertions passed, descriptor untouched
    | Stored(job: Job)    // buffer address written
    | Ready(job: Job)     // control word and size written
    | Armed(job: Job)     // ownership bit set, head not yet advanced
    | Stuck(job: Job, ownedHead: bool)  // stopped in one of the two assertions

  /** The reclaim pass and its two locals. */
  datatype Sweep = NoSweep | Sweeping(last: nat, count: nat)

  datatype Tx = Tx(
    ring: seq<TxDesc>, head: nat, tail: nat, sem: nat,
    output: Output, sweep: Sweep,
    dma: nat, submitted: seq<Frame>, wire: seq<Frame>, reclaimed: nat)

  datatype TxStep =
    | Call(job: Job, linkUp: bool) | Take | Timeout | Check | Store | Prepare | Arm | Advance
    | DmaDone(k: nat)
    | SweepBegin | SweepNext | SweepEnd

  // ----- the step system

  function FrameOf(d: TxDesc): seq<Frame> {
    if d.buf.Some? then [Frame(d.buf.value, d.size)] else []
  }

  function TransmitSize(length: nat): nat {
    (if length > TX_BUFFER_SIZE then TX_BUFFER_SIZE else length) % 0x2000
  }

  /** The test of the reclaim loop together with its early exit. */
  predicate MayReclaim(s: Tx) {
    && s.tail < |s.ring| && s.sweep.Sweeping?
    && s.sweep.count > 0
    && !s.ring[s.tail].owned
    && !(s.tail == s.sweep.last && s.sweep.count != |s.ring|)
  }

  /** The body of the reclaim loop. */
  function Reclaim(s: Tx): Tx
    requires MayReclaim(s)
  {
    Tx(s.ring[s.tail := s.ring[s.tail].(buf := None)], s.head, s.ring[s.tail].next,
       if s.sem < |s.ring| then s.sem + 1 else s.sem,
       s.output, Sweeping(s.sweep.last, s.sweep.count - 1),
       s.dma, s.submitted, s.wire, s.reclaimed + 1)
  }

  predicate InRange(s: Tx) {
    s.head < |s.ring| && s.tail < |s.ring| && s.sem <= |s.ring|
  }

  predicate Enabled(s: Tx, step: TxStep) {
    InRange(s) &&
    match step
    case DmaDone(k) => k < |s.ring| && s.ring[k].owned
    case SweepBegin => s.sweep.NoSweep?
    case SweepNext => MayReclaim(s)
    case SweepEnd => s.sweep.Sweeping? && !MayReclaim(s)
    case _ =>
      s.sweep.NoSweep? &&
      match step
      case Call(_, _) => s.output.Idle?
      case Take => s.output.Waiting? && s.sem > 0
      case Timeout => s.output.Waiting? && s.sem == 0
      case Check => s.output.Taken?
      case Store => s.output.Checked?
      case Prepare => s.output.Stored?
      case Arm => s.output.Ready?
      case _ => s.output.Armed?
  }

  function Next(s: Tx, step: TxStep): Tx
    requires Enabled(s, step)
  {
    match step
    case Call(job, linkUp) => if linkUp then s.(output := Waiting(job)) else s
    case Take => s.(sem := s.sem - 1, output := Taken(s.output.job))
    case Timeout => s.(output := Idle)
    case Check =>
      if s.ring[s.head].owned then s.(output := Stuck(s.output.job, true))
      else if !s.output.job.release then s.(output := Stuck(s.output.job, false))
      else s.(output := Checked(s.output.job))
    case Store =>
      s.(ring := s.ring[s.head := s.ring[s.head].(buf := Some(s.output.job.buf))],
         output := Stored(s.output.job))
    case Prepare =>
      s.(ring := s.ring[s.head := s.ring[s.head].(size := TransmitSize(s.output.job.length))],
         output := Ready(s.output.job))
    case Arm =>
      s.(ring := s.ring[s.head := s.ring[s.head].(owned := true)],
         output := Armed(s.output.job),
         submitted := s.submitted + [Frame(s.output.job.buf, TransmitSize(s.output.job.length))])
    case Advance => s.(head := s.ring[s.head].next, output := Idle)
    case DmaDone(k) =>
      s.(ring := s.ring[k := s.ring[k].(owned := false)],
         wire := s.wire + FrameOf(s.ring[k]), dma := s.ring[k].next)
    case SweepBegin => s.(sweep := Sweeping(s.head, |s.ring| - s.sem))
    case SweepNext => Reclaim(s)
    case SweepEnd => s.(sweep := NoSweep)
  }

  predicate Runs(s: Tx, steps: seq<TxStep>)
    decreases |steps|
  {
    steps == [] || (Enabled(s, steps[0]) && Runs(Next(s, steps[0]), steps[1..]))
  }

  function Final(s: Tx, steps: seq<TxStep>): Tx
    requires Runs(s, steps)
    decreases |steps|
  {
    if steps == [] then s else Final(Next(s, steps[0]), steps[1..])
  }

  /** Buffers the transmit side releases to the pool in this step. */
  function Freed(s: Tx, t: TxStep): multiset<Buf>
    requires Enabled(s, t)
  {
    match t
    case Call(job, linkUp) => if !linkUp && job.release then multiset{job.buf} else multiset{}
    case Timeout => if s.output.job.release then multiset{s.output.job.buf} else multiset{}
    case SweepNext => AsBag(s.ring[s.tail].buf)
    case _ => multiset{}
  }

  function FreedBy(s: Tx, steps: seq<TxStep>): multiset<Buf>
    requires Runs(s, steps)
    decreases |steps|
  {
    if steps == [] then multiset{} else Freed(s, steps[0]) + FreedBy(Next(s, steps[0]), steps[1..])
  }

  /** A run can be continued by any step enabled where it ends. */
  lemma {:induction false} RunsThen(s: Tx, steps: seq<TxStep>, step: TxStep)
    requires Runs(s, steps) && Enabled(Final(s, steps), step)
    ensures Runs(s, steps + [step]) && Final(s, steps + [step]) == Next(Final(s, steps), step)
    decreases |steps|
  {
    var longer := steps + [step];
    if steps == [] {
      assert longer[1..] == [];
    } else {
      assert longer[1..] == steps[1..] + [step];
      RunsThen(Next(s, steps[0]), steps[1..], step);
    }
  }

  lemma {:induction false} FreedThen(s: Tx, steps: seq<TxStep>, step: TxStep)
    requires Runs(s, steps) && Enabled(Final(s, steps), step) && Runs(s, steps + [step])
    ensures FreedBy(s, steps + [step]) == FreedBy(s, steps) + Freed(Final(s, steps), step)
    decreases |steps|
  {
    var longer := steps + [step];
    if steps == [] {
      assert longer[1..] == [];
    } else {
      assert longer[1..] == steps[1..] + [step];
      FreedThen(Next(s, steps[0]), steps[1..], step);
    }
  }

  lemma Then(s: Tx, steps: seq<TxStep>, step: TxStep) returns (longer: seq<TxStep>)
    requires Runs(s, steps) && Enabled(Final(s, steps), step)
    ensures longer == steps + [step]
    ensures Runs(s, longer) && Final(s, longer) == Next(Final(s, steps), step)
  {
    RunsThen(s, steps, step);
    longer := steps + [step];
  }

  /** xNetworkInterfaceInitialise: a ring of n linked, empty, CPU-owned descriptors. */
  function Initial(n: nat): Tx
    requires n > 0
  {
    Tx(seq(n, i requires 0 <= i < n => TxDesc(false, None, 0, Succ(i, n))), 0, 0, n, Idle, NoSweep, 0, [], [], 0)
  }

  // ----- the window invariant

  /** Between the semaphore take and the head advance. */
  predicate Busy(o: Output) { !o.Idle? && !o.Waiting? }

  /** Number of descriptors handed to the DMA and not yet reclaimed. */
  function Window(s: Tx): int { |s.ring| - s.sem - (if Busy(s.output) then 1 else 0) }

  /** What the descriptor at the head looks like while the output task prepares it. */
  predicate HeadSlotOk(o: Output, d: TxDesc) {
    match o
    case Idle => d.buf.None? && !d.owned
    case Waiting(_) => d.buf.None? && !d.owned
    case Taken(_) => d.buf.None? && !d.owned
    case Checked(_) => d.buf.None? && !d.owned
    case Stuck(_, _) => d.buf.None? && !d.owned
    case Stored(job) => d.buf == Some(job.buf) && !d.owned
    case Ready(job) => d.buf == Some(job.buf) && !d.owned && d.size == TransmitSize(job.length)
    case Armed(job) => d.buf == Some(job.buf) && d.size == TransmitSize(job.length)
  }

  ghost predicate SlotOk(s: Tx, j: nat)
    requires j < |s.ring|
  {
    var k := Rel(s.tail, j, |s.ring|);
    && s.ring[j].next == Succ(j, |s.ring|)
    && (if k < Window(s) then s.ring[j].buf.Some?
        else if k == Window(s) then HeadSlotOk(s.output, s.ring[j])
        else s.ring[j].buf.None? && !s.ring[j].owned)
  }

  /** The descriptors from tail to head are exactly the window; all others are empty and un-owned. */
  ghost predicate Valid(s: Tx) {
    && InRange(s) && s.dma < |s.ring|
    && 0 <= Window(s)
    && s.head == Idx(s.tail, Window(s), |s.ring|)
    && (forall j :: 0 <= j < |s.ring| ==> SlotOk(s, j))
    && (s.sweep.Sweeping? ==> s.sweep.last == s.head && s.sweep.count == |s.ring| - s.sem)
    && (s.output.Stuck? ==> !s.output.ownedHead && !s.output.job.release)
    && (Busy(s.output) && !s.output.Stuck? && !s.output.Taken? ==> s.output.job.release)
  }

  lemma InitialValid(n: nat)
    requires n > 0
    ensures Valid(Initial(n))
  {
  }

  lemma HeadIsNotOwned(s: Tx)
    requires Valid(s) && s.output.Taken?
    ensures !s.ring[s.head].owned
  {
    assert SlotOk(s, s.head);
  }

  lemma OutputKeepsValid(s: Tx, step: TxStep)
    requires Valid(s) && Enabled(s, step) && |s.ring| >= 2
    requires !step.DmaDone? && !step.SweepBegin? && !step.SweepNext? && !step.SweepEnd?
    ensures Valid(Next(s, step))
  {
    var t := Next(s, step);
    assert SlotOk(s, s.head);
    forall j | 0 <= j < |t.ring|
      ensures SlotOk(t, j)
    {
      assert SlotOk(s, j);
    }
  }

  lemma DmaKeepsValid(s: Tx, k: nat)
    requires Valid(s) && Enabled(s, DmaDone(k))
    ensures Valid(Next(s, DmaDone(k)))
  {
    var t := Next(s, DmaDone(k));
    forall j | 0 <= j < |t.ring|
      ensures SlotOk(t, j)
    {
      assert SlotOk(s, j);
    }
    assert SlotOk(s, k);
  }

  /** The early exit is what keeps the reclaim loop inside the window: it needs two descriptors. */
  lemma ReclaimStaysInWindow(s: Tx)
    requires Valid(s) && MayReclaim(s) && |s.ring| >= 2
    ensures Window(s) > 0 && s.ring[s.tail].buf.Some? && !s.ring[s.tail].owned
    ensures Busy(s.output) ==> s.tail != s.head
  {
    assert SlotOk(s, s.tail);
  }

  lemma ReclaimKeepsValid(s: Tx)
    requires Valid(s) && MayReclaim(s) && |s.ring| >= 2
    ensures Valid(Reclaim(s))
  {
    var t := Reclaim(s);
    ReclaimStaysInWindow(s);
    assert SlotOk(s, s.tail);
    forall j | 0 <= j < |t.ring|
      ensures SlotOk(t, j)
    {
      assert SlotOk(s, j);
    }
  }

  lemma SweepKeepsValid(s: Tx, step: TxStep)
    requires Valid(s) && Enabled(s, step) && |s.ring| >= 2
    requires step.SweepBegin? || step.SweepEnd?
    ensures Valid(Next(s, step))
  {
    var t := Next(s, step);
    forall j | 0 <= j < |t.ring|
      ensures SlotOk(t, j)
    {
      assert SlotOk(s, j);
    }
  }

  lemma StepKeepsValid(s: Tx, step: TxStep)
    requires Valid(s) && Enabled(s, step) && |s.ring| >= 2
    ensures Valid(Next(s, step)) && |Next(s, step).ring| == |s.ring|
  {
    if step.DmaDone? {
      DmaKeepsValid(s, step.k);
    } else if step.SweepNext? {
      ReclaimKeepsValid(s);
    } else if step.SweepBegin? || step.SweepEnd? {
      SweepKeepsValid(s, step);
    } else {
      OutputKeepsValid(s, step);
    }
  }

  /** Every interleaving keeps the window; in particular the ownership assertion never fires. */
  lemma {:induction false} RunKeepsWindow(s: Tx, steps: seq<TxStep>)
    requires Valid(s) && Runs(s, steps) && |s.ring| >= 2
    ensures Valid(Final(s, steps)) && |Final(s, steps).ring| == |s.ring|
    ensures Final(s, steps).output.Stuck? ==> !Final(s, steps).output.ownedHead
    decreases |steps|
  {
    if steps != [] {
      StepKeepsValid(s, steps[0]);
      RunKeepsWindow(Next(s, steps[0]), steps[1..]);
    }
  }

  /**
   The bound is needed: with a single descriptor the sweep reclaims the one being
   prepared, the semaphore is raised too early, and a later output task stops in the
   ownership assertion.
   */
  lemma OneDescriptorIsTooFew()
    ensures exists steps :: Runs(Initial(1), steps) && Final(Initial(1), steps).output == Stuck(Job(8, 60, true), true)
  {
    var s := Initial(1);
    var steps := OneDescriptorReclaimed(s, Job(7, 60, true));
    steps := Then(s, steps, Call(Job(8, 60, true), true));
    steps := Then(s, steps, Take);
    steps := Then(s, steps, Check);
  }

  lemma OneDescriptorReclaimed(s: Tx, job: Job) returns (steps: seq<TxStep>)
    requires s == Initial(1) && job.release
    ensures Runs(s, steps) && |Final(s, steps).ring| == 1 && Final(s, steps).ring[0].owned && Final(s, steps).head == 0
    ensures Final(s, steps).sem == 1 && Final(s, steps).output.Idle? && Final(s, steps).sweep.NoSweep?
    ensures InRange(Final(s, steps))
  {
    assert s.ring == [TxDesc(false, None, 0, 0)];
    steps := Then(s, [], Call(job, true));
    steps := Then(s, steps, Take);
    steps := Then(s, steps, SweepBegin);
    steps := Then(s, steps, SweepNext);
    steps := Then(s, steps, SweepEnd);
    steps := OneDescriptorArmed(s, job, steps);
  }

  lemma OneDescriptorArmed(s: Tx, job: Job, before: seq<TxStep>) returns (steps: seq<TxStep>)
    requires Runs(s, before) && job.release
    requires var m := Final(s, before);
             && m.ring == [TxDesc(false, None, 0, 0)] && m.head == m.tail == 0 && m.sem == 1
             && m.output == Taken(job) && m.sweep.NoSweep?
    ensures Runs(s, steps) && |Final(s, steps).ring| == 1 && Final(s, steps).ring[0].owned && Final(s, steps).head == 0
    ensures Final(s, steps).sem == 1 && Final(s, steps).output.Idle? && Final(s, steps).sweep.NoSweep?
    ensures InRange(Final(s, steps))
  {
    steps := Then(s, before, Check);
    steps := Then(s, steps, Store);
    steps := Then(s, steps, Prepare);
    steps := Then(s, steps, Arm);
    steps := Then(s, steps, Advance);
  }

  // ----- what one reclaim pass takes back

  /** A pass with nothing in between can go round its loop k times. */
  predicate MaySweep(s: Tx, k: nat)
    decreases k, 0
  {
    if k == 0 then InRange(s) && s.sweep.NoSweep?
    else MaySweep(s, k - 1) && InRange(Swept(s, k - 1)) && MayReclaim(Swept(s, k - 1))
  }

  /** Where k rounds lead. */
  function Swept(s: Tx, k: nat): (x: Tx)
    requires MaySweep(s, k)
    ensures |x.ring| == |s.ring|
    decreases k, 1
  {
    if k == 0 then s.(sweep := Sweeping(s.head, |s.ring| - s.sem)) else Reclaim(Swept(s, k - 1))
  }

  /** What those k rounds release. */
  function SweptBuffers(s: Tx, k: nat): multiset<Buf>
    requires MaySweep(s, k)
  {
    if k == 0 then multiset{}
    else SweptBuffers(s, k - 1) + AsBag(Swept(s, k - 1).ring[Swept(s, k - 1).tail].buf)
  }

  function SweepRun(k: nat): seq<TxStep> {
    if k == 0 then [SweepBegin] else SweepRun(k - 1) + [SweepNext]
  }

  /** The pass is a run of the step system. */
  lemma {:induction false} SweepIsRun(s: Tx, k: nat)
    requires MaySweep(s, k)
    ensures Runs(s, SweepRun(k)) && Final(s, SweepRun(k)) == Swept(s, k)
    ensures FreedBy(s, SweepRun(k)) == SweptBuffers(s, k)
  {
    if k == 0 {
      RunsThen(s, [], SweepBegin);
      FreedThen(s, [], SweepBegin);
      assert [] + [SweepBegin] == SweepRun(0);
    } else {
      SweepIsRun(s, k - 1);
      RunsThen(s, SweepRun(k - 1), SweepNext);
      FreedThen(s, SweepRun(k - 1), SweepNext);
    }
  }

  /** One round, seen from the window. */
  lemma ReclaimOne(y: Tx)
    requires Valid(y) && MayReclaim(y) && |y.ring| >= 2
    ensures var x := Reclaim(y);
            && Valid(x) && 0 < Window(y) && Window(x) == Window(y) - 1
            && x.tail == Succ(y.tail, |y.ring|) && x.sem == y.sem + 1
            && !y.ring[y.tail].owned && y.ring[y.tail].buf.Some?
  {
    ReclaimStaysInWindow(y);
    ReclaimKeepsValid(y);
    assert SlotOk(y, y.tail);
  }

  /** Round by round, the window shrinks from the tail. */
  lemma {:induction false} SweepShrinksWindow(s: Tx, k: nat)
    requires Valid(s) && |s.ring| >= 2 && MaySweep(s, k)
    ensures var x := Swept(s, k);
            && Valid(x) && |x.ring| == |s.ring| && x.sweep.Sweeping?
            && k <= Window(s) && Window(x) == Window(s) - k
            && x.tail == Idx(s.tail, k, |s.ring|) && x.sem == s.sem + k
  {
    if k == 0 {
      StepKeepsValid(s, SweepBegin);
      assert Swept(s, 0) == Next(s, SweepBegin);
    } else {
      SweepShrinksWindow(s, k - 1);
      ReclaimOne(Swept(s, k - 1));
    }
  }

  lemma RoundStaysInRange(s: Tx, k: nat)
    requires Valid(s) && |s.ring| >= 2 && MaySweep(s, k) && MayReclaim(Swept(s, k))
    ensures InRange(Swept(s, k)) && InRange(Reclaim(Swept(s, k)))
  {
    SweepShrinksWindow(s, k);
    ReclaimOne(Swept(s, k));
  }

  /** The slots still in the window are untouched. */
  lemma {:induction false} SweepKeepsRest(s: Tx, k: nat, i: nat)
    requires Valid(s) && |s.ring| >= 2 && MaySweep(s, k) && k <= i < Window(s)
    ensures Swept(s, k).ring[Idx(s.tail, i, |s.ring|)] == s.ring[Idx(s.tail, i, |s.ring|)]
  {
    if k > 0 {
      SweepKeepsRest(s, k - 1, i);
      SweepShrinksWindow(s, k - 1);
    }
  }

  /** What a pass takes back was completed. */
  lemma {:induction false} SweepTakesCompleted(s: Tx, k: nat, i: nat)
    requires Valid(s) && |s.ring| >= 2 && MaySweep(s, k) && i < k
    ensures k <= Window(s) && !s.ring[Idx(s.tail, i, |s.ring|)].owned
  {
    SweepShrinksWindow(s, k);
    if i == k - 1 {
      SweepShrinksWindow(s, i);
      SweepKeepsRest(s, i, i);
    } else {
      SweepTakesCompleted(s, k - 1, i);
    }
  }

  /** k descriptors from the tail on are completed, and the next one, if any, is not. */
  ghost predicate LongestPrefix(s: Tx, k: nat)
    requires Valid(s)
  {
    && k <= Window(s)
    && (forall i :: 0 <= i < k ==> !s.ring[Idx(s.tail, i, |s.ring|)].owned)
    && (k < Window(s) ==> s.ring[Idx(s.tail, k, |s.ring|)].owned)
  }

  /**
   A pass that stops after k rounds has taken back exactly the longest completed prefix
   of the window and raised the semaphore by k; the full ring, where tail equals head,
   is no exception.
   */
  lemma SweepTakesLongestPrefix(s: Tx, k: nat)
    requires Valid(s) && |s.ring| >= 2 && MaySweep(s, k) && !MayReclaim(Swept(s, k))
    ensures LongestPrefix(s, k)
    ensures Swept(s, k).sem == s.sem + k && Swept(s, k).tail == Idx(s.tail, k, |s.ring|)
    ensures Valid(Swept(s, k).(sweep := NoSweep)) && Window(Swept(s, k)) == Window(s) - k
  {
    SweepShrinksWindow(s, k);
    var x := Swept(s, k);
    assert x.(sweep := NoSweep) == Next(x, SweepEnd);
    StepKeepsValid(x, SweepEnd);
    forall i | 0 <= i < k ensures !s.ring[Idx(s.tail, i, |s.ring|)].owned {
      SweepTakesCompleted(s, k, i);
    }
    if k < Window(s) {
      SweepKeepsRest(s, k, k);
    }
  }

  // ----- in-order DMA: the wire is a prefix of what was submitted

  /** The DMA engine walks the ring: it only ever completes the descriptor it stands at. */
  predicate InOrder(s: Tx, steps: seq<TxStep>)
    requires Runs(s, steps)
    decreases |steps|
  {
    steps == [] || ((steps[0].DmaDone? ==> steps[0].k == s.dma) && InOrder(Next(s, steps[0]), steps[1..]))
  }

  /** Slot j, k links after the tail, carries the k-th frame not yet reclaimed, owned from the DMA's position on. */
  ghost predicate FrameOk(s: Tx, j: nat)
    requires j < |s.ring| && s.tail < |s.ring|
  {
    var k := Rel(s.tail, j, |s.ring|);
    s.reclaimed + k < |s.submitted| ==>
      && s.ring[j].buf == Some(s.submitted[s.reclaimed + k].buf)
      && s.ring[j].size == s.submitted[s.reclaimed + k].size
      && (s.ring[j].owned <==> |s.wire| <= s.reclaimed + k)
  }

  /** Reclaimed, sent and submitted frames, and the DMA's position. */
  predicate Counts(s: Tx) {
    && s.reclaimed <= |s.wire| <= |s.submitted|
    && |s.submitted| - s.reclaimed == Window(s) + (if s.output.Armed? then 1 else 0)
    && s.dma == Idx(s.tail, |s.wire| - s.reclaimed, |s.ring|)
    && s.wire <= s.submitted
  }

  ghost predicate Fifo(s: Tx) {
    && Valid(s) && Counts(s)
    && forall j :: 0 <= j < |s.ring| ==> FrameOk(s, j)
  }

  lemma InitialFifo(n: nat)
    requires n > 0
    ensures Fifo(Initial(n))
  {
    InitialValid(n);
  }

  lemma OutputKeepsFrame(s: Tx, step: TxStep, j: nat)
    requires Fifo(s) && Enabled(s, step) && |s.ring| >= 2 && j < |s.ring|
    requires !step.DmaDone? && !step.SweepBegin? && !step.SweepNext? && !step.SweepEnd?
    ensures FrameOk(Next(s, step), j)
  {
    assert SlotOk(s, j) && FrameOk(s, j);
    assert SlotOk(s, s.head) && FrameOk(s, s.head);
  }

  lemma OutputKeepsCounts(s: Tx, step: TxStep)
    requires Fifo(s) && Enabled(s, step) && |s.ring| >= 2
    requires !step.DmaDone? && !step.SweepBegin? && !step.SweepNext? && !step.SweepEnd?
    ensures Counts(Next(s, step))
  {
    assert SlotOk(s, s.head) && FrameOk(s, s.head);
  }

  lemma OutputKeepsFifo(s: Tx, step: TxStep)
    requires Fifo(s) && Enabled(s, step) && |s.ring| >= 2
    requires !step.DmaDone? && !step.SweepBegin? && !step.SweepNext? && !step.SweepEnd?
    ensures Fifo(Next(s, step))
  {
    OutputKeepsValid(s, step);
    OutputKeepsCounts(s, step);
    forall j | 0 <= j < |Next(s, step).ring|
      ensures FrameOk(Next(s, step), j)
    {
      OutputKeepsFrame(s, step, j);
    }
  }

  lemma DmaKeepsFrame(s: Tx, j: nat)
    requires Fifo(s) && Enabled(s, DmaDone(s.dma)) && |s.ring| >= 2 && j < |s.ring|
    ensures FrameOk(Next(s, DmaDone(s.dma)), j)
  {
    assert SlotOk(s, j) && FrameOk(s, j);
    assert SlotOk(s, s.dma) && FrameOk(s, s.dma);
  }

  lemma DmaKeepsFifo(s: Tx)
    requires Fifo(s) && Enabled(s, DmaDone(s.dma)) && |s.ring| >= 2
    ensures Fifo(Next(s, DmaDone(s.dma)))
  {
    DmaKeepsValid(s, s.dma);
    assert SlotOk(s, s.dma) && FrameOk(s, s.dma);
    forall j | 0 <= j < |s.ring|
      ensures FrameOk(Next(s, DmaDone(s.dma)), j)
    {
      DmaKeepsFrame(s, j);
    }
  }

  /** The positions of a slot before and after the tail moves on. */
  lemma RelAfterTail(tail: nat, j: nat, n: nat)
    requires tail < n && j < n
    ensures Rel(Succ(tail, n), j, n) + 1 == if j == tail then n else Rel(tail, j, n)
  {
  }

  lemma ReclaimKeepsFrame(s: Tx, j: nat)
    requires Fifo(s) && MayReclaim(s) && |s.ring| >= 2 && j < |s.ring| && s.reclaimed < |s.wire|
    ensures s.ring[s.tail].next < |s.ring| && FrameOk(Reclaim(s), j)
  {
    assert SlotOk(s, s.tail) && FrameOk(s, j);
    RelAfterTail(s.tail, j, |s.ring|);
  }

  lemma ReclaimKeepsFifo(s: Tx)
    requires Fifo(s) && Enabled(s, SweepNext) && |s.ring| >= 2
    ensures Fifo(Next(s, SweepNext))
    ensures s.reclaimed < |s.wire|
  {
    ReclaimOne(s);
    assert SlotOk(s, s.tail) && FrameOk(s, s.tail);
    forall j | 0 <= j < |s.ring|
      ensures FrameOk(Reclaim(s), j)
    {
      ReclaimKeepsFrame(s, j);
    }
  }

  lemma SweepKeepsFifo(s: Tx, step: TxStep)
    requires Fifo(s) && Enabled(s, step) && |s.ring| >= 2
    requires step.SweepBegin? || step.SweepEnd?
    ensures Fifo(Next(s, step))
  {
    var t := Next(s, step);
    SweepKeepsValid(s, step);
    forall j | 0 <= j < |t.ring|
      ensures FrameOk(t, j)
    {
      assert FrameOk(s, j);
    }
  }

  /** With a DMA engine that walks the ring, frames leave in submission order, none lost or repeated. */
  lemma {:induction false} RunKeepsFifo(s: Tx, steps: seq<TxStep>)
    requires Fifo(s) && |s.ring| >= 2 && Runs(s, steps) && InOrder(s, steps)
    ensures Fifo(Final(s, steps))
    ensures Final(s, steps).wire <= Final(s, steps).submitted
    ensures Final(s, steps).reclaimed <= |Final(s, steps).wire|
    decreases |steps|
  {
    if steps != [] {
      var step := steps[0];
      StepKeepsValid(s, step);
      if step.DmaDone? {
        DmaKeepsFifo(s);
      } else if step.SweepNext? {
        ReclaimKeepsFifo(s);
      } else if step.SweepBegin? || step.SweepEnd? {
        SweepKeepsFifo(s, step);
      } else {
        OutputKeepsFifo(s, step);
      }
      RunKeepsFifo(Next(s, step), steps[1..]);
    }
  }

  /** From start-up, whatever the interleaving, the wire is a prefix of what was submitted. */
  lemma StartedRunKeepsFifo(n: nat, steps: seq<TxStep>)
    requires n >= 2 && Runs(Initial(n), steps) && InOrder(Initial(n), steps)
    ensures var t := Final(Initial(n), steps);
            && t.wire <= t.submitted && t.reclaimed <= |t.wire|
            && Fifo(t)
  {
    InitialFifo(n);
    RunKeepsFifo(Initial(n), steps);
  }

  /** A buffer is handed back only after its own frame has been sent. */
  lemma ReleasedAfterSent(s: Tx)
    requires Fifo(s) && Enabled(s, SweepNext) && |s.ring| >= 2
    ensures s.reclaimed < |s.wire|
    ensures s.ring[s.tail].buf == Some(s.wire[s.reclaimed].buf)
  {
    ReclaimKeepsFifo(s);
    assert FrameOk(s, s.tail);
  }

  // ----- what is submitted, as the calls of a run ask for it

  /** The frames of a run: a call names the job, and each ownership bit set hands over the job of the last call. */
  function FramesOn(steps: seq<TxStep>, job: Job): seq<Frame> {
    if steps == [] then []
    else
      match steps[0]
      case Call(called, linkUp) => FramesOn(steps[1..], if linkUp then called else job)
      case Arm => [Frame(job.buf, if job.length <= 1536 then job.length else 1536)] + FramesOn(steps[1..], job)
      case _ => FramesOn(steps[1..], job)
  }

  /** Every frame is submitted from its own buffer and with its own length, up to the size of a buffer. */
  lemma {:induction false} RunSubmits(s: Tx, steps: seq<TxStep>, job: Job)
    requires Runs(s, steps) && (s.output.Idle? || s.output.job == job)
    ensures Final(s, steps).submitted == s.submitted + FramesOn(steps, job)
    decreases |steps|
  {
    if steps != [] {
      var called := if steps[0].Call? && steps[0].linkUp then steps[0].job else job;
      RunSubmits(Next(s, steps[0]), steps[1..], called);
    }
  }

  /** From the initialised ring on, the wire carries the frames of the calls in order, each with its own length. */
  lemma StartedRunSends(n: nat, steps: seq<TxStep>, job: Job)
    requires n >= 2 && Runs(Initial(n), steps) && InOrder(Initial(n), steps)
    ensures Final(Initial(n), steps).wire <= FramesOn(steps, job)
    ensures Final(Initial(n), steps).submitted == FramesOn(steps, job)
  {
    StartedRunKeepsFifo(n, steps);
    RunSubmits(Initial(n), steps, job);
  }
}
