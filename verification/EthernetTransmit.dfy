/** The transmit functions as they update the descriptor table in place. */
module EthernetTransmit {
  import opened Prelude
  import opened Ring
  import opened EthernetTx

  class TransmitInterface {
    const ring: array<TxDesc>
    var txDescriptor: nat
    var toClear: nat
    var semaphore: nat
    var released: multiset<Buf>  // handed to vReleaseNetworkBufferAndDescriptor so far
    // The DMA engine's position and the history of the interface.
    ghost var dma: nat
    ghost var submitted: seq<Frame>
    ghost var wire: seq<Frame>
    ghost var reclaimed: nat

    ghost function State(output: Output, sweep: Sweep): Tx
      reads this, ring
    {
      Tx(ring[..], txDescriptor, toClear, semaphore, output, sweep, dma, submitted, wire, reclaimed)
    }

    /** DMATxDescListInit on a zeroed table. */
    constructor (n: nat)
      requires n > 0
      ensures State(Idle, NoSweep) == Initial(n)
      ensures released == multiset{} && fresh(ring)
    {
      ring := new TxDesc[n](_ => TxDesc(false, None, 0, 0));
      txDescriptor, toClear, semaphore := 0, 0, n;
      released := multiset{};
      dma, submitted, wire, reclaimed := 0, [], [], 0;
      new;
      var i := 0;
      while i < n
        modifies ring
        invariant i <= n
        invariant forall j :: 0 <= j < i ==> ring[j] == TxDesc(false, None, 0, Succ(j, n))
        invariant forall j :: i <= j < n ==> ring[j] == TxDesc(false, None, 0, 0)
      {
        ring[i] := TxDesc(false, ring[i].buf, ring[i].size, if i < n - 1 then i + 1 else 0);
        i := i + 1;
      }
      assert ring[..] == Initial(n).ring;
    }

    /**
     xNetworkInterfaceOutput from start to end, with no one else stepping in between.
     It succeeds exactly when the link is up and a descriptor is free; otherwise the
     ring is untouched and the buffer is released if the caller asked for that.
     */
    method Output(job: Job, linkUp: bool) returns (result: bool)
      requires Valid(State(Idle, NoSweep)) && ring.Length >= 2
      requires linkUp && semaphore > 0 ==> job.release  // asserted by the code once the semaphore is taken
      modifies ring, `txDescriptor, `semaphore, `released, `submitted
      ensures Runs(old(State(Idle, NoSweep)), OutputRun(job, linkUp, old(semaphore)))
      ensures State(Idle, NoSweep) == Final(old(State(Idle, NoSweep)), OutputRun(job, linkUp, old(semaphore)))
      ensures Valid(State(Idle, NoSweep))
      ensures result <==> linkUp && old(semaphore) > 0
      ensures result ==>
                && released == old(released)
                && submitted == old(submitted) + [Frame(job.buf, if job.length <= 1536 then job.length else 1536)]
                && ring[old(txDescriptor)].owned && ring[old(txDescriptor)].buf == Some(job.buf)
                && Window(State(Idle, NoSweep)) == old(Window(State(Idle, NoSweep))) + 1
      ensures !result ==>
                && State(Idle, NoSweep) == old(State(Idle, NoSweep))
                && released == old(released) + (if job.release then multiset{job.buf} else multiset{})
    {
      result := false;
      ghost var start := State(Idle, NoSweep);
      OutputRunRuns(start, job, linkUp);
      var releaseAfterSend := job.release;
      if linkUp && semaphore > 0 {
        semaphore := semaphore - 1;
        var d := txDescriptor;
        var transmitSize := job.length;
        if transmitSize > TX_BUFFER_SIZE {
          transmitSize := TX_BUFFER_SIZE;
        }
        ring[d] := ring[d].(buf := Some(job.buf));
        releaseAfterSend := false;
        ring[d] := ring[d].(size := transmitSize % 0x2000);
        ring[d] := ring[d].(owned := true);
        submitted := submitted + [Frame(job.buf, transmitSize % 0x2000)];
        txDescriptor := ring[txDescriptor].next;
        result := true;
        assert ring[..] == Prepared(start, job).ring;
      }
      if releaseAfterSend {
        released := released + multiset{job.buf};
      }
    }

    /** The body of the reclaim loop: release the payload, clear the slot, move on, give the semaphore. */
    method ReclaimSlot(ghost x: Tx, ghost y: Tx)
      requires x == State(x.output, x.sweep) && InRange(x) && MayReclaim(x) && y == Reclaim(x)
      modifies ring, `toClear, `semaphore, `released, `reclaimed
      ensures y == State(y.output, y.sweep)
      ensures released == old(released) + AsBag(x.ring[x.tail].buf)
    {
      var payload := ring[toClear].buf;
      if payload.Some? {
        released := released + multiset{payload.value};
        ring[toClear] := ring[toClear].(buf := None);
      }
      toClear := ring[toClear].next;
      if semaphore < ring.Length {
        semaphore := semaphore + 1;
      }
      reclaimed := reclaimed + 1;
      assert ring[..] == Reclaim(x).ring;
    }

    /** After k rounds of the pass that began in s, with the loop's locals. */
    ghost predicate AtRound(s: Tx, k: nat, last: nat, count: nat, stock: multiset<Buf>)
      reads this, ring
    {
      Reached(s, k, State(s.output, Sweeping(last, count)), released, stock)
    }

    lemma RoundZero(s: Tx, stock: multiset<Buf>)
      requires s == State(s.output, NoSweep) && Valid(s) && |s.ring| >= 2 && stock == released
      ensures semaphore <= ring.Length && AtRound(s, 0, txDescriptor, ring.Length - semaphore, stock)
    {
    }

    /** What the pass has done when its loop stops. */
    ghost predicate PassDone(s: Tx, k: nat, stock: multiset<Buf>)
      reads this, ring
    {
      Ended(s, k, State(s.output, NoSweep), released, stock)
    }

    lemma RoundLast(s: Tx, k: nat, last: nat, count: nat, stock: multiset<Buf>)
      requires AtRound(s, k, last, count, stock) && !MayReclaim(State(s.output, Sweeping(last, count)))
      ensures PassDone(s, k, stock)
    {
    }

    /** One more round. */
    method ReclaimRound(ghost s: Tx, ghost k: nat, ghost last: nat, ghost count: nat, ghost stock: multiset<Buf>)
      requires AtRound(s, k, last, count, stock)
      requires MayReclaim(State(s.output, Sweeping(last, count)))
      modifies ring, `toClear, `semaphore, `released, `reclaimed
      ensures AtRound(s, k + 1, last, count - 1, stock)
    {
      ghost var x := State(s.output, Sweeping(last, count));
      RoundReaches(s, k, x, released, stock);
      ReclaimSlot(x, Reclaim(x));
    }

    /** The reclaim loop. */
    method ReclaimLoop(ghost s: Tx) returns (ghost k: nat)
      requires s == State(s.output, NoSweep) && Valid(s) && ring.Length >= 2
      modifies ring, `toClear, `semaphore, `released, `reclaimed
      ensures PassDone(s, k, old(released))
    {
      ghost var stock := released;
      RoundZero(s, stock);
      var last := txDescriptor;
      var count: nat := ring.Length - semaphore;
      k := 0;
      while count > 0 && !ring[toClear].owned
        invariant AtRound(s, k, last, count, stock)
        decreases count
      {
        if toClear == last && count != ring.Length {
          break;
        }
        ReclaimRound(s, k, last, count, stock);
        count := count - 1;
        k := k + 1;
      }
      RoundLast(s, k, last, count, stock);
    }

    /**
     One reclaim pass while the DMA engine is idle, wherever the output task was
     preempted: it takes back exactly the longest completed prefix of the window and
     raises the semaphore by that number.
     */
    method ClearTxBuffers(ghost s: Tx) returns (ghost k: nat)
      requires s == State(s.output, NoSweep) && Valid(s) && ring.Length >= 2
      modifies ring, `toClear, `semaphore, `released, `reclaimed
      ensures MaySweep(s, k) && !MayReclaim(Swept(s, k))
      ensures State(s.output, NoSweep) == Swept(s, k).(sweep := NoSweep)
      ensures released == old(released) + SweptBuffers(s, k)
      ensures Valid(State(s.output, NoSweep)) && LongestPrefix(s, k)
      ensures semaphore == s.sem + k && toClear == Idx(s.tail, k, |s.ring|)
    {
      k := ReclaimLoop(s);
      SweepTakesLongestPrefix(s, k);
    }
  }

  /** The steps one undisturbed call takes. */
  function OutputRun(job: Job, linkUp: bool, sem: nat): seq<TxStep> {
    if !linkUp then [Call(job, false)]
    else if sem == 0 then [Call(job, true), Timeout]
    else [Call(job, true), Take, Check, Store, Prepare, Arm, Advance]
  }

  /** The state after a call that got a descriptor. */
  function Prepared(s: Tx, job: Job): Tx
    requires InRange(s) && s.sem > 0
  {
    var d := TxDesc(true, Some(job.buf), TransmitSize(job.length), s.ring[s.head].next);
    Tx(s.ring[s.head := d], s.ring[s.head].next, s.tail, s.sem - 1, s.output, s.sweep, s.dma,
       s.submitted + [Frame(job.buf, TransmitSize(job.length))], s.wire, s.reclaimed)
  }

  lemma CheckPasses(s: Tx, job: Job) returns (t: seq<TxStep>)
    requires Valid(s) && s.output.Idle? && s.sweep.NoSweep? && |s.ring| >= 2 && s.sem > 0 && job.release
    ensures t == [Call(job, true), Take, Check]
    ensures Runs(s, t) && Final(s, t) == s.(sem := s.sem - 1, output := Checked(job))
  {
    t := Then(s, [], Call(job, true));
    t := Then(s, t, Take);
    RunKeepsWindow(s, t);
    HeadIsNotOwned(Final(s, t));
    t := Then(s, t, Check);
  }

  lemma DescriptorFilled(s: Tx, job: Job, before: seq<TxStep>) returns (t: seq<TxStep>)
    requires InRange(s) && s.output.Idle? && s.sweep.NoSweep? && s.sem > 0
    requires Runs(s, before) && Final(s, before) == s.(sem := s.sem - 1, output := Checked(job))
    ensures t == before + [Store, Prepare, Arm, Advance] && Runs(s, t) && Final(s, t) == Prepared(s, job)
  {
    t := Then(s, before, Store);
    t := Then(s, t, Prepare);
    t := Then(s, t, Arm);
    t := Then(s, t, Advance);
  }

  lemma OutputSucceeds(s: Tx, job: Job)
    requires Valid(s) && s.output.Idle? && s.sweep.NoSweep? && |s.ring| >= 2 && s.sem > 0 && job.release
    ensures var steps := OutputRun(job, true, s.sem); Runs(s, steps) && Final(s, steps) == Prepared(s, job)
    ensures Valid(Prepared(s, job)) && Window(Prepared(s, job)) == Window(s) + 1
  {
    var t := CheckPasses(s, job);
    t := DescriptorFilled(s, job, t);
    assert t == OutputRun(job, true, s.sem);
    RunKeepsWindow(s, t);
  }

  lemma OutputRunRuns(s: Tx, job: Job, linkUp: bool)
    requires Valid(s) && s.output.Idle? && s.sweep.NoSweep? && |s.ring| >= 2
    requires linkUp && s.sem > 0 ==> job.release
    ensures var steps := OutputRun(job, linkUp, s.sem);
            Runs(s, steps) && Final(s, steps) == if linkUp && s.sem > 0 then Prepared(s, job) else s
    ensures linkUp && s.sem > 0 ==> Valid(Prepared(s, job)) && Window(Prepared(s, job)) == Window(s) + 1
  {
    if linkUp && s.sem > 0 {
      OutputSucceeds(s, job);
    } else {
      var t := Then(s, [], Call(job, linkUp));
      if linkUp {
        t := Then(s, t, Timeout);
      }
      assert t == OutputRun(job, linkUp, s.sem);
    }
  }

  /** k rounds of a pass lead from s to x and add what they release to the stock. */
  ghost predicate Reached(s: Tx, k: nat, x: Tx, released: multiset<Buf>, stock: multiset<Buf>) {
    && Valid(s) && |s.ring| >= 2
    && MaySweep(s, k) && Swept(s, k) == x && InRange(x)
    && released == stock + SweptBuffers(s, k)
  }

  /** A pass of k rounds that stopped left x and added what it released to the stock. */
  ghost predicate Ended(s: Tx, k: nat, x: Tx, released: multiset<Buf>, stock: multiset<Buf>) {
    && MaySweep(s, k) && !MayReclaim(Swept(s, k))
    && x == Swept(s, k).(sweep := NoSweep)
    && released == stock + SweptBuffers(s, k)
  }

  /** One more round of a pass. */
  lemma RoundReaches(s: Tx, k: nat, x: Tx, released: multiset<Buf>, stock: multiset<Buf>)
    requires Reached(s, k, x, released, stock) && MayReclaim(x)
    ensures Reached(s, k + 1, Reclaim(x), released + AsBag(x.ring[x.tail].buf), stock)
  {
    RoundStaysInRange(s, k);
    Regroup(stock, SweptBuffers(s, k), AsBag(x.ring[x.tail].buf));
  }

  lemma Regroup(a: multiset<Buf>, b: multiset<Buf>, c: multiset<Buf>)
    ensures (a + b) + c == a + (b + c)
  {
  }
}
