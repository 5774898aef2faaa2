/** The receive functions as they update the descriptor table, the buffer headers and the pool in place. */
module EthernetReceive {
  import opened Prelude
  import opened Ring
  import opened EthernetChain
  import opened EthernetRx

  // ----- a drain with nothing in between

  function Taken(gots: seq<Option<Buf>>): multiset<Buf> {
    if gots == [] then multiset{} else Taken(gots[..|gots| - 1]) + AsBag(gots[|gots| - 1])
  }

  /** The loop can go round once for each entry; an entry is what the pool answered, None if it was not asked. */
  predicate Drains(s: Rx, gots: seq<Option<Buf>>)
    decreases |gots|, 0
  {
    gots == [] ||
    var n := |gots| - 1;
    && Drains(s, gots[..n]) && MayDrain(Drained(s, gots[..n]))
    && (gots[n].Some? ==> WantsNext(Drained(s, gots[..n])))
  }

  function Drained(s: Rx, gots: seq<Option<Buf>>): (x: Rx)
    requires Drains(s, gots)
    ensures |x.ring| == |s.ring|
    decreases |gots|, 1
  {
    if gots == [] then s else DrainNext(Drained(s, gots[..|gots| - 1]), gots[|gots| - 1])
  }

  predicate WantsNext(s: Rx)
    requires MayDrain(s)
  {
    Wanted(s.ring[s.cur], s.heap)
  }

  lemma DrainsOneMore(s: Rx, gots: seq<Option<Buf>>, got: Option<Buf>)
    requires Drains(s, gots) && MayDrain(Drained(s, gots)) && (got.Some? ==> WantsNext(Drained(s, gots)))
    ensures Drains(s, gots + [got]) && Drained(s, gots + [got]) == DrainNext(Drained(s, gots), got)
    ensures Taken(gots + [got]) == Taken(gots) + AsBag(got)
  {
    assert (gots + [got])[..|gots|] == gots;
  }

  /** The loop visits the pending descriptors in ring order and returns each of them to the DMA engine. */
  lemma {:induction false} DrainWalks(s: Rx, gots: seq<Option<Buf>>)
    requires Walkable(s) && s.drain.Draining? && Drains(s, gots)
    ensures var x := Drained(s, gots);
            && |gots| <= Pending(s) && x.cur == Idx(s.cur, |gots|, |s.ring|) && x.drain.Draining?
            && |x.outcomes| == |s.outcomes| + |gots| && x.arrived == s.arrived
            && x.passed == s.passed
    ensures forall j :: 0 <= j < |s.ring| ==>
              var k := Rel(s.cur, j, |s.ring|);
              && Drained(s, gots).ring[j].next == s.ring[j].next
              && (k < |gots| || k >= Pending(s) ==> Drained(s, gots).ring[j].owned)
              && (|gots| <= k ==> Drained(s, gots).ring[j] == s.ring[j])
  {
    if gots != [] {
      DrainWalks(s, gots[..|gots| - 1]);
    }
  }

  /** The buffers of the pending descriptors for which the pool gave a replacement. */
  function AcceptedBuffers(s: Rx, gots: seq<Option<Buf>>): seq<Buf>
    requires s.cur < |s.ring| && |gots| <= |s.ring|
  {
    if gots == [] then []
    else
      var n := |gots| - 1;
      AcceptedBuffers(s, gots[..n]) + (if gots[n].Some? then [s.ring[Idx(s.cur, n, |s.ring|)].buf] else [])
  }

  /** What one undisturbed drain links are the buffers of the frames it accepts, in ring order. */
  lemma {:induction false} DrainLinks(s: Rx, gots: seq<Option<Buf>>)
    requires Walkable(s) && s.drain.Draining? && s.drain.chain == [] && Drains(s, gots) && |gots| <= |s.ring|
    ensures Drained(s, gots).drain.Draining? && Drained(s, gots).drain.chain == AcceptedBuffers(s, gots)
  {
    if gots != [] {
      var n := |gots| - 1;
      var y := Drained(s, gots[..n]);
      DrainLinks(s, gots[..n]);
      DrainWalks(s, gots[..n]);
      assert Rel(s.cur, y.cur, |s.ring|) == n;
      assert y.ring[y.cur] == s.ring[Idx(s.cur, n, |s.ring|)];
    }
  }

  /** Frames in different buffers are linked once each. */
  lemma {:induction false} DistinctPending(s: Rx, gots: seq<Option<Buf>>)
    requires s.cur < |s.ring| && |gots| <= Pending(s) <= |s.ring| && PendingDistinct(s)
    ensures Distinct(AcceptedBuffers(s, gots))
    ensures forall b :: b in AcceptedBuffers(s, gots) ==>
              exists j :: 0 <= j < |s.ring| && Rel(s.cur, j, |s.ring|) < |gots| && s.ring[j].buf == b
  {
    if gots != [] {
      var n := |gots| - 1;
      var front, j := AcceptedBuffers(s, gots[..n]), Idx(s.cur, n, |s.ring|);
      DistinctPending(s, gots[..n]);
      assert Rel(s.cur, j, |s.ring|) == n && IsPending(s, j);
      forall b | b in front ensures b != s.ring[j].buf {
        var i :| 0 <= i < |s.ring| && Rel(s.cur, i, |s.ring|) < n && s.ring[i].buf == b;
        assert IsPending(s, i);
      }
      DistinctSnoc(front, s.ring[j].buf);
    }
  }

  lemma DistinctSnoc(front: seq<Buf>, b: Buf)
    requires Distinct(front) && b !in front
    ensures Distinct(front + [b])
  {
  }

  lemma {:induction false} DrainThreads(s: Rx, gots: seq<Option<Buf>>)
    requires Shape(s) && Threaded(s) && Drains(s, gots)
    ensures Shape(Drained(s, gots)) && Threaded(Drained(s, gots))
  {
    if gots != [] {
      var y := Drained(s, gots[..|gots| - 1]);
      DrainThreads(s, gots[..|gots| - 1]);
      DrainKeepsShape(y, gots[|gots| - 1]);
      DrainKeepsThreaded(y, gots[|gots| - 1]);
    }
  }

  /** The length the loop leaves behind is that of the frame it visited last. */
  lemma {:induction false} LastLength(s: Rx, gots: seq<Option<Buf>>)
    requires Walkable(s) && s.drain.Draining? && Drains(s, gots) && |gots| <= |s.ring|
    ensures Drained(s, gots).drain.Draining?
    ensures gots == [] ==> Drained(s, gots).drain.length == s.drain.length
    ensures gots != [] ==>
              Drained(s, gots).drain.length + 4 == s.ring[Idx(s.cur, |gots| - 1, |s.ring|)].status.length % 0x4000
  {
    if gots != [] {
      var n := |gots| - 1;
      var y := Drained(s, gots[..n]);
      DrainWalks(s, gots[..n]);
      assert Rel(s.cur, y.cur, |s.ring|) == n;
      assert y.ring[y.cur] == s.ring[Idx(s.cur, n, |s.ring|)];
    }
  }

  /** Whether a drain reports something received: the last frame it visits is longer than its check sequence. */
  predicate Receives(s: Rx) {
    && 0 < Pending(s) <= |s.ring| && s.cur < |s.ring|
    && s.ring[Idx(s.cur, Pending(s) - 1, |s.ring|)].status.length % 0x4000 > 4
  }

  lemma ReceivesExactly(s: Rx, gots: seq<Option<Buf>>, x: Rx)
    requires Walkable(s) && Visited(s, gots, x)
    ensures x.drain.Draining? && (x.drain.length > 0 <==> Receives(s))
  {
    LastLength(Begin(s), gots);
  }

  /** x ends a whole drain from s: every pending descriptor was visited. */
  ghost predicate Visited(s: Rx, gots: seq<Option<Buf>>, x: Rx) {
    && MayBegin(s) && Drains(Begin(s), gots) && x == Drained(Begin(s), gots)
    && |gots| == Pending(s) && MayEnd(x)
  }

  /** The links are those the linked buffers' order leaves behind. */
  ghost predicate ListReady(x: Rx) {
    Shape(x) && Threaded(x) && x.drain.Draining? && (x.drain.first.Some? <==> x.drain.chain != [])
  }

  /**
   After at most that many rounds of the release loop: the list went to the IP task, or its
   buffers went back to the pool one after the other.
   */
  ghost predicate HandedOver(chain: seq<Buf>, sent: bool, rounds: nat, pool: multiset<Buf>, held: multiset<Buf>,
                             pool': multiset<Buf>, held': multiset<Buf>)
  {
    if sent then held' == held + multiset(OnList(chain)) && pool' == pool
    else held' == held && pool' == pool + multiset(Walk(chain, rounds))
  }

  /** Whether that is all of it. */
  predicate Finishes(chain: seq<Buf>, sent: bool, rounds: nat) { sent || Where(chain, rounds).None? }

  /** The pool is asked exactly for wanted frames, and gives nothing only when it is empty. */
  predicate Answered(wanted: bool, pool: multiset<Buf>, got: Option<Buf>, pool': multiset<Buf>) {
    && (got.Some? ==> wanted && got.value in pool)
    && (wanted && got.None? ==> pool == multiset{})
    && pool' == pool - AsBag(got)
  }

  predicate Judged(wanted: bool, spare: Option<Buf>, pool: multiset<Buf>,
                   accepted: bool, spare': Option<Buf>, got: Option<Buf>, pool': multiset<Buf>)
  {
    && Answered(wanted, pool, got, pool')
    && (accepted <==> OutcomeOf(wanted, got).Accepted?)
    && spare' == if wanted then got else spare
  }

  /** The buffers of these descriptors and the pool make up the stock. */
  ghost predicate Stocked(ring: seq<RxDesc>, pool: multiset<Buf>, stock: multiset<Buf>) {
    RingBag(ring) + pool == stock
  }

  class ReceiveInterface {
    const ring: array<RxDesc>
    var rxDescriptor: nat
    var heap: Heap
    var pool: multiset<Buf>  // free network buffers
    ghost var held: multiset<Buf>  // network buffers handed to the IP task
    // The DMA engine's position and the history of the interface.
    ghost var dma: nat
    ghost var arrived: seq<Arrival>
    ghost var outcomes: seq<Outcome>
    ghost var passed: nat

    ghost function State(drain: Drain): Rx
      reads this, ring
    {
      Rx(ring[..], rxDescriptor, heap, drain, dma, arrived, outcomes, passed)
    }

    /** pxGetNetworkBufferWithDescriptor: some free buffer, or none when the wait for one times out. */
    method GetNetworkBuffer() returns (b: Option<Buf>)
      modifies `pool
      ensures b.None? <==> old(pool) == multiset{}
      ensures b.Some? ==> b.value in old(pool)
      ensures pool == old(pool) - AsBag(b)
    {
      if pool == multiset{} {
        b := None;
      } else {
        var x :| x in pool;
        b := Some(x);
        pool := pool - multiset{x};
      }
    }

    /** One descriptor of DMARxDescListInit. */
    method FillDescriptor(i: nat, ghost stock: multiset<Buf>)
      requires i < ring.Length <= |stock| && FilledTo(ring[..], i, pool, stock)
      modifies ring, `pool
      ensures FilledTo(ring[..], i + 1, pool, stock)
    {
      ghost var table, before := ring[..], pool;
      PoolNotEmpty(table[..i], pool, stock);
      var b := GetNetworkBuffer();
      var d := RxDesc(true, b.value, ring[i].status, if i < ring.Length - 1 then i + 1 else 0);
      ring[i] := d;
      assert ring[..] == table[i := d];
      SlotFilled(table, i, d, before, pool, stock);
    }

    /** DMARxDescListInit: every descriptor gets its own buffer and is handed to the DMA engine. */
    method DmaRxDescListInit(ghost stock: multiset<Buf>)
      requires pool == stock && ring.Length <= |stock|  // a missing buffer stops the code in an assertion
      modifies ring, `pool
      ensures forall j :: 0 <= j < ring.Length ==> ring[j].owned && ring[j].next == Succ(j, ring.Length)
      ensures Stocked(ring[..], pool, stock)
    {
      var i := 0;
      while i < ring.Length
        invariant i <= ring.Length && FilledTo(ring[..], i, pool, stock)
      {
        FillDescriptor(i, stock);
        i := i + 1;
      }
      assert ring[..][..i] == ring[..];
    }

    constructor (n: nat, stock: multiset<Buf>)
      requires 0 < n <= |stock|
      requires forall b :: stock[b] <= 1
      ensures State(NoDrain) == Initial(ring[..]) && fresh(ring) && ring.Length == n
      ensures Ordered(Initial(ring[..])) && Bag(Initial(ring[..])) + pool == stock
      ensures held == multiset{}
    {
      ring := new RxDesc[n](_ => RxDesc(false, 0, Arrival(BLANK.packet, 0, false, false, false), 0));
      rxDescriptor, heap, pool, held := 0, map[], stock, multiset{};
      dma, arrived, outcomes, passed := 0, [], [], 0;
      new;
      DmaRxDescListInit(stock);
      InitialOrdered(ring[..], pool, stock);
    }

    /** Appends a buffer to the chain built so far. */
    method Link(first: Option<Buf>, last: Option<Buf>, buffer: Buf, length: nat, ghost locals: Drain)
      returns (first': Option<Buf>, last': Option<Buf>, ghost chain': seq<Buf>)
      requires locals.Draining? && locals.first == first && locals.last == last
      modifies `heap
      ensures heap == LinkHeap(old(heap), locals, buffer, length)
      ensures LinkDrain(locals, buffer) == locals.(first := first', last := last', chain := chain')
    {
      heap := heap[buffer := At(heap, buffer).(length := length, next := None)];
      first' := first;
      if first.None? {
        first' := Some(buffer);
      } else if last.Some? {
        heap := heap[last.value := At(heap, last.value).(next := Some(buffer))];
      }
      last' := Some(buffer);
      chain' := locals.chain + [buffer];
    }

    /** The status tests and the request for a replacement buffer. */
    method Judge(d: RxDesc, spare: Option<Buf>) returns (accepted: bool, spare': Option<Buf>, ghost got: Option<Buf>)
      modifies `pool
      ensures Judged(Wanted(d, heap), spare, old(pool), accepted, spare', got, pool)
    {
      accepted, spare', got := Wanted(d, heap), spare, None;
      if accepted {
        var newDescriptor := GetNetworkBuffer();
        spare', got := newDescriptor, newDescriptor;
        accepted := newDescriptor.Some?;
      }
    }

    /** One iteration of the drain loop; the loop's locals go in and come out. */
    method DrainDescriptor(first: Option<Buf>, last: Option<Buf>, spare: Option<Buf>, ghost s: Rx)
      returns (first': Option<Buf>, last': Option<Buf>, spare': Option<Buf>, length': int, ghost chain': seq<Buf>,
               ghost got: Option<Buf>)
      requires s == State(s.drain) && MayDrain(s)
      requires s.drain.first == first && s.drain.last == last && s.drain.spare == spare
      modifies ring, `rxDescriptor, `heap, `pool, `outcomes
      ensures State(Draining(first', last', spare', length', chain')) == DrainNext(s, got)
      ensures Answered(WantsNext(s), old(pool), got, pool)
    {
      var d := ring[rxDescriptor];
      length' := d.status.length % 0x4000 - 4;
      var accepted;
      accepted, spare', got := Judge(d, spare);
      first', last', chain' := first, last, s.drain.chain;
      if accepted {
        first', last', chain' := Link(first, last, d.buf, DataLength(d.status.length), s.drain);
      }
      ring[rxDescriptor] := RxDesc(true, if spare'.Some? then spare'.value else d.buf, d.status, d.next);
      rxDescriptor := d.next;
      outcomes := outcomes + [OutcomeOf(WantsNext(s), got)];
      assert ring[..] == DrainNext(s, got).ring;
    }

    /** After the rounds in gots of the drain that began in start, with the loop's locals. */
    ghost predicate AtRound(start: Rx, gots: seq<Option<Buf>>, locals: Drain, stock: multiset<Buf>)
      reads this, ring
    {
      Reached(start, gots, State(locals), pool, stock)
    }

    /** One round of the drain loop. */
    method DrainRound(first: Option<Buf>, last: Option<Buf>, spare: Option<Buf>,
                      ghost start: Rx, ghost gots: seq<Option<Buf>>, ghost locals: Drain, ghost stock: multiset<Buf>)
      returns (first': Option<Buf>, last': Option<Buf>, spare': Option<Buf>, length': int,
               ghost more: seq<Option<Buf>>, ghost locals': Drain)
      requires AtRound(start, gots, locals, stock) && MayDrain(State(locals))
      requires locals.first == first && locals.last == last && locals.spare == spare
      modifies ring, `rxDescriptor, `heap, `pool, `outcomes
      ensures AtRound(start, more, locals', stock) && |gots| < |more| <= Pending(start)
      ensures locals'.Draining? && locals' == Draining(first', last', spare', length', locals'.chain)
    {
      ghost var x, before, chain', got := State(locals), pool, [], None;
      first', last', spare', length', chain', got := DrainDescriptor(first, last, spare, x);
      locals', more := Draining(first', last', spare', length', chain'), gots + [got];
      RoundReaches(start, gots, x, got, before, pool, stock);
    }

    /** The drain loop. */
    method DrainPending(ghost start: Rx)
      returns (first: Option<Buf>, length: int, ghost gots: seq<Option<Buf>>, ghost x: Rx)
      requires start == State(NoDrain) && Walkable(start)
      modifies ring, `rxDescriptor, `heap, `pool, `outcomes
      ensures Visited(start, gots, x)
      ensures x == State(x.drain) && x.drain.first == first && x.drain.length == length
      ensures Taken(gots) <= old(pool) && pool == old(pool) - Taken(gots)
    {
      var last, spare: Option<Buf> := None, None;
      ghost var stock, locals := pool, Draining(None, None, None, 0, []);
      first, length, gots := None, 0, [];
      RoundZero(start, pool);
      while !ring[rxDescriptor].owned
        invariant rxDescriptor < ring.Length
        invariant locals.Draining? && locals == Draining(first, last, spare, length, locals.chain)
        invariant AtRound(start, gots, locals, stock)
        decreases Pending(start) - |gots|
      {
        first, last, spare, length, gots, locals := DrainRound(first, last, spare, start, gots, locals, stock);
      }
      x := State(locals);
      RoundLast(start, gots, x, pool, stock);
    }

    /** After the loop: what was linked goes up. */
    method PassUp(first: Option<Buf>, sent: bool, rounds: nat, ghost x: Rx) returns (finished: bool)
      requires x == State(x.drain) && MayEnd(x) && x.drain.first == first && ListReady(x)
      modifies `pool, `held, `passed
      ensures State(NoDrain) == End(x)
      ensures HandedOver(x.drain.chain, sent, rounds, old(pool), old(held), pool, held)
      ensures finished <==> Finishes(x.drain.chain, sent, rounds)
    {
      passed := passed + |x.drain.chain|;
      finished := true;
      if first.Some? {
        finished := PassMessage(first.value, sent, rounds, x);
      }
    }

    /**
     One drain while the DMA engine is idle. It visits every pending descriptor once, in
     ring order, hands each back to the DMA engine, and passes up what it linked. If the IP
     task refuses it, the release loop is followed for the given number of rounds.
     */
    method EmacInterfaceInput(sent: bool, rounds: nat)
      returns (received: bool, finished: bool, ghost gots: seq<Option<Buf>>, ghost x: Rx)
      requires Walkable(State(NoDrain))
      modifies ring, `rxDescriptor, `heap, `pool, `held, `outcomes, `passed
      ensures Visited(old(State(NoDrain)), gots, x) && ListReady(x) && State(NoDrain) == End(x)
      ensures x.drain.chain == AcceptedBuffers(old(State(NoDrain)), gots)
      ensures received <==> Receives(old(State(NoDrain)))
      ensures Taken(gots) <= old(pool)
      ensures HandedOver(x.drain.chain, sent, rounds, old(pool) - Taken(gots), old(held), pool, held)
      ensures finished <==> Finishes(x.drain.chain, sent, rounds)
    {
      var first, length;
      ghost var start := State(NoDrain);
      first, length, gots, x := DrainPending(start);
      DrainReadies(start, gots);
      ReceivesExactly(start, gots, x);
      finished := PassUp(first, sent, rounds, x);
      received := length > 0;
    }

    /** passMessage: the IP task takes the list, or its buffers are released, followed for some rounds. */
    method PassMessage(descriptor: Buf, sent: bool, rounds: nat, ghost x: Rx) returns (finished: bool)
      requires ListReady(x) && x.heap == heap && x.drain.first == Some(descriptor)
      modifies `pool, `held
      ensures HandedOver(x.drain.chain, sent, rounds, old(pool), old(held), pool, held)
      ensures finished <==> Finishes(x.drain.chain, sent, rounds)
    {
      ghost var chain := x.drain.chain;
      if sent {
        held := held + multiset(OnList(chain));
        return true;
      }
      var d, k := Some(descriptor), 0;
      ghost var start := pool;
      while d.Some? && k < rounds
        invariant k <= rounds && d == Where(chain, k) && held == old(held)
        invariant pool == start + multiset(Walk(chain, k))
      {
        WalkOn(chain, k);
        var next := At(heap, d.value).next;
        pool := pool + multiset{d.value};
        d := next;
        k := k + 1;
      }
      WalkStops(chain, k, rounds);
      finished := d.None?;
    }
  }

  /** The answers in gots lead a drain from start to x. */
  ghost predicate OnWay(start: Rx, gots: seq<Option<Buf>>, x: Rx) {
    && MayBegin(start) && Walkable(start) && x.cur < |x.ring|
    && Drains(Begin(start), gots) && x == Drained(Begin(start), gots)
  }

  /** They were taken from the stock. */
  predicate Drawn(gots: seq<Option<Buf>>, pool: multiset<Buf>, stock: multiset<Buf>) {
    Taken(gots) <= stock && pool == stock - Taken(gots)
  }

  ghost predicate Reached(start: Rx, gots: seq<Option<Buf>>, x: Rx, pool: multiset<Buf>, stock: multiset<Buf>) {
    OnWay(start, gots, x) && Drawn(gots, pool, stock)
  }

  lemma RoundZero(start: Rx, stock: multiset<Buf>)
    requires MayBegin(start) && Walkable(start)
    ensures Reached(start, [], Begin(start), stock, stock)
  {
  }

  lemma WayGoesOn(start: Rx, gots: seq<Option<Buf>>, x: Rx, got: Option<Buf>)
    requires OnWay(start, gots, x) && MayDrain(x) && (got.Some? ==> WantsNext(x))
    ensures OnWay(start, gots + [got], DrainNext(x, got)) && |gots| < Pending(start)
  {
    DrainsOneMore(Begin(start), gots, got);
    DrainWalks(Begin(start), gots + [got]);
  }

  lemma DrawnMore(gots: seq<Option<Buf>>, got: Option<Buf>, before: multiset<Buf>, after: multiset<Buf>,
                  stock: multiset<Buf>)
    requires Drawn(gots, before, stock) && AsBag(got) <= before && after == before - AsBag(got)
    ensures Drawn(gots + [got], after, stock)
  {
    assert (gots + [got])[..|gots|] == gots;
    TakeOneMore(Taken(gots), AsBag(got), stock);
  }

  lemma AnswerWasThere(wanted: bool, before: multiset<Buf>, got: Option<Buf>, after: multiset<Buf>)
    requires Answered(wanted, before, got, after)
    ensures AsBag(got) <= before && after == before - AsBag(got) && (got.Some? ==> wanted)
  {
  }

  lemma RoundReaches(start: Rx, gots: seq<Option<Buf>>, x: Rx, got: Option<Buf>,
                     before: multiset<Buf>, after: multiset<Buf>, stock: multiset<Buf>)
    requires Reached(start, gots, x, before, stock) && MayDrain(x) && Answered(WantsNext(x), before, got, after)
    ensures Reached(start, gots + [got], DrainNext(x, got), after, stock) && |gots| < Pending(start)
  {
    AnswerWasThere(WantsNext(x), before, got, after);
    WayGoesOn(start, gots, x, got);
    DrawnMore(gots, got, before, after, stock);
  }

  lemma TakeOneMore(taken: multiset<Buf>, m: multiset<Buf>, before: multiset<Buf>)
    requires taken <= before && m <= before - taken
    ensures taken + m <= before && before - taken - m == before - (taken + m)
  {
    forall e ensures (taken + m)[e] <= before[e] {
      assert m[e] <= (before - taken)[e];
    }
  }

  lemma RoundLast(start: Rx, gots: seq<Option<Buf>>, x: Rx, pool: multiset<Buf>, stock: multiset<Buf>)
    requires Reached(start, gots, x, pool, stock) && !MayDrain(x)
    ensures Visited(start, gots, x)
  {
    DrainFinishes(start, gots);
  }

  /** When the next descriptor belongs to the DMA engine, all pending ones have been visited. */
  lemma DrainFinishes(s: Rx, gots: seq<Option<Buf>>)
    requires Walkable(s) && s.drain.NoDrain? && Drains(Begin(s), gots) && !MayDrain(Drained(Begin(s), gots))
    ensures Visited(s, gots, Drained(Begin(s), gots))
  {
    DrainWalks(Begin(s), gots);
  }

  lemma DrainReadies(s: Rx, gots: seq<Option<Buf>>)
    requires Walkable(s) && s.drain.NoDrain? && Drains(Begin(s), gots) && |gots| <= |s.ring|
    ensures ListReady(Drained(Begin(s), gots))
    ensures Drained(Begin(s), gots).drain.chain == AcceptedBuffers(s, gots)
  {
    var b := Begin(s);
    DrainThreads(b, gots);
    DrainLinks(b, gots);
    SameAccepted(s, b, gots);
  }

  lemma {:induction false} SameAccepted(s: Rx, b: Rx, gots: seq<Option<Buf>>)
    requires s.cur == b.cur < |s.ring| && s.ring == b.ring && |gots| <= |s.ring|
    ensures AcceptedBuffers(s, gots) == AcceptedBuffers(b, gots)
  {
    if gots != [] {
      SameAccepted(s, b, gots[..|gots| - 1]);
    }
  }

  /** A walk that has ended stays where it is. */
  lemma WalkStops(chain: seq<Buf>, k: nat, rounds: nat)
    requires k <= rounds && (k < rounds ==> Where(chain, k).None?)
    ensures Walk(chain, rounds) == Walk(chain, k) && Where(chain, rounds) == Where(chain, k)
  {
  }

  /**
   One drain from any ring the loop can walk: what it linked is a null-terminated list of all
   accepted buffers exactly when these are distinct, and releasing it ends after some number
   of rounds exactly when the two accepted last are not in the same buffer.
   */
  lemma DrainedListExactly(s: Rx, gots: seq<Option<Buf>>)
    requires Walkable(s) && s.drain.NoDrain? && Drains(Begin(s), gots) && |gots| <= |s.ring|
    ensures var x, chain := Drained(Begin(s), gots), AcceptedBuffers(s, gots);
            && (Linked(x.heap, x.drain.first, chain) <==> Distinct(chain))
            && ((exists rounds: nat :: Finishes(chain, false, rounds)) <==> !Circular(chain))
            && (!Circular(chain) ==> Linked(x.heap, x.drain.first, OnList(chain)))
            && (Distinct(chain) ==> OnList(chain) == chain && !Circular(chain))
  {
    var x, chain := Drained(Begin(s), gots), AcceptedBuffers(s, gots);
    DrainReadies(s, gots);
    DrainListExactly(x, OnList(chain));
    WholeIffDistinct(chain);
    WalkEnds(chain);
    forall rounds: nat ensures Finishes(chain, false, rounds) <==> Where(chain, rounds).None? {
    }
  }

  lemma {:induction false} RingBagSize(ring: seq<RxDesc>)
    ensures |RingBag(ring)| == |ring|
  {
    if ring != [] {
      RingBagSize(ring[..|ring| - 1]);
      RingBagSnoc(ring[..|ring| - 1], ring[|ring| - 1]);
      assert ring == ring[..|ring| - 1] + [ring[|ring| - 1]];
    }
  }

  lemma PoolNotEmpty(front: seq<RxDesc>, pool: multiset<Buf>, stock: multiset<Buf>)
    requires RingBag(front) + pool == stock && |front| < |stock|
    ensures pool != multiset{}
  {
    RingBagSize(front);
  }

  /** The first i descriptors are armed with buffers of the stock; the rest of it is in the pool. */
  ghost predicate FilledTo(table: seq<RxDesc>, i: nat, pool: multiset<Buf>, stock: multiset<Buf>) {
    && i <= |table| && Stocked(table[..i], pool, stock)
    && forall j :: 0 <= j < i ==> table[j].owned && table[j].next == Succ(j, |table|)
  }

  lemma SlotFilled(table: seq<RxDesc>, i: nat, d: RxDesc, before: multiset<Buf>, after: multiset<Buf>,
                   stock: multiset<Buf>)
    requires i < |table| && FilledTo(table, i, before, stock) && d.owned && d.next == Succ(i, |table|)
    requires d.buf in before && after == before - multiset{d.buf}
    ensures FilledTo(table[i := d], i + 1, after, stock)
  {
    assert table[i := d][..i + 1] == table[..i] + [d];
    RingBagSnoc(table[..i], d);
    assert before == after + multiset{d.buf};
    Regroup(RingBag(table[..i]), multiset{d.buf}, after);
  }

  lemma Regroup(a: multiset<Buf>, b: multiset<Buf>, c: multiset<Buf>)
    ensures (a + b) + c == a + (c + b)
  {
  }
}
