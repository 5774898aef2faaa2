/**
 The receive side of the LAN8720A network interface: a zero-copy ring. The DMA
 engine fills descriptors in ring order; the EMAC handler drains them, swaps an
 accepted frame's buffer for a fresh one and links accepted buffers into a chain
 that is passed to the IP stack in one piece.
 */
module EthernetRx {
  import opened Prelude
  import opened Ring
  import opened EthernetChain

  datatype FrameType = Arp | Ipv4 | OtherType

  /** passesFilter stands for the optional address and port filter of mayAcceptPacket. */
  datatype Packet = Packet(kind: FrameType, passesFilter: bool, data: seq<bv8>)

  /** What the DMA engine reports for one received frame. */
  datatype Arrival = Arrival(packet: Packet, length: nat, crcError: bool, ipHeaderError: bool, ethernetType: bool)

  datatype RxDesc = RxDesc(owned: bool, buf: Buf, status: Arrival, next: nat)

  /** The part of a network buffer descriptor the driver touches. */
  datatype NetBuf = NetBuf(packet: Packet, length: nat, next: Option<Buf>)

  type Heap = map<Buf, NetBuf>

  /**
   The locals of emacInterfaceInput while it runs. `chain` lists the buffers linked so
   far and `spare` is newDescriptor, which the loop never resets.
   */
  datatype Drain =
    | NoDrain
    | Draining(first: Option<Buf>, last: Option<Buf>, spare: Option<Buf>, length: int, chain: seq<Buf>)

  datatype Outcome = Filtered | NoBuffer | Accepted

  datatype Rx = Rx(
    ring: seq<RxDesc>, cur: nat, heap: Heap, drain: Drain,
    dma: nat, arrived: seq<Arrival>, outcomes: seq<Outcome>, passed: nat)

  const BLANK := NetBuf(Packet(OtherType, false, []), 0, None)

  function At(heap: Heap, b: Buf): NetBuf {
    if b in heap then heap[b] else BLANK
  }

  // ----- one iteration of the drain loop

  function MayAcceptPacket(p: Packet): bool {
    match p.kind
    case Arp => true
    case Ipv4 => p.passesFilter
    case OtherType => false
  }

  /** The status and packet tests, before a replacement buffer is requested. */
  predicate Wanted(d: RxDesc, heap: Heap) {
    && d.status.ethernetType && !d.status.crcError && !d.status.ipHeaderError
    && MayAcceptPacket(At(heap, d.buf).packet)
  }

  function OutcomeOf(wanted: bool, got: Option<Buf>): Outcome {
    if !wanted then Filtered else if got.None? then NoBuffer else Accepted
  }

  /** Length field of the status word minus the frame check sequence, as the code stores it (32 bits). */
  function DataLength(length: nat): nat {
    (length % 0x4000 - 4) % 0x1_0000_0000
  }

  /** Linking an accepted buffer behind the chain built so far. */
  function LinkHeap(heap: Heap, d: Drain, b: Buf, length: nat): Heap
    requires d.Draining?
  {
    var h := heap[b := At(heap, b).(length := length, next := None)];
    if d.first.Some? && d.last.Some?
    then h[d.last.value := At(h, d.last.value).(next := Some(b))]
    else h
  }

  function LinkDrain(d: Drain, b: Buf): Drain
    requires d.Draining?
  {
    d.(first := if d.first.None? then Some(b) else d.first, last := Some(b), chain := d.chain + [b])
  }

  predicate MayDrain(s: Rx) {
    s.drain.Draining? && s.cur < |s.ring| && !s.ring[s.cur].owned
  }

  function SpareAfter(s: Rx, got: Option<Buf>): Option<Buf>
    requires MayDrain(s)
  {
    if Wanted(s.ring[s.cur], s.heap) then got else s.drain.spare
  }

  function DrainNext(s: Rx, got: Option<Buf>): Rx
    requires MayDrain(s)
  {
    var d := s.ring[s.cur];
    var outcome := OutcomeOf(Wanted(d, s.heap), got);
    var spare := SpareAfter(s, got);
    var drain := s.drain.(spare := spare, length := d.status.length % 0x4000 - 4);
    Rx(s.ring[s.cur := d.(owned := true, buf := if spare.Some? then spare.value else d.buf)],
       d.next,
       if outcome.Accepted? then LinkHeap(s.heap, s.drain, d.buf, DataLength(d.status.length)) else s.heap,
       if outcome.Accepted? then LinkDrain(drain, d.buf) else drain,
       s.dma, s.arrived, s.outcomes + [outcome], s.passed)
  }

  predicate MayBegin(s: Rx) { s.drain.NoDrain? && s.cur < |s.ring| }

  function Begin(s: Rx): Rx
    requires MayBegin(s)
  {
    s.(drain := Draining(None, None, None, 0, []))
  }

  predicate MayEnd(s: Rx) {
    s.drain.Draining? && s.cur < |s.ring| && s.ring[s.cur].owned
  }

  function End(s: Rx): Rx
    requires MayEnd(s)
  {
    s.(drain := NoDrain, passed := s.passed + |s.drain.chain|)
  }

  /** The iteration that installs a buffer a second time: a filtered frame while newDescriptor is still set. */
  predicate Stale(s: Rx)
    requires MayDrain(s)
  {
    !Wanted(s.ring[s.cur], s.heap) && s.drain.spare.Some?
  }

  // ----- the DMA engine

  predicate MayArrive(s: Rx) {
    s.dma < |s.ring| && s.ring[s.dma].owned
  }

  function Arrive(s: Rx, a: Arrival): Rx
    requires MayArrive(s)
  {
    var d := s.ring[s.dma];
    s.(ring := s.ring[s.dma := d.(owned := false, status := a)],
       heap := s.heap[d.buf := At(s.heap, d.buf).(packet := a.packet)],
       dma := d.next, arrived := s.arrived + [a])
  }

  // ----- buffers and structure

  function Slot(d: RxDesc): multiset<Buf> { multiset{d.buf} }

  function RingBag(ring: seq<RxDesc>): multiset<Buf> { Gather(ring, Slot) }

  function ChainBag(d: Drain): multiset<Buf> {
    if d.Draining? then multiset(d.chain) else multiset{}
  }

  /** A linked list that starts at `first`, visits exactly `chain` and ends in a null link. */
  predicate Linked(heap: Heap, first: Option<Buf>, chain: seq<Buf>) {
    && (chain == [] ==> first == None)
    && (chain != [] ==> first == Some(chain[0]) && At(heap, chain[|chain| - 1]).next == None)
    && forall i :: 0 <= i < |chain| - 1 ==> At(heap, chain[i]).next == Some(chain[i + 1])
  }

  /** The buffers of l follow each other on the list from `first` on. */
  predicate Path(heap: Heap, first: Option<Buf>, l: seq<Buf>) {
    && (l == [] <==> first == None)
    && (l != [] ==> first == Some(l[0]))
    && forall i :: 0 <= i < |l| - 1 ==> At(heap, l[i]).next == Some(l[i + 1])
  }

  /** l are the buffers that can be reached from `first`, each once, whether or not the list ends. */
  predicate Covers(heap: Heap, first: Option<Buf>, l: seq<Buf>) {
    && Path(heap, first, l) && Distinct(l)
    && (l != [] ==> var end := At(heap, l[|l| - 1]).next; end.None? || end.value in l)
  }

  /** Structure that holds in every run, whatever buffers are installed. */
  ghost predicate Shape(s: Rx) {
    && s.cur < |s.ring| && s.dma < |s.ring|
    && (forall j :: 0 <= j < |s.ring| ==> s.ring[j].next == Succ(j, |s.ring|))
    && (s.drain.Draining? ==>
          && (s.drain.chain == [] ==> s.drain.first.None? && s.drain.last.None?)
          && (s.drain.chain != [] ==>
                && s.drain.first == Some(s.drain.chain[0])
                && s.drain.last == Some(s.drain.chain[|s.drain.chain| - 1])))
    && (s.drain.Draining? && s.drain.spare.Some? ==>
          s.ring[Pred(s.cur, |s.ring|)].buf == s.drain.spare.value)
  }

  lemma DrainKeepsShape(s: Rx, got: Option<Buf>)
    requires Shape(s) && MayDrain(s)
    ensures Shape(DrainNext(s, got)) && |DrainNext(s, got).ring| == |s.ring|
  {
  }

  lemma ArriveKeepsShape(s: Rx, a: Arrival)
    requires Shape(s) && MayArrive(s)
    ensures Shape(Arrive(s, a)) && |Arrive(s, a).ring| == |s.ring|
  {
  }

  /** The links of the buffers linked so far are those their order leaves behind, buffers linked twice included. */
  ghost predicate Threaded(s: Rx) {
    s.drain.Draining? ==> forall b :: b in s.drain.chain ==> At(s.heap, b).next == NextIn(s.drain.chain, b)
  }

  lemma LinkKeepsThreaded(heap: Heap, d: Drain, b: Buf, length: nat, c: Buf)
    requires d.Draining? && (d.chain == [] ==> d.first.None?)
    requires d.chain != [] ==> d.first.Some? && d.last == Some(d.chain[|d.chain| - 1])
    requires c in d.chain ==> At(heap, c).next == NextIn(d.chain, c)
    ensures c in d.chain + [b] ==> At(LinkHeap(heap, d, b, length), c).next == NextIn(d.chain + [b], c)
  {
    assert (d.chain + [b])[..|d.chain|] == d.chain;
  }

  lemma DrainKeepsThreaded(s: Rx, got: Option<Buf>)
    requires Shape(s) && Threaded(s) && MayDrain(s)
    ensures Threaded(DrainNext(s, got))
  {
    var d, t := s.ring[s.cur], DrainNext(s, got);
    if OutcomeOf(Wanted(d, s.heap), got).Accepted? {
      forall c | c in t.drain.chain ensures At(t.heap, c).next == NextIn(t.drain.chain, c) {
        LinkKeepsThreaded(s.heap, s.drain, d.buf, DataLength(d.status.length), c);
      }
    }
  }

  lemma ArriveKeepsThreaded(s: Rx, a: Arrival)
    requires Threaded(s) && MayArrive(s)
    ensures Threaded(Arrive(s, a))
  {
  }

  lemma {:induction false} PathsMeet(heap: Heap, first: Option<Buf>, a: seq<Buf>, b: seq<Buf>, i: nat)
    requires Path(heap, first, a) && Path(heap, first, b) && i < |a| && i < |b|
    ensures a[i] == b[i]
  {
    if i > 0 {
      PathsMeet(heap, first, a, b, i - 1);
    }
  }

  /** Where the list leads to itself, a path goes round. */
  lemma {:induction false} PathCircles(heap: Heap, first: Option<Buf>, l: seq<Buf>, i: nat, j: nat)
    requires Path(heap, first, l) && i <= j < |l| && At(heap, l[i]).next == Some(l[i])
    ensures l[j] == l[i]
  {
    if i < j {
      PathCircles(heap, first, l, i, j - 1);
    }
  }

  lemma OnListIsPath(s: Rx)
    requires Shape(s) && Threaded(s) && s.drain.Draining?
    ensures var l := OnList(s.drain.chain);
            && Covers(s.heap, s.drain.first, l)
            && (l != [] ==> At(s.heap, l[|l| - 1]).next == if Circular(s.drain.chain) then Some(l[|l| - 1]) else None)
  {
    ChainFollows(s.drain.chain);
  }

  /** A path of distinct buffers goes on to a buffer that is not on its beginning. */
  lemma LongerLeaves(heap: Heap, first: Option<Buf>, a: seq<Buf>, b: seq<Buf>)
    requires Path(heap, first, a) && Path(heap, first, b) && Distinct(b) && |a| < |b| && a == b[..|a|]
    ensures a != [] && At(heap, a[|a| - 1]).next == Some(b[|a|]) && b[|a|] !in a
  {
  }

  lemma CoversIsOnList(s: Rx, l: seq<Buf>)
    requires Shape(s) && Threaded(s) && s.drain.Draining? && Covers(s.heap, s.drain.first, l)
    ensures l == OnList(s.drain.chain)
  {
    var e := OnList(s.drain.chain);
    OnListIsPath(s);
    forall i: nat | i < |l| && i < |e| ensures l[i] == e[i] {
      PathsMeet(s.heap, s.drain.first, l, e, i);
    }
    if |l| < |e| {
      LongerLeaves(s.heap, s.drain.first, l, e);
    } else if |e| < |l| {
      LongerLeaves(s.heap, s.drain.first, e, l);
    }
  }

  lemma LinkedIsOnList(s: Rx, l: seq<Buf>)
    requires Shape(s) && Threaded(s) && s.drain.Draining? && Linked(s.heap, s.drain.first, l)
    requires l == [] ==> s.drain.first.None?
    ensures l == OnList(s.drain.chain) && !Circular(s.drain.chain)
  {
    var e := OnList(s.drain.chain);
    OnListIsPath(s);
    assert Path(s.heap, s.drain.first, l);
    forall i: nat | i < |l| && i < |e| ensures l[i] == e[i] {
      PathsMeet(s.heap, s.drain.first, l, e, i);
    }
    if |l| < |e| {
      LongerLeaves(s.heap, s.drain.first, l, e);
    } else if |e| < |l| {
      var i := |e| - 1;
      assert l[i] == e[i] && At(s.heap, l[i]).next == Some(l[i + 1]);
      PathCircles(s.heap, s.drain.first, l, i, |l| - 1);
    }
  }

  /**
   The list a drain has built, whatever buffers are installed: it holds the buffers of OnList,
   ends exactly when the two buffers linked last differ, and is the list of everything linked
   exactly when that is distinct.
   */
  lemma DrainListExactly(s: Rx, l: seq<Buf>)
    requires Shape(s) && Threaded(s) && s.drain.Draining?
    ensures Covers(s.heap, s.drain.first, l) <==> l == OnList(s.drain.chain)
    ensures Linked(s.heap, s.drain.first, l) <==> l == OnList(s.drain.chain) && !Circular(s.drain.chain)
    ensures Linked(s.heap, s.drain.first, s.drain.chain) <==> Distinct(s.drain.chain)
  {
    OnListIsPath(s);
    if Covers(s.heap, s.drain.first, l) {
      CoversIsOnList(s, l);
    }
    if Linked(s.heap, s.drain.first, l) {
      LinkedIsOnList(s, l);
    }
    WholeIffDistinct(s.drain.chain);
    if Linked(s.heap, s.drain.first, s.drain.chain) {
      LinkedIsOnList(s, s.drain.chain);
    }
  }

  /** Frames that arrived and were not yet looked at. */
  function Pending(s: Rx): int { |s.arrived| - |s.outcomes| }

  /** The descriptors from cur on that hold a frame are the pending ones, and the DMA engine stands behind them. */
  ghost predicate Walkable(s: Rx) {
    && Shape(s) && 0 <= Pending(s) <= |s.ring|
    && s.dma == Idx(s.cur, Pending(s), |s.ring|)
    && forall j :: 0 <= j < |s.ring| ==> (s.ring[j].owned <==> Pending(s) <= Rel(s.cur, j, |s.ring|))
  }

  lemma DrainKeepsWalkable(s: Rx, got: Option<Buf>)
    requires Walkable(s) && MayDrain(s)
    ensures Walkable(DrainNext(s, got))
  {
    DrainKeepsShape(s, got);
    assert Rel(s.cur, s.cur, |s.ring|) == 0 < Pending(s);
  }

  lemma ArriveKeepsWalkable(s: Rx, a: Arrival)
    requires Walkable(s) && MayArrive(s)
    ensures Walkable(Arrive(s, a))
  {
    ArriveKeepsShape(s, a);
  }

  lemma RingBagSnoc(front: seq<RxDesc>, d: RxDesc)
    ensures RingBag(front + [d]) == RingBag(front) + multiset{d.buf}
  {
    assert (front + [d])[..|front|] == front;
    assert Slot(d) == multiset{d.buf};
  }

  /** Every buffer of the receive path, with multiplicity. */
  function Bag(s: Rx): multiset<Buf> { RingBag(s.ring) + ChainBag(s.drain) }

  lemma SetSlotBag(ring: seq<RxDesc>, i: nat, d: RxDesc)
    requires i < |ring|
    ensures RingBag(ring[i := d]) + multiset{ring[i].buf} == RingBag(ring) + multiset{d.buf}
    ensures ring[i].buf == d.buf ==> RingBag(ring[i := d]) == RingBag(ring)
  {
    GatherUpdate(ring, Slot, i, d);
    assert Slot(ring[i]) == multiset{ring[i].buf} && Slot(d) == multiset{d.buf};
    if ring[i].buf == d.buf {
      Cancel(RingBag(ring[i := d]), RingBag(ring), multiset{d.buf});
    }
  }

  /** An iteration that installs no stale spare adds exactly the replacement it obtained. */
  lemma DrainBag(s: Rx, got: Option<Buf>)
    requires MayDrain(s) && !Stale(s)
    ensures Bag(DrainNext(s, got)) == Bag(s) + (if Wanted(s.ring[s.cur], s.heap) then AsBag(got) else multiset{})
  {
    var t := DrainNext(s, got);
    var d, d' := s.ring[s.cur], t.ring[s.cur];
    SetSlotBag(s.ring, s.cur, d');
    if OutcomeOf(Wanted(d, s.heap), got).Accepted? {
      assert t.drain.chain == s.drain.chain + [d.buf];
      assert ChainBag(t.drain) == ChainBag(s.drain) + multiset{d.buf};
      assert Bag(t) == (RingBag(t.ring) + multiset{d.buf}) + ChainBag(s.drain);
    }
  }

  /** A stale iteration drops the buffer it drained and counts the spare once more. */
  lemma StaleBag(s: Rx, got: Option<Buf>)
    requires MayDrain(s) && Stale(s)
    ensures Bag(DrainNext(s, got)) + multiset{s.ring[s.cur].buf} == Bag(s) + multiset{s.drain.spare.value}
  {
    var t := DrainNext(s, got);
    var c, n := s.ring[s.cur].buf, s.drain.spare.value;
    SetSlotBag(s.ring, s.cur, t.ring[s.cur]);
    assert t.drain.chain == s.drain.chain;
    assert Bag(t) + multiset{c} == (RingBag(t.ring) + multiset{c}) + ChainBag(s.drain);
    assert Bag(s) + multiset{n} == (RingBag(s.ring) + multiset{n}) + ChainBag(s.drain);
  }

  lemma ArriveBag(s: Rx, a: Arrival)
    requires MayArrive(s)
    ensures Bag(Arrive(s, a)) == Bag(s)
  {
    SetSlotBag(s.ring, s.dma, Arrive(s, a).ring[s.dma]);
  }

  // ----- what the drain hands up, when no buffer is held twice

  /** The frames accepted so far, in arrival order. */
  function Pick(arrived: seq<Arrival>, outcomes: seq<Outcome>): seq<Arrival>
    requires |outcomes| <= |arrived|
    decreases |outcomes|
  {
    if outcomes == [] then []
    else
      var n := |outcomes| - 1;
      Pick(arrived, outcomes[..n]) + (if outcomes[n].Accepted? then [arrived[n]] else [])
  }

  /** The places of the frames accepted so far, in arrival order and without gaps. */
  ghost predicate AcceptedAt(places: seq<nat>, outcomes: seq<Outcome>) {
    && (forall i :: 0 <= i < |places| ==> places[i] < |outcomes| && outcomes[places[i]].Accepted?)
    && (forall i, j :: 0 <= i < j < |places| ==> places[i] < places[j])
    && forall k :: 0 <= k < |outcomes| && outcomes[k].Accepted? ==> k in places
  }

  lemma PlaceOneMore(places: seq<nat>, outcomes: seq<Outcome>, o: Outcome)
    requires AcceptedAt(places, outcomes)
    ensures AcceptedAt(places + if o.Accepted? then [|outcomes|] else [], outcomes + [o])
  {
    var more, all := places + (if o.Accepted? then [|outcomes|] else []), outcomes + [o];
    forall k | 0 <= k < |all| && all[k].Accepted? ensures k in more {
      if k < |outcomes| {
        assert outcomes[k].Accepted? && k in places;
      } else {
        assert more[|places|] == k;
      }
    }
  }

  lemma {:induction false} PickPlaces(arrived: seq<Arrival>, outcomes: seq<Outcome>) returns (places: seq<nat>)
    requires |outcomes| <= |arrived|
    ensures AcceptedAt(places, outcomes) && |places| == |Pick(arrived, outcomes)|
    ensures forall i :: 0 <= i < |places| ==> Pick(arrived, outcomes)[i] == arrived[places[i]]
    decreases |outcomes|
  {
    places := [];
    if outcomes != [] {
      var n := |outcomes| - 1;
      var front := PickPlaces(arrived, outcomes[..n]);
      PlaceOneMore(front, outcomes[..n], outcomes[n]);
      assert outcomes[..n] + [outcomes[n]] == outcomes;
      places := front + if outcomes[n].Accepted? then [n] else [];
    }
  }

  /** What the data length is in numbers: the reported length without its last four bytes. */
  lemma LengthInNumbers(length: nat)
    ensures var n := length % 0x4000;
            DataLength(length) + 4 == if n >= 4 then n else 0x1_0000_0000 + n
  {
  }

  /** No buffer is in two places of the receive path. */
  ghost predicate Unique(s: Rx) {
    forall b :: Bag(s)[b] <= 1
  }

  /** Descriptor j, k links after the drain position, holds the k-th undrained frame, or belongs to the DMA. */
  ghost predicate SlotOk(s: Rx, j: nat)
    requires j < |s.ring| && s.cur < |s.ring|
  {
    var k := |s.outcomes| + Rel(s.cur, j, |s.ring|);
    if k < |s.arrived| then
      && !s.ring[j].owned && s.ring[j].status == s.arrived[k]
      && At(s.heap, s.ring[j].buf).packet == s.arrived[k].packet
    else s.ring[j].owned
  }

  /** Buffer i of the chain carries the i-th frame accepted in this drain, with its length. */
  ghost predicate ChainOk(s: Rx, picked: seq<Arrival>, i: nat)
    requires s.drain.Draining? && i < |s.drain.chain| && s.passed + i < |picked|
  {
    var b := At(s.heap, s.drain.chain[i]);
    && b.packet == picked[s.passed + i].packet
    && b.length == DataLength(picked[s.passed + i].length)
  }

  ghost predicate Ordered(s: Rx) {
    && Shape(s) && Unique(s)
    && |s.outcomes| <= |s.arrived| <= |s.outcomes| + |s.ring|
    && s.dma == Idx(s.cur, |s.arrived| - |s.outcomes|, |s.ring|)
    && (forall j :: 0 <= j < |s.ring| ==> SlotOk(s, j))
    && (forall i :: 0 <= i < |s.outcomes| ==> (s.outcomes[i].Filtered? <==> !Acceptable(s.arrived[i])))
    && var picked := Pick(s.arrived, s.outcomes);
    && |picked| == s.passed + (if s.drain.Draining? then |s.drain.chain| else 0)
    && (s.drain.Draining? ==>
          && Linked(s.heap, s.drain.first, s.drain.chain)
          && forall i :: 0 <= i < |s.drain.chain| ==> ChainOk(s, picked, i))
  }

  /** The frames the driver wants, judged by what arrived. */
  predicate Acceptable(a: Arrival) {
    a.ethernetType && !a.crcError && !a.ipHeaderError && MayAcceptPacket(a.packet)
  }

  lemma RingMember(s: Rx, j: nat)
    requires j < |s.ring|
    ensures RingBag(s.ring)[s.ring[j].buf] >= 1
  {
    GatherMember(s.ring, Slot, j);
    assert Slot(s.ring[j]) == multiset{s.ring[j].buf};
  }

  lemma OrderedWalks(s: Rx)
    requires Ordered(s)
    ensures Walkable(s)
  {
    forall j | 0 <= j < |s.ring| ensures s.ring[j].owned <==> Pending(s) <= Rel(s.cur, j, |s.ring|) {
      assert SlotOk(s, j);
    }
  }

  /** No two pending frames share a buffer. */
  ghost predicate PendingDistinct(s: Rx) {
    forall i, j :: 0 <= i < |s.ring| && 0 <= j < |s.ring| && i != j && IsPending(s, i) && IsPending(s, j) ==>
      s.ring[i].buf != s.ring[j].buf
  }

  predicate IsPending(s: Rx, j: nat) { Rel(s.cur, j, |s.ring|) < Pending(s) }

  /** With every buffer in one place, what is linked is distinct and its links are those of its order. */
  lemma OrderedThreads(s: Rx)
    requires Ordered(s)
    ensures Threaded(s) && (s.drain.Draining? ==> Distinct(s.drain.chain))
  {
    if s.drain.Draining? {
      var chain := s.drain.chain;
      forall i, j | 0 <= i < j < |chain| ensures chain[i] != chain[j] {
        ChainDistinct(s, i, j);
      }
      DistinctIsWhole(chain);
      ChainFollows(chain);
      forall b | b in chain ensures At(s.heap, b).next == NextIn(chain, b) {
        var i :| 0 <= i < |chain| && chain[i] == b;
        assert i < |chain| - 1 ==> At(s.heap, chain[i]).next == Some(chain[i + 1]);
      }
    }
  }

  lemma OrderedDistinct(s: Rx)
    requires Ordered(s)
    ensures PendingDistinct(s)
  {
    forall i, j | 0 <= i < |s.ring| && 0 <= j < |s.ring| && i != j ensures s.ring[i].buf != s.ring[j].buf {
      RingDistinct(s, i, j);
    }
  }

  lemma RingTwice(s: Rx, i: nat, j: nat)
    requires i < |s.ring| && j < |s.ring| && i != j && s.ring[i].buf == s.ring[j].buf
    ensures Bag(s)[s.ring[i].buf] >= 2
  {
    var x, y := if i < j then i else j, if i < j then j else i;
    GatherTwice(s.ring, Slot, x, y, s.ring[i].buf);
  }

  lemma RingAndChain(s: Rx, j: nat)
    requires j < |s.ring| && s.drain.Draining? && s.ring[j].buf in s.drain.chain
    ensures Bag(s)[s.ring[j].buf] >= 2
  {
    RingMember(s, j);
    assert ChainBag(s.drain)[s.ring[j].buf] >= 1;
  }

  lemma ChainTwice(s: Rx, i: nat, j: nat)
    requires s.drain.Draining? && i < j < |s.drain.chain| && s.drain.chain[i] == s.drain.chain[j]
    ensures Bag(s)[s.drain.chain[i]] >= 2
  {
    var c := s.drain.chain;
    assert c == c[..i] + [c[i]] + c[i + 1..j] + [c[j]] + c[j + 1..];
    assert ChainBag(s.drain)[c[i]] >= 2;
  }

  lemma RingDistinct(s: Rx, i: nat, j: nat)
    requires Unique(s) && i < |s.ring| && j < |s.ring| && i != j
    ensures s.ring[i].buf != s.ring[j].buf
  {
    if s.ring[i].buf == s.ring[j].buf { RingTwice(s, i, j); }
  }

  lemma RingNotInChain(s: Rx, j: nat)
    requires Unique(s) && j < |s.ring| && s.drain.Draining?
    ensures s.ring[j].buf !in s.drain.chain
  {
    if s.ring[j].buf in s.drain.chain { RingAndChain(s, j); }
  }

  lemma ChainDistinct(s: Rx, i: nat, j: nat)
    requires Unique(s) && s.drain.Draining? && i < j < |s.drain.chain|
    ensures s.drain.chain[i] != s.drain.chain[j]
  {
    if s.drain.chain[i] == s.drain.chain[j] { ChainTwice(s, i, j); }
  }

  /** A frame that arrives only touches the DMA's own buffer. */
  lemma ArriveKeepsSlots(s: Rx, a: Arrival)
    requires Ordered(s) && MayArrive(s)
    ensures var t := Arrive(s, a); forall j :: 0 <= j < |t.ring| ==> SlotOk(t, j)
    ensures |s.arrived| < |s.outcomes| + |s.ring|
  {
    var t := Arrive(s, a);
    assert SlotOk(s, s.dma);
    forall j | 0 <= j < |t.ring|
      ensures SlotOk(t, j)
    {
      assert SlotOk(s, j);
      if j != s.dma { RingDistinct(s, j, s.dma); }
    }
  }

  lemma ArriveKeepsChain(s: Rx, a: Arrival)
    requires Ordered(s) && MayArrive(s) && s.drain.Draining?
    ensures var t := Arrive(s, a);
            && Linked(t.heap, t.drain.first, t.drain.chain)
            && |Pick(s.arrived, s.outcomes)| == t.passed + |t.drain.chain|
            && forall i :: 0 <= i < |t.drain.chain| ==> ChainOk(t, Pick(s.arrived, s.outcomes), i)
  {
    var t := Arrive(s, a);
    RingNotInChain(s, s.dma);
    forall i | 0 <= i < |s.drain.chain|
      ensures ChainOk(t, Pick(s.arrived, s.outcomes), i)
    {
      assert ChainOk(s, Pick(s.arrived, s.outcomes), i);
    }
  }

  lemma ArriveKeepsUnique(s: Rx, a: Arrival)
    requires Unique(s) && MayArrive(s)
    ensures Unique(Arrive(s, a))
  {
    ArriveBag(s, a);
  }

  lemma ArriveKeepsJudgements(s: Rx, a: Arrival)
    requires Ordered(s) && MayArrive(s)
    ensures var t := Arrive(s, a);
            && t.outcomes == s.outcomes && Pick(t.arrived, t.outcomes) == Pick(s.arrived, s.outcomes)
            && forall i :: 0 <= i < |t.outcomes| ==> (t.outcomes[i].Filtered? <==> !Acceptable(t.arrived[i]))
  {
    PickIgnoresLater(s.arrived, [a], s.outcomes);
  }

  lemma ArriveKeepsOrdered(s: Rx, a: Arrival)
    requires Ordered(s) && MayArrive(s)
    ensures Ordered(Arrive(s, a))
  {
    ArriveKeepsUnique(s, a);
    ArriveKeepsShape(s, a);
    ArriveKeepsSlots(s, a);
    ArriveKeepsJudgements(s, a);
    if s.drain.Draining? { ArriveKeepsChain(s, a); }
  }

  lemma {:induction false} PickIgnoresLater(arrived: seq<Arrival>, more: seq<Arrival>, outcomes: seq<Outcome>)
    requires |outcomes| <= |arrived|
    ensures Pick(arrived + more, outcomes) == Pick(arrived, outcomes)
    decreases |outcomes|
  {
    if outcomes != [] {
      PickIgnoresLater(arrived, more, outcomes[..|outcomes| - 1]);
    }
  }

  lemma PickOne(arrived: seq<Arrival>, outcomes: seq<Outcome>, o: Outcome)
    requires |outcomes| < |arrived|
    ensures Pick(arrived, outcomes + [o])
         == Pick(arrived, outcomes) + (if o.Accepted? then [arrived[|outcomes|]] else [])
  {
    assert (outcomes + [o])[..|outcomes|] == outcomes;
  }

  /** Linking never disturbs a packet. */
  lemma LinkKeepsPackets(heap: Heap, d: Drain, b: Buf, length: nat, x: Buf)
    requires d.Draining?
    ensures At(LinkHeap(heap, d, b, length), x).packet == At(heap, x).packet
  {
  }

  lemma DrainFindsArrival(s: Rx)
    requires Ordered(s) && MayDrain(s)
    ensures |s.outcomes| < |s.arrived| && s.ring[s.cur].status == s.arrived[|s.outcomes|]
    ensures At(s.heap, s.ring[s.cur].buf).packet == s.arrived[|s.outcomes|].packet
    ensures Wanted(s.ring[s.cur], s.heap) == Acceptable(s.arrived[|s.outcomes|])
  {
    assert SlotOk(s, s.cur);
  }

  lemma DrainKeepsSlots(s: Rx, got: Option<Buf>)
    requires Ordered(s) && MayDrain(s)
    ensures var t := DrainNext(s, got); forall j :: 0 <= j < |t.ring| ==> SlotOk(t, j)
  {
    var t := DrainNext(s, got);
    DrainFindsArrival(s);
    forall j | 0 <= j < |t.ring|
      ensures SlotOk(t, j)
    {
      assert SlotOk(s, j);
      LinkKeepsPackets(s.heap, s.drain, s.ring[s.cur].buf, DataLength(s.ring[s.cur].status.length), t.ring[j].buf);
    }
  }

  /** Appending an accepted buffer that is not yet in the chain keeps the chain a list. */
  lemma LinkKeepsLinked(heap: Heap, d: Drain, b: Buf, length: nat)
    requires d.Draining? && Linked(heap, d.first, d.chain) && b !in d.chain
    requires d.chain == [] ==> d.last.None?
    requires d.chain != [] ==> d.last == Some(d.chain[|d.chain| - 1])
    requires forall i, j :: 0 <= i < j < |d.chain| ==> d.chain[i] != d.chain[j]
    ensures var e := LinkDrain(d, b); Linked(LinkHeap(heap, d, b, length), e.first, e.chain)
    ensures At(LinkHeap(heap, d, b, length), b).length == length
    ensures forall c :: c in d.chain ==> At(LinkHeap(heap, d, b, length), c).length == At(heap, c).length
  {
  }

  lemma DrainKeepsChain(s: Rx, got: Option<Buf>)
    requires Ordered(s) && MayDrain(s)
    ensures var t := DrainNext(s, got);
            && |s.outcomes| < |s.arrived|
            && Linked(t.heap, t.drain.first, t.drain.chain)
            && |Pick(t.arrived, t.outcomes)| == t.passed + |t.drain.chain|
            && forall i :: 0 <= i < |t.drain.chain| ==> ChainOk(t, Pick(t.arrived, t.outcomes), i)
  {
    var t := DrainNext(s, got);
    var d := s.ring[s.cur];
    var o := OutcomeOf(Wanted(d, s.heap), got);
    DrainFindsArrival(s);
    PickOne(s.arrived, s.outcomes, o);
    RingNotInChain(s, s.cur);
    forall i, j | 0 <= i < j < |s.drain.chain|
      ensures s.drain.chain[i] != s.drain.chain[j]
    {
      ChainDistinct(s, i, j);
    }
    LinkKeepsLinked(s.heap, s.drain, d.buf, DataLength(d.status.length));
    var picked := Pick(t.arrived, t.outcomes);
    forall i | 0 <= i < |t.drain.chain|
      ensures ChainOk(t, picked, i)
    {
      LinkKeepsPackets(s.heap, s.drain, d.buf, DataLength(d.status.length), t.drain.chain[i]);
      if i < |s.drain.chain| {
        assert ChainOk(s, Pick(s.arrived, s.outcomes), i);
      }
    }
  }

  /** One iteration with a fresh replacement keeps order, chain and uniqueness. */
  lemma DrainKeepsOrdered(s: Rx, got: Option<Buf>)
    requires Ordered(s) && MayDrain(s) && Unique(DrainNext(s, got))
    ensures Ordered(DrainNext(s, got))
  {
    var t := DrainNext(s, got);
    DrainKeepsShape(s, got);
    DrainFindsArrival(s);
    DrainKeepsSlots(s, got);
    DrainKeepsChain(s, got);
    assert t.outcomes[..|s.outcomes|] == s.outcomes;
    forall i | 0 <= i < |t.outcomes|
      ensures t.outcomes[i].Filtered? <==> !Acceptable(t.arrived[i])
    {
      assert i < |s.outcomes| ==> t.outcomes[i] == s.outcomes[i];
    }
  }

  lemma BeginKeepsOrdered(s: Rx)
    requires Ordered(s) && MayBegin(s)
    ensures Ordered(Begin(s)) && Bag(Begin(s)) == Bag(s)
  {
    var t := Begin(s);
    assert ChainBag(t.drain) == multiset{} == ChainBag(s.drain);
    forall b ensures Bag(t)[b] <= 1 { assert Bag(s)[b] <= 1; }
    forall j | 0 <= j < |t.ring| ensures SlotOk(t, j) { assert SlotOk(s, j); }
  }

  lemma EndKeepsOrdered(s: Rx)
    requires Ordered(s) && MayEnd(s)
    ensures Ordered(End(s)) && Bag(End(s)) + multiset(s.drain.chain) == Bag(s)
  {
    var t := End(s);
    assert ChainBag(t.drain) == multiset{};
    forall b ensures Bag(t)[b] <= 1 { assert Bag(s)[b] <= 1; }
    forall j | 0 <= j < |t.ring| ensures SlotOk(t, j) { assert SlotOk(s, j); }
  }

  /** The receive side after DMARxDescListInit. */
  function Initial(ring: seq<RxDesc>): Rx { Rx(ring, 0, map[], NoDrain, 0, [], [], 0) }

  lemma InitialOrdered(ring: seq<RxDesc>, pool: multiset<Buf>, stock: multiset<Buf>)
    requires ring != []
    requires forall j :: 0 <= j < |ring| ==> ring[j].owned && ring[j].next == Succ(j, |ring|)
    requires RingBag(ring) + pool == stock && forall b :: stock[b] <= 1
    ensures Ordered(Initial(ring)) && Bag(Initial(ring)) + pool == stock
  {
    var s := Initial(ring);
    assert Bag(s) == RingBag(s.ring);
    forall b ensures Bag(s)[b] <= 1 {
      assert (RingBag(s.ring) + pool)[b] <= 1;
    }
  }
}
