/**
 The transmit path of the FreeRTOS-queue UART: writer tasks, the transmit interrupt and
 the shifting hardware share a bounded queue, a one-byte data register and the enable
 flag of the transmit-empty interrupt. A writer may bypass the queue.
 */
module UartTx {
  import opened Prelude

  type Byte = bv8

  /** Where a task stands in write, writeBlocking or discardTransmitBuffer. */
  datatype Writer =
    | Idle
    | Sizing(byte: Byte, blocking: bool)     // about to read the queue size
    | Testing(byte: Byte, blocking: bool)    // found the queue empty, about to test the data register
    | Bypassing(byte: Byte)                  // found both empty, about to write the data register
    | Queueing(byte: Byte, blocking: bool)   // about to send to the queue
    | Enabling                               // sent, about to enable the interrupt
    | Counting                               // discard: interrupt disabled, about to count
    | Resetting(count: nat)                  // discard: counted, about to reset the queue

  /**
   `data` is the data register, None when the hardware reports it empty. `kept` are the
   bytes accepted and not discarded, `lost` those overwritten in the data register.
   */
  datatype Uart = Uart(
    capacity: nat, queue: seq<Byte>, data: Option<Byte>, enabled: bool, writers: seq<Writer>,
    wire: seq<Byte>, kept: seq<Byte>, lost: seq<Byte>)

  datatype Step =
    | Write(w: nat, byte: Byte, blocking: bool)
    | Discard(w: nat)
    | Go(w: nat)          // the task's next access
    | Interrupt           // one run of the callback, whatever raised it
    | Shift               // the hardware takes the data register

  predicate Enabled(s: Uart, step: Step) {
    match step
    case Write(w, _, _) => w < |s.writers| && s.writers[w].Idle?
    case Discard(w) => w < |s.writers| && s.writers[w].Idle?
    case Go(w) =>
      && w < |s.writers| && !s.writers[w].Idle?
      && (s.writers[w].Queueing? && s.writers[w].blocking ==> |s.queue| < s.capacity)
    case Interrupt => true
    case Shift => s.data.Some?
  }

  function Put(s: Uart, b: Byte): Uart {
    s.(data := Some(b), lost := s.lost + (if s.data.Some? then [s.data.value] else []))
  }

  /** The transmit part of InterruptCallback. */
  function Callback(s: Uart): Uart {
    if s.data.Some? then s
    else if s.queue == [] then s.(enabled := false)
    else Put(s.(queue := s.queue[1..]), s.queue[0])
  }

  function At(s: Uart, w: nat, p: Writer): Uart
    requires w < |s.writers|
  {
    s.(writers := s.writers[w := p])
  }

  function Advance(s: Uart, w: nat): Uart
    requires Enabled(s, Go(w))
  {
    match s.writers[w]
    case Sizing(b, k) => At(s, w, if s.queue == [] then Testing(b, k) else Queueing(b, k))
    case Testing(b, k) => At(s, w, if s.data.None? then Bypassing(b) else Queueing(b, k))
    case Bypassing(b) => At(Put(s, b), w, Idle).(kept := s.kept + [b])
    case Queueing(b, _) =>
      if |s.queue| < s.capacity then At(s, w, Enabling).(queue := s.queue + [b], kept := s.kept + [b])
      else At(s, w, Idle)
    case Enabling => At(s, w, Idle).(enabled := true)
    case Counting => At(s, w, Resetting(|s.queue|))
    case Resetting(_) =>
      At(s, w, Idle).(queue := [],
                      kept := if |s.queue| <= |s.kept| then s.kept[..|s.kept| - |s.queue|] else [])
    case Idle => s
  }

  function Next(s: Uart, step: Step): Uart
    requires Enabled(s, step)
  {
    match step
    case Write(w, b, k) => At(s, w, Sizing(b, k))
    case Discard(w) => At(s, w, Counting).(enabled := false)
    case Go(w) => Advance(s, w)
    case Interrupt => Callback(s)
    case Shift => s.(data := None, wire := s.wire + [s.data.value])
  }

  predicate Runs(s: Uart, steps: seq<Step>)
    decreases |steps|
  {
    steps == [] || (Enabled(s, steps[0]) && Runs(Next(s, steps[0]), steps[1..]))
  }

  function Final(s: Uart, steps: seq<Step>): Uart
    requires Runs(s, steps)
    decreases |steps|
  {
    if steps == [] then s else Final(Next(s, steps[0]), steps[1..])
  }

  function Initial(capacity: nat, writers: nat): Uart {
    Uart(capacity, [], None, false, seq(writers, _ => Idle), [], [], [])
  }

  // ----- one writer: a plain FIFO

  function InRegister(s: Uart): seq<Byte> { if s.data.Some? then [s.data.value] else [] }

  /** Wire, data register and queue, in this order, hold exactly the bytes kept. */
  ghost predicate Fifo(s: Uart) {
    && |s.writers| <= 1 && |s.queue| <= s.capacity
    && s.lost == [] && s.wire + InRegister(s) + s.queue == s.kept
    && (|s.writers| == 1 ==>
          && (s.writers[0].Testing? || s.writers[0].Bypassing? ==> s.queue == [])
          && (s.writers[0].Bypassing? ==> s.data.None?)
          && (s.writers[0].Resetting? ==> |s.queue| <= s.writers[0].count))
  }

  lemma BypassKeepsFifo(s: Uart)
    requires Fifo(s) && Enabled(s, Go(0)) && s.writers[0].Bypassing?
    ensures Fifo(Advance(s, 0))
  {
    var b := s.writers[0].byte;
    assert s.wire + [] + [] + [b] == s.wire + [b] + [];
  }

  lemma SendKeepsFifo(s: Uart)
    requires Fifo(s) && Enabled(s, Go(0)) && s.writers[0].Queueing?
    ensures Fifo(Advance(s, 0))
  {
    var front, b := s.wire + InRegister(s), s.writers[0].byte;
    assert front + (s.queue + [b]) == (front + s.queue) + [b];
  }

  lemma ResetKeepsFifo(s: Uart)
    requires Fifo(s) && Enabled(s, Go(0)) && s.writers[0].Resetting?
    ensures Fifo(Advance(s, 0))
    ensures Advance(s, 0).kept == s.wire + InRegister(s)
  {
    assert s.kept[..|s.kept| - |s.queue|] == s.wire + InRegister(s) + [];
  }

  lemma AdvanceKeepsFifo(s: Uart)
    requires Fifo(s) && Enabled(s, Go(0))
    ensures Fifo(Advance(s, 0))
  {
    match s.writers[0]
    case Bypassing(_) => BypassKeepsFifo(s);
    case Queueing(_, _) => SendKeepsFifo(s);
    case Resetting(_) => ResetKeepsFifo(s);
    case _ =>
  }

  lemma InterruptKeepsFifo(s: Uart)
    requires Fifo(s)
    ensures Fifo(Callback(s))
  {
    if s.data.None? && s.queue != [] {
      assert s.queue == [s.queue[0]] + s.queue[1..];
      assert s.wire + [] + s.queue == s.wire + [s.queue[0]] + s.queue[1..];
    }
  }

  lemma StepKeepsFifo(s: Uart, step: Step)
    requires Fifo(s) && Enabled(s, step)
    ensures Fifo(Next(s, step))
  {
    match step
    case Go(w) => AdvanceKeepsFifo(s);
    case Interrupt => InterruptKeepsFifo(s);
    case Shift => assert s.wire + [s.data.value] + [] == s.wire + InRegister(s);
    case _ =>
  }

  /** In every interleaving with one writer, nothing is lost, duplicated or reordered. */
  lemma {:induction false} RunKeepsFifo(s: Uart, steps: seq<Step>)
    requires Fifo(s) && Runs(s, steps)
    ensures Fifo(Final(s, steps))
    decreases |steps|
  {
    if steps != [] {
      StepKeepsFifo(s, steps[0]);
      RunKeepsFifo(Next(s, steps[0]), steps[1..]);
    }
  }

  lemma InitialFifo(capacity: nat, n: nat)
    requires n <= 1
    ensures Fifo(Initial(capacity, n))
  {
  }

  // ----- what one task writes

  /** The byte a task has not yet handed over. */
  function InHand(w: Writer): seq<Byte> {
    match w
    case Sizing(b, _) => [b]
    case Testing(b, _) => [b]
    case Bypassing(b) => [b]
    case Queueing(b, _) => [b]
    case _ => []
  }

  /** The bytes write and writeBlocking were called with. */
  function Asked(steps: seq<Step>): seq<Byte> {
    if steps == [] then []
    else (if steps[0].Write? then [steps[0].byte] else []) + Asked(steps[1..])
  }

  /** write finds the queue full. */
  predicate Refuses(s: Uart, step: Step) {
    && step.Go? && step.w < |s.writers| && |s.queue| >= s.capacity
    && s.writers[step.w].Queueing? && !s.writers[step.w].blocking
  }

  function Refusals(s: Uart, steps: seq<Step>): nat
    requires Runs(s, steps)
    decreases |steps|
  {
    if steps == [] then 0 else (if Refuses(s, steps[0]) then 1 else 0) + Refusals(Next(s, steps[0]), steps[1..])
  }

  predicate OneWrites(s: Uart) { |s.writers| == 1 && !s.writers[0].Counting? && !s.writers[0].Resetting? }

  /** What a single task was called with, less what was refused. */
  function Accepted(s: Uart): seq<Byte>
    requires |s.writers| == 1
  {
    s.kept + InHand(s.writers[0])
  }

  lemma StepHandsOver(s: Uart, step: Step)
    requires OneWrites(s) && Enabled(s, step) && !step.Discard?
    ensures OneWrites(Next(s, step))
    ensures |Accepted(Next(s, step))| + (if Refuses(s, step) then 1 else 0) == |Accepted(s)| + |Asked([step])|
    ensures !Refuses(s, step) ==> Accepted(Next(s, step)) == Accepted(s) + Asked([step])
  {
    var h := InHand(s.writers[0]);
    assert Asked([step]) == if step.Write? then [step.byte] else [];
    assert s.kept + h + [] == s.kept + h && (s.kept + h) + [] == s.kept + h;
  }

  lemma AskedFirst(steps: seq<Step>)
    requires steps != []
    ensures Asked(steps) == Asked([steps[0]]) + Asked(steps[1..])
  {
    assert [steps[0]][1..] == [];
  }

  lemma Regroup(a: seq<Byte>, b: seq<Byte>, c: seq<Byte>)
    ensures a + (b + c) == (a + b) + c
  {
  }

  /** Every byte written is kept or still in the task's hands, in order, exactly if none was refused. */
  lemma {:induction false} RunHandsOver(s: Uart, steps: seq<Step>)
    requires OneWrites(s) && Runs(s, steps) && forall i :: 0 <= i < |steps| ==> !steps[i].Discard?
    ensures OneWrites(Final(s, steps))
    ensures |Accepted(Final(s, steps))| + Refusals(s, steps) == |Accepted(s)| + |Asked(steps)|
    ensures Refusals(s, steps) == 0 ==> Accepted(Final(s, steps)) == Accepted(s) + Asked(steps)
    decreases |steps|
  {
    if steps != [] {
      StepHandsOver(s, steps[0]);
      RunHandsOver(Next(s, steps[0]), steps[1..]);
      AskedFirst(steps);
      Regroup(Accepted(s), Asked([steps[0]]), Asked(steps[1..]));
    } else {
      assert Accepted(s) + [] == Accepted(s);
    }
  }

  lemma {:induction false} BlockingRefusesNone(s: Uart, steps: seq<Step>)
    requires OneWrites(s) && Runs(s, steps) && (s.writers[0].Sizing? ==> s.writers[0].blocking)
    requires s.writers[0].Testing? || s.writers[0].Queueing? ==> s.writers[0].blocking
    requires forall i :: 0 <= i < |steps| ==> !steps[i].Discard? && (steps[i].Write? ==> steps[i].blocking)
    ensures Refusals(s, steps) == 0
    decreases |steps|
  {
    if steps != [] {
      StepHandsOver(s, steps[0]);
      BlockingRefusesNone(Next(s, steps[0]), steps[1..]);
    }
  }

  /**
   From start-up with one task that only writes, in every interleaving: wire, data register,
   queue and the byte in hand are the bytes written, in order, exactly if none was refused;
   and writeBlocking refuses none.
   */
  lemma StartedRunSendsAll(capacity: nat, steps: seq<Step>)
    requires Runs(Initial(capacity, 1), steps) && forall i :: 0 <= i < |steps| ==> !steps[i].Discard?
    ensures var x := Final(Initial(capacity, 1), steps);
            && |x.writers| == 1
            && (x.wire + InRegister(x) + x.queue + InHand(x.writers[0]) == Asked(steps)
                <==> Refusals(Initial(capacity, 1), steps) == 0)
    ensures (forall i :: 0 <= i < |steps| && steps[i].Write? ==> steps[i].blocking) ==>
              Refusals(Initial(capacity, 1), steps) == 0
  {
    var s := Initial(capacity, 1);
    InitialFifo(capacity, 1);
    RunKeepsFifo(s, steps);
    RunHandsOver(s, steps);
    assert Accepted(s) == [] && [] + Asked(steps) == Asked(steps);
    if forall i :: 0 <= i < |steps| && steps[i].Write? ==> steps[i].blocking {
      BlockingRefusesNone(s, steps);
    }
  }

  // ----- calls with nothing in between

  lemma {:induction false} Then(s: Uart, steps: seq<Step>, step: Step) returns (longer: seq<Step>)
    requires Runs(s, steps) && Enabled(Final(s, steps), step)
    ensures longer == steps + [step]
    ensures Runs(s, longer) && Final(s, longer) == Next(Final(s, steps), step)
    decreases |steps|
  {
    longer := steps + [step];
    if steps == [] {
      assert longer[1..] == [];
    } else {
      assert longer[1..] == steps[1..] + [step];
      var l := Then(Next(s, steps[0]), steps[1..], step);
    }
  }

  /** A call and the accesses of its task. */
  predicate CallOf(steps: seq<Step>, call: Step) {
    steps != [] && steps[0] == call && forall i :: 1 <= i < |steps| ==> steps[i] == Go(0)
  }

  /** The state an undisturbed write leaves. */
  function AfterWrite(s: Uart, b: Byte): Uart {
    if s.queue == [] && s.data.None? then s.(data := Some(b), kept := s.kept + [b])
    else if |s.queue| >= s.capacity then s
    else s.(queue := s.queue + [b], kept := s.kept + [b], enabled := true)
  }

  lemma Sized(s: Uart, b: Byte) returns (steps: seq<Step>)
    requires s.writers == [Idle]
    ensures Runs(s, steps) && CallOf(steps, Write(0, b, false))
    ensures var bypasses := s.queue == [] && s.data.None?;
            Final(s, steps) == s.(writers := [if bypasses then Bypassing(b) else Queueing(b, false)])
  {
    steps := Then(s, [], Write(0, b, false));
    steps := Then(s, steps, Go(0));
    if s.queue == [] {
      steps := Then(s, steps, Go(0));
    }
  }

  lemma WriteRuns(s: Uart, b: Byte) returns (steps: seq<Step>)
    requires s.writers == [Idle]
    ensures Runs(s, steps) && CallOf(steps, Write(0, b, false)) && Final(s, steps) == AfterWrite(s, b)
  {
    steps := Sized(s, b);
    var queued := Final(s, steps).writers[0].Queueing? && |s.queue| < s.capacity;
    steps := Then(s, steps, Go(0));
    if queued {
      steps := Then(s, steps, Go(0));
    }
    assert s.lost + [] == s.lost;
  }

  lemma DiscardRuns(s: Uart) returns (steps: seq<Step>)
    requires s.writers == [Idle] && |s.queue| <= |s.kept|
    ensures Runs(s, steps) && CallOf(steps, Discard(0))
    ensures Final(s, steps) == s.(enabled := false, queue := [], kept := s.kept[..|s.kept| - |s.queue|])
  {
    steps := Then(s, [], Discard(0));
    steps := Then(s, steps, Go(0));
    steps := Then(s, steps, Go(0));
  }

  // ----- two writers: the bypass loses a byte

  /** Both tasks find the queue and the register empty before either writes. */
  lemma BothReachBypass(capacity: nat, n: nat) returns (steps: seq<Step>)
    requires n >= 2
    ensures Runs(Initial(capacity, n), steps)
    ensures var x := Final(Initial(capacity, n), steps);
            x.data.None? && |x.writers| == n && x.writers[0] == Bypassing(1) && x.writers[1] == Bypassing(2)
  {
    var s := Initial(capacity, n);
    steps := Then(s, [], Write(0, 1, false));
    steps := Then(s, steps, Write(1, 2, false));
    steps := Then(s, steps, Go(0));
    steps := Then(s, steps, Go(1));
    steps := Then(s, steps, Go(0));
    steps := Then(s, steps, Go(1));
  }

  lemma TwoWritersLose(capacity: nat, n: nat) returns (steps: seq<Step>)
    requires n >= 2
    ensures Runs(Initial(capacity, n), steps) && Final(Initial(capacity, n), steps).lost != []
  {
    var s := Initial(capacity, n);
    steps := BothReachBypass(capacity, n);
    steps := Then(s, steps, Go(0));
    steps := Then(s, steps, Go(1));
  }

  /** No byte is ever lost, in any run, exactly when at most one task writes. */
  lemma LosslessIffOneWriter(capacity: nat, n: nat)
    ensures (forall steps :: Runs(Initial(capacity, n), steps) ==> Final(Initial(capacity, n), steps).lost == [])
            <==> n <= 1
  {
    if n <= 1 {
      InitialFifo(capacity, n);
      forall steps | Runs(Initial(capacity, n), steps) ensures Final(Initial(capacity, n), steps).lost == [] {
        RunKeepsFifo(Initial(capacity, n), steps);
      }
    } else {
      var steps := TwoWritersLose(capacity, n);
    }
  }

  // ----- progress, with any number of writers

  /** A task that is about to enable the interrupt or to discard the queue. */
  predicate MidOperation(w: Writer) { w.Enabling? || w.Counting? || w.Resetting? }

  predicate SomeMidOperation(s: Uart) { exists i :: 0 <= i < |s.writers| && MidOperation(s.writers[i]) }

  /** A waiting byte has the interrupt enabled, unless a task is about to enable it or to discard the byte. */
  predicate NoneStranded(s: Uart) { s.queue != [] && !SomeMidOperation(s) ==> s.enabled }

  /** The task of a step, afterwards, and all others as before. */
  lemma OthersStay(s: Uart, step: Step, w: nat)
    requires Enabled(s, step) && (step.Write? || step.Discard? || step.Go?) && step.w == w
    ensures |Next(s, step).writers| == |s.writers|
    ensures forall i :: 0 <= i < |s.writers| && i != w ==> Next(s, step).writers[i] == s.writers[i]
  {
  }

  lemma StepKeepsNoneStranded(s: Uart, step: Step)
    requires NoneStranded(s) && Enabled(s, step)
    ensures NoneStranded(Next(s, step))
  {
    var t := Next(s, step);
    if step.Write? || step.Discard? || step.Go? {
      OthersStay(s, step, step.w);
      if t.queue != [] && !SomeMidOperation(t) {
        assert !MidOperation(t.writers[step.w]);
        assert forall i :: 0 <= i < |s.writers| && i != step.w ==> !MidOperation(t.writers[i]);
      }
    }
  }

  /** In every interleaving with any number of writers, no byte is stranded in the queue. */
  lemma {:induction false} RunKeepsNoneStranded(s: Uart, steps: seq<Step>)
    requires NoneStranded(s) && Runs(s, steps)
    ensures NoneStranded(Final(s, steps))
    decreases |steps|
  {
    if steps != [] {
      StepKeepsNoneStranded(s, steps[0]);
      RunKeepsNoneStranded(Next(s, steps[0]), steps[1..]);
    }
  }

  lemma StartedRunStrandsNone(capacity: nat, n: nat, steps: seq<Step>)
    requires Runs(Initial(capacity, n), steps)
    ensures NoneStranded(Final(Initial(capacity, n), steps))
  {
    RunKeepsNoneStranded(Initial(capacity, n), steps);
  }

  /** The hardware raises the transmit interrupt. */
  predicate Pending(s: Uart) { s.enabled && s.data.None? }

  /** Steps the hardware takes on its own: shifting, and interrupts only when they are raised. */
  predicate SelfDriven(s: Uart, step: Step) {
    match step
    case Shift => s.data.Some?
    case Interrupt => Pending(s)
    case _ => false
  }

  predicate HardwareRuns(s: Uart, steps: seq<Step>)
    ensures HardwareRuns(s, steps) ==> Runs(s, steps)
    decreases |steps|
  {
    steps == [] || (SelfDriven(s, steps[0]) && HardwareRuns(Next(s, steps[0]), steps[1..]))
  }

  function Work(s: Uart): nat {
    2 * |s.queue| + |InRegister(s)| + (if s.enabled then 1 else 0)
  }

  /** The bytes on their way, in order. */
  function Stream(s: Uart): seq<Byte> { s.wire + InRegister(s) + s.queue }

  lemma HardwareStepWorks(s: Uart, step: Step)
    requires SelfDriven(s, step)
    ensures var t := Next(s, step);
            && Work(t) < Work(s) && t.writers == s.writers && t.capacity == s.capacity
            && t.kept == s.kept && t.lost == s.lost && Stream(t) == Stream(s)
  {
    var t := Next(s, step);
    if step.Shift? {
      assert s.wire + [s.data.value] + [] == s.wire + InRegister(s);
    } else if s.queue != [] {
      assert s.queue == [s.queue[0]] + s.queue[1..];
      assert s.wire + [] + s.queue == s.wire + [s.queue[0]] + s.queue[1..];
    }
  }

  lemma {:induction false} HardwareRunIsShort(s: Uart, steps: seq<Step>)
    requires HardwareRuns(s, steps)
    ensures |steps| + Work(Final(s, steps)) <= Work(s)
    ensures var x := Final(s, steps);
            x.writers == s.writers && x.kept == s.kept && x.lost == s.lost && Stream(x) == Stream(s)
    decreases |steps|
  {
    if steps != [] {
      HardwareStepWorks(s, steps[0]);
      HardwareRunIsShort(Next(s, steps[0]), steps[1..]);
    }
  }

  /**
   With no task mid-operation the hardware finishes on its own, for any number of writers:
   its runs are bounded by the work left, lose and reorder nothing, and once they cannot go
   on, every waiting byte is on the wire.
   */
  lemma HardwareDrains(s: Uart, steps: seq<Step>)
    requires NoneStranded(s) && !SomeMidOperation(s) && HardwareRuns(s, steps)
    ensures |steps| <= Work(s)
    ensures var x := Final(s, steps);
            && x.writers == s.writers && x.lost == s.lost && Stream(x) == Stream(s)
            && (x.data.None? && !Pending(x) ==> x.queue == [] && x.wire == Stream(s) && (Fifo(s) ==> x.wire == s.kept))
  {
    HardwareRunIsShort(s, steps);
    RunKeepsNoneStranded(s, steps);
    var x := Final(s, steps);
    if x.data.None? && !Pending(x) {
      assert Stream(x) == x.wire + [] + [];
    }
  }

  // ----- tasks that finish what they are in the middle of

  /** The hardware, and the next accesses of tasks that are mid-operation. */
  predicate Settling(s: Uart, step: Step) {
    SelfDriven(s, step) || (step.Go? && step.w < |s.writers| && MidOperation(s.writers[step.w]))
  }

  predicate SettlingRuns(s: Uart, steps: seq<Step>)
    ensures SettlingRuns(s, steps) ==> Runs(s, steps)
    decreases |steps|
  {
    steps == [] || (Settling(s, steps[0]) && SettlingRuns(Next(s, steps[0]), steps[1..]))
  }

  function Left(w: Writer): nat { if w.Enabling? || w.Counting? then 2 else if w.Resetting? then 1 else 0 }

  function AllLeft(writers: seq<Writer>): nat {
    if writers == [] then 0 else AllLeft(writers[..|writers| - 1]) + Left(writers[|writers| - 1])
  }

  lemma {:induction false} AllLeftUpdate(writers: seq<Writer>, w: nat, p: Writer)
    requires w < |writers|
    ensures AllLeft(writers[w := p]) + Left(writers[w]) == AllLeft(writers) + Left(p)
  {
    var n := |writers| - 1;
    if w == n {
      assert writers[w := p][..n] == writers[..n];
    } else {
      assert writers[w := p][..n] == writers[..n][w := p];
      AllLeftUpdate(writers[..n], w, p);
    }
  }

  function Load(s: Uart): nat { Work(s) + AllLeft(s.writers) }

  lemma SettlingStepWorks(s: Uart, step: Step)
    requires Settling(s, step)
    ensures var t := Next(s, step);
            && Load(t) < Load(s) && |t.writers| == |s.writers| && t.capacity == s.capacity
            && forall i :: 0 <= i < |s.writers| && !MidOperation(s.writers[i]) ==> t.writers[i] == s.writers[i]
  {
    var t := Next(s, step);
    if step.Go? {
      OthersStay(s, step, step.w);
      AllLeftUpdate(s.writers, step.w, t.writers[step.w]);
    } else {
      HardwareStepWorks(s, step);
    }
  }

  lemma {:induction false} SettlingRunIsShort(s: Uart, steps: seq<Step>)
    requires SettlingRuns(s, steps)
    ensures var x := Final(s, steps);
            && |steps| + Load(x) <= Load(s) && |x.writers| == |s.writers| && x.capacity == s.capacity
            && forall i :: 0 <= i < |s.writers| && !MidOperation(s.writers[i]) ==> x.writers[i] == s.writers[i]
    decreases |steps|
  {
    if steps != [] {
      SettlingStepWorks(s, steps[0]);
      SettlingRunIsShort(Next(s, steps[0]), steps[1..]);
    }
  }

  /** Where neither the hardware nor a task mid-operation can go on, nothing waits. */
  lemma SettledIsEmpty(s: Uart)
    requires NoneStranded(s) && forall step :: !Settling(s, step)
    ensures s.queue == [] && s.data.None? && !SomeMidOperation(s)
  {
    assert !Settling(s, Shift) && !Settling(s, Interrupt);
    if i :| 0 <= i < |s.writers| && MidOperation(s.writers[i]) {
      assert Settling(s, Go(i));
    }
  }

  /**
   A writer that waits for room, among any number of others: every run of the hardware and of
   the tasks mid-operation is bounded, and where it cannot go on the writer has room.
   */
  lemma BlockedWriterIsServed(s: Uart, w: nat, steps: seq<Step>)
    requires NoneStranded(s) && s.capacity > 0 && w < |s.writers| && s.writers[w].Queueing?
    requires SettlingRuns(s, steps)
    ensures |steps| <= Load(s) && w < |Final(s, steps).writers| && Final(s, steps).writers[w] == s.writers[w]
    ensures (forall step :: !Settling(Final(s, steps), step)) ==> Enabled(Final(s, steps), Go(w))
  {
    SettlingRunIsShort(s, steps);
    RunKeepsNoneStranded(s, steps);
    if forall step :: !Settling(Final(s, steps), step) {
      SettledIsEmpty(Final(s, steps));
    }
  }

  lemma OneSettles(s: Uart, step: Step, rest: seq<Step>)
    requires Settling(s, step) && SettlingRuns(Next(s, step), rest)
    ensures SettlingRuns(s, [step] + rest) && Final(s, [step] + rest) == Final(Next(s, step), rest)
    ensures SelfDriven(s, step) && HardwareRuns(Next(s, step), rest) ==> HardwareRuns(s, [step] + rest)
  {
    assert ([step] + rest)[1..] == rest;
  }

  lemma HardwareMakesRoom(s: Uart, w: nat) returns (steps: seq<Step>)
    requires s.enabled && s.queue != [] && w < |s.writers| && s.writers[w].Queueing? && |s.queue| <= s.capacity
    ensures HardwareRuns(s, steps) && SettlingRuns(s, steps) && |steps| <= 2 && Enabled(Final(s, steps), Go(w))
  {
    if s.data.Some? {
      OneSettles(Next(s, Shift), Interrupt, []);
      OneSettles(s, Shift, [Interrupt] + []);
      steps := [Shift] + ([Interrupt] + []);
    } else {
      OneSettles(s, Interrupt, []);
      steps := [Interrupt] + [];
    }
  }

  /** At most two hardware steps make room if no task is mid-operation, and if some are, one's next accesses before. */
  lemma BlockedWriterIsServedSoon(s: Uart, w: nat) returns (steps: seq<Step>)
    requires NoneStranded(s) && 0 < s.capacity == |s.queue| && w < |s.writers| && s.writers[w].Queueing?
    ensures SettlingRuns(s, steps) && |steps| <= 3 && Enabled(Final(s, steps), Go(w))
    ensures !SomeMidOperation(s) ==> HardwareRuns(s, steps) && |steps| <= 2
  {
    if s.enabled || !SomeMidOperation(s) {
      steps := HardwareMakesRoom(s, w);
    } else {
      var i :| 0 <= i < |s.writers| && MidOperation(s.writers[i]);
      var t := Next(s, Go(i));
      var rest: seq<Step> := [];
      if s.writers[i].Enabling? {
        rest := HardwareMakesRoom(t, w);
      } else if s.writers[i].Counting? {
        OneSettles(t, Go(i), []);
        rest := [Go(i)] + [];
      }
      OneSettles(s, Go(i), rest);
      steps := [Go(i)] + rest;
    }
  }

  // ----- the count discardTransmitBuffer returns

  /** A callback that takes a byte from the queue; a receive interrupt runs it too, whatever the flag says. */
  predicate Takes(s: Uart, step: Step) { step.Interrupt? && s.data.None? && s.queue != [] }

  /** A task that sends a byte to the queue. */
  predicate Sends(s: Uart, step: Step)
    requires Enabled(s, step)
  {
    step.Go? && s.writers[step.w].Queueing? && |s.queue| < s.capacity
  }

  /** A task that resets the queue. */
  predicate Resets(s: Uart, step: Step)
    requires Enabled(s, step)
  {
    step.Go? && s.writers[step.w].Resetting?
  }

  function Takings(s: Uart, steps: seq<Step>): nat
    requires Runs(s, steps)
    decreases |steps|
  {
    if steps == [] then 0 else (if Takes(s, steps[0]) then 1 else 0) + Takings(Next(s, steps[0]), steps[1..])
  }

  function Sendings(s: Uart, steps: seq<Step>): nat
    requires Runs(s, steps)
    decreases |steps|
  {
    if steps == [] then 0 else (if Sends(s, steps[0]) then 1 else 0) + Sendings(Next(s, steps[0]), steps[1..])
  }

  /** Bytes that go with a reset of the queue. */
  function Resettings(s: Uart, steps: seq<Step>): nat
    requires Runs(s, steps)
    decreases |steps|
  {
    if steps == [] then 0
    else (if Resets(s, steps[0]) then |s.queue| else 0) + Resettings(Next(s, steps[0]), steps[1..])
  }

  /** What changes the length of the queue. */
  lemma {:induction false} QueueBalance(s: Uart, steps: seq<Step>)
    requires Runs(s, steps)
    ensures |Final(s, steps).queue| + Takings(s, steps) + Resettings(s, steps) == |s.queue| + Sendings(s, steps)
    decreases |steps|
  {
    if steps != [] {
      QueueBalance(Next(s, steps[0]), steps[1..]);
    }
  }

  predicate NoGo(steps: seq<Step>, w: nat) { forall i :: 0 <= i < |steps| ==> steps[i] != Go(w) }

  lemma LaterSteps(steps: seq<Step>, w: nat)
    requires steps != [] && NoGo(steps, w)
    ensures steps[0] != Go(w) && NoGo(steps[1..], w)
  {
    forall i | 0 <= i < |steps[1..]| ensures steps[1..][i] != Go(w) {
      assert steps[1..][i] == steps[i + 1];
    }
  }

  lemma {:induction false} TaskRests(s: Uart, w: nat, steps: seq<Step>)
    requires w < |s.writers| && !s.writers[w].Idle? && Runs(s, steps) && NoGo(steps, w)
    ensures |Final(s, steps).writers| == |s.writers| && Final(s, steps).writers[w] == s.writers[w]
    ensures Final(s, steps).capacity == s.capacity
    decreases |steps|
  {
    if steps != [] {
      LaterSteps(steps, w);
      TaskRests(Next(s, steps[0]), w, steps[1..]);
    }
  }

  /** While the only task rests, or without room, nothing is sent; and then nothing is reset either. */
  lemma {:induction false} NothingSent(s: Uart, w: nat, steps: seq<Step>)
    requires w < |s.writers| && !s.writers[w].Idle? && Runs(s, steps) && NoGo(steps, w)
    ensures |s.writers| == 1 ==> Sendings(s, steps) == 0 && Resettings(s, steps) == 0
    ensures s.capacity == 0 ==> Sendings(s, steps) == 0
    decreases |steps|
  {
    if steps != [] {
      LaterSteps(steps, w);
      TaskRests(s, w, [steps[0]]);
      NothingSent(Next(s, steps[0]), w, steps[1..]);
    }
  }

  /**
   From the count to the reset, with any number of tasks: r is where task w resets the queue.
   It returns what the queue held when it counted and throws away what the queue holds now.
   The two are the same exactly when the sends of other tasks in between make up for what
   callbacks took and other resets threw away; with a single task, exactly when no callback
   took a byte.
   */
  lemma DiscardCount(s: Uart, w: nat, between: seq<Step>, r: Uart)
    requires w < |s.writers| && s.writers[w].Counting?
    requires Runs(Next(s, Go(w)), between) && NoGo(between, w) && r == Final(Next(s, Go(w)), between)
    ensures |r.writers| == |s.writers| && r.writers[w] == Resetting(|s.queue|) && Next(r, Go(w)).queue == []
    ensures var x := Next(s, Go(w));
            && |s.queue| + Sendings(x, between) == |r.queue| + Takings(x, between) + Resettings(x, between)
            && (|s.queue| == |r.queue| <==> Sendings(x, between) == Takings(x, between) + Resettings(x, between))
            && (|s.writers| == 1 ==> (|s.queue| == |r.queue| <==> Takings(x, between) == 0))
  {
    QueueBalance(Next(s, Go(w)), between);
    TaskRests(Next(s, Go(w)), w, between);
    NothingSent(Next(s, Go(w)), w, between);
  }

  /** With one task, what the reset throws away are the youngest bytes kept. */
  lemma DiscardThrows(s: Uart, between: seq<Step>, r: Uart)
    requires Fifo(s) && |s.writers| == 1 && s.writers[0].Counting?
    requires Runs(Next(s, Go(0)), between) && NoGo(between, 0) && r == Final(Next(s, Go(0)), between)
    ensures r.writers == [Resetting(|s.queue|)] && Next(r, Go(0)).kept + r.queue == r.kept
  {
    StepKeepsFifo(s, Go(0));
    RunKeepsFifo(Next(s, Go(0)), between);
    TaskRests(Next(s, Go(0)), 0, between);
    ResetKeepsFifo(r);
  }

  /** With the flag down, the transmit interrupt takes nothing: only a receive interrupt makes the count wrong. */
  lemma {:induction false} TransmitInterruptTakesNothing(s: Uart, steps: seq<Step>)
    requires !s.enabled && HardwareRuns(s, steps)
    ensures Takings(s, steps) == 0
    decreases |steps|
  {
    if steps != [] {
      TransmitInterruptTakesNothing(Next(s, steps[0]), steps[1..]);
    }
  }

  /** Task w has counted, and every interleaving up to its reset finds as many bytes as it counted. */
  ghost predicate CountIsSafe(s: Uart, w: nat)
    requires w < |s.writers| && s.writers[w].Counting?
  {
    forall between :: Runs(Next(s, Go(w)), between) && NoGo(between, w) ==>
      |Final(Next(s, Go(w)), between).queue| == |s.queue|
  }

  lemma WaitingByteIsTaken(s: Uart, w: nat) returns (between: seq<Step>)
    requires w < |s.writers| && s.queue != []
    ensures Runs(s, between) && NoGo(between, w) && |Final(s, between).queue| < |s.queue|
  {
    between := [];
    if s.data.Some? {
      between := Then(s, between, Shift);
    }
    between := Then(s, between, Interrupt);
  }

  /** How far task i is from sending a byte, if the queue stays empty. */
  function Distance(s: Uart, i: nat): nat
    requires i < |s.writers|
  {
    match s.writers[i]
    case Queueing(_, _) => 1
    case Testing(_, _) => if s.data.Some? then 2 else 12
    case Sizing(_, _) => if s.data.Some? then 3 else 13
    case Idle => if s.data.Some? then 4 else 14
    case Bypassing(_) => if s.data.Some? then 5 else 11
    case Enabling => 15
    case Resetting(_) => 15
    case Counting => 16
  }

  /** Another task that goes on sends a byte. */
  lemma {:induction false} OtherTaskSends(s: Uart, before: seq<Step>, w: nat, i: nat) returns (between: seq<Step>)
    requires Runs(s, before) && NoGo(before, w) && i != w
    requires var x := Final(s, before); i < |x.writers| && x.queue == [] && x.capacity > 0
    ensures Runs(s, between) && NoGo(between, w) && |Final(s, between).queue| == 1
    decreases Distance(Final(s, before), i)
  {
    var x := Final(s, before);
    var step := if x.writers[i].Idle? then Write(i, 0, false) else Go(i);
    between := Then(s, before, step);
    if !x.writers[i].Queueing? {
      between := OtherTaskSends(s, between, w, i);
    }
  }

  /**
   The count can be trusted exactly when the queue is empty, and then only if no other task
   could send in between.
   */
  lemma CountIsSafeExactly(s: Uart, w: nat)
    requires w < |s.writers| && s.writers[w].Counting?
    ensures CountIsSafe(s, w) <==> s.queue == [] && (|s.writers| == 1 || s.capacity == 0)
  {
    var x := Next(s, Go(w));
    if s.queue != [] {
      var between := WaitingByteIsTaken(x, w);
      assert !CountIsSafe(s, w);
    } else if |s.writers| == 1 || s.capacity == 0 {
      forall between | Runs(x, between) && NoGo(between, w) ensures |Final(x, between).queue| == |s.queue| {
        QueueBalance(x, between);
        NothingSent(x, w, between);
      }
    } else {
      var between := OtherTaskSends(x, [], w, if w == 0 then 1 else 0);
      assert !CountIsSafe(s, w);
    }
  }

  /** One byte in the register, one in the queue. */
  lemma TwoWritten(s: Uart) returns (steps: seq<Step>)
    requires s.capacity > 0 && s == Initial(s.capacity, 1)
    ensures Runs(s, steps)
    ensures var x := Final(s, steps);
            x.data == Some(1) && x.queue == [2] && x.writers == [Idle] && x.capacity == s.capacity
  {
    steps := Then(s, [], Write(0, 1, false));
    steps := Then(s, steps, Go(0));
    steps := Then(s, steps, Go(0));
    steps := Then(s, steps, Go(0));
    steps := SecondQueued(s, steps);
  }

  lemma SecondQueued(s: Uart, before: seq<Step>) returns (steps: seq<Step>)
    requires Runs(s, before)
    requires var x := Final(s, before); x.capacity > 0 && x.data == Some(1) && x.queue == [] && x.writers == [Idle]
    ensures Runs(s, steps)
    ensures var x := Final(s, steps); x.data == Some(1) && x.queue == [2] && x.writers == [Idle]
    ensures Final(s, steps).capacity == Final(s, before).capacity
  {
    steps := Then(s, before, Write(0, 2, false));
    steps := Then(s, steps, Go(0));
    steps := Then(s, steps, Go(0));
    steps := Then(s, steps, Go(0));
    steps := Then(s, steps, Go(0));
  }

  /** Whatever the size of the queue, some run from start-up returns one byte and throws away none. */
  lemma DiscardMiscounts(capacity: nat) returns (steps: seq<Step>)
    requires capacity > 0
    ensures Runs(Initial(capacity, 1), steps)
    ensures Final(Initial(capacity, 1), steps).writers == [Resetting(1)]
    ensures Final(Initial(capacity, 1), steps).queue == []
  {
    var s := Initial(capacity, 1);
    steps := TwoWritten(s);
    steps := Then(s, steps, Discard(0));
    steps := Then(s, steps, Go(0));
    steps := Then(s, steps, Shift);
    steps := Then(s, steps, Interrupt);
  }
}
