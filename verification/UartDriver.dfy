/** The UART functions as they update queue, register and flag in place, each run undisturbed. */
module UartDriver {
  import opened Prelude
  import opened UartTx

  class BufferedUart {
    const txSize: nat
    const rxSize: nat
    var txQueue: seq<Byte>
    var data: Option<Byte>
    var txEmptyEnabled: bool
    var rxQueue: seq<Byte>
    ghost var wire: seq<Byte>
    ghost var kept: seq<Byte>
    ghost var lost: seq<Byte>

    ghost function State(w: Writer): Uart
      reads this
    {
      Uart(txSize, txQueue, data, txEmptyEnabled, [w], wire, kept, lost)
    }

    ghost predicate Valid()
      reads this
    {
      Fifo(State(Idle)) && NoneStranded(State(Idle)) && |rxQueue| <= rxSize
    }

    constructor (txSize: nat, rxSize: nat)
      ensures Valid() && State(Idle) == Initial(txSize, 1) && rxQueue == []
      ensures this.txSize == txSize && this.rxSize == rxSize
    {
      this.txSize, this.rxSize := txSize, rxSize;
      txQueue, data, txEmptyEnabled, rxQueue := [], None, false, [];
      wire, kept, lost := [], [], [];
    }

    method HalWrite(b: Byte)
      modifies `data, `lost
      ensures data == Some(b)
      ensures lost == old(lost) + (if old(data).Some? then [old(data).value] else [])
    {
      lost := lost + (if data.Some? then [data.value] else []);
      data := Some(b);
    }

    /** One callback: the receive part first, then the transmit part, as the two classes nest. */
    method InterruptCallback(received: Option<Byte>, ghost w: Writer)
      requires Fifo(State(w)) && NoneStranded(State(w)) && |rxQueue| <= rxSize
      modifies this
      ensures State(w) == Callback(old(State(w)))
      ensures Fifo(State(w)) && NoneStranded(State(w))
      ensures |rxQueue| <= rxSize
      ensures rxQueue == if received.Some? && |old(rxQueue)| < rxSize then old(rxQueue) + [received.value]
                         else old(rxQueue)
    {
      InterruptKeepsFifo(State(w));
      StepKeepsNoneStranded(State(w), Interrupt);
      if received.Some? && |rxQueue| < rxSize {
        rxQueue := rxQueue + [received.value];
      }
      if data.None? {
        if txQueue == [] {
          txEmptyEnabled := false;
        } else {
          var b := txQueue[0];
          txQueue := txQueue[1..];
          HalWrite(b);
        }
      }
    }

    /** write of one byte: refused exactly when the register is busy and the queue full. */
    method Write(b: Byte) returns (ok: bool, ghost steps: seq<Step>)
      requires Valid()
      modifies this
      ensures CallOf(steps, UartTx.Write(0, b, false)) && Runs(old(State(Idle)), steps)
      ensures State(Idle) == Final(old(State(Idle)), steps)
      ensures Valid() && rxQueue == old(rxQueue) && wire == old(wire)
      ensures ok <==> (old(txQueue) == [] && old(data).None?) || |old(txQueue)| < txSize
      ensures ok ==> InRegister(State(Idle)) + txQueue == InRegister(old(State(Idle))) + old(txQueue) + [b]
      ensures !ok ==> State(Idle) == old(State(Idle))
    {
      steps := WriteRuns(State(Idle), b);
      if |txQueue| == 0 && data.None? {
        HalWrite(b);
        kept := kept + [b];
        assert wire + [b] + [] == (wire + [] + []) + [b];
      } else {
        if |txQueue| >= txSize {
          ok := false;
          return;
        }
        ghost var front := wire + InRegister(State(Idle));
        assert front + (txQueue + [b]) == (front + txQueue) + [b];
        txQueue := txQueue + [b];
        kept := kept + [b];
        txEmptyEnabled := true;
      }
      ok := true;
    }

    /** write of a buffer: the longest prefix that fits is accepted, in order. */
    method WriteAll(bytes: seq<Byte>) returns (count: nat)
      requires Valid()
      modifies this
      ensures Valid() && count <= |bytes| && wire == old(wire)
      ensures InRegister(State(Idle)) + txQueue == InRegister(old(State(Idle))) + old(txQueue) + bytes[..count]
      ensures count < |bytes| ==> |txQueue| == txSize && (data.Some? || txQueue != [])
    {
      count := 0;
      while count < |bytes|
        invariant Valid() && count <= |bytes| && wire == old(wire)
        invariant InRegister(State(Idle)) + txQueue == InRegister(old(State(Idle))) + old(txQueue) + bytes[..count]
      {
        var ok, _ := Write(bytes[count]);
        if !ok {
          break;
        }
        assert bytes[..count + 1] == bytes[..count] + [bytes[count]];
        count := count + 1;
      }
    }

    /** discardTransmitBuffer: the queued bytes go, and only they; the count is theirs. */
    method DiscardTransmitBuffer() returns (count: nat, ghost steps: seq<Step>)
      requires Valid()
      modifies this
      ensures CallOf(steps, Discard(0)) && Runs(old(State(Idle)), steps)
      ensures State(Idle) == Final(old(State(Idle)), steps)
      ensures Valid() && count == |old(txQueue)| && txQueue == []
      ensures wire == old(wire) && data == old(data) && kept + old(txQueue) == old(kept)
    {
      ResetKeepsFifo(State(Resetting(|txQueue|)));
      steps := DiscardRuns(State(Idle));
      txEmptyEnabled := false;
      count := |txQueue|;
      kept := kept[..|kept| - |txQueue|];
      txQueue := [];
    }

    /** read into a buffer: what is waiting, up to the length asked for. */
    method Read(length: nat) returns (buffer: seq<Byte>, count: nat)
      modifies `rxQueue
      ensures count == |buffer| == if length < |old(rxQueue)| then length else |old(rxQueue)|
      ensures buffer + rxQueue == old(rxQueue)
    {
      buffer, count := [], 0;
      while count < length
        invariant count == |buffer| <= length && buffer + rxQueue == old(rxQueue)
      {
        if rxQueue == [] {
          break;
        }
        buffer := buffer + [rxQueue[0]];
        rxQueue := rxQueue[1..];
        count := count + 1;
      }
    }

    method DiscardReceiveBuffer() returns (count: nat)
      modifies `rxQueue
      ensures count == |old(rxQueue)| && rxQueue == []
    {
      count := 0;
      while |rxQueue| != 0
        invariant count + |rxQueue| == |old(rxQueue)|
        decreases |rxQueue|
      {
        count := count + 1;
        rxQueue := rxQueue[1..];
      }
    }
  }
}
