/**
 The disk self-test: each cycle writes pseudo random sectors, reads them back and compares
 them with the replayed stream. The drive is arbitrary; FF_MIN_SS == FF_MAX_SS fixes the
 sector size, and the buffer holds four sectors.
 */
module DiskTest {
  import opened Prelude
  import opened RandomLfsr
  import opened ShiftWords

  const SECTOR: nat := 4096
  const BARRIER: nat := 0x10_0000  // sectors in 4 GB, 0x80000000 / (SECTOR / 2)

  /** A drive with states S. Every operation may fail, and reads may return anything. */
  datatype Drive<!S> = Drive(
    initialize: S -> (S, bool),
    sectorCount: S -> (S, Option<nat>),
    write: (S, seq<Byte>, nat) -> (S, bool),
    sync: S -> (S, bool),
    read: (S, nat, nat) -> (S, Option<nat -> Byte>))

  /** What the test changes: the drive and the register of the generator. */
  datatype Machine<S> = Machine(disk: S, lfsr: Word)

  datatype Outcome<S> = Outcome(code: nat, machine: Machine<S>)

  /** The codes returned when writing, syncing, reading or comparing fails. */
  datatype Codes = Codes(write: nat, sync: nat, read: nat, compare: nat) {
    predicate Proper() { write != 0 && sync != 0 && read != 0 && compare != 0 }
  }

  ghost predicate Holds(got: nat -> Byte, expected: seq<Byte>) {
    forall i: nat :: i < |expected| ==> got(i) == expected[i]
  }

  /** Write the stream of pns to count sectors from lba on, sync, read back, compare with the stream asked for again. */
  ghost function Attempt<S>(d: Drive<S>, m: Machine<S>, pns: nat, lba: nat, count: nat, codes: Codes): Outcome<S>
    requires pns < WORDS
  {
    var n := count * SECTOR;
    var first := Called(OfNat(pns), m.lfsr);
    var again := Called(OfNat(pns), Run(n, first));
    var (s1, written) := d.write(m.disk, Stream(n, first), lba);
    var (s2, synced) := d.sync(s1);
    var (s3, got) := d.read(s2, lba, count);
    if !written then Outcome(codes.write, m)
    else if !synced then Outcome(codes.sync, m)
    else if got.None? then Outcome(codes.read, m)
    else if !Holds(got.value, Stream(n, again)) then Outcome(codes.compare, m)
    else Outcome(0, Machine(s3, Run(n, again)))
  }

  /** The same with two sectors, 4 GB apart. The final comparison takes one more step of the register. */
  ghost function Barrier<S>(d: Drive<S>, m: Machine<S>, pns: nat): Outcome<S>
    requires pns < WORDS
  {
    var n := 2 * SECTOR;
    var first := Called(OfNat(pns), m.lfsr);
    var again := Called(OfNat(pns), Run(n, first));
    var (s1, low) := d.write(m.disk, Stream(n, first)[..SECTOR], 6);
    var (s2, high) := d.write(s1, Stream(n, first)[SECTOR..], 6 + BARRIER);
    var (s3, synced) := d.sync(s2);
    var (s4, lowGot) := d.read(s3, 6, 1);
    var (s5, highGot) := d.read(s4, 6 + BARRIER, 1);
    if !low then Outcome(19, m)
    else if !high then Outcome(20, m)
    else if !synced then Outcome(21, m)
    else if lowGot.None? then Outcome(22, m)
    else if highGot.None? then Outcome(23, m)
    else if !Holds(lowGot.value, Stream(n, again)[..SECTOR]) || !Holds(highGot.value, Stream(n, again)[SECTOR..])
    then Outcome(24, m)
    else Outcome(0, Machine(s5, Run(n + 1, again)))
  }

  function Next(pns: nat): (r: nat)
    ensures r < WORDS
  {
    (pns + 1) % WORDS
  }

  const SINGLE: Codes := Codes(6, 7, 8, 10)
  const MULTIPLE: Codes := Codes(11, 12, 13, 14)
  const UNALIGNED: Codes := Codes(15, 16, 17, 18)

  /** The four phases, on a drive of the given size. */
  ghost function Phases<S>(d: Drive<S>, m: Machine<S>, pns: nat, sectors: nat): Outcome<S>
    requires pns < WORDS
  {
    var a := Attempt(d, m, pns, 0, 1, SINGLE);
    if a.code != 0 then a else
    var b := Attempt(d, a.machine, Next(pns), 5, 4, MULTIPLE);
    if b.code != 0 then b else
    var c := Attempt(d, b.machine, Next(Next(pns)), 5, 1, UNALIGNED);
    if c.code != 0 || sectors < 128 + BARRIER then c else
    Barrier(d, c.machine, Next(Next(Next(pns))))
  }

  ghost function Cycle<S>(d: Drive<S>, m: Machine<S>, pns: nat): Outcome<S>
    requires pns < WORDS
  {
    var (s1, ready) := d.initialize(m.disk);
    var (s2, sectors) := d.sectorCount(s1);
    if !ready then Outcome(2, m)
    else if sectors.None? then Outcome(3, m)
    else if sectors.value < 128 then Outcome(4, m)
    else Phases(d, m.(disk := s2), pns, sectors.value)
  }

  type Seed = x: nat | x < WORDS

  /** The cycles from cc to ncyc, up to the first that fails. */
  ghost function Repeat<S>(run: (Machine<S>, Seed) -> Outcome<S>, m: Machine<S>, pns: Seed, cc: nat, ncyc: nat)
    : Outcome<S>
    decreases ncyc + 1 - cc
  {
    if cc > ncyc then Outcome(0, m) else
    var o := run(m, pns);
    if o.code != 0 then o else Repeat(run, o.machine, Next(Next(Next(Next(pns)))), cc + 1, ncyc)
  }

  ghost function CycleOn<S>(d: Drive<S>): (Machine<S>, Seed) -> Outcome<S> {
    (m: Machine<S>, pns: Seed) => Cycle(d, m, pns)
  }

  ghost function Cycles<S>(d: Drive<S>, m: Machine<S>, pns: Seed, cc: nat, ncyc: nat): Outcome<S> {
    Repeat(CycleOn(d), m, pns, cc, ncyc)
  }

  lemma FirstCycle<S>(d: Drive<S>, m: Machine<S>, pns: nat, cc: nat, ncyc: nat, o: Outcome<S>, next: nat)
    requires pns < WORDS && cc <= ncyc && o == Cycle(d, m, pns) && next == Next(Next(Next(Next(pns))))
    ensures Cycles(d, m, pns, cc, ncyc).code
         == if o.code != 0 then o.code else Cycles(d, o.machine, next, cc + 1, ncyc).code
  {
  }

  // ----- the program

  class Tester<S> {
    const drive: Drive<S>
    var disk: S
    const buff: array<Byte>
    const rng: Register

    ghost predicate Valid() { buff.Length == 4 * SECTOR }

    ghost function State(): Machine<S>
      reads this, rng
    {
      Machine(disk, rng.lfsr)
    }

    constructor (drive: Drive<S>, disk: S)
      ensures Valid() && fresh(buff) && fresh(rng)
      ensures this.drive == drive && State() == Machine(disk, 0)
    {
      this.drive := drive;
      this.disk := disk;
      buff := new Byte[4 * SECTOR];
      rng := new Register();
    }

    /** pn(pns), then one byte for each buffer place. */
    method Fill(from: nat, n: nat, pns: nat)
      requires from + n <= buff.Length && pns < WORDS
      modifies buff, rng
      ensures var first := Called(OfNat(pns), old(rng.lfsr));
              buff[from..from + n] == Stream(n, first) && rng.lfsr == Run(n, first)
    {
      ghost var first := Called(OfNat(pns), rng.lfsr);
      var r := rng.Pn(OfNat(pns));
      var i := 0;
      while i < n
        invariant i <= n && rng.lfsr == Run(i, first)
        invariant forall k: nat :: k < i ==> buff[from + k] == Stream(n, first)[k]
      {
        StepByMask(rng.lfsr);
        r := rng.Pn(0);
        buff[from + i] := Low(r);
        i := i + 1;
      }
    }

    /** pn(pns), then buffer places are compared with the bytes that follow, up to the first that differs. */
    method Matches(from: nat, n: nat, pns: nat) returns (ok: bool)
      requires from + n <= buff.Length && pns < WORDS
      modifies rng
      ensures var again := Called(OfNat(pns), old(rng.lfsr));
              && (ok <==> buff[from..from + n] == Stream(n, again))
              && (ok ==> rng.lfsr == Run(n, again))
    {
      ghost var again := Called(OfNat(pns), rng.lfsr);
      var r := rng.Pn(OfNat(pns));
      var i := 0;
      while i < n
        invariant i <= n && rng.lfsr == Run(i, again)
        invariant forall k: nat :: k < i ==> buff[from + k] == Stream(n, again)[k]
      {
        StepByMask(rng.lfsr);
        r := rng.Pn(0);
        if buff[from + i] != Low(r) {
          assert buff[from..from + n][i] != Stream(n, again)[i];
          return false;
        }
        i := i + 1;
      }
      ok := true;
    }

    /** As Matches, but the byte is compared before the end is noticed, so a full match takes one more step. */
    method MatchesLate(n: nat, pns: nat) returns (ok: bool)
      requires n < buff.Length && pns < WORDS
      modifies rng
      ensures var again := Called(OfNat(pns), old(rng.lfsr));
              && (ok <==> buff[..n] == Stream(n, again))
              && (ok ==> rng.lfsr == Run(n + 1, again))
    {
      ghost var again := Called(OfNat(pns), rng.lfsr);
      var r := rng.Pn(OfNat(pns));
      var i := 0;
      StepByMask(rng.lfsr);
      r := rng.Pn(0);
      assert r == MaskStep(again) && again == Run(0, again);
      while buff[i] == Low(r) && i < n
        invariant i <= n && r == rng.lfsr == Run(i + 1, again)
        invariant forall k: nat :: k < i ==> buff[k] == Stream(n, again)[k]
      {
        i := i + 1;
        StepByMask(rng.lfsr);
        r := rng.Pn(0);
      }
      ok := i == n;
      assert !ok ==> buff[..n][i] != Stream(n, again)[i];
    }

    /** memset(pbuff + from, 0, n) */
    method Clear(from: nat, n: nat)
      requires from + n <= buff.Length
      modifies buff
      ensures forall k: nat :: from <= k < from + n ==> buff[k] == 0
      ensures forall k: nat :: k < buff.Length && !(from <= k < from + n) ==> buff[k] == old(buff[k])
    {
      forall k | from <= k < from + n {
        buff[k] := 0;
      }
    }

    /** A successful read fills the buffer. */
    method Load(from: nat, n: nat, got: nat -> Byte)
      requires from + n <= buff.Length
      modifies buff
      ensures forall k: nat :: k < n ==> buff[from + k] == got(k)
      ensures forall k: nat :: k < buff.Length && !(from <= k < from + n) ==> buff[k] == old(buff[k])
    {
      forall k | 0 <= k < n {
        buff[from + k] := got(k);
      }
    }

    lemma LoadedHolds(from: nat, n: nat, got: nat -> Byte, expected: seq<Byte>)
      requires from + n <= buff.Length && |expected| == n
      requires forall k: nat :: k < n ==> buff[from + k] == got(k)
      ensures buff[from..from + n] == expected <==> Holds(got, expected)
    {
      if buff[from..from + n] == expected {
        forall k: nat | k < n ensures got(k) == expected[k] {
          assert buff[from..from + n][k] == buff[from + k];
        }
      }
    }

    lemma HalvesHold(low: nat -> Byte, high: nat -> Byte, expected: seq<Byte>)
      requires 2 * SECTOR <= buff.Length && |expected| == 2 * SECTOR
      requires forall k: nat :: k < SECTOR ==> buff[0 + k] == low(k)
      requires forall k: nat :: k < SECTOR ==> buff[SECTOR + k] == high(k)
      ensures buff[..2 * SECTOR] == expected
              <==> Holds(low, expected[..SECTOR]) && Holds(high, expected[SECTOR..])
    {
      LoadedHolds(0, SECTOR, low, expected[..SECTOR]);
      LoadedHolds(SECTOR, SECTOR, high, expected[SECTOR..]);
      assert buff[..2 * SECTOR] == buff[0..SECTOR] + buff[SECTOR..SECTOR + SECTOR];
      assert expected == expected[..SECTOR] + expected[SECTOR..];
    }

    /** One phase: write from one buffer place, read back to another, compare. */
    method RoundTrip(pns: nat, lba: nat, count: nat, from: nat, into: nat, codes: Codes) returns (code: nat)
      requires Valid() && pns < WORDS
      requires from + count * SECTOR <= buff.Length && into + count * SECTOR <= buff.Length
      requires codes.Proper()
      modifies this, buff, rng
      ensures Valid()
      ensures code == Attempt(drive, old(State()), pns, lba, count, codes).code
      ensures code == 0 ==> State() == Attempt(drive, old(State()), pns, lba, count, codes).machine
    {
      var n := count * SECTOR;
      Fill(from, n, pns);
      var (s1, written) := drive.write(disk, buff[from..from + n], lba);
      disk := s1;
      if !written { return codes.write; }
      var (s2, synced) := drive.sync(disk);
      disk := s2;
      if !synced { return codes.sync; }
      Clear(into, n);
      var (s3, got) := drive.read(disk, lba, count);
      disk := s3;
      if got.None? { return codes.read; }
      Load(into, n, got.value);
      ghost var again := Called(OfNat(pns), rng.lfsr);
      var ok := Matches(into, n, pns);
      LoadedHolds(into, n, got.value, Stream(n, again));
      code := if ok then 0 else codes.compare;
    }

    /** The last phase: two sectors 4 GB apart. */
    method BarrierTest(pns: nat) returns (code: nat)
      requires Valid() && pns < WORDS
      modifies this, buff, rng
      ensures Valid()
      ensures code == Barrier(drive, old(State()), pns).code
      ensures code == 0 ==> State() == Barrier(drive, old(State()), pns).machine
    {
      var n := 2 * SECTOR;
      ghost var first := Called(OfNat(pns), rng.lfsr);
      Fill(0, n, pns);
      assert buff[..SECTOR] == Stream(n, first)[..SECTOR] && buff[SECTOR..n] == Stream(n, first)[SECTOR..];
      var (s1, low) := drive.write(disk, buff[..SECTOR], 6);
      disk := s1;
      if !low { return 19; }
      var (s2, high) := drive.write(disk, buff[SECTOR..n], 6 + BARRIER);
      disk := s2;
      if !high { return 20; }
      var (s3, synced) := drive.sync(disk);
      disk := s3;
      if !synced { return 21; }
      code := BarrierCompare(pns);
    }

    method BarrierCompare(pns: nat) returns (code: nat)
      requires Valid() && pns < WORDS
      modifies this, buff, rng
      ensures Valid()
      ensures var n, again := 2 * SECTOR, Called(OfNat(pns), old(rng.lfsr));
              var (s4, lowGot) := drive.read(old(disk), 6, 1);
              var (s5, highGot) := drive.read(s4, 6 + BARRIER, 1);
              if lowGot.None? then code == 22
              else if highGot.None? then code == 23
              else if !Holds(lowGot.value, Stream(n, again)[..SECTOR])
                   || !Holds(highGot.value, Stream(n, again)[SECTOR..])
              then code == 24
              else code == 0 && State() == Machine(s5, Run(n + 1, again))
    {
      var n := 2 * SECTOR;
      ghost var again := Called(OfNat(pns), rng.lfsr);
      Clear(0, n);
      var (s4, lowGot) := drive.read(disk, 6, 1);
      disk := s4;
      if lowGot.None? { return 22; }
      Load(0, SECTOR, lowGot.value);
      var (s5, highGot) := drive.read(disk, 6 + BARRIER, 1);
      disk := s5;
      if highGot.None? { return 23; }
      Load(SECTOR, SECTOR, highGot.value);
      HalvesHold(lowGot.value, highGot.value, Stream(n, again));
      var ok := MatchesLate(n, pns);
      code := if ok then 0 else 24;
    }

    method RunPhases(pns: nat, sectors: nat) returns (code: nat)
      requires Valid() && pns < WORDS
      modifies this, buff, rng
      ensures Valid()
      ensures code == Phases(drive, old(State()), pns, sectors).code
      ensures code == 0 ==> State() == Phases(drive, old(State()), pns, sectors).machine
    {
      code := RoundTrip(pns, 0, 1, 0, 0, SINGLE);
      if code != 0 { return; }
      var ns := buff.Length / SECTOR;
      if ns > 4 { ns := 4; }
      if ns > 1 {
        code := RoundTrip(Next(pns), 5, ns, 0, 0, MULTIPLE);
        if code != 0 { return; }
      }
      code := RoundTrip(Next(Next(pns)), 5, 1, 3, 5, UNALIGNED);
      if code != 0 { return; }
      if sectors >= 128 + BARRIER {
        code := BarrierTest(Next(Next(Next(pns))));
      }
    }

    method RunCycle(pns: nat) returns (code: nat)
      requires Valid() && pns < WORDS
      modifies this, buff, rng
      ensures Valid()
      ensures code == Cycle(drive, old(State()), pns).code
      ensures code == 0 ==> State() == Cycle(drive, old(State()), pns).machine
    {
      var (s1, ready) := drive.initialize(disk);
      disk := s1;
      if !ready { return 2; }
      var (s2, sectors) := drive.sectorCount(disk);
      disk := s2;
      if sectors.None? { return 3; }
      if sectors.value < 128 { return 4; }
      code := RunPhases(pns, sectors.value);
    }

    /** test_diskio, with ncyc the number of cycles. */
    method TestDiskIo(ncyc: nat) returns (code: nat)
      requires Valid() && ncyc < WORDS - 1
      modifies this, buff, rng
      ensures Valid()
      ensures code == Cycles(drive, old(State()), 1, 1, ncyc).code
    {
      ghost var m := State();
      ghost var result := Cycles(drive, m, 1, 1, ncyc).code;
      var pns: nat := 1;
      var cc: nat := 1;
      while cc <= ncyc
        invariant Valid() && pns < WORDS && cc <= ncyc + 1
        invariant m == State() && result == Cycles(drive, m, pns, cc, ncyc).code
      {
        ghost var o, next := Cycle(drive, m, pns), Next(Next(Next(Next(pns))));
        FirstCycle(drive, m, pns, cc, ncyc, o, next);
        code := RunCycle(pns);
        if code != 0 { return; }
        pns := Next(Next(Next(Next(pns))));
        assert pns == next;
        m := o.machine;
        cc := cc + 1;
      }
      code := 0;
    }
  }

  // ----- drives that work

  /** How to look at a working drive: its usable states, its bytes and its size. */
  datatype View<!S> = View(usable: S -> bool, byte: (S, nat) -> Byte, sectors: nat)

  ghost predicate Stores<S>(d: Drive<S>, v: View<S>, s: S, data: seq<Byte>, lba: nat) {
    var (after, ok) := d.write(s, data, lba);
    && ok && v.usable(after)
    && forall a: nat :: v.byte(after, a) ==
                        if lba * SECTOR <= a < lba * SECTOR + |data| then data[a - lba * SECTOR] else v.byte(s, a)
  }

  ghost predicate Recalls<S>(d: Drive<S>, v: View<S>, s: S, lba: nat, count: nat) {
    var (after, got) := d.read(s, lba, count);
    && got.Some? && v.usable(after)
    && (forall a: nat :: v.byte(after, a) == v.byte(s, a))
    && forall i: nat :: i < count * SECTOR ==> got.value(i) == v.byte(s, lba * SECTOR + i)
  }

  ghost predicate Settles<S>(d: Drive<S>, v: View<S>, s: S) {
    && d.initialize(s).1 && v.usable(d.initialize(s).0)
    && d.sectorCount(s).1 == Some(v.sectors) && v.usable(d.sectorCount(s).0)
    && d.sync(s).1 && v.usable(d.sync(s).0)
    && forall a: nat :: v.byte(d.sync(s).0, a) == v.byte(s, a)
  }

  /** Every operation succeeds, and reads return the last write. */
  ghost predicate Faithful<S(!new)>(d: Drive<S>, v: View<S>) {
    && (forall s {:trigger Settles(d, v, s)} :: v.usable(s) ==> Settles(d, v, s))
    && (forall s, data, lba: nat ::
          v.usable(s) && lba * SECTOR + |data| <= v.sectors * SECTOR ==> Stores(d, v, s, data, lba))
    && (forall s, lba: nat, count: nat :: v.usable(s) && lba + count <= v.sectors ==> Recalls(d, v, s, lba, count))
  }

  /** What is written, synced and read back is the data. */
  lemma ReadsBack<S(!new)>(d: Drive<S>, v: View<S>, s: S, data: seq<Byte>, lba: nat, count: nat)
    requires Faithful(d, v) && v.usable(s) && |data| == count * SECTOR && lba + count <= v.sectors
    ensures var (s1, written) := d.write(s, data, lba);
            var (s2, synced) := d.sync(s1);
            var (s3, got) := d.read(s2, lba, count);
            written && synced && got.Some? && v.usable(s3) && forall i: nat :: i < |data| ==> got.value(i) == data[i]
  {
    assert Stores(d, v, s, data, lba);
    var s1 := d.write(s, data, lba).0;
    assert Settles(d, v, s1);
    var s2 := d.sync(s1).0;
    assert Recalls(d, v, s2, lba, count);
    var got := d.read(s2, lba, count).1.value;
    forall i: nat | i < |data| ensures got(i) == data[i] {
      assert v.byte(s2, lba * SECTOR + i) == v.byte(s1, lba * SECTOR + i);
    }
  }

  lemma HoldsExactly(got: nat -> Byte, data: seq<Byte>, expected: seq<Byte>)
    requires |data| == |expected| && forall i: nat :: i < |data| ==> got(i) == data[i]
    ensures Holds(got, expected) <==> data == expected
  {
    if Holds(got, expected) {
      assert forall i: nat :: i < |data| ==> data[i] == got(i) == expected[i];
    }
  }

  lemma SeededIsNonZero(n: nat, pns: nat, x: Word)
    requires 0 < pns < WORDS
    ensures Run(n, Called(OfNat(pns), x)) != 0
  {
    OfNatIsZero(pns);
    RunKeepsNonZero(WARM_UP, OfNat(pns));
    RunKeepsNonZero(n, Run(WARM_UP, OfNat(pns)));
  }

  lemma ReplayOf(n: nat, pns: nat, x: Word)
    requires pns < WORDS && 32 <= n < PERIOD - 1
    ensures var first := Called(OfNat(pns), x);
            Stream(n, Called(OfNat(pns), Run(n, first))) == Stream(n, first) <==> pns != 0 || x == 0
  {
    OfNatIsZero(pns);
    ReplaysExactly(n, OfNat(pns), x);
    assert (n + 1) % PERIOD == n + 1;
  }

  /** On a faithful drive a phase passes exactly when the stream is replayed. */
  lemma AttemptOnFaithful<S(!new)>(d: Drive<S>, v: View<S>, m: Machine<S>, pns: nat, lba: nat, count: nat, codes: Codes)
    requires Faithful(d, v) && v.usable(m.disk) && pns < WORDS && codes.Proper()
    requires 0 < count <= 4 && lba + count <= v.sectors
    ensures var o := Attempt(d, m, pns, lba, count, codes);
            && (o.code == 0 <==> pns != 0 || m.lfsr == 0)
            && (o.code == 0 ==> v.usable(o.machine.disk) && (pns != 0 ==> o.machine.lfsr != 0))
  {
    var n := count * SECTOR;
    var first := Called(OfNat(pns), m.lfsr);
    var again := Called(OfNat(pns), Run(n, first));
    var data := Stream(n, first);
    ReadsBack(d, v, m.disk, data, lba, count);
    var got := d.read(d.sync(d.write(m.disk, data, lba).0).0, lba, count).1.value;
    HoldsExactly(got, data, Stream(n, again));
    ReplayOf(n, pns, m.lfsr);
    if pns != 0 {
      SeededIsNonZero(n, pns, Run(n, first));
    }
  }

  /** Both halves are read back, although the second is written after the first. */
  lemma BarrierReadsBack<S(!new)>(d: Drive<S>, v: View<S>, s: S, data: seq<Byte>)
    requires Faithful(d, v) && v.usable(s) && |data| == 2 * SECTOR && v.sectors >= 128 + BARRIER
    ensures var (s1, low) := d.write(s, data[..SECTOR], 6);
            var (s2, high) := d.write(s1, data[SECTOR..], 6 + BARRIER);
            var (s3, synced) := d.sync(s2);
            var (s4, lowGot) := d.read(s3, 6, 1);
            var (s5, highGot) := d.read(s4, 6 + BARRIER, 1);
            && low && high && synced && lowGot.Some? && highGot.Some? && v.usable(s5)
            && (forall i: nat :: i < SECTOR ==> lowGot.value(i) == data[..SECTOR][i])
            && (forall i: nat :: i < SECTOR ==> highGot.value(i) == data[SECTOR..][i])
  {
    var low, high := data[..SECTOR], data[SECTOR..];
    assert Stores(d, v, s, low, 6);
    var s1 := d.write(s, low, 6).0;
    assert Stores(d, v, s1, high, 6 + BARRIER);
    var s2 := d.write(s1, high, 6 + BARRIER).0;
    assert Settles(d, v, s2);
    var s3 := d.sync(s2).0;
    assert Recalls(d, v, s3, 6, 1);
    var (s4, lowGot) := d.read(s3, 6, 1);
    assert Recalls(d, v, s4, 6 + BARRIER, 1);
    var highGot := d.read(s4, 6 + BARRIER, 1).1;
    forall i: nat | i < SECTOR ensures lowGot.value(i) == low[i] && highGot.value(i) == high[i] {
      var a, b := 6 * SECTOR + i, (6 + BARRIER) * SECTOR + i;
      assert v.byte(s3, a) == v.byte(s2, a) == v.byte(s1, a) == low[i];
      assert v.byte(s4, b) == v.byte(s3, b) == v.byte(s2, b) == high[i];
    }
  }

  lemma BarrierOnFaithful<S(!new)>(d: Drive<S>, v: View<S>, m: Machine<S>, pns: nat)
    requires Faithful(d, v) && v.usable(m.disk) && pns < WORDS && v.sectors >= 128 + BARRIER
    ensures var o := Barrier(d, m, pns);
            && o.code == (if pns != 0 || m.lfsr == 0 then 0 else 24)
            && (o.code == 0 ==> v.usable(o.machine.disk))
  {
    var n := 2 * SECTOR;
    var first := Called(OfNat(pns), m.lfsr);
    var again := Called(OfNat(pns), Run(n, first));
    var data, expected := Stream(n, first), Stream(n, again);
    BarrierReadsBack(d, v, m.disk, data);
    var s3 := d.sync(d.write(d.write(m.disk, data[..SECTOR], 6).0, data[SECTOR..], 6 + BARRIER).0).0;
    var (s4, lowGot) := d.read(s3, 6, 1);
    var highGot := d.read(s4, 6 + BARRIER, 1).1;
    HoldsExactly(lowGot.value, data[..SECTOR], expected[..SECTOR]);
    HoldsExactly(highGot.value, data[SECTOR..], expected[SECTOR..]);
    assert data == data[..SECTOR] + data[SECTOR..] && expected == expected[..SECTOR] + expected[SECTOR..];
    ReplayOf(n, pns, m.lfsr);
  }

  /** The seed of the first phase of cycle cc. */
  function SeedOf(cc: nat): (pns: nat)
    requires cc > 0
    ensures pns < WORDS
  {
    (4 * cc - 3) % WORDS
  }

  const CYCLES: nat := 0x4000_0000  // a quarter of WORDS

  lemma SeedWithin(cc: nat)
    requires cc > 0
    ensures SeedOf(cc) == 4 * ((cc - 1) % CYCLES) + 1
  {
    var q, r := (cc - 1) / CYCLES, (cc - 1) % CYCLES;
    assert 4 * cc - 3 == q * WORDS + (4 * r + 1);
    assert (4 * cc - 3) / WORDS == q;
  }

  /** Remainders of consecutive numbers. */
  lemma Successor(cc: nat)
    requires cc > 0
    ensures cc % CYCLES == if (cc - 1) % CYCLES == CYCLES - 1 then 0 else (cc - 1) % CYCLES + 1
  {
  }

  lemma SeedsOf(cc: nat)
    requires cc > 0
    ensures SeedOf(cc) != 0 && Next(SeedOf(cc)) != 0 && Next(Next(SeedOf(cc))) != 0
    ensures Next(Next(Next(SeedOf(cc)))) == 0 <==> cc % CYCLES == 0
    ensures Next(Next(Next(Next(SeedOf(cc))))) == SeedOf(cc + 1)
  {
    SeedWithin(cc);
    SeedWithin(cc + 1);
    Successor(cc);
    assert Next(Next(SeedOf(cc))) == SeedOf(cc) + 2;
    assert Next(Next(Next(SeedOf(cc)))) == if (cc - 1) % CYCLES == CYCLES - 1 then 0 else SeedOf(cc) + 3;
  }

  /** One cycle: on a large drive it fails exactly when the seed of the last phase wraps to zero. */
  lemma CycleOnFaithful<S(!new)>(d: Drive<S>, v: View<S>, m: Machine<S>, cc: nat)
    requires Faithful(d, v) && v.usable(m.disk) && v.sectors >= 128 && cc > 0
    ensures var o := Cycle(d, m, SeedOf(cc));
            && o.code == (if v.sectors >= 128 + BARRIER && cc % CYCLES == 0 then 24 else 0)
            && (o.code == 0 ==> v.usable(o.machine.disk))
  {
    var pns := SeedOf(cc);
    SeedsOf(cc);
    assert Settles(d, v, m.disk);
    var s1 := d.initialize(m.disk).0;
    assert Settles(d, v, s1);
    var m0 := m.(disk := d.sectorCount(s1).0);
    AttemptOnFaithful(d, v, m0, pns, 0, 1, SINGLE);
    var a := Attempt(d, m0, pns, 0, 1, SINGLE);
    AttemptOnFaithful(d, v, a.machine, Next(pns), 5, 4, MULTIPLE);
    var b := Attempt(d, a.machine, Next(pns), 5, 4, MULTIPLE);
    AttemptOnFaithful(d, v, b.machine, Next(Next(pns)), 5, 1, UNALIGNED);
    var c := Attempt(d, b.machine, Next(Next(pns)), 5, 1, UNALIGNED);
    if v.sectors >= 128 + BARRIER {
      BarrierOnFaithful(d, v, c.machine, Next(Next(Next(pns))));
    }
  }

  lemma LastCycle(cc: nat)
    requires 0 < cc <= CYCLES
    ensures cc % CYCLES == 0 <==> cc == CYCLES
  {
  }

  /** What CycleOnFaithful says of cycle cc, if it is not beyond the first failing one. */
  ghost predicate CycleGoes<S>(run: (Machine<S>, Seed) -> Outcome<S>, v: View<S>, m: Machine<S>, cc: nat, large: bool) {
    v.usable(m.disk) && cc > 0 && (large ==> cc <= CYCLES) ==>
      var o := run(m, SeedOf(cc));
      o.code == (if large && cc == CYCLES then 24 else 0) && (o.code == 0 ==> v.usable(o.machine.disk))
  }

  lemma CyclesGo<S(!new)>(d: Drive<S>, v: View<S>, large: bool)
    requires Faithful(d, v) && v.sectors >= 128 && large == (v.sectors >= 128 + BARRIER)
    ensures forall m, cc :: CycleGoes(CycleOn(d), v, m, cc, large)
  {
    forall m: Machine<S>, cc: nat ensures CycleGoes(CycleOn(d), v, m, cc, large) {
      if v.usable(m.disk) && cc > 0 && (large ==> cc <= CYCLES) {
        CycleOnFaithful(d, v, m, cc);
        if large {
          LastCycle(cc);
        }
      }
    }
  }

  /** The first failing cycle is the last one with a seed of zero. */
  lemma {:induction false} CyclesEnd<S(!new)>(run: (Machine<S>, Seed) -> Outcome<S>, v: View<S>, m: Machine<S>,
                                              cc: nat, ncyc: nat, large: bool)
    requires v.usable(m.disk) && forall m, cc :: CycleGoes(run, v, m, cc, large)
    requires cc > 0 && (large ==> cc <= CYCLES)
    ensures Repeat(run, m, SeedOf(cc), cc, ncyc).code == if large && ncyc >= CYCLES then 24 else 0
    decreases ncyc + 1 - cc
  {
    if cc <= ncyc {
      assert CycleGoes(run, v, m, cc, large);
      var o := run(m, SeedOf(cc));
      SeedsOf(cc);
      if o.code == 0 {
        CyclesEnd(run, v, o.machine, cc + 1, ncyc, large);
      }
    }
  }

  lemma CyclesFrom1<S(!new)>(run: (Machine<S>, Seed) -> Outcome<S>, v: View<S>, m: Machine<S>, ncyc: nat, large: bool)
    requires v.usable(m.disk) && forall m, cc :: CycleGoes(run, v, m, cc, large)
    ensures Repeat(run, m, 1, 1, ncyc).code == if large && ncyc >= CYCLES then 24 else 0
  {
    CyclesEnd(run, v, m, 1, ncyc, large);
  }

  /**
   A faithful drive passes the whole test exactly when it is too small for the 4 GB phase
   or there are fewer than 2^30 cycles: in cycle 2^30 the seed of that phase wraps to zero,
   the register is not seeded again, and the comparison reports a mismatch.
   */
  lemma FaithfulDrivePasses<S(!new)>(d: Drive<S>, v: View<S>, m: Machine<S>, ncyc: nat)
    requires Faithful(d, v) && v.usable(m.disk) && v.sectors >= 128
    ensures Cycles(d, m, 1, 1, ncyc).code == 0 <==> v.sectors < 128 + 0x10_0000 || ncyc < 0x4000_0000
    ensures Cycles(d, m, 1, 1, ncyc).code in {0, 24}
  {
    var large := v.sectors >= 128 + BARRIER;
    CyclesGo(d, v, large);
    CyclesFrom1(CycleOn(d), v, m, ncyc, large);
  }

  // ----- a drive in memory

  function At(s: seq<Byte>, a: nat): Byte { if a < |s| then s[a] else 0 }

  function Overwritten(s: seq<Byte>, data: seq<Byte>, from: nat): seq<Byte> {
    if from + |data| <= |s| then s[..from] + data + s[from + |data|..] else s
  }

  function MemoryDrive(sectors: nat): Drive<seq<Byte>> {
    Drive(s => (s, true),
          s => (s, Some(sectors)),
          (s, data, lba: nat) => (Overwritten(s, data, lba * SECTOR), true),
          s => (s, true),
          (s, lba: nat, count) => (s, Some((i: nat) => At(s, lba * SECTOR + i))))
  }

  function MemoryView(sectors: nat): View<seq<Byte>> {
    View(s => |s| == sectors * SECTOR, (s, a) => At(s, a), sectors)
  }

  lemma MemoryIsFaithful(sectors: nat)
    ensures Faithful(MemoryDrive(sectors), MemoryView(sectors))
  {
    var d, v := MemoryDrive(sectors), MemoryView(sectors);
    forall s, data, lba: nat | v.usable(s) && lba * SECTOR + |data| <= v.sectors * SECTOR
      ensures Stores(d, v, s, data, lba)
    {
    }
    forall s, lba: nat, count: nat | v.usable(s) && lba + count <= v.sectors ensures Recalls(d, v, s, lba, count) {
    }
  }

  /** The promise that faithful drives pass for every cycle count fails: one of 4 GB and 512 KB, 2^30 cycles. */
  lemma FaithfulDriveFails(m: Machine<seq<Byte>>)
    requires |m.disk| == (128 + BARRIER) * SECTOR
    ensures Faithful(MemoryDrive(128 + BARRIER), MemoryView(128 + BARRIER))
    ensures Cycles(MemoryDrive(128 + BARRIER), m, 1, 1, 0x4000_0000).code == 24
  {
    var n := 128 + BARRIER;
    MemoryIsFaithful(n);
    FaithfulDrivePasses(MemoryDrive(n), MemoryView(n), m, 0x4000_0000);
  }
}
