/**
 What the disk self-test finds on any drive, stated over the drive's own calls: the code it
 returns is that of the first call of a cycle that fails or reads back something else.
 */
module DiskDetection {
  import opened Prelude
  import opened RandomLfsr
  import opened ShiftWords
  import opened LinearOperator
  import opened DiskTest

  // ----- the bytes

  /** The low byte of the register, k steps after the word x. */
  function NoiseByte(k: nat, x: Word): Byte { (Run(k, x) & 0xFF) as Byte }

  /** n bytes, the first k + 1 steps after the word x. */
  function Noise(n: nat, k: nat, x: Word): (s: seq<Byte>)
    ensures |s| == n
  {
    seq(n, i requires i >= 0 => NoiseByte(k + 1 + i, x))
  }

  lemma StreamIsNoise(n: nat, k: nat, x: Word)
    ensures Stream(n, Run(k, x)) == Noise(n, k, x)
  {
    forall i: nat | i < n ensures Stream(n, Run(k, x))[i] == Noise(n, k, x)[i] {
      IterAdds(Words(), i + 1, k, x);
      assert Run((i + 1) + k, x) == Run(k + 1 + i, x);
    }
  }

  // ----- the calls of a cycle

  /** A call that has to succeed, and the code returned when it does not. */
  datatype Check = Check(ok: bool, code: nat)

  function FirstFailing(checks: seq<Check>): nat {
    if checks == [] then 0 else if !checks[0].ok then checks[0].code else FirstFailing(checks[1..])
  }

  /** The bytes read from lba on are the data. */
  ghost predicate ReadsBack<S>(d: Drive<S>, s: S, lba: nat, count: nat, data: seq<Byte>) {
    var got := d.read(s, lba, count).1;
    got.Some? && forall i: nat :: i < |data| ==> got.value(i) == data[i]
  }

  /** Write, synchronise, read and compare in one place. */
  ghost function PlaceChecks<S>(d: Drive<S>, s: S, lba: nat, count: nat, data: seq<Byte>, code: nat, compare: nat)
    : seq<Check>
  {
    var s1 := d.write(s, data, lba).0;
    var s2 := d.sync(s1).0;
    [Check(d.write(s, data, lba).1, code), Check(d.sync(s1).1, code + 1),
     Check(d.read(s2, lba, count).1.Some?, code + 2), Check(ReadsBack(d, s2, lba, count, data), compare)]
  }

  function AfterPlace<S>(d: Drive<S>, s: S, lba: nat, count: nat, data: seq<Byte>): S {
    d.read(d.sync(d.write(s, data, lba).0).0, lba, count).0
  }

  /** Write two sectors 4 GB apart, synchronise, read both and compare both. */
  ghost function BarrierChecks<S>(d: Drive<S>, s: S, w: Script): seq<Check> {
    var s1 := d.write(s, w.low, 6).0;
    var s2 := d.write(s1, w.high, 1048582).0;
    var s3 := d.sync(s2).0;
    var s4 := d.read(s3, 6, 1).0;
    [Check(d.write(s, w.low, 6).1, 19), Check(d.write(s1, w.high, 1048582).1, 20), Check(d.sync(s2).1, 21),
     Check(d.read(s3, 6, 1).1.Some?, 22), Check(d.read(s4, 1048582, 1).1.Some?, 23),
     Check(ReadsBack(d, s3, 6, 1, w.lowBack) && ReadsBack(d, s4, 1048582, 1, w.highBack), 24)]
  }

  function AfterBarrier<S>(d: Drive<S>, s: S, w: Script): S {
    var s2 := d.write(d.write(s, w.low, 6).0, w.high, 1048582).0;
    d.read(d.read(d.sync(s2).0, 6, 1).0, 1048582, 1).0
  }

  /** The bytes of a cycle: those written in its places, and those compared in the last one. */
  datatype Script = Script(single: seq<Byte>, multiple: seq<Byte>, unaligned: seq<Byte>,
                           low: seq<Byte>, high: seq<Byte>, lowBack: seq<Byte>, highBack: seq<Byte>)

  /** The three or four places of a cycle, on a drive of that many sectors. */
  ghost function PlacesChecks<S>(d: Drive<S>, s: S, w: Script, sectors: nat): seq<Check> {
    var s1 := AfterPlace(d, s, 0, 1, w.single);
    var s2 := AfterPlace(d, s1, 5, 4, w.multiple);
    var s3 := AfterPlace(d, s2, 5, 1, w.unaligned);
    PlaceChecks(d, s, 0, 1, w.single, 6, 10) + (PlaceChecks(d, s1, 5, 4, w.multiple, 11, 14)
      + (PlaceChecks(d, s2, 5, 1, w.unaligned, 15, 18) + (if sectors >= 1048704 then BarrierChecks(d, s3, w) else [])))
  }

  function AfterPlaces<S>(d: Drive<S>, s: S, w: Script, sectors: nat): S {
    var s1 := AfterPlace(d, s, 0, 1, w.single);
    var s2 := AfterPlace(d, s1, 5, 4, w.multiple);
    var s3 := AfterPlace(d, s2, 5, 1, w.unaligned);
    if sectors >= 1048704 then AfterBarrier(d, s3, w) else s3
  }

  const LAST_SEED: nat := 0xFFFF_FFFF

  /** n bytes behind the warm-up of a seed. */
  function Seeded(n: nat, seed: nat): (s: seq<Byte>)
    requires seed < 0x1_0000_0000
    ensures |s| == n
  {
    Noise(n, 33, seed as Word)
  }

  /**
   The bytes written in the last place, and those compared: the same behind a seed; without
   one, the register goes on from the last byte of the place before, one call and 8192 bytes
   apart.
   */
  function BarrierWritten(seed: nat): (s: seq<Byte>)
    requires seed < 0x1_0000_0000
    ensures |s| == 8192
  {
    if seed != 0 then Seeded(8192, seed) else Noise(8192, 4130, LAST_SEED as Word)
  }

  function BarrierExpected(seed: nat): (s: seq<Byte>)
    requires seed < 0x1_0000_0000
    ensures |s| == 8192
  {
    if seed != 0 then Seeded(8192, seed) else Noise(8192, 12323, LAST_SEED as Word)
  }

  /** The script for four consecutive seeds. */
  function ScriptOf(p1: nat, p2: nat, p3: nat, p4: nat): Script
    requires p1 < 0x1_0000_0000 && p2 < 0x1_0000_0000 && p3 < 0x1_0000_0000 && p4 < 0x1_0000_0000
  {
    Script(Seeded(4096, p1), Seeded(16384, p2), Seeded(4096, p3),
           BarrierWritten(p4)[..4096], BarrierWritten(p4)[4096..],
           BarrierExpected(p4)[..4096], BarrierExpected(p4)[4096..])
  }

  // ----- one place

  lemma PlaceIsAttempt<S>(d: Drive<S>, m: Machine<S>, pns: nat, lba: nat, count: nat, codes: Codes, code: nat,
                          data: seq<Byte>)
    requires 0 < pns < WORDS && code > 0 && codes == Codes(code, code + 1, code + 2, codes.compare) && codes.compare > 0
    requires data == Noise(count * 4096, 33, OfNat(pns))
    ensures var o := Attempt(d, m, pns, lba, count, codes);
            && o.code == FirstFailing(PlaceChecks(d, m.disk, lba, count, data, code, codes.compare))
            && (o.code == 0 ==>
                  o.machine == Machine(AfterPlace(d, m.disk, lba, count, data), Run(33 + count * 4096, OfNat(pns))))
  {
    var n, first := count * SECTOR, Run(33, OfNat(pns));
    OfNatIsZero(pns);
    assert Called(OfNat(pns), m.lfsr) == first && Called(OfNat(pns), Run(n, first)) == first;
    StreamIsNoise(n, 33, OfNat(pns));
    IterAdds(Words(), n, 33, OfNat(pns));
    FirstOfFour(PlaceChecks(d, m.disk, lba, count, data, code, codes.compare));
  }

  lemma FirstFrom(checks: seq<Check>, k: nat)
    requires k < |checks|
    ensures FirstFailing(checks[k..]) == if !checks[k].ok then checks[k].code else FirstFailing(checks[k + 1..])
  {
    assert checks[k..][1..] == checks[k + 1..];
  }

  lemma FirstOfFour(checks: seq<Check>)
    requires |checks| == 4
    ensures FirstFailing(checks) ==
            if !checks[0].ok then checks[0].code else if !checks[1].ok then checks[1].code
            else if !checks[2].ok then checks[2].code else if !checks[3].ok then checks[3].code else 0
  {
    assert checks[0..] == checks && checks[4..] == [];
    FirstFrom(checks, 0);
    FirstFrom(checks, 1);
    FirstFrom(checks, 2);
    FirstFrom(checks, 3);
  }

  lemma FirstOfSix(checks: seq<Check>)
    requires |checks| == 6
    ensures FirstFailing(checks) ==
            if !checks[0].ok then checks[0].code else if !checks[1].ok then checks[1].code
            else if !checks[2].ok then checks[2].code else if !checks[3].ok then checks[3].code
            else if !checks[4].ok then checks[4].code else if !checks[5].ok then checks[5].code else 0
  {
    assert checks[0..] == checks && checks[6..] == [];
    FirstFrom(checks, 0);
    FirstFrom(checks, 1);
    FirstFrom(checks, 2);
    FirstFrom(checks, 3);
    FirstFrom(checks, 4);
    FirstFrom(checks, 5);
  }

  lemma {:induction false} FirstOfBoth(a: seq<Check>, b: seq<Check>)
    requires forall i :: 0 <= i < |a| ==> a[i].code != 0
    ensures FirstFailing(a + b) == if FirstFailing(a) != 0 then FirstFailing(a) else FirstFailing(b)
  {
    if a == [] {
      assert a + b == b;
    } else {
      assert (a + b)[1..] == a[1..] + b;
      FirstOfBoth(a[1..], b);
    }
  }

  /** No code exactly when everything succeeded. */
  lemma {:induction false} NoneFailing(checks: seq<Check>)
    requires forall i :: 0 <= i < |checks| ==> checks[i].code != 0
    ensures FirstFailing(checks) == 0 <==> forall i :: 0 <= i < |checks| ==> checks[i].ok
  {
    if checks != [] {
      NoneFailing(checks[1..]);
      assert forall i :: 0 < i < |checks| ==> checks[i] == checks[1..][i - 1];
    }
  }

  // ----- the last place

  /** The calls of the last place, with the bytes that the register gives. */
  lemma BarrierIsBarrier<S>(d: Drive<S>, m: Machine<S>, pns: nat, n: nat, first: Word, again: Word, w: Script)
    requires pns < WORDS && n == 2 * SECTOR
    requires first == Called(OfNat(pns), m.lfsr) && again == Called(OfNat(pns), Run(n, first))
    requires w.low == Stream(n, first)[..SECTOR] && w.high == Stream(n, first)[SECTOR..]
    requires w.lowBack == Stream(n, again)[..SECTOR] && w.highBack == Stream(n, again)[SECTOR..]
    ensures var o := Barrier(d, m, pns);
            && o.code == FirstFailing(BarrierChecks(d, m.disk, w))
            && (o.code == 0 ==> o.machine.disk == AfterBarrier(d, m.disk, w))
  {
    FirstOfSix(BarrierChecks(d, m.disk, w));
  }

  // ----- a cycle

  lemma NextUnseeded(k: nat, x: Word)
    ensures Called(OfNat(0), Run(k, x)) == Run(k + 1, x)
  {
    NextOfRun(k, x);
  }

  lemma SeededStreams(p: nat, lfsr: Word, n: nat)
    requires 0 < p < WORDS
    ensures Stream(n, Called(OfNat(p), lfsr)) == Seeded(n, p)
  {
    OfNatIsZero(p);
    StreamIsNoise(n, 33, OfNat(p));
  }

  lemma UnseededStreams(x: Word, lfsr: Word, n: nat, k: nat)
    requires lfsr == Run(k, x)
    ensures var first := Called(OfNat(0), lfsr);
            && Stream(n, first) == Noise(n, k + 1, x)
            && Stream(n, Called(OfNat(0), Run(n, first))) == Noise(n, k + 2 + n, x)
  {
    NextUnseeded(k, x);
    IterAdds(Words(), n, k + 1, x);
    NextUnseeded(k + 1 + n, x);
    StreamIsNoise(n, k + 1, x);
    StreamIsNoise(n, k + 2 + n, x);
  }

  lemma LargestSeed(p: nat)
    requires p == 0xFFFF_FFFF
    ensures OfNat(p) == LAST_SEED as Word
  {
  }

  /** What the last place writes and compares, when the register stands behind the place before. */
  lemma BarrierStreams(p3: nat, p4: nat, x: Word, lfsr: Word, n: nat, k: nat)
    requires 0 < p3 < WORDS && p4 == (if p3 == 0xFFFF_FFFF then 0 else p3 + 1) && x == OfNat(p3)
    requires n == 8192 && k == 4129 && lfsr == Run(k, x)
    ensures var first := Called(OfNat(p4), lfsr);
            && Stream(n, first) == BarrierWritten(p4)
            && Stream(n, Called(OfNat(p4), Run(n, first))) == BarrierExpected(p4)
  {
    if p4 != 0 {
      SeededStreams(p4, lfsr, n);
      SeededStreams(p4, Run(n, Called(OfNat(p4), lfsr)), n);
    } else {
      LargestSeed(p3);
      UnseededStreams(x, lfsr, n, k);
    }
  }

  lemma PlaceCodes<S>(d: Drive<S>, s: S, lba: nat, count: nat, data: seq<Byte>, code: nat, compare: nat)
    requires code > 0 && compare > 0
    ensures forall i :: 0 <= i < 4 ==> PlaceChecks(d, s, lba, count, data, code, compare)[i].code != 0
  {
  }

  predicate Coded(checks: seq<Check>) { forall i :: 0 <= i < |checks| ==> checks[i].code != 0 }

  lemma FirstOfAll(x: seq<Check>, y: seq<Check>, z: seq<Check>, last: seq<Check>)
    requires Coded(x) && Coded(y) && Coded(z)
    ensures FirstFailing(x + (y + (z + last))) ==
            if FirstFailing(x) != 0 then FirstFailing(x) else if FirstFailing(y) != 0 then FirstFailing(y)
            else if FirstFailing(z) != 0 then FirstFailing(z) else FirstFailing(last)
  {
    FirstOfBoth(x, y + (z + last));
    FirstOfBoth(y, z + last);
    FirstOfBoth(z, last);
  }

  /** The last place, behind the others. */
  lemma LastPlace<S>(d: Drive<S>, m: Machine<S>, p3: nat, p4: nat, k: nat, w: Script)
    requires 0 < p3 < WORDS && p4 == (if p3 == 0xFFFF_FFFF then 0 else p3 + 1)
    requires k == 4129 && m.lfsr == Run(k, OfNat(p3))
    requires w.low == BarrierWritten(p4)[..4096] && w.high == BarrierWritten(p4)[4096..]
    requires w.lowBack == BarrierExpected(p4)[..4096] && w.highBack == BarrierExpected(p4)[4096..]
    ensures var o := Barrier(d, m, p4);
            && o.code == FirstFailing(BarrierChecks(d, m.disk, w))
            && (o.code == 0 ==> o.machine.disk == AfterBarrier(d, m.disk, w))
  {
    var n := 2 * SECTOR;
    var first := Called(OfNat(p4), m.lfsr);
    BarrierStreams(p3, p4, OfNat(p3), m.lfsr, n, k);
    BarrierIsBarrier(d, m, p4, n, first, Called(OfNat(p4), Run(n, first)), w);
  }

  /** The outcomes of the places, in turn. */
  function InTurn<S>(a: Outcome<S>, b: Outcome<S>, c: Outcome<S>, large: bool, l: Outcome<S>): Outcome<S> {
    if a.code != 0 then a else if b.code != 0 then b else if c.code != 0 || !large then c else l
  }

  lemma PhasesInTurn<S>(d: Drive<S>, m: Machine<S>, p1: nat, p2: nat, p3: nat, p4: nat, sectors: nat,
                        a: Outcome<S>, b: Outcome<S>, c: Outcome<S>, l: Outcome<S>)
    requires p1 < WORDS && p2 == Next(p1) && p3 == Next(p2) && p4 == Next(p3)
    requires a == Attempt(d, m, p1, 0, 1, SINGLE) && b == Attempt(d, a.machine, p2, 5, 4, MULTIPLE)
    requires c == Attempt(d, b.machine, p3, 5, 1, UNALIGNED) && l == Barrier(d, c.machine, p4)
    ensures Phases(d, m, p1, sectors) == InTurn(a, b, c, sectors >= 1048704, l)
  {
  }

  lemma InTurnChecks<S>(a: Outcome<S>, b: Outcome<S>, c: Outcome<S>, large: bool, l: Outcome<S>,
                        x: seq<Check>, y: seq<Check>, z: seq<Check>, last: seq<Check>)
    requires Coded(x) && Coded(y) && Coded(z)
    requires a.code == FirstFailing(x) && (a.code == 0 ==> b.code == FirstFailing(y))
    requires a.code == 0 && b.code == 0 ==> c.code == FirstFailing(z)
    requires a.code == 0 && b.code == 0 && c.code == 0 && large ==> l.code == FirstFailing(last)
    ensures InTurn(a, b, c, large, l).code == FirstFailing(x + (y + (z + (if large then last else []))))
  {
    FirstOfAll(x, y, z, if large then last else []);
  }

  lemma SinglePlace<S>(d: Drive<S>, m: Machine<S>, p: nat, o: Outcome<S>, data: seq<Byte>)
    requires 0 < p < WORDS && o == Attempt(d, m, p, 0, 1, SINGLE) && data == Seeded(4096, p)
    ensures o.code == FirstFailing(PlaceChecks(d, m.disk, 0, 1, data, 6, 10))
    ensures o.code == 0 ==> o.machine.disk == AfterPlace(d, m.disk, 0, 1, data)
  {
    PlaceIsAttempt(d, m, p, 0, 1, SINGLE, 6, data);
  }

  lemma MultiplePlace<S>(d: Drive<S>, m: Machine<S>, p: nat, o: Outcome<S>, data: seq<Byte>)
    requires 0 < p < WORDS && o == Attempt(d, m, p, 5, 4, MULTIPLE) && data == Seeded(16384, p)
    ensures o.code == FirstFailing(PlaceChecks(d, m.disk, 5, 4, data, 11, 14))
    ensures o.code == 0 ==> o.machine.disk == AfterPlace(d, m.disk, 5, 4, data)
  {
    PlaceIsAttempt(d, m, p, 5, 4, MULTIPLE, 11, data);
  }

  lemma UnalignedPlace<S>(d: Drive<S>, m: Machine<S>, p: nat, o: Outcome<S>, data: seq<Byte>, k: nat)
    requires 0 < p < WORDS && o == Attempt(d, m, p, 5, 1, UNALIGNED) && data == Seeded(4096, p) && k == 4129
    ensures o.code == FirstFailing(PlaceChecks(d, m.disk, 5, 1, data, 15, 18))
    ensures o.code == 0 ==> o.machine == Machine(AfterPlace(d, m.disk, 5, 1, data), Run(k, OfNat(p)))
  {
    PlaceIsAttempt(d, m, p, 5, 1, UNALIGNED, 15, data);
  }

  lemma NextSeeds(p1: nat, p2: nat, p3: nat, p4: nat)
    requires p2 == p1 + 1 < WORDS && p3 == p2 + 1 < WORDS && p4 == if p3 == 0xFFFF_FFFF then 0 else p3 + 1
    ensures p2 == Next(p1) && p3 == Next(p2) && p4 == Next(p3)
  {
  }

  lemma PhasesDetect<S>(d: Drive<S>, m: Machine<S>, p1: nat, p2: nat, p3: nat, p4: nat, sectors: nat, w: Script)
    requires 0 < p1 < WORDS && p2 == p1 + 1 < WORDS && p3 == p2 + 1 < WORDS
    requires p4 == (if p3 == 0xFFFF_FFFF then 0 else p3 + 1) && w == ScriptOf(p1, p2, p3, p4)
    ensures var o := Phases(d, m, p1, sectors);
            && o.code == FirstFailing(PlacesChecks(d, m.disk, w, sectors))
            && (o.code == 0 ==> o.machine.disk == AfterPlaces(d, m.disk, w, sectors))
  {
    var a := Attempt(d, m, p1, 0, 1, SINGLE);
    var b := Attempt(d, a.machine, p2, 5, 4, MULTIPLE);
    var c := Attempt(d, b.machine, p3, 5, 1, UNALIGNED);
    var l := Barrier(d, c.machine, p4);
    NextSeeds(p1, p2, p3, p4);
    PhasesInTurn(d, m, p1, p2, p3, p4, sectors, a, b, c, l);
    SinglePlace(d, m, p1, a, w.single);
    MultiplePlace(d, a.machine, p2, b, w.multiple);
    UnalignedPlace(d, b.machine, p3, c, w.unaligned, 4129);
    if c.code == 0 {
      LastPlace(d, c.machine, p3, p4, 4129, w);
    }
    TurnsDetect(d, m.disk, w, sectors, a, b, c, l);
  }

  lemma TurnsDetect<S>(d: Drive<S>, s: S, w: Script, sectors: nat,
                       a: Outcome<S>, b: Outcome<S>, c: Outcome<S>, l: Outcome<S>)
    requires a.code == FirstFailing(PlaceChecks(d, s, 0, 1, w.single, 6, 10))
    requires a.code == 0 ==> a.machine.disk == AfterPlace(d, s, 0, 1, w.single)
    requires b.code == FirstFailing(PlaceChecks(d, a.machine.disk, 5, 4, w.multiple, 11, 14))
    requires b.code == 0 ==> b.machine.disk == AfterPlace(d, a.machine.disk, 5, 4, w.multiple)
    requires c.code == FirstFailing(PlaceChecks(d, b.machine.disk, 5, 1, w.unaligned, 15, 18))
    requires c.code == 0 ==> c.machine.disk == AfterPlace(d, b.machine.disk, 5, 1, w.unaligned)
    requires c.code == 0 ==> l.code == FirstFailing(BarrierChecks(d, c.machine.disk, w))
    requires c.code == 0 && l.code == 0 ==> l.machine.disk == AfterBarrier(d, c.machine.disk, w)
    ensures var o := InTurn(a, b, c, sectors >= 1048704, l);
            && o.code == FirstFailing(PlacesChecks(d, s, w, sectors))
            && (o.code == 0 ==> o.machine.disk == AfterPlaces(d, s, w, sectors))
  {
    var s1 := AfterPlace(d, s, 0, 1, w.single);
    var s2 := AfterPlace(d, s1, 5, 4, w.multiple);
    InTurnChecks(a, b, c, sectors >= 1048704, l,
                 PlaceChecks(d, s, 0, 1, w.single, 6, 10), PlaceChecks(d, s1, 5, 4, w.multiple, 11, 14),
                 PlaceChecks(d, s2, 5, 1, w.unaligned, 15, 18),
                 BarrierChecks(d, AfterPlace(d, s2, 5, 1, w.unaligned), w));
  }

  /** The script of cycle cc: its four seeds are 4 * cc - 3 to 4 * cc, on 32 bits. */
  function CycleScript(cc: nat): Script
    requires cc > 0
  {
    ScriptOf((4 * cc - 3) % 0x1_0000_0000, (4 * cc - 2) % 0x1_0000_0000, (4 * cc - 1) % 0x1_0000_0000,
             4 * cc % 0x1_0000_0000)
  }

  /** Everything a cycle checks: the drive is ready and large enough, and gives back what it is given. */
  ghost function CycleChecks<S>(d: Drive<S>, s: S, w: Script): seq<Check> {
    var (s1, ready) := d.initialize(s);
    var (s2, sectors) := d.sectorCount(s1);
    [Check(ready, 2), Check(sectors.Some?, 3), Check(sectors.Some? && sectors.value >= 128, 4)]
    + (if sectors.Some? then PlacesChecks(d, s2, w, sectors.value) else [])
  }

  function AfterCycle<S>(d: Drive<S>, s: S, w: Script): S {
    var s1 := d.initialize(s).0;
    var (s2, sectors) := d.sectorCount(s1);
    if sectors.Some? then AfterPlaces(d, s2, w, sectors.value) else s2
  }

  lemma SeedsSpelled(cc: nat)
    requires cc > 0
    ensures var p := (4 * cc - 3) % 0x1_0000_0000;
            && SeedOf(cc) == p > 0 && (4 * cc - 2) % 0x1_0000_0000 == p + 1 && (4 * cc - 1) % 0x1_0000_0000 == p + 2
            && 4 * cc % 0x1_0000_0000 == if p + 2 == 0xFFFF_FFFF then 0 else p + 3
  {
    SeedWithin(cc);
    var q, r := (cc - 1) / CYCLES, (cc - 1) % CYCLES;
    WrapsAt(4 * cc - 3, q, 4 * r + 1);
    WrapsAt(4 * cc - 2, q, 4 * r + 2);
    WrapsAt(4 * cc - 1, q, 4 * r + 3);
    if r == 0x3FFF_FFFF {
      WrapsAt(4 * cc, q + 1, 0);
    } else {
      WrapsAt(4 * cc, q, 4 * r + 4);
    }
  }

  lemma WrapsAt(x: nat, q: nat, r: nat)
    requires x == 0x1_0000_0000 * q + r && r < 0x1_0000_0000
    ensures x % 0x1_0000_0000 == r
  {
  }

  lemma FirstOfHead(a: Check, b: Check, c: Check, rest: seq<Check>)
    requires a.code != 0 && b.code != 0 && c.code != 0
    ensures FirstFailing([a, b, c] + rest) ==
            if !a.ok then a.code else if !b.ok then b.code else if !c.ok then c.code else FirstFailing(rest)
  {
    var all := [a, b, c] + rest;
    assert all[0..] == all && all[3..] == rest;
    FirstFrom(all, 0);
    FirstFrom(all, 1);
    FirstFrom(all, 2);
  }

  lemma CycleDetects<S>(d: Drive<S>, m: Machine<S>, cc: nat, w: Script)
    requires cc > 0 && w == CycleScript(cc)
    ensures var o := Cycle(d, m, SeedOf(cc));
            && o.code == FirstFailing(CycleChecks(d, m.disk, w))
            && (o.code == 0 ==> o.machine.disk == AfterCycle(d, m.disk, w))
  {
    SeedsSpelled(cc);
    var p := SeedOf(cc);
    var (s1, ready) := d.initialize(m.disk);
    var (s2, sectors) := d.sectorCount(s1);
    FirstOfHead(Check(ready, 2), Check(sectors.Some?, 3), Check(sectors.Some? && sectors.value >= 128, 4),
                if sectors.Some? then PlacesChecks(d, s2, w, sectors.value) else []);
    if sectors.Some? {
      PhasesDetect(d, m.(disk := s2), p, p + 1, p + 2, 4 * cc % 0x1_0000_0000, sectors.value, w);
    }
  }

  // ----- the whole test

  /** The drive before cycle cc, if the cycles before went through. */
  function DiskBefore<S>(d: Drive<S>, s: S, cc: nat): S
    requires cc > 0
  {
    if cc == 1 then s else AfterCycle(d, DiskBefore(d, s, cc - 1), CycleScript(cc - 1))
  }

  /** The code of cycle cc. */
  ghost function CodeOf<S>(d: Drive<S>, s: S, cc: nat): nat
    requires cc > 0
  {
    FirstFailing(CycleChecks(d, DiskBefore(d, s, cc), CycleScript(cc)))
  }

  /** No cycle from a to b has a code. */
  ghost predicate Clear<S>(d: Drive<S>, s: S, a: nat, b: nat)
    requires a > 0
  {
    forall c :: a <= c <= b ==> CodeOf(d, s, c) == 0
  }

  lemma ClearFrom<S>(d: Drive<S>, s: S, a: nat, b: nat)
    requires 0 < a <= b
    ensures Clear(d, s, a, b) <==> CodeOf(d, s, a) == 0 && Clear(d, s, a + 1, b)
  {
    if CodeOf(d, s, a) == 0 && Clear(d, s, a + 1, b) {
      forall c | a <= c <= b ensures CodeOf(d, s, c) == 0 {
        assert c > a ==> a + 1 <= c;
      }
    }
  }

  /** The first cycle from a to b that has a code has this one. */
  ghost predicate FirstCode<S>(d: Drive<S>, s: S, a: nat, b: nat, code: nat)
    requires a > 0
  {
    exists c :: a <= c <= b && code == CodeOf(d, s, c) && Clear(d, s, a, c - 1)
  }

  lemma FirstCodeFrom<S>(d: Drive<S>, s: S, a: nat, b: nat, code: nat)
    requires 0 < a <= b && CodeOf(d, s, a) == 0 && FirstCode(d, s, a + 1, b, code)
    ensures FirstCode(d, s, a, b, code)
  {
    var c :| a + 1 <= c <= b && code == CodeOf(d, s, c) && Clear(d, s, a + 1, c - 1);
    ClearFrom(d, s, a, c - 1);
  }

  lemma NextCycleSeed(cc: nat, next: nat)
    requires cc > 0 && next == SeedOf(cc + 1)
    ensures next == Next(Next(Next(Next(SeedOf(cc)))))
  {
  }

  /** Cycle cc, and what is left to do. */
  lemma CycleInTurn<S>(d: Drive<S>, m: Machine<S>, s: S, cc: nat, ncyc: nat) returns (o: Outcome<S>)
    requires 0 < cc <= ncyc && m.disk == DiskBefore(d, s, cc)
    ensures o.code == CodeOf(d, s, cc) && (o.code == 0 ==> o.machine.disk == DiskBefore(d, s, cc + 1))
    ensures Cycles(d, m, SeedOf(cc), cc, ncyc).code
         == if o.code != 0 then o.code else Cycles(d, o.machine, SeedOf(cc + 1), cc + 1, ncyc).code
  {
    o := Cycle(d, m, SeedOf(cc));
    CycleDetects(d, m, cc, CycleScript(cc));
    NextCycleSeed(cc, SeedOf(cc + 1));
    FirstCycle(d, m, SeedOf(cc), cc, ncyc, o, SeedOf(cc + 1));
  }

  lemma {:induction false} CyclesDetect<S>(d: Drive<S>, m: Machine<S>, s: S, cc: nat, ncyc: nat, code: nat)
    requires cc > 0 && m.disk == DiskBefore(d, s, cc) && code == Cycles(d, m, SeedOf(cc), cc, ncyc).code
    ensures code == 0 <==> Clear(d, s, cc, ncyc)
    ensures code != 0 ==> FirstCode(d, s, cc, ncyc, code)
    decreases ncyc + 1 - cc
  {
    if cc <= ncyc {
      var o := CycleInTurn(d, m, s, cc, ncyc);
      ClearFrom(d, s, cc, ncyc);
      if o.code == 0 {
        CyclesDetect(d, o.machine, s, cc + 1, ncyc, code);
        if code != 0 {
          FirstCodeFrom(d, s, cc, ncyc, code);
        }
      } else {
        FirstCodeHere(d, s, cc, ncyc);
      }
    }
  }

  lemma FirstCodeHere<S>(d: Drive<S>, s: S, a: nat, b: nat)
    requires 0 < a <= b
    ensures FirstCode(d, s, a, b, CodeOf(d, s, a))
  {
    assert Clear(d, s, a, a - 1);
  }

  /**
   The result of the whole test on any drive, working or not: 0 exactly when every check of
   every cycle went through, and otherwise the code of the first check that did not, in the
   first such cycle.
   */
  lemma TestDetects<S>(d: Drive<S>, m: Machine<S>, ncyc: nat)
    ensures var code := Cycles(d, m, 1, 1, ncyc).code;
            && (code == 0 <==> forall c :: 1 <= c <= ncyc ==> CodeOf(d, m.disk, c) == 0)
            && (code != 0 ==> exists c :: 1 <= c <= ncyc && code == CodeOf(d, m.disk, c)
                                && forall b :: 1 <= b < c ==> CodeOf(d, m.disk, b) == 0)
  {
    var code := Cycles(d, m, 1, 1, ncyc).code;
    CyclesDetect(d, m, m.disk, 1, ncyc, code);
    if code != 0 {
      var c :| 1 <= c <= ncyc && code == CodeOf(d, m.disk, c) && Clear(d, m.disk, 1, c - 1);
      assert forall b :: 1 <= b < c ==> CodeOf(d, m.disk, b) == 0;
    }
  }

  lemma BothCoded(a: seq<Check>, b: seq<Check>)
    requires Coded(a) && Coded(b)
    ensures Coded(a + b)
  {
  }

  lemma PlacesCoded<S>(d: Drive<S>, s: S, w: Script, sectors: nat)
    ensures Coded(PlacesChecks(d, s, w, sectors))
  {
    var s1 := AfterPlace(d, s, 0, 1, w.single);
    var s2 := AfterPlace(d, s1, 5, 4, w.multiple);
    var s3 := AfterPlace(d, s2, 5, 1, w.unaligned);
    var y := PlaceChecks(d, s1, 5, 4, w.multiple, 11, 14);
    var z := PlaceChecks(d, s2, 5, 1, w.unaligned, 15, 18);
    var last := if sectors >= 1048704 then BarrierChecks(d, s3, w) else [];
    BothCoded(z, last);
    BothCoded(y, z + last);
    BothCoded(PlaceChecks(d, s, 0, 1, w.single, 6, 10), y + (z + last));
  }

  lemma CycleCoded<S>(d: Drive<S>, s: S, w: Script)
    ensures Coded(CycleChecks(d, s, w))
  {
    var s1 := d.initialize(s).0;
    var (s2, sectors) := d.sectorCount(s1);
    if sectors.Some? {
      PlacesCoded(d, s2, w, sectors.value);
    }
  }

  /** The code of a cycle is 0 exactly when all its checks went through. */
  lemma CodeOfNone<S>(d: Drive<S>, s: S, cc: nat, checks: seq<Check>)
    requires cc > 0 && checks == CycleChecks(d, DiskBefore(d, s, cc), CycleScript(cc))
    ensures CodeOf(d, s, cc) == 0 <==> forall i :: 0 <= i < |checks| ==> checks[i].ok
  {
    CycleCoded(d, DiskBefore(d, s, cc), CycleScript(cc));
    NoneFailing(checks);
  }

  lemma MovedOnDiffers(n: nat, k: nat, x: Word)
    requires x != 0 && n == 8192
    ensures Noise(n, k, x) != Noise(n, n + 1 + k, x)
  {
    var y := Run(k, x);
    RunKeepsNonZero(k, x);
    StreamIsNoise(n, k, x);
    StreamIsNoise(n, n + 1 + k, x);
    IterAdds(Words(), n + 1, k, x);
    StreamTellsWord(n, y, Run(n + 1, y));
    ReturnsExactly(n + 1, y);
  }

  /** What the last place compares is what it wrote, except in every 2^30-th cycle. */
  lemma LastPlaceCompares(cc: nat)
    requires cc > 0
    ensures var w := CycleScript(cc);
            w.low + w.high == w.lowBack + w.highBack <==> cc % 0x4000_0000 != 0
  {
    var p4 := 4 * cc % 0x1_0000_0000;
    FourTimes(cc);
    var w, written, expected := CycleScript(cc), BarrierWritten(p4), BarrierExpected(p4);
    assert w.low + w.high == written && w.lowBack + w.highBack == expected;
    if p4 == 0 {
      OfNatIsZero(LAST_SEED);
      MovedOnDiffers(8192, 4130, OfNat(LAST_SEED));
    }
  }

  lemma FourTimes(cc: nat)
    ensures 4 * cc % 0x1_0000_0000 == 0 <==> cc % 0x4000_0000 == 0
  {
    var q, r := cc / 0x4000_0000, cc % 0x4000_0000;
    WrapsAt(4 * cc, q, 4 * r);
  }
}
