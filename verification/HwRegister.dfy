/**
 Atomic and masked writes to a hardware register through its aliases, by any number of
 cores: setting, clearing or flipping bits is one access, a masked write reads the register
 and later writes the bits to flip, and between its two accesses any other core may step. A
 word is represented by the set of its one bits, so that and, or and exclusive or are
 intersection, union and symmetric difference.
 */
module HwRegister {

  type Bits = set<nat>

  function Xor(a: Bits, b: Bits): Bits { (a - b) + (b - a) }

  class Register {
    var value: Bits

    constructor (v: Bits)
      ensures value == v
    {
      value := v;
    }

    method SetBits(mask: Bits)
      modifies this
      ensures value * mask == mask && value - mask == old(value) - mask
    {
      value := value + mask;
    }

    method ClearBits(mask: Bits)
      modifies this
      ensures value !! mask && value - mask == old(value) - mask
    {
      value := value - mask;
    }

    method XorBits(mask: Bits)
      modifies this
      ensures value * mask == mask - old(value) && value - mask == old(value) - mask
    {
      value := Xor(value, mask);
    }

    /** Undisturbed, the masked bits take the new values and the others keep theirs. */
    method WriteMasked(values: Bits, writeMask: Bits)
      modifies this
      ensures value * writeMask == values * writeMask && value - writeMask == old(value) - writeMask
    {
      ghost var before := value;
      var flips := Xor(value, values) * writeMask;
      XorBits(flips);
      FlippedWithin(before, value, values, writeMask);
    }
  }

  lemma FlippedWithin(before: Bits, after: Bits, values: Bits, m: Bits)
    requires var flips := Xor(before, values) * m; after * flips == flips - before && after - flips == before - flips
    ensures after * m == values * m && after - m == before - m
  {
    var flips := Xor(before, values) * m;
    forall k ensures k in after <==> if k in m then k in values else k in before {
      if k in flips {
        assert k in after <==> k in after * flips;
      } else {
        assert k in after <==> k in after - flips;
        assert k in before <==> k in before - flips;
      }
    }
  }

  // ----- the step system

  /** What a core wants done to the bits of its mask. */
  datatype Job = Masked(values: Bits, mask: Bits) | Set(mask: Bits) | Clear(mask: Bits) | Flip(mask: Bits)

  datatype Phase = Start | Loaded(seen: Bits) | Done

  datatype Core = Core(job: Job, phase: Phase)

  datatype System = System(value: Bits, cores: seq<Core>)

  predicate Enabled(s: System, i: nat) { i < |s.cores| && !s.cores[i].phase.Done? }

  /** The register after the writing access of a job; only a masked write uses what it saw before. */
  function Act(job: Job, seen: Bits, value: Bits): Bits {
    match job
    case Masked(values, mask) => Xor(value, Xor(seen, values) * mask)
    case Set(mask) => value + mask
    case Clear(mask) => value - mask
    case Flip(mask) => Xor(value, mask)
  }

  /** Core i's next access. */
  function Next(s: System, i: nat): System
    requires Enabled(s, i)
  {
    var c := s.cores[i];
    if c.job.Masked? && c.phase.Start? then System(s.value, s.cores[i := c.(phase := Loaded(s.value))])
    else
      var seen := if c.phase.Loaded? then c.phase.seen else {};
      System(Act(c.job, seen, s.value), s.cores[i := c.(phase := Done)])
  }

  predicate Runs(s: System, steps: seq<nat>)
    decreases |steps|
  {
    steps == [] || (Enabled(s, steps[0]) && Runs(Next(s, steps[0]), steps[1..]))
  }

  function Final(s: System, steps: seq<nat>): System
    requires Runs(s, steps)
    decreases |steps|
  {
    if steps == [] then s else Final(Next(s, steps[0]), steps[1..])
  }

  function Initial(value: Bits, jobs: seq<Job>): System {
    System(value, seq(|jobs|, i requires 0 <= i < |jobs| => Core(jobs[i], Start)))
  }

  /** What a job promises for the bits of its mask. */
  function Target(job: Job, start: Bits): Bits {
    match job
    case Masked(values, mask) => values * mask
    case Set(mask) => mask
    case Clear(mask) => {}
    case Flip(mask) => mask - start
  }

  predicate Agree(a: Job, b: Job) {
    a.mask !! b.mask || (a.Set? && b.Set?) || (a.Clear? && b.Clear?)
  }

  /** Different bits, or the same atomic set or clear. */
  predicate Compatible(jobs: seq<Job>) { forall i, j :: 0 <= i < j < |jobs| ==> Agree(jobs[i], jobs[j]) }

  /** Bits that some core writes. */
  ghost function Written(jobs: seq<Job>): Bits { set i, k | 0 <= i < |jobs| && k in jobs[i].mask :: k }

  // ----- compatible jobs

  ghost predicate CoreOk(s: System, start: Bits, jobs: seq<Job>, i: nat)
    requires i < |s.cores| == |jobs|
  {
    var c := s.cores[i];
    && c.job == jobs[i]
    && match c.phase
       case Start => c.job.Masked? || c.job.Flip? ==> s.value * c.job.mask == start * c.job.mask
       case Loaded(seen) =>
         && c.job.Masked?
         && s.value * c.job.mask == start * c.job.mask && seen * c.job.mask == start * c.job.mask
       case Done => s.value * c.job.mask == Target(c.job, start)
  }

  ghost predicate Sound(s: System, start: Bits, jobs: seq<Job>) {
    && |s.cores| == |jobs|
    && (forall i :: 0 <= i < |jobs| ==> CoreOk(s, start, jobs, i))
    && s.value - Written(jobs) == start - Written(jobs)
  }

  lemma ActElsewhere(job: Job, seen: Bits, v: Bits, m: Bits)
    requires job.mask !! m
    ensures Act(job, seen, v) * m == v * m
  {
  }

  lemma ActInside(job: Job, seen: Bits, v: Bits, w: Bits)
    requires job.mask <= w
    ensures Act(job, seen, v) - w == v - w
  {
  }

  lemma ActHere(job: Job, seen: Bits, v: Bits, start: Bits)
    requires job.Masked? ==> seen * job.mask == v * job.mask
    requires job.Flip? ==> v * job.mask == start * job.mask
    ensures Act(job, seen, v) * job.mask == Target(job, start)
  {
    forall k ensures k in Act(job, seen, v) * job.mask <==> k in Target(job, start) {
      assert k in job.mask ==> (k in seen <==> k in seen * job.mask) && (k in v <==> k in v * job.mask);
      assert k in job.mask ==> (k in start <==> k in start * job.mask);
    }
  }

  /** Another core's writing access. */
  lemma OthersStay(s: System, t: System, start: Bits, jobs: seq<Job>, i: nat, seen: Bits, j: nat)
    requires Compatible(jobs) && |s.cores| == |t.cores| == |jobs| && i < |jobs| && j < |jobs| && i != j
    requires CoreOk(s, start, jobs, j) && t.value == Act(jobs[i], seen, s.value) && t.cores[j] == s.cores[j]
    ensures CoreOk(t, start, jobs, j)
  {
    assert if i < j then Agree(jobs[i], jobs[j]) else Agree(jobs[j], jobs[i]);
    if jobs[i].mask !! jobs[j].mask {
      ActElsewhere(jobs[i], seen, s.value, jobs[j].mask);
    } else if s.cores[j].phase.Done? {
      SameAtomic(jobs[i], jobs[j], seen, s.value, start);
    }
  }

  lemma SameAtomic(a: Job, b: Job, seen: Bits, v: Bits, start: Bits)
    requires (a.Set? && b.Set?) || (a.Clear? && b.Clear?)
    requires v * b.mask == Target(b, start)
    ensures Act(a, seen, v) * b.mask == Target(b, start)
  {
    forall k ensures k in Act(a, seen, v) * b.mask <==> k in Target(b, start) {
      assert k in v * b.mask <==> k in Target(b, start);
    }
  }

  lemma StepKeepsSound(s: System, start: Bits, jobs: seq<Job>, i: nat)
    requires Compatible(jobs) && Sound(s, start, jobs) && Enabled(s, i)
    ensures Sound(Next(s, i), start, jobs)
  {
    var t, c := Next(s, i), s.cores[i];
    assert CoreOk(s, start, jobs, i);
    var reading := c.job.Masked? && c.phase.Start?;
    var seen := if c.phase.Loaded? then c.phase.seen else {};
    if !reading {
      ActInside(c.job, seen, s.value, Written(jobs));
      ActHere(c.job, seen, s.value, start);
    }
    forall j | 0 <= j < |jobs| ensures CoreOk(t, start, jobs, j) {
      assert CoreOk(s, start, jobs, j);
      if !reading && j != i {
        OthersStay(s, t, start, jobs, i, seen, j);
      }
    }
  }

  lemma InitialSound(start: Bits, jobs: seq<Job>)
    ensures Sound(Initial(start, jobs), start, jobs)
  {
  }

  lemma {:induction false} RunKeepsSound(s: System, start: Bits, jobs: seq<Job>, steps: seq<nat>)
    requires Compatible(jobs) && Sound(s, start, jobs) && Runs(s, steps)
    ensures Sound(Final(s, steps), start, jobs)
    decreases |steps|
  {
    if steps != [] {
      StepKeepsSound(s, start, jobs, steps[0]);
      RunKeepsSound(Next(s, steps[0]), start, jobs, steps[1..]);
    }
  }

  // ----- the outcome

  /** Every core that has finished finds the bits of its mask as its job promises. */
  ghost predicate Served(s: System, start: Bits) {
    forall i :: 0 <= i < |s.cores| && s.cores[i].phase.Done? ==>
      s.value * s.cores[i].job.mask == Target(s.cores[i].job, start)
  }

  ghost predicate AllDone(s: System) { forall i :: 0 <= i < |s.cores| ==> s.cores[i].phase.Done? }

  /** Values that agree on all masks and outside them are the same. */
  lemma AgreeEverywhere(a: Bits, b: Bits, jobs: seq<Job>)
    requires forall i :: 0 <= i < |jobs| ==> a * jobs[i].mask == b * jobs[i].mask
    requires a - Written(jobs) == b - Written(jobs)
    ensures a == b
  {
    forall k ensures k in a <==> k in b {
      if k in Written(jobs) {
        var i :| 0 <= i < |jobs| && k in jobs[i].mask;
        assert k in a * jobs[i].mask <==> k in b * jobs[i].mask;
      } else {
        assert k in a - Written(jobs) <==> k in b - Written(jobs);
      }
    }
  }

  /** Every complete interleaving of compatible jobs, sequential ones included, gives the same register. */
  lemma CompleteRunsAgree(start: Bits, jobs: seq<Job>, steps: seq<nat>, other: seq<nat>)
    requires Compatible(jobs)
    requires Runs(Initial(start, jobs), steps) && AllDone(Final(Initial(start, jobs), steps))
    requires Runs(Initial(start, jobs), other) && AllDone(Final(Initial(start, jobs), other))
    ensures Final(Initial(start, jobs), steps).value == Final(Initial(start, jobs), other).value
    ensures Final(Initial(start, jobs), steps).value - Written(jobs) == start - Written(jobs)
  {
    InitialSound(start, jobs);
    RunKeepsSound(Initial(start, jobs), start, jobs, steps);
    RunKeepsSound(Initial(start, jobs), start, jobs, other);
    var a, b := Final(Initial(start, jobs), steps), Final(Initial(start, jobs), other);
    forall i | 0 <= i < |jobs| ensures a.value * jobs[i].mask == b.value * jobs[i].mask {
      assert CoreOk(a, start, jobs, i) && CoreOk(b, start, jobs, i);
    }
    AgreeEverywhere(a.value, b.value, jobs);
  }

  // ----- one bit of two jobs that are not compatible

  /** Act and Target at a bit k of the mask. */
  predicate ActBit(job: Job, k: nat, seen: bool, bit: bool) {
    match job
    case Masked(values, _) => bit != (seen != (k in values))
    case Set(_) => true
    case Clear(_) => false
    case Flip(_) => !bit
  }

  predicate TargetBit(job: Job, k: nat, start: bool) {
    match job
    case Masked(values, _) => k in values
    case Set(_) => true
    case Clear(_) => false
    case Flip(_) => !start
  }

  lemma ActAtBit(job: Job, seen: Bits, v: Bits, k: nat)
    requires k in job.mask
    ensures k in Act(job, seen, v) <==> ActBit(job, k, k in seen, k in v)
  {
  }

  lemma TargetAtBit(job: Job, start: Bits, v: Bits, k: nat)
    requires k in job.mask && v * job.mask == Target(job, start)
    ensures k in v <==> TargetBit(job, k, k in start)
  {
    assert k in v <==> k in v * job.mask;
  }

  /** If both read before either writes, a masked write last, then from one of two start values a promise is broken. */
  lemma BitSpoiled(a: Job, b: Job, k: nat) returns (start: bool)
    requires !(a.Set? && b.Set?) && !(a.Clear? && b.Clear?) && (a.Masked? ==> b.Masked?)
    ensures var bit := ActBit(b, k, start, ActBit(a, k, start, start));
            bit != TargetBit(a, k, start) || bit != TargetBit(b, k, start)
  {
    if ActBit(b, k, true, ActBit(a, k, true, true)) == TargetBit(a, k, true) == TargetBit(b, k, true) {
      start := false;
    } else {
      start := true;
    }
  }

  lemma {:induction false} RunsThen(s: System, steps: seq<nat>, i: nat)
    requires Runs(s, steps) && Enabled(Final(s, steps), i)
    ensures Runs(s, steps + [i]) && Final(s, steps + [i]) == Next(Final(s, steps), i)
    decreases |steps|
  {
    var longer := steps + [i];
    if steps == [] {
      assert longer[1..] == [];
    } else {
      assert longer[1..] == steps[1..] + [i];
      RunsThen(Next(s, steps[0]), steps[1..], i);
    }
  }

  /** Core i has made all accesses but the writing one. */
  predicate Ready(s: System, i: nat, seen: Bits) {
    i < |s.cores| && s.cores[i].phase == if s.cores[i].job.Masked? then Loaded(seen) else Start
  }

  lemma MakeReady(s: System, steps: seq<nat>, i: nat) returns (longer: seq<nat>)
    requires Runs(s, steps) && i < |Final(s, steps).cores| && Final(s, steps).cores[i].phase.Start?
    ensures Runs(s, longer)
    ensures var x, y := Final(s, steps), Final(s, longer);
            && y.value == x.value && |y.cores| == |x.cores| && Ready(y, i, x.value) && y.cores[i].job == x.cores[i].job
            && forall j :: 0 <= j < |x.cores| && j != i ==> y.cores[j] == x.cores[j]
  {
    longer := steps;
    if Final(s, steps).cores[i].job.Masked? {
      RunsThen(s, steps, i);
      longer := steps + [i];
    }
  }

  lemma Finish(s: System, steps: seq<nat>, i: nat, seen: Bits, k: nat) returns (longer: seq<nat>)
    requires Runs(s, steps) && Ready(Final(s, steps), i, seen) && k in Final(s, steps).cores[i].job.mask
    ensures Runs(s, longer)
    ensures var x, y := Final(s, steps), Final(s, longer);
            && |y.cores| == |x.cores| && y.cores[i].phase.Done? && y.cores[i].job == x.cores[i].job
            && (k in y.value <==> ActBit(x.cores[i].job, k, k in seen, k in x.value))
            && forall j :: 0 <= j < |x.cores| && j != i ==> y.cores[j] == x.cores[j]
  {
    var x := Final(s, steps);
    RunsThen(s, steps, i);
    longer := steps + [i];
    ActAtBit(x.cores[i].job, if x.cores[i].job.Masked? then seen else {}, x.value, k);
  }

  lemma ClashingRun(jobs: seq<Job>, i: nat, j: nat, start: Bits, k: nat) returns (steps: seq<nat>)
    requires i < |jobs| && j < |jobs| && i != j && k in jobs[i].mask && k in jobs[j].mask
    ensures Runs(Initial(start, jobs), steps)
    ensures var x := Final(Initial(start, jobs), steps);
            && |x.cores| == |jobs| && x.cores[i] == Core(jobs[i], Done) && x.cores[j] == Core(jobs[j], Done)
            && (k in x.value <==> ActBit(jobs[j], k, k in start, ActBit(jobs[i], k, k in start, k in start)))
  {
    var s := Initial(start, jobs);
    steps := MakeReady(s, [], i);
    steps := MakeReady(s, steps, j);
    steps := Finish(s, steps, i, start, k);
    steps := Finish(s, steps, j, start, k);
  }

  lemma ClashSpoils(jobs: seq<Job>, i: nat, j: nat)
    requires i < |jobs| && j < |jobs| && i != j && !Agree(jobs[i], jobs[j]) && (jobs[i].Masked? ==> jobs[j].Masked?)
    ensures exists start, steps ::
              Runs(Initial(start, jobs), steps) && !Served(Final(Initial(start, jobs), steps), start)
  {
    var k :| k in jobs[i].mask && k in jobs[j].mask;
    var bit := BitSpoiled(jobs[i], jobs[j], k);
    var start := if bit then {k} else {};
    var steps := ClashingRun(jobs, i, j, start, k);
    var x := Final(Initial(start, jobs), steps);
    if Served(x, start) {
      TargetAtBit(x.cores[i].job, start, x.value, k);
      TargetAtBit(x.cores[j].job, start, x.value, k);
    }
  }

  /**
   Finished cores are always served, for every start value and interleaving, exactly when
   any two jobs touch different bits or are the same atomic set or clear.
   */
  lemma ServedIffCompatible(jobs: seq<Job>)
    ensures (forall start, steps ::
               Runs(Initial(start, jobs), steps) ==> Served(Final(Initial(start, jobs), steps), start))
            <==> Compatible(jobs)
  {
    if Compatible(jobs) {
      forall start, steps | Runs(Initial(start, jobs), steps)
        ensures Served(Final(Initial(start, jobs), steps), start)
      {
        InitialSound(start, jobs);
        RunKeepsSound(Initial(start, jobs), start, jobs, steps);
        SoundServes(Final(Initial(start, jobs), steps), start, jobs);
      }
    } else {
      var i, j :| 0 <= i < j < |jobs| && !Agree(jobs[i], jobs[j]);
      if jobs[i].Masked? {
        ClashSpoils(jobs, j, i);
      } else {
        ClashSpoils(jobs, i, j);
      }
    }
  }

  lemma SoundServes(s: System, start: Bits, jobs: seq<Job>)
    requires Sound(s, start, jobs)
    ensures Served(s, start)
  {
    forall i | 0 <= i < |s.cores| && s.cores[i].phase.Done?
      ensures s.value * s.cores[i].job.mask == Target(s.cores[i].job, start)
    {
      assert CoreOk(s, start, jobs, i);
    }
  }

  /**
   The bits in the end, one by one: when core i of compatible jobs has finished, in whatever
   interleaving, a bit of its mask is the value written, one, zero, or the opposite of what it
   was at the start; and bits in no mask are as at the start.
   */
  lemma FinishedBits(start: Bits, jobs: seq<Job>, steps: seq<nat>, i: nat, k: nat)
    requires Compatible(jobs) && Runs(Initial(start, jobs), steps) && i < |jobs|
    ensures var x := Final(Initial(start, jobs), steps);
            && |x.cores| == |jobs|
            && (k in jobs[i].mask && x.cores[i].phase.Done? ==>
                  match jobs[i]
                  case Masked(values, _) => k in x.value <==> k in values
                  case Set(_) => k in x.value
                  case Clear(_) => k !in x.value
                  case Flip(_) => k in x.value <==> k !in start)
            && ((forall j :: 0 <= j < |jobs| ==> k !in jobs[j].mask) ==> (k in x.value <==> k in start))
  {
    var x := Final(Initial(start, jobs), steps);
    InitialSound(start, jobs);
    RunKeepsSound(Initial(start, jobs), start, jobs, steps);
    assert CoreOk(x, start, jobs, i);
    assert k in x.value - Written(jobs) <==> k in start - Written(jobs);
    if k in jobs[i].mask && x.cores[i].phase.Done? {
      TargetAtBit(jobs[i], start, x.value, k);
    }
  }
}
