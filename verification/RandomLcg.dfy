/**
 The random numbers of the network example: a 32-bit linear congruential generator whose
 state runs through all 2^32 values, and whose 15-bit outputs are equally frequent.
 */
module RandomLcg {
  import opened Prelude

  const MULTIPLIER: nat := 0x015a4e35
  const INCREMENT: nat := 1
  const STATES: nat := 0x1_0000_0000

  /** One update of ulNextRand. */
  function Step(x: nat): nat { (MULTIPLIER * x + INCREMENT) % STATES }

  /** The 15 bits handed out. */
  function Output(x: nat): nat { x / 0x10000 % 0x8000 }

  /** The update in numbers: multiply, add one, and take away what does not fit 32 bits. */
  lemma StepInNumbers(x: nat) returns (carry: nat)
    ensures Step(x) < 0x1_0000_0000 && Step(x) + carry * 0x1_0000_0000 == 22695477 * x + 1
  {
    carry := (22695477 * x + 1) / 0x1_0000_0000;
  }

  /** What is handed out are the bits from 16 to 30: sixteen are below, and one is above. */
  lemma OutputInBits(x: nat) returns (top: nat, low: nat)
    requires x < 0x1_0000_0000
    ensures top < 2 && Output(x) < 0x8000 && low < 0x1_0000
    ensures x == 0x8000_0000 * top + 0x1_0000 * Output(x) + low
  {
    top, low := x / 0x8000_0000, x % 0x1_0000;
  }

  class Generator {
    var ulNextRand: nat

    constructor (seed: nat)
      ensures ulNextRand == seed
    {
      ulNextRand := seed;
    }

    method UxRand() returns (r: nat)
      modifies this
      ensures ulNextRand == Step(old(ulNextRand)) && r == Output(ulNextRand)
    {
      ulNextRand := (MULTIPLIER * ulNextRand + INCREMENT) % STATES;
      r := ulNextRand / 0x10000 % 0x8000;
    }
  }

  /** The state after n calls. */
  function After(n: nat, seed: nat): nat {
    if n == 0 then seed else Step(After(n - 1, seed))
  }

  // ----- divisibility by powers of two

  predicate Pow2Divides(k: nat, x: nat) {
    k == 0 || (x % 2 == 0 && Pow2Divides(k - 1, x / 2))
  }

  function Pow2(k: nat): (p: nat)
    ensures p > 0
  {
    if k == 0 then 1 else 2 * Pow2(k - 1)
  }

  lemma HalfModulo(x: nat, d: nat)
    requires d > 0
    ensures x % (2 * d) == 0 <==> x % 2 == 0 && (x / 2) % d == 0
  {
    var q, r := x / (2 * d), x % (2 * d);
    assert x == (2 * d) * q + r;
    if r == 0 {
      assert x == 2 * (d * q);
      Multiple(d, q);
    }
    if x % 2 == 0 && (x / 2) % d == 0 {
      var h := x / 2 / d;
      assert x / 2 == d * h;
      assert x == (2 * d) * h;
      Multiple(2 * d, h);
    }
  }

  lemma {:induction false} Pow2DividesIsModulo(k: nat, x: nat)
    ensures Pow2Divides(k, x) <==> x % Pow2(k) == 0
  {
    if k > 0 {
      Pow2DividesIsModulo(k - 1, x / 2);
      HalfModulo(x, Pow2(k - 1));
    }
  }

  lemma HalfOfProduct(x: nat, q: nat, y: nat, xq: nat)
    requires q % 2 == 1 && xq == x * q && y == x / 2
    ensures xq % 2 == x % 2 && (x % 2 == 0 ==> xq / 2 == y * q)
  {
    var r := q / 2;
    assert x * q == 2 * (x * r) + x by {
      assert q == 2 * r + 1;
    }
    if x % 2 == 0 {
      assert x * q == 2 * (y * q) by {
        assert x == 2 * y;
      }
    }
  }

  /** An odd factor contributes no power of two. */
  lemma {:induction false} OddFactor(k: nat, x: nat, q: nat, xq: nat)
    requires q % 2 == 1 && xq == x * q
    ensures Pow2Divides(k, xq) <==> Pow2Divides(k, x)
  {
    if k > 0 {
      var y, yq := x / 2, xq / 2;
      HalfOfProduct(x, q, y, xq);
      if x % 2 == 0 {
        OddFactor(k - 1, y, q, yq);
      }
    }
  }

  // ----- the geometric sum 1 + a + ... + a^(n-1)

  function Sum(n: nat): nat {
    if n == 0 then 0 else MULTIPLIER * Sum(n - 1) + 1
  }

  lemma SplitStep(s: nat, t: nat, st: nat)
    requires st == s + t + (MULTIPLIER - 1) * (s * t)
    ensures MULTIPLIER * st + 1 == s + (MULTIPLIER * t + 1) + (MULTIPLIER - 1) * (s * (MULTIPLIER * t + 1))
  {
    var u := s * t;
    assert s * (MULTIPLIER * t + 1) == MULTIPLIER * u + s;
  }

  lemma {:induction false} SumSplits(m: nat, n: nat)
    ensures Sum(m + n) == Sum(m) + Sum(n) + (MULTIPLIER - 1) * (Sum(m) * Sum(n))
  {
    if n > 0 {
      SumSplits(m, n - 1);
      var s, t := Sum(m), Sum(n - 1);
      SplitStep(s, t, Sum(m + (n - 1)));
    }
  }

  lemma ParityStep(t: nat, u: nat, n: nat)
    requires u == MULTIPLIER * t + 1 && n > 0 && t % 2 == (n - 1) % 2
    ensures u % 2 == n % 2
  {
    var w, a, p := HALF * t, t / 2, t % 2;
    if p == 0 {
      HalvesForm(u, w + a, 1);
      HalvesForm(n, (n - 1) / 2, 1);
    } else {
      HalvesForm(u, w + a + 1, 0);
      HalvesForm(n, (n - 1) / 2 + 1, 0);
    }
  }

  lemma HalvesForm(x: nat, w: nat, p: nat)
    requires x == 2 * w + p && p < 2
    ensures x % 2 == p
  {
  }

  lemma {:induction false} SumParity(n: nat)
    ensures Sum(n) % 2 == n % 2
  {
    if n > 0 {
      SumParity(n - 1);
      ParityStep(Sum(n - 1), Sum(n), n);
    }
  }

  /** A quarter and a half of MULTIPLIER - 1, which is divisible by four. */
  const QUARTER: nat := 5673869
  const HALF: nat := 2 * QUARTER

  function OddPart(s: nat): (q: nat)
    ensures q % 2 == 1
  {
    HalvesForm(1 + HALF * s, QUARTER * s, 1);
    1 + HALF * s
  }

  lemma SumDoubles(h: nat)
    ensures Sum(2 * h) == 2 * (Sum(h) * OddPart(Sum(h)))
  {
    SumSplits(h, h);
    var s := Sum(h);
    assert s * (1 + HALF * s) == s + HALF * (s * s) by {
      assert s * (HALF * s) == HALF * (s * s);
    }
    assert 2 * (HALF * (s * s)) == (MULTIPLIER - 1) * (s * s);
  }

  /** So the sum has exactly as many factors of two as its number of terms. */
  lemma {:induction false} SumValuation(k: nat, n: nat)
    ensures Pow2Divides(k, Sum(n)) <==> Pow2Divides(k, n)
  {
    SumParity(n);
    if k > 0 && n % 2 == 0 {
      var h := n / 2;
      SumDoubles(h);
      var n2 := Sum(h) * OddPart(Sum(h));
      OddFactor(k - 1, Sum(h), OddPart(Sum(h)), n2);
      SumValuation(k - 1, h);
    }
  }

  // ----- the period

  lemma StepModulo(y: nat)
    ensures Step(y % STATES) == (MULTIPLIER * y + INCREMENT) % STATES
  {
    var q, r := y / STATES, y % STATES;
    WholePeriods(MULTIPLIER * r + INCREMENT, MULTIPLIER * q, MULTIPLIER * y + INCREMENT);
  }

  lemma WholePeriods(x: nat, k: nat, z: nat)
    requires z == x + STATES * k
    ensures z % STATES == x % STATES
  {
  }

  function Drift(seed: nat): nat { (MULTIPLIER - 1) * seed + 1 }

  lemma DriftStep(seed: nat, s: nat, d: nat)
    requires d == Drift(seed)
    ensures MULTIPLIER * (seed + s * d) + INCREMENT == seed + (MULTIPLIER * s + 1) * d
  {
    var sd := s * d;
    assert (MULTIPLIER * s + 1) * d == MULTIPLIER * sd + d;
  }

  /** The closed form of the iteration. */
  lemma {:induction false} AfterClosed(n: nat, seed: nat)
    requires seed < STATES
    ensures After(n, seed) == (seed + Sum(n) * Drift(seed)) % STATES
  {
    if n > 0 {
      AfterClosed(n - 1, seed);
      StepModulo(seed + Sum(n - 1) * Drift(seed));
      DriftStep(seed, Sum(n - 1), Drift(seed));
    }
  }

  lemma ReturnsWhenMultiple(seed: nat, t: nat)
    requires seed < STATES
    ensures (seed + t) % STATES == seed <==> t % STATES == 0
  {
  }

  lemma Pow2Of32()
    ensures Pow2(32) == STATES
  {
    assert Pow2(8) == 256;
    assert Pow2(16) == 65536;
    assert Pow2(24) == 0x100_0000;
  }

  lemma DriftIsOdd(seed: nat)
    ensures Drift(seed) % 2 == 1
  {
    HalvesForm(Drift(seed), HALF * seed, 1);
  }

  /** From any seed, the state comes back exactly after multiples of 2^32 calls. */
  lemma ReturnsExactlyAfterPeriod(n: nat, seed: nat)
    requires seed < STATES
    ensures After(n, seed) == seed <==> n % STATES == 0
  {
    AfterClosed(n, seed);
    ReturnsWhenMultiple(seed, Sum(n) * Drift(seed));
    Pow2Of32();
    DriftIsOdd(seed);
    Pow2DividesIsModulo(32, Sum(n) * Drift(seed));
    OddFactor(32, Sum(n), Drift(seed), Sum(n) * Drift(seed));
    SumValuation(32, n);
    Pow2DividesIsModulo(32, n);
  }

  lemma {:induction false} AfterAdds(m: nat, n: nat, seed: nat)
    ensures After(m + n, seed) == After(m, After(n, seed))
  {
    if m > 0 {
      AfterAdds(m - 1, n, seed);
    }
  }

  lemma AfterInRange(n: nat, seed: nat)
    requires seed < STATES
    ensures After(n, seed) < STATES
  {
  }

  /** Within one period no state repeats. */
  lemma AfterDistinct(i: nat, j: nat, seed: nat)
    requires seed < STATES && i < j < STATES
    ensures After(i, seed) != After(j, seed)
  {
    AfterAdds(j - i, i, seed);
    AfterInRange(i, seed);
    ReturnsExactlyAfterPeriod(j - i, After(i, seed));
  }

  lemma AfterInjective(i: nat, j: nat, seed: nat)
    requires seed < STATES && i < STATES && j < STATES && After(i, seed) == After(j, seed)
    ensures i == j
  {
    if i < j {
      AfterDistinct(i, j, seed);
    } else if j < i {
      AfterDistinct(j, i, seed);
    }
  }

  /** The states met in a set of calls. */
  ghost function Met(calls: set<nat>, seed: nat): set<nat> { Mapped(calls, i => After(i, seed)) }

  lemma MetSize(calls: set<nat>, seed: nat)
    requires seed < STATES && forall i :: i in calls ==> i < STATES
    ensures |Met(calls, seed)| == |calls|
  {
    forall i, j | i in calls && j in calls && After(i, seed) == After(j, seed) ensures i == j {
      AfterInjective(i, j, seed);
    }
    MappedSize(calls, i => After(i, seed));
  }

  /** Full period: from any seed, 2^32 calls visit every 32-bit state. */
  lemma VisitsEveryState(seed: nat, x: nat) returns (i: nat)
    requires seed < STATES && x < STATES
    ensures i < STATES && After(i, seed) == x
  {
    var all := Interval(STATES);
    MetSize(all, seed);
    forall y | y in Met(all, seed) ensures y in all {
      var j :| j in all && After(j, seed) == y;
      AfterInRange(j, seed);
    }
    SameSizeSubset(Met(all, seed), all);
    assert x in Met(all, seed);
    i :| i in all && After(i, seed) == x;
  }

  // ----- how often each output occurs

  predicate Returns(i: nat, seed: nat, v: nat) { Output(After(i + 1, seed)) == v }

  /** The calls of one period, by index, that return v. */
  ghost function CallsReturning(v: nat, seed: nat): set<nat> {
    set i: nat | 0 <= i < STATES && Returns(i, seed, v)
  }

  ghost function StatesReturning(v: nat): set<nat> { set x: nat | 0 <= x < STATES && Output(x) == v }

  predicate InBlock(a: nat, n: nat, x: nat) { a <= x < a + n }

  ghost function BlockOf(a: nat, n: nat): set<nat> { set x: nat | a <= x < a + n && InBlock(a, n, x) }

  lemma {:induction false} BlockSize(a: nat, n: nat)
    ensures |BlockOf(a, n)| == n
  {
    if n > 0 {
      BlockSize(a, n - 1);
      forall x: nat ensures x in BlockOf(a, n) <==> x in BlockOf(a, n - 1) + {a + n - 1} {
        assert InBlock(a, n, x) <==> InBlock(a, n - 1, x) || x == a + n - 1;
      }
      assert BlockOf(a, n) == BlockOf(a, n - 1) + {a + n - 1};
    } else {
      assert BlockOf(a, n) == {};
    }
  }

  lemma OutputForm(x: nat, v: nat)
    requires x < STATES && v < 0x8000
    ensures Output(x) == v <==>
              InBlock(v * 0x10000, 0x10000, x) || InBlock(0x8000_0000 + v * 0x10000, 0x10000, x)
  {
  }

  /** Two blocks of 2^16 states share each 15-bit output. */
  lemma StatesReturningSize(v: nat)
    requires v < 0x8000
    ensures |StatesReturning(v)| == 0x2_0000
  {
    var a := v * 0x10000;
    var low, high := BlockOf(a, 0x10000), BlockOf(0x8000_0000 + a, 0x10000);
    BlockSize(a, 0x10000);
    BlockSize(0x8000_0000 + a, 0x10000);
    forall x: nat ensures x in StatesReturning(v) <==> x in low + high {
      if x < STATES { OutputForm(x, v); }
    }
    assert StatesReturning(v) == low + high && low !! high;
  }

  /** Over one period, each 15-bit output occurs exactly 2^17 times, whatever the seed. */
  lemma OutputsEquallyFrequent(v: nat, seed: nat)
    requires seed < STATES && v < 0x8000
    ensures |CallsReturning(v, seed)| == 0x2_0000
  {
    var calls := CallsReturning(v, seed);
    var start := After(1, seed);
    AfterInRange(1, seed);
    forall i: nat ensures After(i + 1, seed) == After(i, start) {
      AfterAdds(i, 1, seed);
    }
    MetSize(calls, start);
    forall x: nat ensures x in Met(calls, start) <==> x in StatesReturning(v) {
      if x in Met(calls, start) {
        var i :| i in calls && After(i, start) == x;
        AfterInRange(i, start);
      }
      if x in StatesReturning(v) {
        var i := VisitsEveryState(start, x);
        assert Returns(i, seed, v) && i in calls;
      }
    }
    assert Met(calls, start) == StatesReturning(v);
    StatesReturningSize(v);
  }
}
