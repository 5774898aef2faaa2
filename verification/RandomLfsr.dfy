/**
 The pseudo random numbers of the disk self-test: a 32-bit Galois shift register. Its
 polynomial is primitive: every non-zero word runs through all 2^32 - 1 non-zero words
 before it returns.
 */
module RandomLfsr {
  import opened LinearOperator
  import opened ShiftPowers
  import opened ShiftWords
  import Divisibility
  import Prelude

  const WARM_UP: nat := 33  // steps taken by a seeding call
  const WORDS: nat := 0x1_0000_0000
  const PERIOD: nat := Divisibility.MERSENNE

  /** The register after a call with argument pns: seeded and warmed up, or one step further. */
  function Called(pns: Word, before: Word): Word { if pns != 0 then Run(WARM_UP, pns) else Step(before) }

  lemma NextOfRun(n: nat, x: Word)
    ensures Run(n + 1, x) == Step(Run(n, x))
  {
    StepByMask(Run(n, x));
  }

  class Register {
    var lfsr: Word

    constructor ()
      ensures lfsr == 0
    {
      lfsr := 0;
    }

    /** pn: a non-zero argument seeds and warms up, and every call ends with one step. */
    method Pn(pns: Word) returns (r: Word)
      modifies this
      ensures lfsr == r == Called(pns, old(lfsr))
      decreases pns != 0
    {
      if pns != 0 {
        lfsr := pns;
        var n := 0;
        while n < 32
          invariant n <= 32 && lfsr == Run(n, pns)
        {
          NextOfRun(n, pns);
          r := Pn(0);
          n := n + 1;
        }
        NextOfRun(32, pns);
      }
      if lfsr & 1 == 1 {
        lfsr := lfsr >> 1;
        lfsr := lfsr ^ TAPS;
      } else {
        lfsr := lfsr >> 1;
      }
      r := lfsr;
    }
  }

  // ----- the period

  /** The step backwards: the top bit tells whether the taps were applied. */
  function Unstep(y: Word): Word { if y >> 31 == 1 then ((y ^ TAPS) << 1) | 1 else y << 1 }

  lemma UnstepSet(x: Word)
    requires x & 1 == 1
    ensures Unstep(Step(x)) == x
  {
  }

  lemma UnstepClear(x: Word)
    requires x & 1 != 1
    ensures Unstep(Step(x)) == x
  {
  }

  lemma StepOfSet(y: Word)
    requires y >> 31 == 1
    ensures Step(Unstep(y)) == y
  {
  }

  lemma StepOfClear(y: Word)
    requires y >> 31 != 1
    ensures Step(Unstep(y)) == y
  {
  }

  /** The step is a bijection: it can be undone, and so can its inverse. */
  lemma StepBijective(x: Word)
    ensures Unstep(Step(x)) == x && Step(Unstep(x)) == x
  {
    if x & 1 == 1 { UnstepSet(x); } else { UnstepClear(x); }
    if x >> 31 == 1 { StepOfSet(x); } else { StepOfClear(x); }
  }

  /** A non-zero word never becomes zero. */
  lemma {:induction false} RunKeepsNonZero(n: nat, x: Word)
    requires x != 0
    ensures Run(n, x) != 0
  {
    if n > 0 {
      RunKeepsNonZero(n - 1, x);
      var y := Run(n - 1, x);
      StepByMask(y);
      StepBijective(y);
      assert Unstep(0) == 0;
    }
  }

  lemma InverseByProduct(h: Word, q: Word)
    requires Product(h, q) == ONE
    ensures Mul(Words(), 32, h, q) == ONE
  {
    ProductIsMul(h, q);
  }

  lemma NoShortPeriod(m: nat, n: nat, h: Word, v: Word)
    requires n <= m && Mul(Words(), 32, h, Add(Power(m), Power(n))) == ONE
    requires Run(m - n, v) == v
    ensures v == 0
  {
    WordsLawful();
    IterAdds(Words(), n, m - n, v);
    OnlyZeroMeets(Words(), 32, m, n, h, v);
  }

  lemma NoPeriodWithout65537(v: Word)
    requires Run(0xffff, v) == v
    ensures v == 0
  {
    Squared0();
    Squared16();
    InverseByProduct(0xe9fb_790c, Add(0xfe67_22b7, 0x4000_0000));
    NoShortPeriod(0x10000, 0x1, 0xe9fb_790c, v);
  }

  lemma NoPeriodWithout257(v: Word)
    requires Run(0xff00ff, v) == v
    ensures v == 0
  {
    Power10001();
    Power1000100();
    InverseByProduct(0x1bdb_869c, Add(0x5cc9_7899, 0xff13_9158));
    NoShortPeriod(0x1000100, 0x10001, 0x1bdb_869c, v);
  }

  lemma NoPeriodWithout17(v: Word)
    requires Run(0xf0f0f0f, v) == v
    ensures v == 0
  {
    Power1010101();
    Power10101010();
    InverseByProduct(0x8d03_9d60, Add(0xab2f_cf84, 0x518c_1b99));
    NoShortPeriod(0x10101010, 0x1010101, 0x8d03_9d60, v);
  }

  lemma NoPeriodWithout5(v: Word)
    requires Run(0x33333333, v) == v
    ensures v == 0
  {
    Power11111111();
    Power44444444();
    InverseByProduct(0x8000_0000, Add(0x3b97_ab84, 0xbb97_ab84));
    NoShortPeriod(0x44444444, 0x11111111, 0x8000_0000, v);
  }

  lemma NoPeriodWithout3(v: Word)
    requires Run(0x55555555, v) == v
    ensures v == 0
  {
    Power55555555();
    assert Power(0) == ONE;
    InverseByProduct(0x4134_7f99, Add(0x4134_7f99, 0x8000_0000));
    NoShortPeriod(0x55555555, 0x0, 0x4134_7f99, v);
  }

  lemma NoPeriodWithout(p: nat, c: nat, v: Word)
    requires p in {3, 5, 17, 257, 65537} && p * c == PERIOD && Run(c, v) == v
    ensures v == 0
  {
    if p == 3 {
      assert c == 0x55555555;
      NoPeriodWithout3(v);
    } else if p == 5 {
      assert c == 0x33333333;
      NoPeriodWithout5(v);
    } else if p == 17 {
      assert c == 0xf0f0f0f;
      NoPeriodWithout17(v);
    } else if p == 257 {
      assert c == 0xff00ff;
      NoPeriodWithout257(v);
    } else {
      assert c == 0xffff;
      NoPeriodWithout65537(v);
    }
  }

  /** Squaring x 32 times gives x again, so every word returns after 2^32 - 1 steps. */
  lemma Returns(v: Word)
    ensures Run(PERIOD, v) == v
  {
    Squared0();
    Squared32();
    WordsLawful();
    IterIsMul(Words(), 32, 0x1_0000_0000, v);
    IterIsMul(Words(), 32, 1, v);
    assert Run(1, v) == MaskStep(Run(0, v));
    SameStep(Run(PERIOD, v), v);
  }

  lemma SameStep(a: Word, b: Word)
    requires MaskStep(a) == MaskStep(b)
    ensures a == b
  {
    StepByMask(a);
    StepByMask(b);
    StepBijective(a);
    StepBijective(b);
  }

  /** A common period of n and the whole one that is shorter than the whole one. */
  lemma NoShorterPeriod(g: nat, j: nat, v: Word)
    requires PERIOD == g * j && j != 1 && Run(g, v) == v
    ensures v == 0
  {
    var p, c := Divisibility.ProperDivisor(g, j);
    PeriodMultiple(Words(), g, c, v);
    assert p * (g * c) == g * j;
    NoPeriodWithout(p, g * c, v);
  }

  /** A non-zero word returns after n steps exactly when n is a multiple of 2^32 - 1. */
  lemma ReturnsExactly(n: nat, v: Word)
    requires v != 0
    ensures Run(n, v) == v <==> n % PERIOD == 0
  {
    Returns(v);
    if n % PERIOD == 0 {
      PeriodMultiple(Words(), PERIOD, n / PERIOD, v);
    } else if Run(n, v) == v {
      var g, i, j := CommonPeriod(Words(), n, PERIOD, v);
      if j == 1 {
        Prelude.Multiple(PERIOD, i);
      } else {
        NoShorterPeriod(g, j, v);
      }
    }
  }

  // ----- all non-zero words are met

  function ToNat(a: Word): nat { a as nat }

  function OfNat(n: nat): Word
    requires n < WORDS
  {
    n as Word
  }

  lemma OfNatIsZero(n: nat)
    requires n < WORDS
    ensures OfNat(n) == 0 <==> n == 0
  {
    if 0 < n {
      OfNatNonZero(n);
    }
  }

  lemma OfNatNonZero(n: nat)
    requires 0 < n < WORDS
    ensures n as Word != 0
  {
  }

  lemma ToNatAndBack(a: Word)
    ensures ToNat(a) < WORDS && OfNat(ToNat(a)) == a
  {
  }

  lemma WordCount(s: set<Word>)
    ensures |s| <= WORDS
  {
    var all := Prelude.Interval(WORDS);
    forall a: Word ensures OfNat(ToNat(a)) == a && ToNat(a) in all {
      ToNatAndBack(a);
    }
    Prelude.MappedSize(s, a => ToNat(a));
    Prelude.SubsetSize(Prelude.Mapped(s, a => ToNat(a)), all);
  }

  /** The words of one period are pairwise different. */
  lemma MetOnce(i: nat, j: nat, v: Word)
    requires v != 0 && i < j < PERIOD
    ensures Run(i, v) != Run(j, v)
  {
    IterAdds(Words(), j - i, i, v);
    RunKeepsNonZero(i, v);
    ReturnsExactly(j - i, Run(i, v));
  }

  /** Full period: from any non-zero word, 2^32 - 1 steps meet every non-zero word. */
  lemma VisitsEveryWord(v: Word, w: Word) returns (i: nat)
    requires v != 0 && w != 0
    ensures i < PERIOD && Run(i, v) == w
  {
    var indices := Prelude.Interval(PERIOD);
    var met := Prelude.Mapped(indices, j => Run(j, v));
    forall i, j | i in indices && j in indices && Run(i, v) == Run(j, v) ensures i == j {
      if i < j { MetOnce(i, j, v); } else if j < i { MetOnce(j, i, v); }
    }
    Prelude.MappedSize(indices, j => Run(j, v));
    forall j: nat ensures Run(j, v) != 0 {
      RunKeepsNonZero(j, v);
    }
    if w !in met {
      WordCount(met + {0, w});
    }
    i :| i in indices && Run(i, v) == w;
  }

  // ----- what the bytes tell

  type Byte = bv8

  /** The byte taken from a word. */
  function Low(x: Word): Byte { (x & 0xFF) as Byte }

  lemma LowTellsParity(x: Word, y: Word)
    requires Low(x) == Low(y)
    ensures (x ^ y) & 1 == 0
  {
  }

  lemma {:induction false} RunLinear(n: nat, a: Word, b: Word)
    ensures Run(n, Add(a, b)) == Add(Run(n, a), Run(n, b))
  {
    if n > 0 {
      RunLinear(n - 1, a, b);
      WordLinear(Run(n - 1, a), Run(n - 1, b));
    }
  }

  function Shr(x: Word): Word { x >> 1 }

  function Shr4(x: Word): Word { Shr(Shr(Shr(Shr(x)))) }

  /** The word runs through even words. */
  predicate Quiet(n: nat, x: Word) { Run(n, x) & 1 == 0 }

  lemma EvenStep(x: Word)
    requires x & 1 == 0
    ensures MaskStep(x) == Shr(x)
  {
  }

  lemma FourQuiet(n: nat, x: Word)
    requires Quiet(n, x) && Quiet(n + 1, x) && Quiet(n + 2, x) && Quiet(n + 3, x)
    ensures Run(n + 4, x) == Shr4(Run(n, x))
  {
    EvenStep(Run(n, x));
    EvenStep(Run(n + 1, x));
    EvenStep(Run(n + 2, x));
    EvenStep(Run(n + 3, x));
  }

  function Shr16(x: Word): Word { Shr4(Shr4(Shr4(Shr4(x)))) }

  lemma SixteenQuiet(n: nat, x: Word)
    requires forall k: nat :: n <= k < n + 16 ==> Quiet(k, x)
    ensures Run(n + 16, x) == Shr16(Run(n, x))
  {
    FourQuiet(n, x);
    FourQuiet(n + 4, x);
    FourQuiet(n + 8, x);
    FourQuiet(n + 12, x);
  }

  lemma ShrVanishes(x: Word)
    ensures Shr16(Shr16(x)) == 0
  {
  }

  /** Without an odd word in 32 steps, every bit is shifted out. */
  lemma QuietVanishes(x: Word)
    requires forall n: nat :: n < 32 ==> Quiet(n, x)
    ensures Run(32, x) == 0
  {
    SixteenQuiet(0, x);
    SixteenQuiet(16, x);
    ShrVanishes(x);
  }

  /** A word that runs through 32 even words is zero. */
  lemma OnlyZeroIsQuiet(x: Word)
    requires forall n: nat :: n < 32 ==> Quiet(n, x)
    ensures x == 0
  {
    QuietVanishes(x);
    if x != 0 {
      RunKeepsNonZero(32, x);
    }
  }

  lemma XorIsZero(x: Word, y: Word)
    requires Add(x, y) == 0
    ensures x == y
  {
  }

  /** Equal bytes in 32 consecutive steps come from equal words. */
  lemma BytesTellWords(x: Word, y: Word)
    requires forall n: nat :: n < 32 ==> Low(Run(n, x)) == Low(Run(n, y))
    ensures x == y
  {
    forall n: nat | n < 32 ensures Quiet(n, Add(x, y)) {
      RunLinear(n, x, y);
      LowTellsParity(Run(n, x), Run(n, y));
    }
    OnlyZeroIsQuiet(Add(x, y));
    XorIsZero(x, y);
  }

  /** Bytes read off after the register, started at x, takes one to n steps. */
  function Stream(n: nat, x: Word): (s: seq<Byte>)
    ensures |s| == n
  {
    seq(n, i requires i >= 0 => Low(Run(i + 1, x)))
  }

  /** Streams of at least 32 bytes agree exactly when their words do. */
  lemma StreamTellsWord(n: nat, x: Word, y: Word)
    requires n >= 32
    ensures Stream(n, x) == Stream(n, y) <==> x == y
  {
    if Stream(n, x) == Stream(n, y) {
      forall i: nat | i < 32 ensures Low(Run(i, Run(1, x))) == Low(Run(i, Run(1, y))) {
        IterAdds(Words(), i, 1, x);
        IterAdds(Words(), i, 1, y);
        assert Stream(n, x)[i] == Stream(n, y)[i];
      }
      BytesTellWords(Run(1, x), Run(1, y));
      assert Run(0, x) == x && Run(0, y) == y;
      SameStep(x, y);
    }
  }

  /**
   Asking for the same n bytes again gives them again exactly when the argument is a seed.
   Without one the register moves on, unless it is stuck at zero or the n calls and the next
   one make up whole periods.
   */
  lemma ReplaysExactly(n: nat, pns: Word, x: Word)
    requires n >= 32
    ensures var first := Called(pns, x);
            Stream(n, Called(pns, Run(n, first))) == Stream(n, first)
            <==> pns != 0 || x == 0 || (n + 1) % PERIOD == 0
  {
    if pns == 0 {
      StepByMask(x);
      ReplaysUnseeded(n, x, Run(1, x), Run(n + 1, Run(1, x)));
      NextOfRun(n, Run(1, x));
    }
  }

  lemma ReplaysUnseeded(n: nat, x: Word, first: Word, again: Word)
    requires n >= 32 && first == Run(1, x) && again == Run(n + 1, first)
    ensures Stream(n, again) == Stream(n, first) <==> x == 0 || (n + 1) % PERIOD == 0
  {
    StreamTellsWord(n, again, first);
    if x == 0 {
      RunOfZero(1);
      RunOfZero(n + 1);
    } else {
      RunKeepsNonZero(1, x);
      ReturnsExactly(n + 1, first);
    }
  }

  lemma {:induction false} RunOfZero(n: nat)
    ensures Run(n, 0) == 0
  {
    if n > 0 {
      RunOfZero(n - 1);
      assert MaskStep(0) == 0;
    }
  }
}
