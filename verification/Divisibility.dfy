/**
 Divisors of 2^32 - 1 = 3 * 5 * 17 * 257 * 65537, the number of non-zero words.
 */
module Divisibility {
  import opened Prelude

  const MERSENNE: nat := 0xFFFF_FFFF

  ghost predicate Prime(p: nat) { p > 1 && forall r :: 1 < r < p ==> p % r != 0 }

  /** A property of four, sixteen and sixty-four numbers from k on. */
  predicate Four(p: nat -> bool, k: nat) { p(k) && p(k + 1) && p(k + 2) && p(k + 3) }
  predicate Sixteen(p: nat -> bool, k: nat) { Four(p, k) && Four(p, k + 4) && Four(p, k + 8) && Four(p, k + 12) }
  predicate SixtyFour(p: nat -> bool, k: nat) {
    Sixteen(p, k) && Sixteen(p, k + 16) && Sixteen(p, k + 32) && Sixteen(p, k + 48)
  }

  lemma FourAt(p: nat -> bool, k: nat, r: nat)
    requires k <= r < k + 4 && Four(p, k)
    ensures p(r)
  {
  }

  lemma SixteenAt(p: nat -> bool, k: nat, r: nat)
    requires k <= r < k + 16 && Sixteen(p, k)
    ensures p(r)
  {
    FourAt(p, if r < k + 4 then k else if r < k + 8 then k + 4 else if r < k + 12 then k + 8 else k + 12, r);
  }

  lemma SixtyFourAt(p: nat -> bool, k: nat, r: nat)
    requires k <= r < k + 64 && SixtyFour(p, k)
    ensures p(r)
  {
    SixteenAt(p, if r < k + 16 then k else if r < k + 32 then k + 16 else if r < k + 48 then k + 32 else k + 48, r);
  }

  /** Trial division up to the square root suffices. */
  lemma TrialSuffices(p: nat, k: nat)
    requires p > 1 && p < (k + 1) * (k + 1)
    requires forall r :: 1 < r <= k ==> p % r != 0
    ensures Prime(p)
  {
    forall r | 1 < r < p ensures p % r != 0 {
      if r > k && p % r == 0 {
        Cofactor(p, r, p / r, k);
      }
    }
  }

  lemma Cofactor(p: nat, r: nat, q: nat, k: nat)
    requires k < r < p == r * q < (k + 1) * (k + 1)
    ensures 1 < q <= k && p % q == 0
  {
    if q > k {
      Grows(k + 1, r, q);
    } else {
      Multiple(q, r);
    }
  }

  lemma Grows(k: nat, r: nat, q: nat)
    requires r >= k && q >= k
    ensures r * q >= k * k
  {
  }

  lemma FactorsArePrime()
    ensures Prime(3) && Prime(5) && Prime(17) && Prime(257) && Prime(65537)
  {
    TrialSuffices(257, 16);
    forall r | 1 < r <= 256 ensures 65537 % r != 0 {
      MissesAt(r);
    }
    TrialSuffices(65537, 256);
  }

  predicate Misses(r: nat) { r == 0 || 65537 % r != 0 }

  lemma MissesTo66()
    ensures Sixteen(Misses, 2) && Sixteen(Misses, 18) && Sixteen(Misses, 34) && Sixteen(Misses, 50)
  {
  }

  lemma MissesTo130()
    ensures SixtyFour(Misses, 66)
  {
  }

  lemma MissesTo194()
    ensures SixtyFour(Misses, 130)
  {
  }

  lemma MissesTo258()
    ensures SixtyFour(Misses, 194)
  {
  }

  lemma MissesAt(r: nat)
    requires 1 < r <= 256
    ensures Misses(r)
  {
    MissesTo66();
    MissesTo130();
    MissesTo194();
    MissesTo258();
    SixtyFourAt(Misses, if r < 66 then 2 else if r < 130 then 66 else if r < 194 then 130 else 194, r);
  }

  lemma {:induction false} EuclidReduced(p: nat, r: nat, b: nat, c: int)
    requires Prime(p) && 0 < r < p && c >= 0 && r * b == p * c
    ensures b % p == 0
    decreases r
  {
    if r == 1 {
      Multiple(p, c);
      assert b == c * p;
    } else {
      var q, s := p / r, p % r;
      calc {
        s * b;
        (p - q * r) * b;
        p * b - q * (r * b);
        p * b - q * (p * c);
        p * (b - q * c);
      }
      EuclidReduced(p, s, b, b - q * c);
    }
  }

  /** A prime that divides a product divides a factor. */
  lemma Euclid(p: nat, a: nat, b: nat, c: nat)
    requires Prime(p) && a * b == p * c
    ensures a % p == 0 || b % p == 0
  {
    var q, r := a / p, a % p;
    if r != 0 {
      calc {
        r * b;
        (a - p * q) * b;
        a * b - p * (q * b);
        p * (c - q * b);
      }
      EuclidReduced(p, r, b, c - q * b);
    }
  }

  /** A cofactor of a proper divisor has one of the five prime factors. */
  lemma ProperDivisor(g: nat, k: nat) returns (p: nat, c: nat)
    requires g * k == MERSENNE && k != 1
    ensures p in {3, 5, 17, 257, 65537} && k == p * c
  {
    FactorsArePrime();
    var g1 := Strip(3, k, g, 0x5555_5555);
    if k % 3 == 0 { return 3, k / 3; }
    var g2 := Strip(5, k, g1, 0x1111_1111);
    if k % 5 == 0 { return 5, k / 5; }
    var g3 := Strip(17, k, g2, 0x0101_0101);
    if k % 17 == 0 { return 17, k / 17; }
    var g4 := Strip(257, k, g3, 0x1_0001);
    if k % 257 == 0 { return 257, k / 257; }
    var g5 := Strip(65537, k, g4, 1);
    if k % 65537 == 0 { return 65537, k / 65537; }
    Unit(k, g5);
  }

  /** A prime that does not divide k comes out of the other factor. */
  lemma Strip(p: nat, k: nat, g: nat, n: nat) returns (h: nat)
    requires Prime(p) && k * g == p * n
    ensures k % p != 0 ==> k * h == n
  {
    Euclid(p, k, g, n);
    h := g / p;
    if k % p != 0 {
      assert g == p * h;
      assert p * (k * h) == p * n;
      NoMultipleBetween(p, k * h - n);
    }
  }

  lemma Unit(k: nat, g: nat)
    requires k * g == 1
    ensures k == 1
  {
    if k > 1 && g > 0 {
      Grows(2, k, g + 1);
    }
  }
}
