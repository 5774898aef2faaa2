/**
 Words under a linear step, read as polynomials in the step: the coefficients of a word are
 its bits, taken from the top by shifting it out. With the laws of Lawful the polynomials
 multiply like a commutative ring, and n steps are the multiplication by the n-th power.
 */
module LinearOperator {
  datatype Space<!T> = Space(add: (T, T) -> T, zero: T, one: T, step: T -> T, shl: T -> T, top: T -> bool)

  ghost predicate Associates<T>(s: Space<T>, a: T, b: T, c: T) { s.add(s.add(a, b), c) == s.add(a, s.add(b, c)) }

  ghost predicate Commutes<T>(s: Space<T>, a: T, b: T) { s.add(a, b) == s.add(b, a) }

  ghost predicate Cancels<T>(s: Space<T>, a: T) { s.add(a, s.zero) == a && s.add(a, a) == s.zero }

  ghost predicate Linear<T>(s: Space<T>, a: T, b: T) { s.step(s.add(a, b)) == s.add(s.step(a), s.step(b)) }

  ghost predicate Spells<T>(s: Space<T>, a: T) { a == s.add(Pick(s, a, s.one), s.step(s.shl(a))) }

  ghost predicate Lawful<T(!new)>(s: Space<T>, w: nat) {
    && s.step(s.zero) == s.zero
    && (forall a, b, c :: Associates(s, a, b, c))
    && (forall a, b :: Commutes(s, a, b))
    && (forall a :: Cancels(s, a))
    && (forall a, b :: Linear(s, a, b))
    && (forall a :: Spells(s, a))
    && (forall a :: Shifted(s, w, a) == s.zero)
  }

  function Shifted<T>(s: Space<T>, n: nat, u: T): T { if n == 0 then u else Shifted(s, n - 1, s.shl(u)) }

  function Pick<T>(s: Space<T>, u: T, v: T): T { if s.top(u) then v else s.zero }

  function Iter<T>(s: Space<T>, n: nat, x: T): T { if n == 0 then x else s.step(Iter(s, n - 1, x)) }

  function Apply<T>(s: Space<T>, n: nat, u: T, v: T): T
    decreases n
  {
    if n == 0 then s.zero else s.add(Pick(s, u, v), Apply(s, n - 1, s.shl(u), s.step(v)))
  }

  lemma {:induction false} IterAdds<T>(s: Space<T>, m: nat, n: nat, x: T)
    ensures Iter(s, m + n, x) == Iter(s, m, Iter(s, n, x))
  {
    if m > 0 { IterAdds(s, m - 1, n, x); }
  }

  lemma Exchange<T(!new)>(s: Space<T>, w: nat, a: T, b: T, c: T, d: T)
    requires Lawful(s, w)
    ensures s.add(s.add(a, b), s.add(c, d)) == s.add(s.add(a, c), s.add(b, d))
  {
    assert Associates(s, a, b, s.add(c, d)) && Associates(s, b, c, d) && Commutes(s, b, c);
    assert Associates(s, a, c, s.add(b, d)) && Associates(s, c, b, d);
  }

  lemma {:induction false} ApplyLinear<T(!new)>(s: Space<T>, w: nat, n: nat, u: T, a: T, b: T)
    requires Lawful(s, w)
    ensures Apply(s, n, u, s.add(a, b)) == s.add(Apply(s, n, u, a), Apply(s, n, u, b))
  {
    assert Cancels(s, s.zero);
    if n > 0 {
      assert Linear(s, a, b);
      ApplyLinear(s, w, n - 1, s.shl(u), s.step(a), s.step(b));
      Exchange(s, w, Pick(s, u, a), Pick(s, u, b),
               Apply(s, n - 1, s.shl(u), s.step(a)), Apply(s, n - 1, s.shl(u), s.step(b)));
    }
  }

  lemma {:induction false} ApplyZero<T(!new)>(s: Space<T>, w: nat, n: nat, u: T)
    requires Lawful(s, w)
    ensures Apply(s, n, u, s.zero) == s.zero
  {
    if n > 0 {
      assert Cancels(s, s.zero);
      ApplyZero(s, w, n - 1, s.shl(u));
    }
  }

  lemma {:induction false} ApplyStep<T(!new)>(s: Space<T>, w: nat, n: nat, u: T, v: T)
    requires Lawful(s, w)
    ensures Apply(s, n, u, s.step(v)) == s.step(Apply(s, n, u, v))
  {
    if n > 0 {
      assert Linear(s, Pick(s, u, v), Apply(s, n - 1, s.shl(u), s.step(v)));
      ApplyStep(s, w, n - 1, s.shl(u), s.step(v));
    }
  }

  lemma {:induction false} ApplyIter<T(!new)>(s: Space<T>, w: nat, n: nat, u: T, m: nat, v: T)
    requires Lawful(s, w)
    ensures Apply(s, n, u, Iter(s, m, v)) == Iter(s, m, Apply(s, n, u, v))
  {
    if m > 0 {
      ApplyIter(s, w, n, u, m - 1, v);
      ApplyStep(s, w, n, u, Iter(s, m - 1, v));
    }
  }

  lemma {:induction false} ApplyCommutes<T(!new)>(s: Space<T>, w: nat, n: nat, u: T, m: nat, t: T, v: T)
    requires Lawful(s, w)
    ensures Apply(s, n, u, Apply(s, m, t, v)) == Apply(s, m, t, Apply(s, n, u, v))
    decreases m
  {
    ApplyZero(s, w, n, u);
    if m > 0 {
      ApplyCommutes(s, w, n, u, m - 1, s.shl(t), s.step(v));
      ApplyStep(s, w, n, u, v);
      ApplyLinear(s, w, n, u, Pick(s, t, v), Apply(s, m - 1, s.shl(t), s.step(v)));
    }
  }

  lemma {:induction false} ApplyToOne<T(!new)>(s: Space<T>, w: nat, n: nat, u: T)
    requires Lawful(s, w) && Shifted(s, n, u) == s.zero
    ensures Apply(s, n, u, s.one) == u
  {
    if n > 0 {
      ApplyToOne(s, w, n - 1, s.shl(u));
      ApplyStep(s, w, n - 1, s.shl(u), s.one);
      assert Spells(s, u);
    }
  }

  function Mul<T>(s: Space<T>, w: nat, u: T, v: T): T { Apply(s, w, u, v) }

  lemma MulOne<T(!new)>(s: Space<T>, w: nat, u: T)
    requires Lawful(s, w)
    ensures Mul(s, w, u, s.one) == u == Mul(s, w, s.one, u)
  {
    ApplyToOne(s, w, w, u);
    MulCommutes(s, w, u, s.one);
  }

  lemma MulCommutes<T(!new)>(s: Space<T>, w: nat, u: T, v: T)
    requires Lawful(s, w)
    ensures Mul(s, w, u, v) == Mul(s, w, v, u)
  {
    ApplyToOne(s, w, w, u);
    ApplyToOne(s, w, w, v);
    ApplyCommutes(s, w, w, u, w, v, s.one);
  }

  lemma MulAssociates<T(!new)>(s: Space<T>, w: nat, a: T, b: T, c: T)
    requires Lawful(s, w)
    ensures Mul(s, w, Mul(s, w, a, b), c) == Mul(s, w, a, Mul(s, w, b, c))
  {
    MulCommutes(s, w, Mul(s, w, a, b), c);
    ApplyCommutes(s, w, w, c, w, a, b);
    MulCommutes(s, w, c, b);
  }

  lemma IterIsMul<T(!new)>(s: Space<T>, w: nat, n: nat, v: T)
    requires Lawful(s, w)
    ensures Iter(s, n, v) == Mul(s, w, Iter(s, n, s.one), v)
  {
    ApplyToOne(s, w, w, v);
    ApplyIter(s, w, w, v, n, s.one);
    MulCommutes(s, w, v, Iter(s, n, s.one));
  }

  lemma PowerAdds<T(!new)>(s: Space<T>, w: nat, m: nat, n: nat)
    requires Lawful(s, w)
    ensures Iter(s, m + n, s.one) == Mul(s, w, Iter(s, m, s.one), Iter(s, n, s.one))
  {
    IterAdds(s, m, n, s.one);
    IterIsMul(s, w, m, Iter(s, n, s.one));
  }

  /** When the difference of two powers has an inverse h, only zero meets itself again. */
  lemma OnlyZeroMeets<T(!new)>(s: Space<T>, w: nat, m: nat, n: nat, h: T, v: T)
    requires Lawful(s, w)
    requires Mul(s, w, h, s.add(Iter(s, m, s.one), Iter(s, n, s.one))) == s.one
    requires Iter(s, m, v) == Iter(s, n, v)
    ensures v == s.zero
  {
    var a, b := Iter(s, m, s.one), Iter(s, n, s.one);
    var q := s.add(a, b);
    assert Mul(s, w, q, v) == s.zero by {
      MulCommutes(s, w, q, v);
      ApplyLinear(s, w, w, v, a, b);
      MulCommutes(s, w, v, a);
      MulCommutes(s, w, v, b);
      IterIsMul(s, w, m, v);
      IterIsMul(s, w, n, v);
      assert Cancels(s, Iter(s, m, v));
    }
    MulOne(s, w, v);
    MulAssociates(s, w, h, q, v);
    ApplyZero(s, w, w, h);
  }

  // ----- periods

  lemma {:induction false} PeriodMultiple<T>(s: Space<T>, n: nat, k: nat, v: T)
    requires Iter(s, n, v) == v
    ensures Iter(s, n * k, v) == v
  {
    if k > 0 {
      PeriodMultiple(s, n, k - 1, v);
      IterAdds(s, n, n * (k - 1), v);
      assert n * k == n + n * (k - 1);
    }
  }

  lemma PeriodRemainder<T>(s: Space<T>, a: nat, b: nat, v: T)
    requires b > 0 && Iter(s, a, v) == v && Iter(s, b, v) == v
    ensures Iter(s, a % b, v) == v
  {
    PeriodMultiple(s, b, a / b, v);
    IterAdds(s, a % b, b * (a / b), v);
    assert a == a % b + b * (a / b);
  }

  /** Two periods are multiples of a common one. */
  lemma {:induction false} CommonPeriod<T>(s: Space<T>, a: nat, b: nat, v: T) returns (g: nat, i: nat, j: nat)
    requires a > 0 && Iter(s, a, v) == v && Iter(s, b, v) == v
    ensures Iter(s, g, v) == v && a == g * i && b == g * j
    decreases b
  {
    if b == 0 {
      return a, 1, 0;
    }
    PeriodRemainder(s, a, b, v);
    var k;
    g, j, k := CommonPeriod(s, b, a % b, v);
    i := j * (a / b) + k;
    Combine(a, b, g, j, k);
  }

  lemma Combine(a: nat, b: nat, g: nat, j: nat, k: nat)
    requires b > 0 && b == g * j && a % b == g * k
    ensures a == g * (j * (a / b) + k)
  {
    var q := a / b;
    assert a == b * q + a % b;
    assert (g * j) * q == g * (j * q);
  }
}
