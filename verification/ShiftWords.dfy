/**
 32-bit words as polynomials over the two-element field: bit 31 - i is the coefficient of
 x^i, exclusive or adds, and a step of the shift register multiplies by x modulo a polynomial
 of degree 32.
 */
module ShiftWords {
  import opened LinearOperator

  type Word = bv32

  const TAPS: Word := 0x8020_0003
  const ONE: Word := 0x8000_0000  // the polynomial 1

  /** One step of the register. */
  function Step(x: Word): Word { if x & 1 == 1 then (x >> 1) ^ TAPS else x >> 1 }

  /** The step without a branch. */
  function MaskStep(x: Word): Word { (x >> 1) ^ ((0 - (x & 1)) & 0x8020_0003) }

  lemma MaskOfOdd(x: Word, t: Word)
    requires x & 1 == 1
    ensures (0 - (x & 1)) & t == t
  {
  }

  lemma MaskOfEven(x: Word, t: Word)
    requires x & 1 != 1
    ensures (0 - (x & 1)) & t == 0
  {
  }

  lemma StepByMask(x: Word)
    ensures Step(x) == MaskStep(x)
  {
    if x & 1 == 1 {
      MaskOfOdd(x, 0x8020_0003);
    } else {
      MaskOfEven(x, 0x8020_0003);
      XorCancels(x >> 1);
    }
  }

  function Add(a: Word, b: Word): Word { a ^ b }

  function Shl(x: Word): Word { x << 1 }

  predicate Top(x: Word) { x >> 31 == 1 }

  function Words(): Space<Word> {
    Space((a, b) => Add(a, b), 0, ONE, x => MaskStep(x), x => Shl(x), x => Top(x))
  }

  function Run(n: nat, x: Word): Word { Iter(Words(), n, x) }

  // ----- words obey the laws

  lemma WordAssociates(a: Word, b: Word, c: Word)
    ensures Add(Add(a, b), c) == Add(a, Add(b, c))
  {
  }

  lemma XorCancels(a: Word)
    ensures a ^ 0 == a && a ^ a == 0
  {
  }

  lemma WordCancels(a: Word)
    ensures Cancels(Words(), a)
  {
    XorCancels(a);
  }

  lemma MaskStepLinear(a: Word, b: Word)
    ensures MaskStep(a ^ b) == MaskStep(a) ^ MaskStep(b)
  {
  }

  lemma WordLinear(a: Word, b: Word)
    ensures Linear(Words(), a, b)
  {
    MaskStepLinear(a, b);
  }

  /** A coefficient of u times v. */
  function Select(u: Word, v: Word): Word { (0 - (u >> 31)) & v }

  lemma SelectTop(u: Word, v: Word)
    requires u >> 31 == 1
    ensures (0 - (u >> 31)) & v == v
  {
  }

  lemma SelectNoTop(u: Word, v: Word)
    requires u >> 31 != 1
    ensures (0 - (u >> 31)) & v == 0
  {
  }

  lemma SelectIsPick(u: Word, v: Word)
    ensures Select(u, v) == Pick(Words(), u, v)
  {
    if u >> 31 == 1 {
      SelectTop(u, v);
    } else {
      SelectNoTop(u, v);
    }
  }

  lemma MaskSpells(a: Word)
    ensures a == Add(Select(a, 0x8000_0000), MaskStep(Shl(a)))
  {
  }

  lemma WordSpells(a: Word)
    ensures Spells(Words(), a)
  {
    MaskSpells(a);
    SelectIsPick(a, ONE);
  }

  function Shl4(x: Word): Word { Shl(Shl(Shl(Shl(x)))) }

  lemma ShlVanishes(x: Word)
    ensures Shl4(Shl4(Shl4(Shl4(Shl4(Shl4(Shl4(Shl4(x)))))))) == 0
  {
  }

  lemma ShiftFour(n: nat, x: Word)
    ensures Shifted(Words(), n + 4, x) == Shifted(Words(), n, Shl4(x))
  {
    assert Shifted(Words(), n + 3, Shl(x)) == Shifted(Words(), n + 2, Shl(Shl(x)));
    assert Shifted(Words(), n + 1, Shl(Shl(Shl(x)))) == Shifted(Words(), n, Shl4(x));
  }

  lemma WordShifts(x: Word)
    ensures Shifted(Words(), 32, x) == 0
  {
    var y := Shl4(Shl4(Shl4(Shl4(x))));
    ShiftFour(28, x);
    ShiftFour(24, Shl4(x));
    ShiftFour(20, Shl4(Shl4(x)));
    ShiftFour(16, Shl4(Shl4(Shl4(x))));
    ShiftFour(12, y);
    ShiftFour(8, Shl4(y));
    ShiftFour(4, Shl4(Shl4(y)));
    ShiftFour(0, Shl4(Shl4(Shl4(y))));
    ShlVanishes(x);
  }

  lemma WordsAssociate()
    ensures forall a, b, c :: Associates(Words(), a, b, c)
  {
    forall a: Word, b: Word, c: Word ensures Associates(Words(), a, b, c) { WordAssociates(a, b, c); }
  }

  lemma WordsCommute()
    ensures forall a, b :: Commutes(Words(), a, b)
  {
    forall a: Word, b: Word ensures Commutes(Words(), a, b) { assert Add(a, b) == Add(b, a); }
  }

  lemma WordsCancel()
    ensures forall a :: Cancels(Words(), a)
  {
    forall a: Word ensures Cancels(Words(), a) { WordCancels(a); }
  }

  lemma WordsLinear()
    ensures forall a, b :: Linear(Words(), a, b)
  {
    forall a: Word, b: Word ensures Linear(Words(), a, b) { WordLinear(a, b); }
  }

  lemma WordsSpell()
    ensures forall a :: Spells(Words(), a)
  {
    forall a: Word ensures Spells(Words(), a) { WordSpells(a); }
  }

  lemma WordsLawful()
    ensures Lawful(Words(), 32)
  {
    WordsAssociate();
    WordsCommute();
    WordsCancel();
    WordsLinear();
    WordsSpell();
    forall a: Word ensures Shifted(Words(), 32, a) == 0 { WordShifts(a); }
    assert MaskStep(0) == 0;
  }

  // ----- products of given words, with the steps written out so that they evaluate at once

  function MaskStep2(v: Word): Word {
    var v1: Word := (v >> 1) ^ ((0 - (v & 1)) & 0x8020_0003);
    (v1 >> 1) ^ ((0 - (v1 & 1)) & 0x8020_0003)
  }

  function MaskStep3(v: Word): Word {
    var v1: Word := (v >> 1) ^ ((0 - (v & 1)) & 0x8020_0003);
    var v2: Word := (v1 >> 1) ^ ((0 - (v1 & 1)) & 0x8020_0003);
    (v2 >> 1) ^ ((0 - (v2 & 1)) & 0x8020_0003)
  }

  function MaskStep4(v: Word): Word {
    var v1: Word := (v >> 1) ^ ((0 - (v & 1)) & 0x8020_0003);
    var v2: Word := (v1 >> 1) ^ ((0 - (v1 & 1)) & 0x8020_0003);
    var v3: Word := (v2 >> 1) ^ ((0 - (v2 & 1)) & 0x8020_0003);
    (v3 >> 1) ^ ((0 - (v3 & 1)) & 0x8020_0003)
  }

  lemma TwoSteps(v: Word)
    ensures MaskStep2(v) == MaskStep(MaskStep(v))
  {
  }

  lemma ThreeSteps(v: Word)
    ensures MaskStep3(v) == MaskStep(MaskStep(MaskStep(v)))
  {
  }

  lemma FourSteps(v: Word)
    ensures MaskStep4(v) == MaskStep(MaskStep(MaskStep(MaskStep(v))))
  {
  }

  /** A coefficient of u times v, and the rest. */
  function One(u: Word, v: Word, rest: Word): Word { ((0 - (u >> 31)) & v) ^ rest }

  lemma OneSelects(u: Word, v: Word, rest: Word)
    ensures One(u, v, rest) == Add(Select(u, v), rest)
  {
  }

  function Shl2(x: Word): Word { (x << 1) << 1 }

  function Shl3(x: Word): Word { ((x << 1) << 1) << 1 }

  lemma ShlTwice(x: Word)
    ensures Shl2(x) == Shl(Shl(x)) && Shl3(x) == Shl(Shl(Shl(x)))
  {
  }

  /** Four coefficients of u times v, and the rest. */
  function Four(u: Word, v: Word, rest: Word): Word {
    One(u, v, One(Shl(u), MaskStep(v), One(Shl2(u), MaskStep2(v), One(Shl3(u), MaskStep3(v), rest))))
  }

  lemma FourSelects(u: Word, v: Word, rest: Word)
    ensures Four(u, v, rest) == Add(Select(u, v), Add(Select(Shl(u), MaskStep(v)),
              Add(Select(Shl(Shl(u)), MaskStep2(v)), Add(Select(Shl(Shl(Shl(u))), MaskStep3(v)), rest))))
  {
    var r3 := One(Shl3(u), MaskStep3(v), rest);
    var r2 := One(Shl2(u), MaskStep2(v), r3);
    var r1 := One(Shl(u), MaskStep(v), r2);
    ShlTwice(u);
    OneSelects(u, v, r1);
    OneSelects(Shl(u), MaskStep(v), r2);
    OneSelects(Shl2(u), MaskStep2(v), r3);
    OneSelects(Shl3(u), MaskStep3(v), rest);
  }

  /** The product of v with 16 coefficients of u, and the rest. */
  function Half(u: Word, v: Word, rest: Word): Word {
    var u1, v1 := Shl4(u), MaskStep4(v);
    var u2, v2 := Shl4(u1), MaskStep4(v1);
    var u3, v3 := Shl4(u2), MaskStep4(v2);
    Four(u, v, Four(u1, v1, Four(u2, v2, Four(u3, v3, rest))))
  }

  function Shl16(x: Word): Word { Shl4(Shl4(Shl4(Shl4(x)))) }

  function MaskStep16(x: Word): Word { MaskStep4(MaskStep4(MaskStep4(MaskStep4(x)))) }

  /** The product of u and v, written out. */
  function Product(u: Word, v: Word): Word { Half(u, v, Half(Shl16(u), MaskStep16(v), 0)) }

  lemma ApplyByMask(n: nat, u: Word, v: Word)
    ensures Apply(Words(), n + 1, u, v) == Add(Select(u, v), Apply(Words(), n, Shl(u), MaskStep(v)))
  {
    SelectIsPick(u, v);
  }

  lemma ApplyFour(n: nat, u: Word, v: Word)
    ensures Apply(Words(), n + 4, u, v) == Four(u, v, Apply(Words(), n, Shl4(u), MaskStep4(v)))
  {
    ApplyByMask(n + 3, u, v);
    ApplyByMask(n + 2, Shl(u), MaskStep(v));
    ApplyByMask(n + 1, Shl(Shl(u)), MaskStep(MaskStep(v)));
    ApplyByMask(n, Shl(Shl(Shl(u))), MaskStep(MaskStep(MaskStep(v))));
    TwoSteps(v);
    ThreeSteps(v);
    FourSteps(v);
    FourSelects(u, v, Apply(Words(), n, Shl4(u), MaskStep4(v)));
  }

  lemma ApplyHalf(n: nat, u: Word, v: Word)
    ensures Apply(Words(), n + 16, u, v) == Half(u, v, Apply(Words(), n, Shl16(u), MaskStep16(v)))
  {
    var u1, v1 := Shl4(u), MaskStep4(v);
    var u2, v2 := Shl4(u1), MaskStep4(v1);
    var u3, v3 := Shl4(u2), MaskStep4(v2);
    ApplyFour(n + 12, u, v);
    ApplyFour(n + 8, u1, v1);
    ApplyFour(n + 4, u2, v2);
    ApplyFour(n, u3, v3);
  }

  lemma LastHalf(u: Word, v: Word)
    ensures Apply(Words(), 16, u, v) == Half(u, v, 0)
  {
    ApplyHalf(0, u, v);
  }

  lemma ProductIsMul(u: Word, v: Word)
    ensures Product(u, v) == Mul(Words(), 32, u, v)
  {
    var u1, v1 := Shl16(u), MaskStep16(v);
    var rest := Half(u1, v1, 0);
    LastHalf(u1, v1);
    FirstHalf(u, v, u1, v1, rest);
  }

  lemma FirstHalf(u: Word, v: Word, u1: Word, v1: Word, rest: Word)
    requires u1 == Shl16(u) && v1 == MaskStep16(v) && rest == Apply(Words(), 16, u1, v1)
    ensures Apply(Words(), 32, u, v) == Half(u, v, rest)
  {
    ApplyHalf(16, u, v);
  }
}
