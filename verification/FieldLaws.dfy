/**
 The stored numerators and denominators obey the laws of the ordered field of rational numbers, and the gcd and lcm of
 two fractions behave like those of two integers.
 */
module FieldLaws {
  import opened NumberTheory
  import opened Fractions

  // ----- the field laws, as equality of stored components

  lemma AdditionIsAnAbelianGroup(x: Rat, y: Rat, z: Rat)
    ensures Add(x, y) == Add(y, x)
    ensures Add(Add(x, y), z) == Add(x, Add(y, z))
    ensures Add(x, FromInt(0)) == x
    ensures Add(x, Neg(x)) == FromInt(0)
    ensures Sub(x, y) == Add(x, Neg(y))
    ensures Neg(Neg(x)) == x
  {
    ValueOfAdd(x, y);
    ValueOfAdd(y, x);
    ValueIsInjective(Add(x, y), Add(y, x));
    AdditionAssociates(x, y, z);
    ValueOfInt(0);
    ValueOfAdd(x, FromInt(0));
    ValueIsInjective(Add(x, FromInt(0)), x);
    ValueOfNeg(x);
    ValueOfAdd(x, Neg(x));
    ValueIsInjective(Add(x, Neg(x)), FromInt(0));
    ValueOfNeg(Neg(x));
    ValueIsInjective(Neg(Neg(x)), x);
    ValueOfNeg(y);
    ValueOfSub(x, y);
    ValueOfAdd(x, Neg(y));
    ValueIsInjective(Sub(x, y), Add(x, Neg(y)));
  }

  lemma AdditionAssociates(x: Rat, y: Rat, z: Rat)
    ensures Add(Add(x, y), z) == Add(x, Add(y, z))
  {
    ValueOfAdd(x, y);
    ValueOfAdd(y, z);
    ValueOfAdd(Add(x, y), z);
    ValueOfAdd(x, Add(y, z));
    ValueIsInjective(Add(Add(x, y), z), Add(x, Add(y, z)));
  }

  lemma MultiplicationIsACommutativeMonoid(x: Rat, y: Rat, z: Rat)
    ensures Mul(x, y) == Mul(y, x)
    ensures Mul(Mul(x, y), z) == Mul(x, Mul(y, z))
    ensures Mul(x, FromInt(1)) == x
  {
    ValueOfMul(x, y);
    ValueOfMul(y, x);
    ValueIsInjective(Mul(x, y), Mul(y, x));
    MultiplicationAssociates(x, y, z);
    ValueOfInt(1);
    ValueOfMul(x, FromInt(1));
    ValueIsInjective(Mul(x, FromInt(1)), x);
  }

  lemma MultiplicationAssociates(x: Rat, y: Rat, z: Rat)
    ensures Mul(Mul(x, y), z) == Mul(x, Mul(y, z))
  {
    hide Mul;
    ValueOfMul(x, y);
    ValueOfMul(y, z);
    ValueOfMul(Mul(x, y), z);
    ValueOfMul(x, Mul(y, z));
    assert (Value(x) * Value(y)) * Value(z) == Value(x) * (Value(y) * Value(z));
    ValueIsInjective(Mul(Mul(x, y), z), Mul(x, Mul(y, z)));
  }

  lemma MultiplicationDistributes(x: Rat, y: Rat, z: Rat)
    ensures Mul(x, Add(y, z)) == Add(Mul(x, y), Mul(x, z))
  {
    hide Add, Mul;
    ValueOfAdd(y, z);
    ValueOfMul(x, Add(y, z));
    ValueOfMul(x, y);
    ValueOfMul(x, z);
    ValueOfAdd(Mul(x, y), Mul(x, z));
    assert Value(x) * (Value(y) + Value(z)) == Value(x) * Value(y) + Value(x) * Value(z);
    ValueIsInjective(Mul(x, Add(y, z)), Add(Mul(x, y), Mul(x, z)));
  }

  lemma SubtractionUndoesAddition(x: Rat, y: Rat)
    ensures Sub(Add(x, y), y) == x
    ensures Add(Sub(x, y), y) == x
  {
    ValueOfAdd(x, y);
    ValueOfSub(Add(x, y), y);
    ValueIsInjective(Sub(Add(x, y), y), x);
    ValueOfSub(x, y);
    ValueOfAdd(Sub(x, y), y);
    ValueIsInjective(Add(Sub(x, y), y), x);
  }

  lemma DivisionUndoesMultiplication(x: Rat, y: Rat)
    requires y.num != 0
    ensures Div(Mul(x, y), y) == x
    ensures Mul(Div(x, y), y) == x
  {
    DivisionOfProduct(x, y);
    ProductOfQuotient(x, y);
  }

  lemma DivisionOfProduct(x: Rat, y: Rat)
    requires y.num != 0
    ensures Div(Mul(x, y), y) == x
  {
    hide Mul, Div, Value;
    ValueOfMul(x, y);
    ValueOfDiv(Mul(x, y), y);
    RealQuotient(Value(x), Value(y));
    ValueIsInjective(Div(Mul(x, y), y), x);
  }

  lemma ProductOfQuotient(x: Rat, y: Rat)
    requires y.num != 0
    ensures Mul(Div(x, y), y) == x
  {
    hide Mul, Div, Value;
    ValueOfDiv(x, y);
    ValueOfMul(Div(x, y), y);
    RealQuotient(Value(x), Value(y));
    ValueIsInjective(Mul(Div(x, y), y), x);
  }

  lemma RealQuotient(v: real, w: real)
    requires w != 0.0
    ensures (v * w) / w == v && (v / w) * w == v
  {
  }

  // ----- the order

  lemma LessIsAStrictTotalOrder(x: Rat, y: Rat, z: Rat)
    ensures !Less(x, x)
    ensures Less(x, y) && Less(y, z) ==> Less(x, z)
    ensures !(Less(x, y) && Less(y, x))
    ensures x == y <==> !Less(x, y) && !Less(y, x)
  {
    ValueOfLess(x, y);
    ValueOfLess(y, x);
    ValueOfLess(y, z);
    ValueOfLess(x, z);
    ValueIsInjective(x, y);
  }

  lemma LessIsCompatible(x: Rat, y: Rat, z: Rat)
    ensures Less(x, y) <==> Less(Add(x, z), Add(y, z))
    ensures Less(FromInt(0), z) ==> (Less(x, y) <==> Less(Mul(x, z), Mul(y, z)))
  {
    LessIsTranslationInvariant(x, y, z);
    if Less(FromInt(0), z) {
      LessIsScaleInvariant(x, y, z);
    }
  }

  lemma LessIsTranslationInvariant(x: Rat, y: Rat, z: Rat)
    ensures Less(x, y) <==> Less(Add(x, z), Add(y, z))
  {
    ValueOfLess(x, y);
    ValueOfAdd(x, z);
    ValueOfAdd(y, z);
    ValueOfLess(Add(x, z), Add(y, z));
  }

  lemma PositiveValue(z: Rat)
    ensures Less(FromInt(0), z) <==> Value(z) > 0.0
  {
  }

  lemma LessIsScaleInvariant(x: Rat, y: Rat, z: Rat)
    requires Less(FromInt(0), z)
    ensures Less(x, y) <==> Less(Mul(x, z), Mul(y, z))
  {
    hide Mul, Less, FromInt, Value;
    PositiveValue(z);
    ValueOfMul(x, z);
    ValueOfMul(y, z);
    ValueOfLess(x, y);
    ValueOfLess(Mul(x, z), Mul(y, z));
    PositiveScale(Value(x), Value(y), Value(z));
  }

  // ----- absolute value

  function AbsOf(x: Rat): Rat {
    if x.num >= 0 then x else Neg(x)
  }

  lemma ValueOfAbs(x: Rat)
    ensures Value(AbsOf(x)) == if Value(x) < 0.0 then -Value(x) else Value(x)
    ensures AbsOf(x) == Frac(Abs(x.num), x.den)
  {
  }

  // ----- gcd and lcm of fractions

  /** `gcd_evaluator< rational<IntType> >` */
  function GcdOf(x: Rat, y: Rat): Rat {
    LcmOfDenominators(x, y);
    Reduce(Gcd(x.num, y.num), Lcm(x.den, y.den))
  }

  /** `lcm_evaluator< rational<IntType> >` */
  function LcmOf(x: Rat, y: Rat): Rat {
    GcdDivides(x.den, y.den);
    Reduce(Lcm(x.num, y.num), Gcd(x.den, y.den))
  }

  lemma LcmOfDenominators(x: Rat, y: Rat)
    ensures Lcm(x.den, y.den) > 0
  {
    LcmTimesGcd(x.den, y.den);
  }

  lemma DivisorsOfCoprimes(a: int, b: int, c: int, d: int, g: int, l: int)
    requires Coprime(a, b) && Coprime(c, d)
    requires Divides(g, a) && Divides(g, c) && Divides(l, b * d)
    ensures Coprime(g, l)
  {
    CoprimeDivisor(g, a, b);
    CoprimeDivisor(g, c, d);
    CoprimeProduct(g, b, d);
    CoprimeSymmetric(g, b * d);
    CoprimeDivisor(l, b * d, g);
    CoprimeSymmetric(l, g);
  }

  lemma LcmDividesProduct(a: int, b: int)
    ensures Divides(Lcm(a, b), a * b)
  {
    DividesIntro(a, a * b, b);
    DividesIntro(b, a * b, a);
    LcmIsLeast(a, b, a * b);
  }

  /** The components handed to the constructor by the two evaluators are already in lowest terms, unless zero. */
  lemma EvaluatorsBuildLowestTerms(x: Rat, y: Rat)
    ensures x.num != 0 || y.num != 0 ==> GcdOf(x, y) == Frac(Gcd(x.num, y.num), Lcm(x.den, y.den))
    ensures x.num != 0 && y.num != 0 ==> LcmOf(x, y) == Frac(Lcm(x.num, y.num), Gcd(x.den, y.den))
  {
    GcdDivides(x.num, y.num);
    GcdDivides(x.den, y.den);
    LcmDividesProduct(x.den, y.den);
    LcmDividesProduct(x.num, y.num);
    LcmOfDenominators(x, y);
    DivisorsOfCoprimes(x.num, x.den, y.num, y.den, Gcd(x.num, y.num), Lcm(x.den, y.den));
    ReduceOfLowestTerms(Frac(Gcd(x.num, y.num), Lcm(x.den, y.den)));
    CoprimeSymmetric(x.num, x.den);
    CoprimeSymmetric(y.num, y.den);
    DivisorsOfCoprimes(x.den, x.num, y.den, y.num, Gcd(x.den, y.den), Lcm(x.num, y.num));
    CoprimeSymmetric(Gcd(x.den, y.den), Lcm(x.num, y.num));
    ReduceOfLowestTerms(Frac(Lcm(x.num, y.num), Gcd(x.den, y.den)));
  }

  /** x is the k-fold of g. */
  predicate IsFold(g: Rat, x: Rat, k: int) {
    Mul(FromInt(k), g) == x
  }

  /** g divides x: the quotient is an integer. */
  ghost predicate DividesRat(g: Rat, x: Rat) {
    exists k :: IsFold(g, x, k)
  }

  lemma FoldComponents(g: Rat, x: Rat, k: int)
    ensures IsFold(g, x, k) <==> x.num * g.den == k * g.num * x.den
  {
    ReduceIsUnique(x, k * g.num, 1 * g.den);
  }

  lemma FoldIntro(g: Rat, x: Rat, k: int)
    requires x.num * g.den == k * g.num * x.den
    ensures DividesRat(g, x)
  {
    FoldComponents(g, x, k);
    assert IsFold(g, x, k);
  }

  lemma GcdDividesOne(x: Rat, y: Rat, g: int, l: int)
    requires l > 0 && Coprime(g, l) && Divides(g, x.num) && Divides(x.den, l)
    ensures DividesRat(Frac(g, l), x)
  {
    var k, m := Cofactor(g, x.num), Cofactor(x.den, l);
    assert (g * k) * (x.den * m) == (k * m) * g * x.den by {
      FourFactors(g, k, x.den, m);
    }
    FoldIntro(Frac(g, l), x, k * m);
  }

  lemma FourFactors(a: int, b: int, c: int, d: int)
    ensures (a * b) * (c * d) == (b * d) * a * c
  {
  }

  lemma DivisorComponents(e: Rat, x: Rat)
    requires DividesRat(e, x)
    ensures Divides(e.num, x.num) && Divides(x.den, e.den)
  {
    var k :| IsFold(e, x, k);
    FoldComponents(e, x, k);
    CoprimeSymmetric(x.num, x.den);
    FoldDivisibility(e.num, e.den, x.num, x.den, k);
  }

  lemma FoldDivisibility(a: int, b: int, c: int, d: int, k: int)
    requires Coprime(a, b) && Coprime(d, c)
    requires c * b == k * a * d
    ensures Divides(a, c) && Divides(d, b)
  {
    Rotate(k, a, d);
    DividesIntro(a, b * c, k * d);
    Gauss(a, b, c);
    DividesIntro(d, c * b, k * a);
    Gauss(d, c, b);
  }

  lemma Rotate(k: int, a: int, d: int)
    ensures k * a * d == a * (k * d) == d * (k * a)
  {
  }

  /** The gcd of two fractions divides both, and every common divisor divides it. */
  lemma GcdOfIsGreatest(x: Rat, y: Rat, e: Rat)
    ensures DividesRat(GcdOf(x, y), x) && DividesRat(GcdOf(x, y), y) && GcdOf(x, y).num >= 0
    ensures DividesRat(e, x) && DividesRat(e, y) ==> DividesRat(e, GcdOf(x, y))
  {
    var g, l := Gcd(x.num, y.num), Lcm(x.den, y.den);
    GcdDivides(x.num, y.num);
    if x.num == 0 && y.num == 0 {
      LcmOfDenominators(x, y);
      FoldIntro(GcdOf(x, y), x, 0);
      FoldIntro(GcdOf(x, y), y, 0);
      FoldIntro(e, GcdOf(x, y), 0);
    } else {
      EvaluatorsBuildLowestTerms(x, y);
      LcmOfDenominators(x, y);
      LcmIsLeast(x.den, y.den, e.den);
      GcdDividesOne(x, y, g, l);
      GcdDividesOne(y, x, g, l);
      if DividesRat(e, x) && DividesRat(e, y) {
        DivisorComponents(e, x);
        DivisorComponents(e, y);
        GcdIsGreatest(e.num, x.num, y.num);
        GcdDividesOne(Frac(g, l), x, e.num, e.den);
      }
    }
  }

  /** The lcm of two fractions is a multiple of both, and divides every common multiple. */
  lemma LcmOfIsLeast(x: Rat, y: Rat, m: Rat)
    ensures DividesRat(x, LcmOf(x, y)) && DividesRat(y, LcmOf(x, y)) && LcmOf(x, y).num >= 0
    ensures DividesRat(x, m) && DividesRat(y, m) ==> DividesRat(LcmOf(x, y), m)
  {
    var l, g := Lcm(x.num, y.num), Gcd(x.den, y.den);
    LcmTimesGcd(x.num, y.num);
    GcdDivides(x.den, y.den);
    LcmIsLeast(x.num, y.num, m.num);
    if x.num == 0 || y.num == 0 {
      FoldIntro(x, LcmOf(x, y), 0);
      FoldIntro(y, LcmOf(x, y), 0);
      if DividesRat(x, m) && DividesRat(y, m) {
        DivisorComponents(x, m);
        DivisorComponents(y, m);
        FoldIntro(LcmOf(x, y), m, 0);
      }
    } else {
      EvaluatorsBuildLowestTerms(x, y);
      var f := Frac(l, g);
      GcdDividesOne(f, f, x.num, x.den);
      GcdDividesOne(f, f, y.num, y.den);
      if DividesRat(x, m) && DividesRat(y, m) {
        DivisorComponents(x, m);
        DivisorComponents(y, m);
        GcdIsGreatest(m.den, x.den, y.den);
        GcdDividesOne(m, m, l, g);
      }
    }
  }

  /** gcd(x, y) * lcm(x, y) == |x * y|, as stored fractions. */
  lemma GcdTimesLcm(x: Rat, y: Rat)
    ensures Mul(GcdOf(x, y), LcmOf(x, y)) == AbsOf(Mul(x, y))
  {
    var g, l, h, k := Gcd(x.num, y.num), Lcm(x.den, y.den), Lcm(x.num, y.num), Gcd(x.den, y.den);
    LcmOfDenominators(x, y);
    LcmTimesGcd(x.num, y.num);
    LcmTimesGcd(x.den, y.den);
    GcdDivides(x.den, y.den);
    ProductSign(x.den, y.den);
    ProductSign(l, k);
    var p, q := GcdOf(x, y), LcmOf(x, y);
    ScaledBy(p);
    ScaledBy(q);
    ReduceKeepsValue(g, l);
    ReduceKeepsValue(h, k);
    ProductOfReduced(p, q, g, l, h, k);
    AbsOfReduced(x.num * y.num, x.den * y.den);
    assert l * k == x.den * y.den;
  }

  lemma ProductOfReduced(p: Rat, q: Rat, g: int, l: int, h: int, k: int)
    requires l != 0 && k != 0 && l * k != 0
    requires p == Reduce(g, l) && q == Reduce(h, k)
    ensures Mul(p, q) == Reduce(g * h, l * k)
  {
    hide Mul, Reduce;
    ReduceKeepsValue(g, l);
    ReduceKeepsValue(h, k);
    ScaledValue(g, l, Value(p));
    ScaledValue(h, k, Value(q));
    ProductValue(g, l, h, k, Value(p), Value(q));
    ValueOfMul(p, q);
    ValueIsInjective(Mul(p, q), Reduce(g * h, l * k));
  }

  lemma ProductValue(g: int, l: int, h: int, k: int, v: real, w: real)
    requires l * k != 0
    requires v * l as real == g as real && w * k as real == h as real
    ensures Value(Reduce(g * h, l * k)) == v * w
  {
    ScaledProduct(g, l, h, k, v, w);
    ReducedValue(g * h, l * k, v * w);
  }

  lemma AbsOfReduced(n: int, d: int)
    requires d > 0
    ensures AbsOf(Reduce(n, d)) == Reduce(Abs(n), d)
  {
  }
}
