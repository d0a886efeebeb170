/**
 The meaning of `boost::rational`: fractions in lowest terms are exactly the rational numbers.

 `Reduce` is the one-line specification (cross-multiply, then normalise) that every in-place operator of class
 `Rational` refines, and `Value` maps a fraction to the real number it stands for. `Value` is injective on fractions
 in lowest terms, so each law of the rational numbers holds as equality of the stored numerator and denominator.
 */
module Fractions {
  import opened NumberTheory

  datatype Frac = Frac(num: int, den: int)

  /** `test_invariant`: lowest terms over a positive denominator. */
  predicate Invariant(x: Frac) {
    x.den > 0 && Coprime(x.num, x.den)
  }

  type Rat = x: Frac | Invariant(x) witness Frac(0, 1)

  function Value(x: Frac): real
    requires x.den != 0
  {
    x.num as real / x.den as real
  }

  // ----- the value of a quotient of integers

  lemma ScaledValue(n: int, d: int, v: real)
    requires d != 0
    ensures v == Value(Frac(n, d)) <==> v * d as real == n as real
  {
  }

  lemma SameValue(x: Frac, y: Frac)
    requires x.den != 0 && y.den != 0
    ensures Value(x) == Value(y) <==> x.num * y.den == y.num * x.den
  {
  }

  lemma LessValue(x: Frac, y: Frac)
    requires x.den > 0 && y.den > 0
    ensures Value(x) < Value(y) <==> x.num * y.den < y.num * x.den
  {
  }

  lemma PositiveScale(v: real, w: real, s: real)
    requires s > 0.0
    ensures v < w <==> v * s < w * s
  {
  }

  // ----- lowest terms

  /** The fraction in lowest terms with the value n / d. */
  function Reduce(n: int, d: int): (r: Rat)
    requires d != 0
    ensures r.num * d == n * r.den
  {
    if n == 0 then
      ZeroIsReduced();
      Frac(0, 1)
    else
      QuotientsByGcd(n, d);
      var g := Gcd(n, d);
      var p, q := Quot(n, g), Quot(d, g);
      QuotientsAreReduced(n, d, p, q);
      if d < 0 then Frac(-p, -q) else Frac(p, q)
  }

  lemma ZeroIsReduced()
    ensures Coprime(0, 1)
  {
  }

  lemma QuotientsByGcd(n: int, d: int)
    requires d != 0 || n != 0
    ensures Gcd(n, d) > 0
    ensures n == Gcd(n, d) * Quot(n, Gcd(n, d))
    ensures d == Gcd(n, d) * Quot(d, Gcd(n, d))
  {
    GcdDivides(n, d);
    var g := Gcd(n, d);
    ExactQuot(n, g, Cofactor(g, n));
    ExactQuot(d, g, Cofactor(g, d));
  }

  lemma QuotientsAreReduced(n: int, d: int, p: int, q: int)
    requires d != 0 && Gcd(n, d) > 0
    requires n == Gcd(n, d) * p && d == Gcd(n, d) * q
    ensures Coprime(p, q) && Coprime(-p, -q)
    ensures p * d == n * q && -p * d == n * -q
    ensures (q > 0 <==> d > 0) && (q < 0 <==> d < 0)
  {
    CofactorsAreCoprime(n, d, p, q);
    CoprimeSigns(p, q);
    ProductSign(Gcd(n, d), q);
    assert p * (Gcd(n, d) * q) == (Gcd(n, d) * p) * q;
  }

  /** Lowest terms are unique: equal cross products force equal numerators and denominators. */
  lemma LowestTermsAreUnique(x: Rat, y: Rat)
    ensures x == y <==> x.num * y.den == y.num * x.den
  {
    if x.num * y.den == y.num * x.den {
      DividesIntro(x.den, x.num * y.den, y.num);
      DividesIntro(y.den, y.num * x.den, x.num);
      CoprimeSymmetric(x.num, x.den);
      CoprimeSymmetric(y.num, y.den);
      Gauss(x.den, x.num, y.den);
      Gauss(y.den, y.num, x.den);
      DividesAntisymmetric(x.den, y.den);
      CancelFactor(x.den, x.num, y.num);
    }
  }

  /** `operator==` compares components, and that decides equality of value. */
  lemma ValueIsInjective(x: Rat, y: Rat)
    ensures x == y <==> Value(x) == Value(y)
  {
    SameValue(x, y);
    LowestTermsAreUnique(x, y);
  }

  lemma ReduceKeepsValue(n: int, d: int)
    requires d != 0
    ensures Value(Reduce(n, d)) == Value(Frac(n, d))
  {
    SameValue(Reduce(n, d), Frac(n, d));
  }

  lemma ReducedValue(n: int, d: int, v: real)
    requires d != 0 && v * d as real == n as real
    ensures Value(Reduce(n, d)) == v
  {
    ReduceKeepsValue(n, d);
    ScaledValue(n, d, v);
  }

  lemma ScaledBy(x: Rat)
    ensures Value(x) * x.den as real == x.num as real
  {
  }

  lemma ReduceOfLowestTerms(x: Rat)
    ensures Reduce(x.num, x.den) == x
  {
    LowestTermsAreUnique(Reduce(x.num, x.den), x);
  }

  /** The one fraction in lowest terms with the value n / d is Reduce(n, d). */
  lemma ReduceIsUnique(x: Rat, n: int, d: int)
    requires d != 0
    ensures x == Reduce(n, d) <==> x.num * d == n * x.den
  {
    SameValue(x, Frac(n, d));
    ReduceKeepsValue(n, d);
    ValueIsInjective(x, Reduce(n, d));
  }

  // ----- the specification of the arithmetic operators

  function FromInt(i: int): Rat {
    assert Coprime(i, 1) by { CoprimeIntro(i, 1, 0, 1); }
    Frac(i, 1)
  }

  function Neg(x: Rat): Rat {
    Reduce(-x.num, x.den)
  }

  function Add(x: Rat, y: Rat): Rat {
    ProductSign(x.den, y.den);
    Reduce(x.num * y.den + y.num * x.den, x.den * y.den)
  }

  function Sub(x: Rat, y: Rat): Rat {
    ProductSign(x.den, y.den);
    Reduce(x.num * y.den - y.num * x.den, x.den * y.den)
  }

  function Mul(x: Rat, y: Rat): Rat {
    ProductSign(x.den, y.den);
    Reduce(x.num * y.num, x.den * y.den)
  }

  function Div(x: Rat, y: Rat): Rat
    requires y.num != 0
  {
    ProductSign(x.den, y.num);
    Reduce(x.num * y.den, x.den * y.num)
  }

  predicate Less(x: Rat, y: Rat) {
    x.num * y.den < y.num * x.den
  }

  /** `Value` is a homomorphism into the reals: the operators compute the exact results. */
  lemma ValueOfNeg(x: Rat)
    ensures Value(Neg(x)) == -Value(x)
  {
    ScaledBy(x);
    NegatedProduct(Value(x), x.den as real);
    ReducedValue(-x.num, x.den, -Value(x));
  }

  lemma NegatedProduct(v: real, p: real)
    ensures -v * p == -(v * p)
  {
  }

  lemma ValueOfInt(i: int)
    ensures Value(FromInt(i)) == i as real
  {
  }

  lemma ValueOfAdd(x: Rat, y: Rat)
    ensures Value(Add(x, y)) == Value(x) + Value(y)
  {
    ProductSign(x.den, y.den);
    ScaledBy(x);
    ScaledBy(y);
    ScaledSum(x.num, x.den, y.num, y.den, Value(x), Value(y));
    ReducedValue(x.num * y.den + y.num * x.den, x.den * y.den, Value(x) + Value(y));
  }

  lemma ValueOfSub(x: Rat, y: Rat)
    ensures Value(Sub(x, y)) == Value(x) - Value(y)
  {
    ProductSign(x.den, y.den);
    ScaledBy(x);
    ScaledBy(y);
    ScaledSum(x.num, x.den, y.num, y.den, Value(x), Value(y));
    ReducedValue(x.num * y.den - y.num * x.den, x.den * y.den, Value(x) - Value(y));
  }

  lemma ScaledSum(a: int, b: int, c: int, d: int, v: real, w: real)
    requires v * b as real == a as real && w * d as real == c as real
    ensures (v + w) * (b * d) as real == (a * d + c * b) as real
    ensures (v - w) * (b * d) as real == (a * d - c * b) as real
  {
  }

  lemma ValueOfMul(x: Rat, y: Rat)
    ensures Value(Mul(x, y)) == Value(x) * Value(y)
  {
    ProductSign(x.den, y.den);
    ScaledBy(x);
    ScaledBy(y);
    ScaledProduct(x.num, x.den, y.num, y.den, Value(x), Value(y));
    ReducedValue(x.num * y.num, x.den * y.den, Value(x) * Value(y));
  }

  lemma ScaledProduct(a: int, b: int, c: int, d: int, v: real, w: real)
    requires v * b as real == a as real && w * d as real == c as real
    ensures (v * w) * (b * d) as real == (a * c) as real
  {
  }

  lemma ZeroValue(x: Rat)
    ensures Value(x) == 0.0 <==> x.num == 0
    ensures x.num == 0 <==> x == FromInt(0)
  {
    ScaledValue(x.num, x.den, 0.0);
    LowestTermsAreUnique(x, FromInt(0));
  }

  lemma ValueOfDiv(x: Rat, y: Rat)
    requires y.num != 0
    ensures Value(y) != 0.0
    ensures Value(Div(x, y)) == Value(x) / Value(y)
  {
    ZeroValue(y);
    ProductSign(x.den, y.num);
    var u := Value(x) / Value(y);
    ScaledBy(x);
    ScaledBy(y);
    assert u * Value(y) == Value(x);
    ScaledQuotient(x.num, x.den, y.num, y.den, u, Value(y));
    ReducedValue(x.num * y.den, x.den * y.num, u);
  }

  lemma ScaledQuotient(a: int, b: int, c: int, d: int, u: real, w: real)
    requires (u * w) * b as real == a as real && w * d as real == c as real
    ensures u * (b * c) as real == (a * d) as real
  {
  }

  lemma ValueOfLess(x: Rat, y: Rat)
    ensures Less(x, y) <==> Value(x) < Value(y)
  {
    LessValue(x, y);
  }
}
