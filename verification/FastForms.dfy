/**
 The overflow-avoiding forms of the arithmetic operators. Each lemma takes the intermediate numbers of one operator and
 shows that cancelling before multiplying already gives the exact result in lowest terms.
 */
module FastForms {
  import opened NumberTheory
  import opened Fractions

  lemma DivisorsAreCoprime(a: int, b: int, p: int, q: int)
    requires Coprime(a, b) && Divides(p, a) && Divides(q, b)
    ensures Coprime(p, q) && Coprime(q, p)
  {
    CoprimeDivisor(p, a, b);
    CoprimeSymmetric(p, b);
    CoprimeDivisor(q, b, p);
    CoprimeSymmetric(q, p);
  }

  lemma CrossProductsAreCoprime(a: int, b: int, c: int, d: int)
    requires Coprime(a, b) && Coprime(a, d) && Coprime(c, b) && Coprime(c, d)
    ensures Coprime(a * c, b * d)
  {
    CoprimeProduct(a, b, d);
    CoprimeProduct(c, b, d);
    CoprimeSymmetric(a, b * d);
    CoprimeSymmetric(c, b * d);
    CoprimeProduct(b * d, a, c);
    CoprimeSymmetric(b * d, a * c);
  }

  // ----- sum and difference

  /** a * d1 + c * b1 shares no factor with b1. */
  lemma SumIsCoprime(a: int, b: int, c: int, b1: int, d1: int)
    requires Coprime(a, b) && Divides(b1, b) && Coprime(b1, d1)
    ensures Coprime(a * d1 + c * b1, b1)
  {
    DividesIntro(a, a, 1);
    DivisorsAreCoprime(a, b, a, b1);
    CoprimeProduct(b1, a, d1);
    CoprimeSymmetric(b1, a * d1);
    CoprimeShift(a * d1, b1, c);
  }

  /**
   With b == g * b1 and d == g * d1, the sum of a / b and c / d needs cancelling only by the gcd of its numerator t
   with g; p and b1 * e are the numerator and denominator that remain.
   */
  lemma SumInLowestTerms(a: int, b: int, c: int, d: int, g: int, b1: int, d1: int, t: int, h: int, p: int, e: int)
    requires b > 0 && d > 0 && Coprime(a, b) && Coprime(c, d)
    requires g == Gcd(b, d) && b == g * b1 && d == g * d1
    requires t == a * d1 + c * b1
    requires h == Gcd(t, g) && t == h * p && d == h * e
    ensures b1 * e > 0 && Coprime(p, b1 * e)
    ensures p * (b * d) == (a * d + c * b) * (b1 * e)
  {
    GcdDivides(b, d);
    GcdDivides(t, g);
    ProductSign(g, b1);
    ProductSign(h, e);
    ProductSign(b1, e);
    SumIsCoprimeToCofactors(a, b, c, d, g, b1, d1);
    DividesIntro(p, t, h);
    CoprimeDivisor(p, t, b1);
    CoprimeDivisor(p, t, d1);
    CancelledIsCoprime(t, g, d, d1, h, p, e);
    CoprimeProduct(p, b1, e);
    SumValue(a, b, c, d, g, b1, d1, t, h, p, e);
  }

  lemma SumIsCoprimeToCofactors(a: int, b: int, c: int, d: int, g: int, b1: int, d1: int)
    requires Coprime(a, b) && Coprime(c, d)
    requires g == Gcd(b, d) && g != 0 && b == g * b1 && d == g * d1
    ensures Coprime(a * d1 + c * b1, b1) && Coprime(a * d1 + c * b1, d1)
  {
    CofactorsAreCoprime(b, d, b1, d1);
    CoprimeSymmetric(b1, d1);
    DividesIntro(b1, b, g);
    DividesIntro(d1, d, g);
    SumIsCoprime(a, b, c, b1, d1);
    SumIsCoprime(c, d, a, d1, b1);
  }

  /** After cancelling h, the numerator is coprime to what is left of d. */
  lemma CancelledIsCoprime(t: int, g: int, d: int, d1: int, h: int, p: int, e: int)
    requires h == Gcd(t, g) && h != 0 && t == h * p
    requires d == g * d1 && d == h * e && Coprime(p, d1)
    ensures Coprime(p, e)
  {
    GcdDivides(t, g);
    var m := Cofactor(h, g);
    CofactorsAreCoprime(t, g, p, m);
    CoprimeProduct(p, d1, m);
    CancelCommon(h, m, d1, e);
  }

  lemma CancelCommon(h: int, m: int, d1: int, e: int)
    requires h != 0 && (h * m) * d1 == h * e
    ensures e == d1 * m
  {
  }

  lemma SumValue(a: int, b: int, c: int, d: int, g: int, b1: int, d1: int, t: int, h: int, p: int, e: int)
    requires b == g * b1 && d == g * d1 && d == h * e
    requires t == a * d1 + c * b1 && t == h * p
    ensures p * (b * d) == (a * d + c * b) * (b1 * e)
  {
  }

  /** `operator+=` */
  lemma FastSum(a: int, b: int, c: int, d: int, g: int, b1: int, t: int, h: int)
    requires b > 0 && d > 0 && Coprime(a, b) && Coprime(c, d)
    requires g == Gcd(b, d) && g != 0 && b1 == Quot(b, g)
    requires t == a * Quot(d, g) + c * b1
    requires h == Gcd(t, g) && h != 0
    ensures Invariant(Frac(Quot(t, h), b1 * Quot(d, h)))
    ensures Quot(t, h) * (b * d) == (a * d + c * b) * (b1 * Quot(d, h))
  {
    QuotientsByGcd(b, d);
    GcdDivides(t, g);
    QuotientsByGcd(t, g);
    DividesIntro(g, d, Quot(d, g));
    DividesTransitive(h, g, d);
    ExactQuot(d, h, Cofactor(h, d));
    SumInLowestTerms(a, b, c, d, g, b1, Quot(d, g), t, h, Quot(t, h), Quot(d, h));
  }

  /** `operator-=` */
  lemma FastDifference(a: int, b: int, c: int, d: int, g: int, b1: int, t: int, h: int)
    requires b > 0 && d > 0 && Coprime(a, b) && Coprime(c, d)
    requires g == Gcd(b, d) && g != 0 && b1 == Quot(b, g)
    requires t == a * Quot(d, g) - c * b1
    requires h == Gcd(t, g) && h != 0
    ensures Invariant(Frac(Quot(t, h), b1 * Quot(d, h)))
    ensures Quot(t, h) * (b * d) == (a * d - c * b) * (b1 * Quot(d, h))
  {
    CoprimeSigns(c, d);
    NegatedFactor(c, b1);
    NegatedFactor(c, b);
    FastSum(a, b, -c, d, g, b1, t, h);
  }

  lemma NegatedFactor(c: int, b: int)
    ensures -c * b == -(c * b)
  {
  }

  lemma GcdWithPositive(a: int, b: int)
    requires b != 0
    ensures Gcd(a, b) > 0 && Gcd(b, a) > 0
  {
    GcdDivides(a, b);
    GcdDivides(b, a);
  }

  // ----- product and quotient

  /** `operator*=`: cancel across, then multiply. */
  lemma FastProduct(a: int, b: int, c: int, d: int, g: int, h: int)
    requires b != 0 && d != 0 && Coprime(a, b) && Coprime(c, d)
    requires g == Gcd(a, d) && g != 0 && h == Gcd(c, b) && h != 0
    ensures Coprime(Quot(a, g) * Quot(c, h), Quot(b, h) * Quot(d, g))
    ensures (Quot(a, g) * Quot(c, h)) * (b * d) == (a * c) * (Quot(b, h) * Quot(d, g))
    ensures b > 0 && d > 0 ==> Quot(b, h) * Quot(d, g) > 0
    ensures Quot(b, h) * Quot(d, g) != 0
  {
    QuotientsByGcd(a, d);
    QuotientsByGcd(c, b);
    CrossCancelled(a, b, c, d, g, h, Quot(a, g), Quot(b, h), Quot(c, h), Quot(d, g));
  }

  lemma CrossCancelled(a: int, b: int, c: int, d: int, g: int, h: int, p: int, q: int, r: int, s: int)
    requires b != 0 && d != 0 && Coprime(a, b) && Coprime(c, d)
    requires g == Gcd(a, d) && g > 0 && a == g * p && d == g * s
    requires h == Gcd(c, b) && h > 0 && c == h * r && b == h * q
    ensures Coprime(p * r, q * s)
    ensures (p * r) * (b * d) == (a * c) * (q * s)
    ensures q * s != 0 && (b > 0 && d > 0 ==> q * s > 0)
  {
    hide Coprime, Divides;
    CrossFactorsAreCoprime(a, b, c, d, g, h, p, q, r, s);
    CrossProductsAreCoprime(p, q, r, s);
    ProductSign(g, s);
    ProductSign(h, q);
    NonZeroProduct(q, s);
    CrossValue(g, h, p, q, r, s);
  }

  lemma CrossFactorsAreCoprime(a: int, b: int, c: int, d: int, g: int, h: int, p: int, q: int, r: int, s: int)
    requires b != 0 && d != 0 && Coprime(a, b) && Coprime(c, d)
    requires g == Gcd(a, d) && g > 0 && a == g * p && d == g * s
    requires h == Gcd(c, b) && h > 0 && c == h * r && b == h * q
    ensures Coprime(p, q) && Coprime(p, s) && Coprime(r, q) && Coprime(r, s)
  {
    hide Coprime, Divides;
    CofactorsAreCoprime(a, d, p, s);
    CofactorsAreCoprime(c, b, r, q);
    DividesIntro(p, a, g);
    DividesIntro(q, b, h);
    DividesIntro(r, c, h);
    DividesIntro(s, d, g);
    DivisorsAreCoprime(a, b, p, q);
    DivisorsAreCoprime(c, d, r, s);
  }

  lemma NonZeroProduct(q: int, s: int)
    requires q != 0 && s != 0
    ensures q * s != 0 && (q > 0 && s > 0 ==> q * s > 0)
  {
  }

  lemma CrossValue(g: int, h: int, p: int, q: int, r: int, s: int)
    ensures (p * r) * ((h * q) * (g * s)) == ((g * p) * (h * r)) * (q * s)
  {
  }
}
