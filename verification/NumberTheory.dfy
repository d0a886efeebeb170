/**
 Divisibility, the greatest common divisor and coprimality over the unbounded integers.

 `Gcd` and `Lcm` stand for the mathematical, non-negative `boost::integer::gcd` and `lcm`; `Quot` and `Rem`
 are the `/` and `%` of C++, which truncate toward zero.
 */
module NumberTheory {

  function Abs(x: int): nat {
    if x < 0 then -x else x
  }

  // ----- division as C++ defines it

  function Quot(a: int, b: int): int
    requires b != 0
  {
    if a >= 0 then a / b else -((-a) / b)
  }

  function Rem(a: int, b: int): int
    requires b != 0
  {
    if a >= 0 then a % b else -((-a) % b)
  }

  lemma QuotRem(a: int, b: int)
    requires b != 0
    ensures a == b * Quot(a, b) + Rem(a, b)
    ensures Abs(Rem(a, b)) < Abs(b)
    ensures a >= 0 ==> Rem(a, b) >= 0
    ensures a <= 0 ==> Rem(a, b) <= 0
  {
  }

  lemma MulAssociates(a: int, b: int, c: int)
    ensures (a * b) * c == a * (b * c)
  {
  }

  lemma ProductSign(a: int, b: int)
    requires a > 0
    ensures b > 0 <==> a * b > 0
    ensures b < 0 <==> a * b < 0
  {
  }

  /** A number in a half-open interval of length d has only one quotient by d. */
  lemma QuotientIsUnique(d: int, q: int, q': int, r: int, r': int)
    requires d > 0 && 0 <= r < d && 0 <= r' < d
    requires d * q + r == d * q' + r'
    ensures q == q' && r == r'
  {
    assert d * (q - q') == r' - r;
    AbsProduct(d, q - q');
  }

  /** Dividing an exact multiple gives the cofactor, whatever the signs. */
  lemma ExactQuot(n: int, d: int, k: int)
    requires d != 0 && n == d * k
    ensures Quot(n, d) == k
    ensures n == 0 <==> k == 0
  {
    QuotRem(n, d);
    var q, r := Quot(n, d), Rem(n, d);
    assert d * (k - q) == r;
    if k != q {
      AbsProduct(d, k - q);
    }
  }

  lemma AbsProduct(a: int, b: int)
    ensures Abs(a * b) == Abs(a) * Abs(b)
    ensures b != 0 ==> Abs(a * b) >= Abs(a)
  {
    if a >= 0 {
      if b < 0 { assert a * b == -(a * -b); }
    } else if b < 0 {
      assert a * b == -a * -b;
    } else {
      assert a * b == -(-a * b);
    }
    if b != 0 {
      assert Abs(a) * (Abs(b) - 1) >= 0;
    }
  }

  // ----- divisibility

  predicate IsCofactor(d: int, n: int, k: int) {
    d * k == n
  }

  ghost predicate Divides(d: int, n: int) {
    exists k :: IsCofactor(d, n, k)
  }

  ghost function Cofactor(d: int, n: int): (k: int)
    requires Divides(d, n)
    ensures d * k == n
  {
    var k :| IsCofactor(d, n, k); k
  }

  lemma DividesIntro(d: int, n: int, k: int)
    requires d * k == n
    ensures Divides(d, n)
  {
    assert IsCofactor(d, n, k);
  }

  lemma DividesTransitive(a: int, b: int, c: int)
    requires Divides(a, b) && Divides(b, c)
    ensures Divides(a, c)
  {
    var k, m := Cofactor(a, b), Cofactor(b, c);
    assert a * (k * m) == c;
    DividesIntro(a, c, k * m);
  }

  lemma DividesCombination(d: int, a: int, b: int, x: int, y: int)
    requires Divides(d, a) && Divides(d, b)
    ensures Divides(d, a * x + b * y)
  {
    var k, m := Cofactor(d, a), Cofactor(d, b);
    assert d * (k * x + m * y) == (d * k) * x + (d * m) * y;
    DividesIntro(d, a * x + b * y, k * x + m * y);
  }

  lemma DividesAntisymmetric(a: nat, b: nat)
    requires Divides(a, b) && Divides(b, a)
    ensures a == b
  {
  }

  // ----- greatest common divisor

  function GcdNat(a: nat, b: nat): nat
    decreases b
  {
    if b == 0 then a else GcdNat(b, a % b)
  }

  function Gcd(a: int, b: int): nat {
    GcdNat(Abs(a), Abs(b))
  }

  /** g is the non-negative common divisor of a and b that every common divisor divides. */
  ghost predicate IsGcd(g: int, a: int, b: int) {
    && g >= 0
    && Divides(g, a)
    && Divides(g, b)
    && exists x, y :: Combines(a, b, x, y, g)
  }

  predicate Combines(a: int, b: int, x: int, y: int, g: int) {
    a * x + b * y == g
  }

  lemma {:induction false} GcdNatIsGcd(a: nat, b: nat)
    ensures IsGcd(GcdNat(a, b), a, b)
    decreases b
  {
    if b == 0 {
      DividesIntro(a, a, 1);
      DividesIntro(a, 0, 0);
      assert Combines(a, b, 1, 0, a);
    } else {
      var q, r, g := a / b, a % b, GcdNat(b, a % b);
      assert a == b * q + r;
      GcdNatIsGcd(b, r);
      DividesCombination(g, b, r, q, 1);
      var x, y :| Combines(b, r, x, y, g);
      assert a * y + b * (x - q * y) == (b * q + r) * y + b * x - b * (q * y);
      assert (b * q + r) * y == b * (q * y) + r * y;
      assert Combines(a, b, y, x - q * y, g);
    }
  }

  lemma GcdIsGcd(a: int, b: int)
    ensures IsGcd(Gcd(a, b), a, b)
    ensures Gcd(a, b) == 0 <==> a == 0 && b == 0
  {
    GcdNatIsGcd(Abs(a), Abs(b));
    SignedGcd(a, b, GcdNat(Abs(a), Abs(b)));
  }

  lemma SignedGcd(a: int, b: int, g: nat)
    requires IsGcd(g, Abs(a), Abs(b))
    ensures IsGcd(g, a, b)
    ensures g == 0 <==> a == 0 && b == 0
  {
    var s, t := if a < 0 then -1 else 1, if b < 0 then -1 else 1;
    DividesCombination(g, Abs(a), Abs(b), s, 0);
    DividesCombination(g, Abs(a), Abs(b), 0, t);
    var x, y :| Combines(Abs(a), Abs(b), x, y, g);
    assert Combines(a, b, s * x, t * y, g);
    ZeroFactor(g, Cofactor(g, a));
    ZeroFactor(g, Cofactor(g, b));
  }

  lemma ZeroFactor(g: int, k: int)
    ensures g == 0 ==> g * k == 0
  {
  }

  lemma GcdDivides(a: int, b: int)
    ensures Divides(Gcd(a, b), a) && Divides(Gcd(a, b), b)
    ensures Gcd(a, b) == 0 <==> a == 0 && b == 0
  {
    GcdIsGcd(a, b);
  }

  lemma Bezout(a: int, b: int) returns (x: int, y: int)
    ensures a * x + b * y == Gcd(a, b)
  {
    GcdIsGcd(a, b);
    x, y :| Combines(a, b, x, y, Gcd(a, b));
  }

  lemma GcdIsGreatest(d: int, a: int, b: int)
    requires Divides(d, a) && Divides(d, b)
    ensures Divides(d, Gcd(a, b))
  {
    var x, y := Bezout(a, b);
    DividesCombination(d, a, b, x, y);
  }

  /** Whatever is a common divisor and an integer combination is the gcd. */
  lemma GcdIsUnique(g: int, a: int, b: int)
    requires IsGcd(g, a, b)
    ensures g == Gcd(a, b)
  {
    GcdDivides(a, b);
    GcdIsGreatest(g, a, b);
    var x, y :| Combines(a, b, x, y, g);
    DividesCombination(Gcd(a, b), a, b, x, y);
    DividesAntisymmetric(g, Gcd(a, b));
  }

  lemma GcdSymmetric(a: int, b: int)
    ensures Gcd(a, b) == Gcd(b, a)
  {
    GcdDivides(b, a);
    var x, y := Bezout(b, a);
    assert Combines(a, b, y, x, Gcd(b, a));
    GcdIsUnique(Gcd(b, a), a, b);
  }

  // ----- coprime numbers

  predicate Coprime(a: int, b: int) {
    Gcd(a, b) == 1
  }

  lemma CoprimeIntro(a: int, b: int, x: int, y: int)
    requires a * x + b * y == 1
    ensures Coprime(a, b)
  {
    DividesIntro(1, a, a);
    DividesIntro(1, b, b);
    assert Combines(a, b, x, y, 1);
    GcdIsUnique(1, a, b);
  }

  lemma CoprimeSymmetric(a: int, b: int)
    requires Coprime(a, b)
    ensures Coprime(b, a)
  {
    GcdSymmetric(a, b);
  }

  /** A divisor of one of two coprime numbers is coprime to the other. */
  lemma CoprimeDivisor(d: int, a: int, b: int)
    requires Coprime(a, b) && Divides(d, a)
    ensures Coprime(d, b)
  {
    var k := Cofactor(d, a);
    var x, y := Bezout(a, b);
    assert d * (k * x) == a * x;
    CoprimeIntro(d, b, k * x, y);
  }

  lemma CoprimeProduct(a: int, b: int, c: int)
    requires Coprime(a, b) && Coprime(a, c)
    ensures Coprime(a, b * c)
  {
    var x, y := Bezout(a, b);
    var u, v := Bezout(a, c);
    BezoutStep(a, x, u, b * y, c * v);
    ProductsRegroup(b, c, y, v);
    CoprimeIntro(a, b * c, x + u * (b * y), y * v);
  }

  lemma BezoutStep(a: int, x: int, u: int, p: int, q: int)
    requires a * x + p == 1 && a * u + q == 1
    ensures a * (x + u * p) + q * p == 1
  {
  }

  lemma ProductsRegroup(b: int, c: int, y: int, v: int)
    ensures (b * c) * (y * v) == (c * v) * (b * y)
  {
  }

  /** Adding a multiple of b to a number coprime to b leaves it coprime to b. */
  lemma CoprimeShift(a: int, b: int, c: int)
    requires Coprime(a, b)
    ensures Coprime(a + c * b, b)
  {
    var x, y := Bezout(a, b);
    assert (a + c * b) * x + b * (y - c * x) == a * x + b * y + (c * b) * x - b * (c * x);
    CoprimeIntro(a + c * b, b, x, y - c * x);
  }

  lemma CoprimeSigns(a: int, b: int)
    requires Coprime(a, b)
    ensures Coprime(-a, b) && Coprime(a, -b) && Coprime(-a, -b)
  {
  }

  /** Dividing out the gcd leaves coprime numbers. */
  lemma CofactorsAreCoprime(a: int, b: int, p: int, q: int)
    requires Gcd(a, b) != 0
    requires a == Gcd(a, b) * p && b == Gcd(a, b) * q
    ensures Coprime(p, q)
  {
    var g := Gcd(a, b);
    var x, y := Bezout(a, b);
    assert g * (p * x + q * y) == a * x + b * y == g * 1;
    CancelFactor(g, p * x + q * y, 1);
    CoprimeIntro(p, q, x, y);
  }

  lemma CancelFactor(g: int, x: int, y: int)
    requires g != 0 && g * x == g * y
    ensures x == y
  {
  }

  /** Gauss: a divisor of b * c that is coprime to b divides c. */
  lemma Gauss(a: int, b: int, c: int)
    requires Coprime(a, b) && Divides(a, b * c)
    ensures Divides(a, c)
  {
    var x, y := Bezout(a, b);
    var k := Cofactor(a, b * c);
    GaussWitness(a, b, c, x, y, k);
    DividesIntro(a, c, c * x + k * y);
  }

  lemma GaussWitness(a: int, b: int, c: int, x: int, y: int, k: int)
    requires a * x + b * y == 1 && a * k == b * c
    ensures a * (c * x + k * y) == c
  {
  }

  /** Two coprime divisors of n have a product that divides n. */
  lemma CoprimeDivisorsMultiply(a: int, b: int, n: int)
    requires Coprime(a, b) && Divides(a, n) && Divides(b, n)
    ensures Divides(a * b, n)
  {
    var k := Cofactor(b, n);
    Gauss(a, b, k);
    var m := Cofactor(a, k);
    assert a * b * m == b * (a * m);
    DividesIntro(a * b, n, m);
  }

  // ----- least common multiple

  function Lcm(a: int, b: int): int {
    if Gcd(a, b) == 0 then 0 else Abs(a * b) / Gcd(a, b)
  }

  lemma LcmTimesGcd(a: int, b: int)
    ensures Lcm(a, b) >= 0
    ensures Gcd(a, b) * Lcm(a, b) == Abs(a * b)
    ensures Lcm(a, b) == 0 <==> a == 0 || b == 0
  {
    GcdDivides(a, b);
    if Gcd(a, b) != 0 {
      var g := Gcd(a, b);
      var p := Cofactor(g, a);
      assert a * b == g * (p * b);
      AbsProduct(g, p * b);
      ExactQuot(Abs(a * b), g, Abs(p * b));
      AbsProduct(a, b);
    }
  }

  /** The lcm is a common multiple that divides every common multiple. */
  lemma LcmIsLeast(a: int, b: int, m: int)
    ensures Divides(a, Lcm(a, b)) && Divides(b, Lcm(a, b))
    ensures Divides(a, m) && Divides(b, m) ==> Divides(Lcm(a, b), m)
  {
    var g, l := Gcd(a, b), Lcm(a, b);
    GcdDivides(a, b);
    LcmTimesGcd(a, b);
    if g == 0 {
      DividesIntro(a, l, 0);
    } else {
      var p, q := Cofactor(g, a), Cofactor(g, b);
      var s := if a * b < 0 then -1 else 1;
      LcmFactors(a, b, g, p, q, s, l);
      DividesIntro(a, l, s * q);
      DividesIntro(b, l, s * p);
      if Divides(a, m) && Divides(b, m) {
        CofactorsAreCoprime(a, b, p, q);
        CommonMultiple(a, b, m, g, p, q);
        var t := Cofactor(g * p * q, m);
        SignedMultiple(l, g * p * q, s, t);
        DividesIntro(l, m, s * t);
      }
    }
  }

  lemma SignedMultiple(l: int, n: int, s: int, t: int)
    requires l == s * n && (s == 1 || s == -1)
    ensures l * (s * t) == n * t
  {
  }

  lemma LcmFactors(a: int, b: int, g: int, p: int, q: int, s: int, l: int)
    requires g != 0 && a == g * p && b == g * q
    requires (s == 1 || s == -1) && g * l == s * (a * b)
    ensures a * (s * q) == l && b * (s * p) == l && l == s * (g * p * q)
  {
  }

  lemma CommonMultiple(a: int, b: int, m: int, g: int, p: int, q: int)
    requires g != 0 && a == g * p && b == g * q && Coprime(p, q)
    requires Divides(a, m) && Divides(b, m)
    ensures Divides(g * p * q, m)
  {
    var u, v := Cofactor(a, m), Cofactor(b, m);
    MulAssociates(g, p, u);
    MulAssociates(g, q, v);
    CancelFactor(g, p * u, q * v);
    DividesIntro(p, p * u, u);
    DividesIntro(q, p * u, v);
    CoprimeDivisorsMultiply(p, q, p * u);
    RescaledMultiple(g, p, q, p * u);
  }

  lemma RescaledMultiple(g: int, p: int, q: int, n: int)
    requires Divides(p * q, n)
    ensures Divides(g * p * q, g * n)
  {
    var t := Cofactor(p * q, n);
    MulAssociates(g, p, q);
    MulAssociates(g, p * q, t);
    DividesIntro(g * p * q, g * n, t);
  }
}
