/**
 Class `boost::rational` over unbounded integers, with the in-place operators of the source. `max` is what
 numeric_limits tells about the integer type, None for a type without bounds; only normalisation looks at it.
 */
module Rationals {
  import opened Wrappers
  import opened NumberTheory
  import opened Fractions
  import opened FieldLaws
  import opened FastForms
  import opened ContinuedFractions

  class Rational {
    var num: int
    var den: int

    /** The class invariant: lowest terms, positive denominator. */
    ghost predicate Valid()
      reads this
    {
      Invariant(Frac(num, den))
    }

    ghost function Fraction(): Rat
      requires Valid()
      reads this
    {
      Frac(num, den)
    }

    /** Stores the two numbers as given; every public constructor normalises afterwards or has den == 1. */
    constructor Raw(n: int, d: int)
      ensures num == n && den == d
    {
      num, den := n, d;
    }

    /** Returns null, standing for the exception bad_rational, for a denominator that is zero or singular. */
    static method New(n: int, d: int, max: Option<nat> := None) returns (r: Rational?)
      ensures r == null <==> d == 0 || Singular(n, d, max)
      ensures r != null ==> fresh(r) && r.Valid() && r.Fraction() == Reduce(n, d)
    {
      r := new Rational.Raw(n, d);
      var ok := r.Normalize(max);
      if !ok { return null; }
    }

    /** False stands for the exception bad_rational; after the second one the common factor is already cancelled. */
    method Normalize(max: Option<nat> := None) returns (ok: bool)
      modifies this
      ensures ok <==> old(den) != 0 && !Singular(old(num), old(den), max)
      ensures ok ==> Valid() && Fraction() == Reduce(old(num), old(den))
      ensures !ok && old(den) == 0 ==> num == old(num) && den == 0
      ensures !ok && old(den) != 0 ==>
                var g := Gcd(old(num), old(den)); g * num == old(num) && g * den == old(den) && Coprime(num, den)
    {
      if den == 0 { return false; }
      if num == 0 {
        den := 1;
        ZeroIsReduced();
        return true;
      }
      var n, d := num, den;
      QuotientsByGcd(n, d);
      var g := Gcd(num, den);
      num := Quot(num, g);
      den := Quot(den, g);
      CofactorsAreCoprime(n, d, num, den);
      QuotientsAreReduced(n, d, num, den);
      if max.Some? && den + max.value < 0 { return false; }
      if den < 0 {
        num := -num;
        den := -den;
      }
      ReduceIsUnique(Fraction(), n, d);
      return true;
    }

    /** `assign`: unchanged when the constructor throws. */
    method Assign(n: int, d: int, max: Option<nat> := None) returns (ok: bool)
      modifies this
      ensures ok <==> d != 0 && !Singular(n, d, max)
      ensures ok ==> Valid() && Fraction() == Reduce(n, d)
      ensures !ok ==> num == old(num) && den == old(den)
    {
      var r := New(n, d, max);
      if r == null { return false; }
      num, den := r.num, r.den;
      return true;
    }

    // ----- arithmetic assignment with another rational, which may be this one

    /** `operator+=` */
    method AddAssign(r: Rational)
      requires Valid() && r.Valid()
      modifies this
      ensures Valid() && Fraction() == Add(old(Fraction()), old(r.Fraction()))
    {
      ghost var x, y := Fraction(), r.Fraction();
      var rNum, rDen := r.num, r.den;
      GcdWithPositive(den, rDen);
      var g := Gcd(den, rDen);
      ghost var g0 := g;
      den := Quot(den, g);
      num := num * Quot(rDen, g) + rNum * den;
      ghost var t := num;
      GcdWithPositive(num, g);
      g := Gcd(num, g);
      FastSum(x.num, x.den, y.num, y.den, g0, den, t, g);
      num := Quot(num, g);
      den := den * Quot(rDen, g);
      ReducedOverProduct(Fraction(), x, y, x.num * y.den + y.num * x.den);
    }

    /** `operator-=` */
    method SubAssign(r: Rational)
      requires Valid() && r.Valid()
      modifies this
      ensures Valid() && Fraction() == Sub(old(Fraction()), old(r.Fraction()))
    {
      ghost var x, y := Fraction(), r.Fraction();
      var rNum, rDen := r.num, r.den;
      GcdWithPositive(den, rDen);
      var g := Gcd(den, rDen);
      ghost var g0 := g;
      den := Quot(den, g);
      num := num * Quot(rDen, g) - rNum * den;
      ghost var t := num;
      GcdWithPositive(num, g);
      g := Gcd(num, g);
      FastDifference(x.num, x.den, y.num, y.den, g0, den, t, g);
      num := Quot(num, g);
      den := den * Quot(rDen, g);
      ReducedOverProduct(Fraction(), x, y, x.num * y.den - y.num * x.den);
    }

    /** `operator*=` */
    method MulAssign(r: Rational)
      requires Valid() && r.Valid()
      modifies this
      ensures Valid() && Fraction() == Mul(old(Fraction()), old(r.Fraction()))
    {
      ghost var x, y := Fraction(), r.Fraction();
      var rNum, rDen := r.num, r.den;
      GcdWithPositive(num, rDen);
      GcdWithPositive(rNum, den);
      var gcd1 := Gcd(num, rDen);
      var gcd2 := Gcd(rNum, den);
      FastProduct(x.num, x.den, y.num, y.den, gcd1, gcd2);
      num := Quot(num, gcd1) * Quot(rNum, gcd2);
      den := Quot(den, gcd2) * Quot(rDen, gcd1);
      ReducedOverProduct(Fraction(), x, y, x.num * y.num);
    }

    /** `operator/=`; false stands for the exception bad_rational. */
    method DivAssign(r: Rational) returns (ok: bool)
      requires Valid() && r.Valid()
      modifies this
      ensures Valid() && (ok <==> old(r.num) != 0)
      ensures ok ==> Fraction() == Div(old(Fraction()), old(r.Fraction()))
      ensures !ok ==> Fraction() == old(Fraction())
    {
      ghost var x, y := Fraction(), r.Fraction();
      var rNum, rDen := r.num, r.den;
      if rNum == 0 { return false; }
      if num == 0 {
        ZeroQuotient(x, y);
        return true;
      }
      GcdWithPositive(num, rNum);
      GcdWithPositive(rDen, den);
      CoprimeSymmetric(rNum, rDen);
      var gcd1 := Gcd(num, rNum);
      var gcd2 := Gcd(rDen, den);
      FastProduct(x.num, x.den, y.den, y.num, gcd1, gcd2);
      num := Quot(num, gcd1) * Quot(rDen, gcd2);
      den := Quot(den, gcd2) * Quot(rNum, gcd1);
      FlippedSign(num, den, x.den * y.num, x.num * y.den);
      CoprimeSigns(num, den);
      if den < 0 {
        num := -num;
        den := -den;
      }
      QuotientIsReduced(Fraction(), x, y);
      return true;
    }

    // ----- arithmetic assignment with an integer

    method AddAssignInt(i: int)
      requires Valid()
      modifies this
      ensures Valid() && Fraction() == Add(old(Fraction()), FromInt(i))
    {
      ghost var x := Fraction();
      CoprimeShift(num, den, i);
      num := num + i * den;
      ReducedOverProduct(Fraction(), x, FromInt(i), x.num * 1 + i * x.den);
    }

    method SubAssignInt(i: int)
      requires Valid()
      modifies this
      ensures Valid() && Fraction() == Sub(old(Fraction()), FromInt(i))
    {
      ghost var x := Fraction();
      CoprimeShift(num, den, -i);
      NegatedFactor(i, den);
      num := num - i * den;
      ReducedOverProduct(Fraction(), x, FromInt(i), x.num * 1 - i * x.den);
    }

    method MulAssignInt(i: int)
      requires Valid()
      modifies this
      ensures Valid() && Fraction() == Mul(old(Fraction()), FromInt(i))
    {
      ghost var x := Fraction();
      GcdWithPositive(i, den);
      var gcd := Gcd(i, den);
      UnitQuotients(x.num, i);
      FastProduct(x.num, x.den, i, 1, 1, gcd);
      num := num * Quot(i, gcd);
      den := Quot(den, gcd);
      ReducedOverProduct(Fraction(), x, FromInt(i), x.num * i);
    }

    /** False stands for the exception bad_rational. */
    method DivAssignInt(i: int) returns (ok: bool)
      requires Valid()
      modifies this
      ensures Valid() && (ok <==> i != 0)
      ensures ok ==> Fraction() == Div(old(Fraction()), FromInt(i))
      ensures !ok ==> Fraction() == old(Fraction())
    {
      ghost var x := Fraction();
      if i == 0 { return false; }
      if num == 0 {
        ZeroQuotient(x, FromInt(i));
        return true;
      }
      GcdWithPositive(num, i);
      var gcd := Gcd(num, i);
      UnitQuotients(x.den, i);
      FastProduct(x.num, x.den, 1, i, gcd, 1);
      num := Quot(num, gcd);
      den := den * Quot(i, gcd);
      FlippedSign(num, den, x.den * i, x.num * 1);
      CoprimeSigns(num, den);
      if den < 0 {
        num := -num;
        den := -den;
      }
      QuotientIsReduced(Fraction(), x, FromInt(i));
      return true;
    }

    /** `operator++` and `operator--` */
    method Increment()
      requires Valid()
      modifies this
      ensures Valid() && Fraction() == Add(old(Fraction()), FromInt(1))
    {
      ghost var x := Fraction();
      CoprimeShift(num, den, 1);
      num := num + den;
      ReducedOverProduct(Fraction(), x, FromInt(1), x.num * 1 + 1 * x.den);
    }

    method Decrement()
      requires Valid()
      modifies this
      ensures Valid() && Fraction() == Sub(old(Fraction()), FromInt(1))
    {
      ghost var x := Fraction();
      CoprimeShift(num, den, -1);
      num := num - den;
      ReducedOverProduct(Fraction(), x, FromInt(1), x.num * 1 - 1 * x.den);
    }

    /** Unary `operator-` */
    method Negated() returns (r: Rational)
      requires Valid()
      ensures fresh(r) && r.Valid() && r.Fraction() == Neg(Fraction())
    {
      var made := New(-num, den);
      r := made;
    }

    /** `abs` */
    method Absolute() returns (r: Rational)
      requires Valid()
      ensures r.Valid() && r.Fraction() == AbsOf(Fraction())
      ensures r == this || fresh(r)
    {
      if num >= 0 { r := this; } else { r := Negated(); }
    }

    /** `operator-` with an integer on the left: subtracts the other way round and negates. */
    static method IntMinus(i: int, a: Rational) returns (r: Rational)
      requires a.Valid()
      ensures fresh(r) && r.Valid() && r.Fraction() == Sub(FromInt(i), a.Fraction())
    {
      var t := new Rational.Raw(a.num, a.den);
      t.SubAssignInt(i);
      r := t.Negated();
      NegatedDifference(a.Fraction(), FromInt(i));
    }

    /** `operator/` with an integer on the left; null stands for the exception bad_rational. */
    static method IntDividedBy(i: int, a: Rational) returns (r: Rational?)
      requires a.Valid()
      ensures r == null <==> a.num == 0
      ensures r != null ==> fresh(r) && r.Valid() && r.Fraction() == Div(FromInt(i), a.Fraction())
    {
      ghost var x := FromInt(i);
      var t := new Rational.Raw(i, 1);
      var ok := t.DivAssign(a);
      if !ok { return null; }
      r := t;
    }

    // ----- the checks on stored components

    static function InnerGcd(a: int, b: int): int
      decreases Abs(b)
    {
      QuotRemIfNonZero(a, b);
      if b == 0 then a else InnerGcd(b, Rem(a, b))
    }

    static predicate IsNormalized(n: int, d: int) {
      d > 0 && (n != 0 || d == 1) && Abs(InnerGcd(n, d)) == 1
    }

    method TestInvariant() returns (b: bool)
      ensures b <==> Valid()
    {
      b := den > 0 && Gcd(num, den) == 1;
    }

    // ----- comparison

    /** `operator==` */
    method Equal(r: Rational) returns (b: bool)
      requires Valid() && r.Valid()
      ensures b <==> Value(Fraction()) == Value(r.Fraction())
    {
      ValueIsInjective(Fraction(), r.Fraction());
      b := num == r.num && den == r.den;
    }

    /**
     `operator<`: the order of the two values, found without multiplying. The ghost trace lists the cycles the loop
     went through, from the first to the last; lemma ExpansionStaysNarrow bounds every number stored in them.
     */
    method LessThan(r: Rational) returns (b: bool, ghost trace: seq<(Cycle, Cycle)>)
      requires Valid() && r.Valid()
      ensures b <==> Value(Fraction()) < Value(r.Fraction())
      ensures b <==> Less(Fraction(), r.Fraction())
      ensures IsExpansion(trace, Fraction(), r.Fraction()) && IsFinished(trace)
    {
      ghost var x, y := Fraction(), r.Fraction();
      ValueOfLess(x, y);
      var ts := FirstCycle(num, den);
      var rs := FirstCycle(r.num, r.den);
      var reverse := false;
      trace := [(ts, rs)];
      while true
        invariant IsExpansion(trace, x, y) && trace[|trace| - 1] == (ts, rs)
        invariant WellFormed(ts) && WellFormed(rs)
        invariant Less(x, y) <==> if reverse then Below(rs, ts) else Below(ts, rs)
        decreases ts.d
      {
        if ts.q != rs.q {
          QuotientsDecide(ts, rs);
          QuotientsDecide(rs, ts);
          return if reverse then ts.q > rs.q else ts.q < rs.q, trace;
        }
        reverse := !reverse;
        if ts.r == 0 || rs.r == 0 { break; }
        var ts' := NextCycle(ts);
        var rs' := NextCycle(rs);
        NextCycleReverses(ts, rs, ts', rs');
        NextCycleReverses(rs, ts, rs', ts');
        ts, rs := ts', rs';
        trace := trace + [(ts, rs)];
      }
      EndedExpansionDecides(ts, rs);
      EndedExpansionDecides(rs, ts);
      if ts.r == rs.r {
        return false, trace;
      } else {
        return (ts.r != 0) != reverse, trace;
      }
    }

    /** `operator<` with an integer: floor division, then one comparison. */
    method LessThanInt(i: int) returns (b: bool)
      requires Valid()
      ensures b <==> Value(Fraction()) < i as real
      ensures b <==> Less(Fraction(), FromInt(i))
    {
      var c := FirstCycle(num, den);
      ValueOfInt(i);
      ValueOfLess(Fraction(), FromInt(i));
      FloorDecides(c, i);
      b := c.q < i;
    }

    /** `operator>` with an integer, by way of `==` and `<`. */
    method GreaterThanInt(i: int) returns (b: bool)
      requires Valid()
      ensures b <==> Value(Fraction()) > i as real
      ensures b <==> Less(FromInt(i), Fraction())
    {
      var equal := den == 1 && num == i;
      var less := LessThanInt(i);
      ValueOfInt(i);
      ValueIsInjective(Fraction(), FromInt(i));
      ValueOfLess(FromInt(i), Fraction());
      b := if equal then false else !less;
    }
  }

  /**
   Division of n by a positive d as `operator<` does it: the truncating quotient and remainder of C++, moved down to
   the floor when the remainder is negative.
   */
  method FirstCycle(n: int, d: int) returns (c: Cycle)
    requires d > 0
    ensures WellFormed(c) && c.n == n && c.d == d
  {
    QuotRem(n, d);
    c := Cycle(n, d, Quot(n, d), Rem(n, d));
    while c.r < 0
      invariant c.n == n && c.d == d && n == d * c.q + c.r
      invariant -d < c.r < d
      decreases -c.r
    {
      c := c.(r := c.r + c.d, q := c.q - 1);
    }
  }

  /** The division step of the later cycles: divisor by remainder, both positive. */
  method NextCycle(c: Cycle) returns (c': Cycle)
    requires WellFormed(c) && c.r > 0
    ensures IsNext(c, c')
  {
    QuotRem(c.d, c.r);
    c' := Cycle(c.d, c.r, Quot(c.d, c.r), Rem(c.d, c.r));
  }

  lemma NegatedDifference(x: Rat, y: Rat)
    ensures Neg(Sub(x, y)) == Sub(y, x)
  {
    hide Sub, Neg;
    ValueOfSub(x, y);
    ValueOfNeg(Sub(x, y));
    ValueOfSub(y, x);
    ValueIsInjective(Neg(Sub(x, y)), Sub(y, x));
  }

  lemma QuotRemIfNonZero(a: int, b: int)
    ensures b != 0 ==> Abs(Rem(a, b)) < Abs(b)
  {
  }

  /** The truncating remainder has the magnitude of the remainder of the magnitudes. */
  lemma RemMagnitude(a: int, b: int)
    requires b != 0
    ensures Abs(Rem(a, b)) == Abs(a) % Abs(b)
  {
    var x, d := Abs(a), Abs(b);
    assert Abs(Rem(a, b)) == x % b;
    if b < 0 {
      var q, r := x / b, x % b;
      NegatedFactor(q, b);
      assert d * -q == b * q;
      QuotientIsUnique(d, -q, x / d, r, x % d);
    }
  }

  /** Euclid with the signed remainder of C++ finds the gcd up to sign. */
  lemma {:induction false} InnerGcdIsGcd(a: int, b: int)
    ensures Abs(Rational.InnerGcd(a, b)) == Gcd(a, b)
    decreases Abs(b)
  {
    if b != 0 {
      QuotRemIfNonZero(a, b);
      RemMagnitude(a, b);
      InnerGcdIsGcd(b, Rem(a, b));
    }
  }

  /** The check made on conversions is the class invariant. */
  lemma IsNormalizedIsInvariant(n: int, d: int)
    ensures Rational.IsNormalized(n, d) <==> Invariant(Frac(n, d))
  {
    InnerGcdIsGcd(n, d);
    if n == 0 && Invariant(Frac(n, d)) {
      GcdDivides(n, d);
      LowestTermsAreUnique(Frac(n, d), FromInt(0));
    }
  }

  lemma FloorDecides(c: Cycle, i: int)
    requires WellFormed(c)
    ensures c.q < i <==> c.n < i * c.d
  {
    if c.q < i {
      WeakScale(c.q + 1, i, c.d);
    } else {
      WeakScale(i, c.q, c.d);
    }
  }

  /** The denominator that is left has no positive counterpart. */
  predicate Singular(n: int, d: int, max: Option<nat>) {
    max.Some? && n != 0 && d != 0 && (GcdWithPositive(n, d); Quot(d, Gcd(n, d)) + max.value < 0)
  }

  /** In two's complement only the most negative denominator can be singular: when the numerator is coprime to it. */
  lemma SingularCondition(n: int, d: int, max: nat)
    requires n != 0 && d != 0 && -1 <= d + max
    ensures Singular(n, d, Some(max)) <==> d + max == -1 && Coprime(n, d)
  {
    hide Gcd, Quot;
    QuotientsByGcd(n, d);
    SingularCofactor(d, Gcd(n, d), Quot(d, Gcd(n, d)), max);
  }

  lemma SingularCofactor(d: int, g: int, k: int, max: nat)
    requires g > 0 && d == g * k && -1 <= d + max
    ensures k + max < 0 <==> d + max == -1 && g == 1
  {
    if k >= 0 {
      WeakScale(0, g, k);
    } else if g > 1 {
      WeakScale(2, g, -k);
      assert g * -k == -(g * k);
    }
  }

  lemma ReducedOverProduct(z: Rat, x: Rat, y: Rat, n: int)
    requires z.num * (x.den * y.den) == n * z.den
    ensures x.den * y.den != 0 && z == Reduce(n, x.den * y.den)
  {
    ProductSign(x.den, y.den);
    ReduceIsUnique(z, n, x.den * y.den);
  }

  lemma QuotientIsReduced(z: Rat, x: Rat, y: Rat)
    requires y.num != 0
    requires z.num * (x.den * y.num) == (x.num * y.den) * z.den
    ensures z == Div(x, y)
  {
    ProductSign(x.den, y.num);
    ReduceIsUnique(z, x.num * y.den, x.den * y.num);
  }

  lemma ZeroQuotient(x: Rat, y: Rat)
    requires x.num == 0 && y.num != 0
    ensures x == Div(x, y)
  {
    QuotientIsReduced(x, x, y);
  }

  lemma FlippedSign(n: int, d: int, k: int, m: int)
    requires n * k == m * d
    ensures -n * k == m * -d
  {
  }

  lemma UnitQuotients(n: int, i: int)
    ensures Coprime(i, 1) && Coprime(1, i) && Gcd(n, 1) == 1 && Gcd(1, n) == 1
    ensures Quot(n, 1) == n && Quot(1, 1) == 1
  {
  }
}
