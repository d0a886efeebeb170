/**
 The cycles of `rational::operator<`: two Euclidean expansions run side by side, compared without multiplying.
 */
module ContinuedFractions {
  import opened NumberTheory
  import opened Fractions
  import opened Bits

  /** The anonymous struct of the loop: dividend, divisor, quotient and remainder of one cycle. */
  datatype Cycle = Cycle(n: int, d: int, q: int, r: int)

  /** One division step with a non-negative remainder. */
  predicate WellFormed(c: Cycle) {
    c.n == c.d * c.q + c.r && 0 <= c.r < c.d
  }

  predicate IsFirst(c: Cycle, x: Rat) {
    WellFormed(c) && c.n == x.num && c.d == x.den
  }

  predicate IsNext(c: Cycle, c': Cycle) {
    WellFormed(c') && c.r > 0 && c'.n == c.d && c'.d == c.r
  }

  /** The pairs of cycles visited so far: equal quotients and open remainders everywhere but at the end. */
  ghost predicate IsExpansion(trace: seq<(Cycle, Cycle)>, x: Rat, y: Rat) {
    && |trace| > 0
    && IsFirst(trace[0].0, x) && IsFirst(trace[0].1, y)
    && forall k :: 0 < k < |trace| ==> IsNextPair(trace[k - 1], trace[k])
  }

  /** The expansion cannot or need not go on: the quotients differ, or a remainder is zero. */
  ghost predicate IsFinished(trace: seq<(Cycle, Cycle)>)
    requires |trace| > 0
  {
    var (c, e) := trace[|trace| - 1];
    c.q != e.q || c.r == 0 || e.r == 0
  }

  predicate IsNextPair(p: (Cycle, Cycle), p': (Cycle, Cycle)) {
    p.0.q == p.1.q && IsNext(p.0, p'.0) && IsNext(p.1, p'.1)
  }

  /** The order of the two fractions of a cycle, as fractions n / d. */
  predicate Below(c: Cycle, e: Cycle) {
    c.n * e.d < e.n * c.d
  }

  // ----- why comparing quotients decides

  /** Different quotients order the fractions. */
  lemma QuotientsDecide(c: Cycle, e: Cycle)
    requires WellFormed(c) && WellFormed(e) && c.q != e.q
    ensures Below(c, e) <==> c.q < e.q
  {
    if c.q < e.q {
      SmallerQuotient(c.n, c.d, c.q, c.r, e.n, e.d, e.q, e.r);
    } else {
      SmallerQuotient(e.n, e.d, e.q, e.r, c.n, c.d, c.q, c.r);
    }
  }

  lemma SmallerQuotient(n: int, d: int, q: int, r: int, n': int, d': int, q': int, r': int)
    requires n == d * q + r && 0 <= r < d
    requires n' == d' * q' + r' && 0 <= r' < d'
    requires q < q'
    ensures n * d' < n' * d
  {
    assert n < d * (q + 1);
    StrictScale(n, d * (q + 1), d');
    WeakScale(q + 1, q', d' * d);
    WeakScale(d' * q', n', d);
    assert d * (q + 1) * d' == (q + 1) * (d' * d);
    assert q' * (d' * d) == d' * q' * d;
  }

  lemma StrictScale(a: int, b: int, s: int)
    requires a < b && s > 0
    ensures a * s < b * s
  {
  }

  lemma WeakScale(a: int, b: int, s: int)
    requires a <= b && s >= 0
    ensures a * s <= b * s
  {
  }

  /** Taking reciprocals of the remainders reverses the order. */
  lemma NextCycleReverses(c: Cycle, e: Cycle, c': Cycle, e': Cycle)
    requires WellFormed(c) && WellFormed(e)
    requires IsNextPair((c, e), (c', e'))
    ensures Below(c, e) <==> Below(e', c')
  {
  }

  /** An expansion that has ended is smaller than one that goes on with the same quotients. */
  lemma EndedExpansionDecides(c: Cycle, e: Cycle)
    requires WellFormed(c) && WellFormed(e) && c.q == e.q
    requires c.r == 0 || e.r == 0
    ensures Below(c, e) <==> c.r == 0 && e.r != 0
  {
  }

  // ----- how large the stored numbers get

  predicate Within(c: Cycle, bound: int) {
    Abs(c.n) <= bound && Abs(c.d) <= bound && Abs(c.q) <= bound && Abs(c.r) <= bound
  }

  lemma QuotientMagnitude(c: Cycle)
    requires WellFormed(c)
    ensures Abs(c.q) <= Abs(c.n)
  {
    if c.q > 0 {
      WeakScale(1, c.d, c.q);
    } else if c.q < 0 {
      WeakScale(1, c.d, -c.q - 1);
      assert c.d * -c.q == c.d * (-c.q - 1) + c.d;
    }
  }

  /**
   No field of any cycle ever exceeds the numerator or denominator of the fraction it expands, and the k-th divisor is
   at least k below the denominator.
   */
  lemma {:induction false} ExpansionStaysNarrow(trace: seq<(Cycle, Cycle)>, x: Rat, y: Rat, k: nat)
    requires IsExpansion(trace, x, y) && k < |trace|
    ensures WellFormed(trace[k].0) && WellFormed(trace[k].1)
    ensures Within(trace[k].0, if k == 0 && Abs(x.num) > x.den then Abs(x.num) else x.den)
    ensures Within(trace[k].1, if k == 0 && Abs(y.num) > y.den then Abs(y.num) else y.den)
    ensures trace[k].0.d + k <= x.den && trace[k].1.d + k <= y.den
    decreases k
  {
    if k > 0 {
      ExpansionStaysNarrow(trace, x, y, k - 1);
      assert IsNextPair(trace[k - 1], trace[k]);
    }
    QuotientMagnitude(trace[k].0);
    QuotientMagnitude(trace[k].1);
  }

  /** Each divisor is at least the sum of the next two. */
  lemma DivisorsAdd(trace: seq<(Cycle, Cycle)>, x: Rat, y: Rat, k: nat)
    requires IsExpansion(trace, x, y) && k + 2 < |trace|
    ensures trace[k].0.d >= trace[k + 1].0.d + trace[k + 2].0.d
    ensures trace[k].1.d >= trace[k + 1].1.d + trace[k + 2].1.d
  {
    assert IsNextPair(trace[k], trace[k + 1]) && IsNextPair(trace[k + 1], trace[k + 2]);
    ExpansionStaysNarrow(trace, x, y, k);
    DividendIsSum(trace[k].0, trace[k + 1].0, trace[k + 2].0);
    DividendIsSum(trace[k].1, trace[k + 1].1, trace[k + 2].1);
  }

  lemma DividendIsSum(c: Cycle, c': Cycle, c'': Cycle)
    requires WellFormed(c) && IsNext(c, c') && IsNext(c', c'')
    ensures c.d >= c'.d + c''.d
  {
    if c'.q <= 0 {
      WeakScale(c'.q, 0, c'.d);
    } else {
      WeakScale(1, c'.q, c'.d);
    }
  }

  /** Fibonacci numbers, from 1, 1 on. */
  function Fib(n: nat): nat {
    if n < 2 then 1 else Fib(n - 1) + Fib(n - 2)
  }

  lemma {:induction false} FibBounds(n: nat)
    ensures Fib(n) >= n && Fib(n) >= 1
    ensures n > 1 ==> Fib(n - 1) < Fib(n)
    ensures Fib(n) >= Pow2(n / 2)
  {
    if n >= 2 {
      FibBounds(n - 1);
      FibBounds(n - 2);
    }
  }

  /** From the end back, the divisors grow like the Fibonacci numbers. */
  lemma {:induction false} DivisorsGrow(trace: seq<(Cycle, Cycle)>, x: Rat, y: Rat, k: nat)
    requires IsExpansion(trace, x, y) && k < |trace|
    ensures trace[k].0.d >= Fib(|trace| - k) && trace[k].1.d >= Fib(|trace| - k)
    decreases |trace| - k
  {
    ExpansionStaysNarrow(trace, x, y, k);
    if k + 1 < |trace| {
      assert IsNextPair(trace[k], trace[k + 1]);
      DivisorsGrow(trace, x, y, k + 1);
      if k + 2 < |trace| {
        DivisorsGrow(trace, x, y, k + 2);
        DivisorsAdd(trace, x, y, k);
      }
    }
  }

  /**
   A loop of n cycles needs denominators of at least the n-th Fibonacci number (Lame's theorem), so the number of cycles
   is logarithmic in the smaller denominator.
   */
  lemma ExpansionIsShort(trace: seq<(Cycle, Cycle)>, x: Rat, y: Rat)
    requires IsExpansion(trace, x, y)
    ensures Fib(|trace|) <= x.den && Fib(|trace|) <= y.den
    ensures Pow2(|trace| / 2) <= x.den && Pow2(|trace| / 2) <= y.den
    ensures |trace| <= x.den && |trace| <= y.den
  {
    hide Fib, Pow2, IsNextPair;
    DivisorsGrow(trace, x, y, 0);
    FibBounds(|trace|);
  }

  // ----- the bound is attained

  /** The quotient of two successive Fibonacci numbers. */
  function Ratio(n: nat): Frac {
    Frac(Fib(n + 1), Fib(n))
  }

  lemma {:induction false} FibsAreCoprime(n: nat)
    ensures Coprime(Fib(n + 1), Fib(n))
  {
    if n == 0 {
      CoprimeIntro(1, 1, 1, 0);
    } else {
      FibsAreCoprime(n - 1);
      NextIsCoprime(Fib(n), Fib(n - 1), Fib(n + 1));
    }
  }

  lemma NextIsCoprime(a: int, b: int, c: int)
    requires Coprime(a, b) && c == a + b
    ensures Coprime(c, a)
  {
    hide Coprime;
    CoprimeSymmetric(a, b);
    CoprimeShift(b, a, 1);
  }

  lemma RatioIsReduced(n: nat)
    ensures Invariant(Ratio(n))
  {
    FibBounds(n);
    FibsAreCoprime(n);
  }

  /** The cycle in which the ratio of Fibonacci numbers n + 1 and n is divided. */
  function RatioCycle(n: nat): Cycle {
    if n < 2 then Cycle(Fib(n + 1), 1, Fib(n + 1), 0) else Cycle(Fib(n + 1), Fib(n), 1, Fib(n - 1))
  }

  lemma RatioCycles(n: nat)
    ensures WellFormed(RatioCycle(n)) && RatioCycle(n).n == Fib(n + 1) && RatioCycle(n).d == Fib(n)
    ensures n < 2 ==> RatioCycle(n).r == 0
    ensures n >= 2 ==> IsNext(RatioCycle(n), RatioCycle(n - 1))
  {
    FibBounds(n);
    if n > 0 { FibBounds(n - 1); }
    if n > 1 { FibBounds(n - 2); }
  }

  /** Comparing the ratio with itself takes exactly n cycles. */
  lemma ExpansionBoundIsAttained(n: nat) returns (trace: seq<(Cycle, Cycle)>)
    requires n > 0
    ensures Invariant(Ratio(n)) && Ratio(n).den == Fib(n)
    ensures |trace| == n && IsExpansion(trace, Ratio(n), Ratio(n)) && IsFinished(trace)
  {
    hide Fib, RatioCycle, WellFormed, IsNext;
    RatioIsReduced(n);
    trace := seq(n, k requires 0 <= k < n => (RatioCycle(n - k), RatioCycle(n - k)));
    RatioCycles(n);
    RatioCycles(1);
    forall k | 0 < k < n
      ensures IsNextPair(trace[k - 1], trace[k])
    {
      RatioCycles(n - (k - 1));
      assert n - (k - 1) - 1 == n - k;
    }
  }
}
