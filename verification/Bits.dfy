/** Numbers as bit sequences, most significant bit first, and the regrouping of a bit sequence into words. */
module Bits {
  import opened NumberTheory

  function Pow2(k: nat): (p: nat)
    ensures p > 0
  {
    if k == 0 then 1 else 2 * Pow2(k - 1)
  }

  /** The low w bits of v. */
  function BitsOf(v: nat, w: nat): (bs: seq<bool>)
    ensures |bs| == w
  {
    if w == 0 then [] else BitsOf(v / 2, w - 1) + [v % 2 == 1]
  }

  function ValueOf(bs: seq<bool>): nat {
    if bs == [] then 0
    else 2 * ValueOf(bs[..|bs| - 1]) + if bs[|bs| - 1] then 1 else 0
  }

  function Zeros(n: nat): (bs: seq<bool>)
    ensures |bs| == n
  {
    seq(n, _ => false)
  }

  lemma {:induction false} BitsOfValue(bs: seq<bool>)
    ensures BitsOf(ValueOf(bs), |bs|) == bs
    ensures ValueOf(bs) < Pow2(|bs|)
  {
    if bs != [] {
      var n := |bs| - 1;
      BitsOfValue(bs[..n]);
      assert bs == bs[..n] + [bs[n]];
      assert ValueOf(bs) / 2 == ValueOf(bs[..n]);
    }
  }

  lemma {:induction false} ValueOfBits(v: nat, w: nat)
    requires v < Pow2(w)
    ensures ValueOf(BitsOf(v, w)) == v
  {
    if w > 0 {
      BitsStep(v, w);
      ValueOfBits(v / 2, w - 1);
      assert BitsOf(v, w)[..w - 1] == BitsOf(v / 2, w - 1);
    }
  }

  lemma ValueStep(bs: seq<bool>, b: bool)
    ensures ValueOf(bs + [b]) == 2 * ValueOf(bs) + if b then 1 else 0
  {
  }

  lemma {:induction false} ValueOfConcat(a: seq<bool>, b: seq<bool>)
    ensures ValueOf(a + b) == ValueOf(a) * Pow2(|b|) + ValueOf(b)
    decreases |b|
  {
    if b == [] {
      assert a + b == a;
    } else {
      hide ValueOf;
      var n := |b| - 1;
      assert b == b[..n] + [b[n]];
      assert a + b == (a + b[..n]) + [b[n]];
      ValueStep(b[..n], b[n]);
      ValueStep(a + b[..n], b[n]);
      ValueOfConcat(a, b[..n]);
      DoubledFactor(ValueOf(a), Pow2(n));
    }
  }

  lemma DoubledFactor(x: nat, p: nat)
    ensures x * (2 * p) == 2 * (x * p)
  {
  }

  lemma {:induction false} ZeroBits(n: nat)
    ensures BitsOf(0, n) == Zeros(n)
  {
    if n > 0 {
      ZeroBits(n - 1);
      assert Zeros(n) == Zeros(n - 1) + [false];
    }
  }

  /** v >> k */
  function ShiftRight(v: nat, k: nat): nat {
    if k == 0 then v else ShiftRight(v / 2, k - 1)
  }

  lemma QuotientBy(d: nat, q: nat, r: nat)
    requires r < d
    ensures (d * q + r) / d == q && (d * q + r) % d == r
  {
    var n := d * q + r;
    QuotientIsUnique(d, q, n / d, r, n % d);
  }

  lemma BitsStep(v: nat, w: nat)
    requires w > 0
    ensures BitsOf(v, w) == BitsOf(v / 2, w - 1) + [v % 2 == 1]
  {
  }

  lemma AppendAssociates<T>(a: seq<T>, b: seq<T>, c: seq<T>)
    ensures (a + b) + c == a + (b + c)
  {
  }

  /** Shifting right drops the low bits. */
  lemma {:induction false} SplitBits(v: nat, m: nat, k: nat)
    ensures BitsOf(v, m + k) == BitsOf(ShiftRight(v, k), m) + BitsOf(v, k)
    decreases k
  {
    if k > 0 {
      SplitBits(v / 2, m, k - 1);
      BitsStep(v, m + k);
      BitsStep(v, k);
      AppendAssociates(BitsOf(ShiftRight(v, k), m), BitsOf(v / 2, k - 1), [v % 2 == 1]);
    }
  }

  /** v & ((1 << k) - 1) */
  function LowBits(v: nat, k: nat): nat {
    if k == 0 then 0 else 2 * LowBits(v / 2, k - 1) + v % 2
  }

  /** Shift and mask are quotient and remainder by the power of two. */
  lemma {:induction false} ShiftAndMask(v: nat, k: nat)
    ensures v == Pow2(k) * ShiftRight(v, k) + LowBits(v, k)
    ensures LowBits(v, k) < Pow2(k)
    decreases k
  {
    if k > 0 {
      ShiftAndMask(v / 2, k - 1);
      MulAssociates(2, Pow2(k - 1), ShiftRight(v / 2, k - 1));
    }
  }

  /** Masking to k bits keeps the low k bits. */
  lemma {:induction false} MaskBits(v: nat, k: nat)
    ensures BitsOf(LowBits(v, k), k) == BitsOf(v, k)
  {
    if k > 0 {
      MaskBits(v / 2, k - 1);
      BitsStep(v, k);
      BitsStep(LowBits(v, k), k);
    }
  }

  // ----- words

  function Flatten(vs: seq<nat>, w: nat): (bs: seq<bool>)
    ensures |bs| == |vs| * w
  {
    if vs == [] then [] else BitsOf(vs[0], w) + Flatten(vs[1..], w)
  }

  /** Words of w bits; the last one is filled up with zeros. */
  function Regroup(bs: seq<bool>, w: nat): seq<nat>
    requires w > 0
    decreases |bs|
  {
    if bs == [] then []
    else if |bs| < w then [ValueOf(bs + Zeros(w - |bs|))]
    else [ValueOf(bs[..w])] + Regroup(bs[w..], w)
  }

  /** Words of w bits; bits left over at the end are discarded. */
  function RegroupWhole(bs: seq<bool>, w: nat): seq<nat>
    requires w > 0
    decreases |bs|
  {
    if |bs| < w then [] else [ValueOf(bs[..w])] + RegroupWhole(bs[w..], w)
  }

  lemma {:induction false} FlattenConcat(a: seq<nat>, b: seq<nat>, w: nat)
    ensures Flatten(a + b, w) == Flatten(a, w) + Flatten(b, w)
    decreases |a|
  {
    if a == [] {
      assert a + b == b;
    } else {
      assert (a + b)[1..] == a[1..] + b;
      FlattenConcat(a[1..], b, w);
    }
  }

  function Padding(n: nat, w: nat): (k: nat)
    requires w > 0
    ensures k < w
  {
    if n % w == 0 then 0 else w - n % w
  }

  /** Regrouping loses nothing: flattened again, it is the bit sequence filled up to whole words. */
  lemma {:induction false} FlattenRegroup(bs: seq<bool>, w: nat)
    requires w > 0
    ensures Flatten(Regroup(bs, w), w) == bs + Zeros(Padding(|bs|, w))
    decreases |bs|
  {
    hide Padding, Zeros, ValueOf, BitsOf;
    PaddingBase(|bs|, w);
    if bs == [] {
    } else if |bs| < w {
      var full := bs + Zeros(w - |bs|);
      BitsOfValue(full);
      FlattenCons(ValueOf(full), [], w);
    } else {
      FlattenRegroup(bs[w..], w);
      BitsOfValue(bs[..w]);
      FlattenCons(ValueOf(bs[..w]), Regroup(bs[w..], w), w);
      PaddingStep(|bs|, w);
      AppendAssociates(bs[..w], bs[w..], Zeros(Padding(|bs|, w)));
      assert bs[..w] + bs[w..] == bs;
    }
  }

  lemma FlattenCons(v: nat, vs: seq<nat>, w: nat)
    ensures Flatten([v] + vs, w) == BitsOf(v, w) + Flatten(vs, w)
  {
  }

  lemma PaddingBase(n: nat, w: nat)
    requires w > 0
    ensures n < w ==> Padding(n, w) == if n == 0 then 0 else w - n
  {
  }

  lemma PaddingStep(n: nat, w: nat)
    requires 0 < w <= n
    ensures Padding(n, w) == Padding(n - w, w)
  {
    var q, r := (n - w) / w, (n - w) % w;
    assert n - w == w * q + r;
    assert n == w * (q + 1) + r;
    QuotientBy(w, q + 1, r);
  }

  /** Whole words survive flattening, whatever fewer than w bits follow. */
  lemma {:induction false} RegroupFlatten(vs: seq<nat>, w: nat, rest: seq<bool>)
    requires w > 0 && |rest| < w
    requires forall i :: 0 <= i < |vs| ==> vs[i] < Pow2(w)
    ensures RegroupWhole(Flatten(vs, w) + rest, w) == vs
    decreases |vs|
  {
    hide ValueOf, BitsOf;
    if vs == [] {
      assert Flatten(vs, w) + rest == rest;
    } else {
      var bs := Flatten(vs, w) + rest;
      assert |bs| >= w by { assert |Flatten(vs, w)| == w + |Flatten(vs[1..], w)|; }
      assert bs[..w] == BitsOf(vs[0], w);
      assert bs[w..] == Flatten(vs[1..], w) + rest;
      ValueOfBits(vs[0], w);
      RegroupFlatten(vs[1..], w, rest);
    }
  }
}
