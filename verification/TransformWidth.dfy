/** The Boost iterator adaptor `transform_width`: reads words of bitsIn bits, delivers words of bitsOut bits. */
module TransformWidths {
  import opened Bits

  class TransformWidth {
    const input: seq<nat>
    const bitsOut: nat
    const bitsIn: nat
    var base: nat                // position of the base iterator in the input
    var bufferOutFull: bool
    var bufferOut: nat
    var bufferIn: nat
    var remainingBits: nat
    var endOfSequence: bool

    ghost predicate Valid()
      reads this
    {
      && bitsIn > 0 && bitsOut > 0
      && base <= |input|
      && remainingBits < bitsIn
      && (endOfSequence ==> base == |input|)
    }

    /** The bits not delivered yet: those left in the input buffer, then those of the unread words. */
    ghost function Pending(): seq<bool>
      requires base <= |input|
      reads this
    {
      BitsOf(bufferIn, remainingBits) + Flatten(input[base..], bitsIn)
    }

    constructor (input: seq<nat>, bitsOut: nat, bitsIn: nat)
      requires bitsIn > 0 && bitsOut > 0
      ensures Valid() && !bufferOutFull && !endOfSequence
      ensures this.input == input && this.bitsOut == bitsOut && this.bitsIn == bitsIn
      ensures Pending() == Flatten(input, bitsIn)
    {
      this.input, this.bitsOut, this.bitsIn := input, bitsOut, bitsIn;
      base, bufferOutFull, bufferOut, bufferIn, remainingBits, endOfSequence := 0, false, 0, 0, 0, false;
      new;
      assert input[0..] == input;
    }

    /** `equal`, against the end iterator; it may note that the input is exhausted. */
    method AtEnd() returns (b: bool)
      requires Valid()
      modifies this`endOfSequence
      ensures Valid() && (endOfSequence <==> old(endOfSequence) || (bitsIn >= bitsOut && base == |input|))
      ensures bitsIn >= bitsOut ==> (b <==> Pending() == [])
      ensures bitsIn < bitsOut ==> (b <==> base == |input|)
    {
      if bitsIn < bitsOut {
        b := base == |input|;
      } else if base == |input| {
        endOfSequence := true;
        b := 0 == remainingBits;
      } else {
        UnreadBits(input, base, bitsIn);
        b := false;
      }
    }

    /** `dereference`: the word in the output buffer, filled if need be; false means reading past the end. */
    method Dereference() returns (ok: bool, v: nat)
      requires Valid()
      modifies this
      ensures Valid() && base >= old(base) && endOfSequence == old(endOfSequence)
      ensures old(bufferOutFull) ==> ok && bufferOutFull && v == old(bufferOut) && Pending() == old(Pending())
      ensures !old(bufferOutFull) ==> (ok <==> |old(Pending())| >= bitsOut || endOfSequence)
      ensures ok ==> bufferOutFull && v == bufferOut
      ensures ok && !old(bufferOutFull) ==>
                var bits := Filled(old(Pending()), bitsOut);
                v == ValueOf(bits[..bitsOut]) && Pending() == bits[bitsOut..]
    {
      ok := true;
      if !bufferOutFull { ok := Fill(); }
      v := bufferOut;
    }

    /** `increment` */
    method Increment()
      requires Valid()
      modifies this`bufferOutFull
      ensures Valid() && !bufferOutFull
    {
      bufferOutFull := false;
    }

    method Fill() returns (ok: bool)
      requires Valid()
      modifies this
      ensures Valid() && base >= old(base) && endOfSequence == old(endOfSequence)
      ensures ok <==> |old(Pending())| >= bitsOut || endOfSequence
      ensures ok ==> bufferOutFull
      ensures ok ==> var bits := Filled(old(Pending()), bitsOut);
                     bufferOut == ValueOf(bits[..bitsOut]) && Pending() == bits[bitsOut..]
    {
      hide ShiftRight, Pow2, ValueOf, BitsOf, Flatten;
      var missingBits := bitsOut;
      ghost var stream := Pending();
      ghost var source := stream;
      ghost var done: seq<bool> := [];
      bufferOut := 0;
      EmptyValue();
      while missingBits > 0
        invariant Valid() && base >= old(base) && endOfSequence == old(endOfSequence)
        invariant 0 <= missingBits <= bitsOut
        invariant |done| == bitsOut - missingBits && bufferOut == ValueOf(done)
        invariant done + Pending() == source
        invariant source == stream || (endOfSequence && source == Filled(stream, bitsOut))
      {
        if 0 == remainingBits {
          ok := Refill(missingBits);
          if !ok { return; }
          source := done + Pending();
        }
        var i := if missingBits < remainingBits then missingBits else remainingBits;
        done := MoveBits(i, done);
        missingBits := missingBits - i;
      }
      bufferOutFull := true;
      assert source == Filled(stream, bitsOut);
      SplitConcat(done, Pending());
      return true;
    }

    /** Reads the next word, or zeros when the end has been noted; false means reading past the end. */
    method Refill(missingBits: nat) returns (ok: bool)
      requires Valid() && remainingBits == 0 && missingBits > 0
      modifies this`base, this`bufferIn, this`remainingBits
      ensures base <= |input| && base >= old(base)
      ensures ok <==> remainingBits > 0
      ensures !endOfSequence ==> remainingBits <= bitsIn && (ok <==> old(Pending()) != [])
      ensures ok && !endOfSequence ==> Pending() == old(Pending())
      ensures endOfSequence ==> ok && base == |input|
      ensures endOfSequence ==> old(Pending()) == [] && remainingBits == missingBits && Pending() == Zeros(missingBits)
    {
      if endOfSequence {
        bufferIn, remainingBits := 0, missingBits;
        ZeroBits(missingBits);
      } else {
        if base == |input| { return false; }
        UnreadBits(input, base, bitsIn);
        bufferIn, base := input[base], base + 1;
        remainingBits := bitsIn;
      }
      return true;
    }

    /** Appends the top i of the remaining input bits to the output. */
    method MoveBits(i: nat, ghost done: seq<bool>) returns (ghost done': seq<bool>)
      requires base <= |input| && i <= remainingBits
      requires bufferOut == ValueOf(done)
      modifies this`bufferOut, this`remainingBits
      ensures remainingBits == old(remainingBits) - i
      ensures |done'| == |done| + i && bufferOut == ValueOf(done')
      ensures done' + Pending() == done + old(Pending())
    {
      hide ShiftRight, LowBits, Pow2, ValueOf, Flatten;
      var j := ShiftRight(bufferIn, remainingBits - i);
      j := LowBits(j, i);
      TakeBits(bufferIn, remainingBits, i);
      AppendToValue(done, i, bufferOut, j);
      bufferOut := bufferOut * Pow2(i) + j;
      remainingBits := remainingBits - i;
      done' := done + BitsOf(j, i);
    }
  }

  /** The bits, filled up with zeros to n of them. */
  ghost function Filled(bs: seq<bool>, n: nat): (fs: seq<bool>)
    ensures |fs| >= n && |fs| >= |bs|
    ensures |bs| >= n ==> fs == bs
  {
    if |bs| < n then bs + Zeros(n - |bs|) else bs
  }

  lemma SplitConcat(a: seq<bool>, b: seq<bool>)
    ensures (a + b)[..|a|] == a && (a + b)[|a|..] == b
  {
  }

  lemma EmptyValue()
    ensures ValueOf([]) == 0
  {
  }

  /** Reading the next word takes its bits off the unread ones. */
  lemma UnreadBits(input: seq<nat>, base: nat, w: nat)
    requires base < |input|
    ensures Flatten(input[base..], w) == BitsOf(input[base], w) + Flatten(input[base + 1..], w)
    ensures w > 0 ==> Flatten(input[base..], w) != []
  {
  }

  /** Shift and mask take the top i of the low n bits. */
  lemma TakeBits(v: nat, n: nat, i: nat)
    requires i <= n
    ensures BitsOf(v, n) == BitsOf(LowBits(ShiftRight(v, n - i), i), i) + BitsOf(v, n - i)
    ensures LowBits(ShiftRight(v, n - i), i) < Pow2(i)
  {
    SplitBits(v, i, n - i);
    MaskBits(ShiftRight(v, n - i), i);
    ShiftAndMask(ShiftRight(v, n - i), i);
  }

  /** Shifting the output left and or-ing in i bits appends them. */
  lemma AppendToValue(done: seq<bool>, i: nat, out: nat, j: nat)
    requires out == ValueOf(done) && j < Pow2(i)
    ensures out * Pow2(i) + j == ValueOf(done + BitsOf(j, i))
  {
    ValueOfConcat(done, BitsOf(j, i));
    ValueOfBits(j, i);
  }
}
