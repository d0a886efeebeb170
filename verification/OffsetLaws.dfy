/** What a whole run of `offset_separator` computes. */
module OffsetLaws {
  import opened NumberTheory
  import opened Wrappers
  import opened TokenFunctions

  function Wrapping(offsets: seq<int>, current: nat): Func {
    Offsets(offsets, true, true, current)
  }

  /** The index of the offset that token k uses when `current` offsets have been used before. */
  function OffsetOf(offsets: seq<int>, current: nat, k: nat): int
    requires offsets != []
  {
    offsets[(current + k) % |offsets|]
  }

  lemma NextOffset(n: nat, current: nat, k: nat)
    requires 0 < current <= n
    ensures current == n ==> (0 + k) % n == (current + k) % n
  {
    if current == n {
      var q, r := k / n, k % n;
      assert n + k == n * (q + 1) + r;
      QuotientIsUnique(n, q + 1, (n + k) / n, r, (n + k) % n);
    }
  }

  lemma StepToken(offsets: seq<int>, wrap: bool, s: string, i: nat, current: nat)
    requires i < |s| && current <= |offsets| && Progresses(Offsets(offsets, wrap, true, current))
    requires wrap || current < |offsets|
    ensures var used := if current == |offsets| then 0 else current;
            var n := Min(offsets[used], |s| - i);
            Iterate(Offsets(offsets, wrap, true, current), s, i)
            == Cons(s[i..i + n], Iterate(Offsets(offsets, wrap, true, used + 1), s, i + n))
  {
  }

  lemma NothingLeft(offsets: seq<int>, wrap: bool, partial: bool, s: string, i: nat, current: nat)
    requires i <= |s| && Progresses(Offsets(offsets, wrap, partial, current))
    requires i == |s| || (!wrap && current >= |offsets|)
    ensures Iterate(Offsets(offsets, wrap, partial, current), s, i) == Run([], None)
  {
  }

  /** With positive offsets and wrapping, the tokens concatenate to the input. */
  lemma {:induction false} WrappingConcatenates(offsets: seq<int>, s: string, i: nat, current: nat)
    requires i <= |s| && current <= |offsets| && Progresses(Wrapping(offsets, current))
    ensures var r := Iterate(Wrapping(offsets, current), s, i);
            r.error == None && Concat(r.tokens) == s[i..]
    decreases |s| - i
  {
    hide Iterate;
    if i == |s| {
      NothingLeft(offsets, true, true, s, i, current);
    } else {
      var used := if current == |offsets| then 0 else current;
      var n := Min(offsets[used], |s| - i);
      StepToken(offsets, true, s, i, current);
      WrappingConcatenates(offsets, s, i + n, used + 1);
      ConcatCons(s[i..i + n], Iterate(Wrapping(offsets, used + 1), s, i + n).tokens);
      assert s[i..i + n] + s[i + n..] == s[i..];
    }
  }

  /** Token k has the length of the k-th offset in cyclic order, save that the last one may be shorter. */
  lemma {:induction false} TokenLengths(offsets: seq<int>, wrap: bool, s: string, i: nat, current: nat, k: nat)
    requires i <= |s| && current <= |offsets| && Progresses(Offsets(offsets, wrap, true, current))
    requires k < |Iterate(Offsets(offsets, wrap, true, current), s, i).tokens|
    ensures var ts := Iterate(Offsets(offsets, wrap, true, current), s, i).tokens;
            && 0 < |ts[k]| <= OffsetOf(offsets, current, k)
            && (k < |ts| - 1 ==> |ts[k]| == OffsetOf(offsets, current, k))
    decreases k
  {
    hide Iterate, OffsetOf;
    if i == |s| || (!wrap && current == |offsets|) {
      NothingLeft(offsets, wrap, true, s, i, current);
      assert false;
    } else {
      var used := if current == |offsets| then 0 else current;
      var n := Min(offsets[used], |s| - i);
      StepToken(offsets, wrap, s, i, current);
      NextToken(offsets, current, used, k);
      if k > 0 {
        TokenLengths(offsets, wrap, s, i + n, used + 1, k - 1);
      } else if i + n == |s| {
        NothingLeft(offsets, wrap, true, s, i + n, used + 1);
      }
    }
  }

  lemma SameOffset(m: nat, current: nat, used: nat, k: nat)
    requires m > 0 && current <= m && used == if current == m then 0 else current
    ensures (current + k) % m == (used + k) % m
    ensures k == 0 ==> (used + k) % m == used
  {
    if current == m { NextOffset(m, current, k); }
  }

  lemma NextToken(offsets: seq<int>, current: nat, used: nat, k: nat)
    requires offsets != [] && current <= |offsets| && used == if current == |offsets| then 0 else current
    ensures OffsetOf(offsets, current, k) == if k == 0 then offsets[used] else OffsetOf(offsets, used + 1, k - 1)
  {
    SameOffset(|offsets|, current, used, k);
    if k > 0 { assert used + 1 + (k - 1) == used + k; }
  }

  // ----- without wrapping

  function Sum(offsets: seq<int>, current: nat): int
    requires current <= |offsets|
    decreases |offsets| - current
  {
    if current == |offsets| then 0 else offsets[current] + Sum(offsets, current + 1)
  }

  /** Without wrapping each offset is used once, and what lies beyond their sum is never returned. */
  lemma {:induction false} UnwrappedCoversPrefix(offsets: seq<int>, s: string, i: nat, current: nat)
    requires i <= |s| && current <= |offsets|
    requires Progresses(Offsets(offsets, false, true, current))
    ensures Sum(offsets, current) >= 0
    ensures var r := Iterate(Offsets(offsets, false, true, current), s, i);
            && r.error == None
            && Concat(r.tokens) == s[i..Min(|s|, i + Sum(offsets, current))]
            && |r.tokens| <= |offsets| - current
    decreases |offsets| - current
  {
    hide Iterate, Concat;
    if current == |offsets| {
      NothingLeft(offsets, false, true, s, i, current);
      ConcatNothing();
    } else {
      UnwrappedCoversPrefix(offsets, s, Min(|s|, i + offsets[current]), current + 1);
      if i == |s| {
        NothingLeft(offsets, false, true, s, i, current);
        ConcatNothing();
      } else {
        var n := Min(offsets[current], |s| - i);
        StepToken(offsets, false, s, i, current);
        ConcatCons(s[i..i + n], Iterate(Offsets(offsets, false, true, current + 1), s, i + n).tokens);
        JoinSlices(s, i, i + n, Min(|s|, i + Sum(offsets, current)));
      }
    }
  }

  lemma ConcatNothing()
    ensures Concat([]) == ""
  {
  }

  lemma JoinSlices(s: string, i: nat, j: nat, k: nat)
    requires i <= j <= k <= |s|
    ensures s[i..j] + s[j..k] == s[i..k]
  {
  }

  // ----- reset, and offsets that are not positive

  /**
   Whatever offsets an object has used before, after reset token k has the length of offset k in cyclic order, save that
   the last may be shorter, and the tokens are the input, up to the sum of the offsets without wrapping.
   */
  lemma RunAfterReset(offsets: seq<int>, wrap: bool, current: nat, s: string)
    requires Progresses(Offsets(offsets, wrap, true, current))
    ensures var f := ResetOf(Offsets(offsets, wrap, true, current));
            Progresses(f) && Sum(offsets, 0) >= 0
            && var r := Iterate(f, s, 0);
            && r.error == None
            && Concat(r.tokens) == (if wrap then s else s[..Min(|s|, Sum(offsets, 0))])
            && (forall k :: 0 <= k < |r.tokens| ==> 0 < |r.tokens[k]| <= offsets[k % |offsets|])
            && (forall k :: 0 <= k < |r.tokens| - 1 ==> |r.tokens[k]| == offsets[k % |offsets|])
  {
    hide Iterate, Concat, Sum;
    assert s[0..] == s;
    UnwrappedCoversPrefix(offsets, s, 0, 0);
    if wrap { WrappingConcatenates(offsets, s, 0, 0); }
    forall k | 0 <= k < |Iterate(Offsets(offsets, wrap, true, 0), s, 0).tokens|
      ensures var ts := Iterate(Offsets(offsets, wrap, true, 0), s, 0).tokens;
              && 0 < |ts[k]| <= offsets[k % |offsets|]
              && (k < |ts| - 1 ==> |ts[k]| == offsets[k % |offsets|])
    {
      TokenLengths(offsets, wrap, s, 0, 0, k);
    }
  }

  lemma ResetForgets(offsets: seq<int>, wrap: bool, partial: bool, current: nat)
    ensures ResetOf(Offsets(offsets, wrap, partial, current)) == Offsets(offsets, wrap, partial, 0)
  {
  }

  /** Without wrapping a run stops behind the last offset, or at the end of a shorter input. */
  lemma {:induction false} UnwrappedStops(offsets: seq<int>, partial: bool, s: string, i: nat, current: nat)
    requires i <= |s| && current <= |offsets| && Progresses(Offsets(offsets, false, partial, current))
    ensures Sum(offsets, current) >= 0
    ensures FinalPosition(Offsets(offsets, false, partial, current), s, i) == Min(|s|, i + Sum(offsets, current))
    decreases |offsets| - current
  {
    if current < |offsets| {
      var j := Min(|s|, i + offsets[current]);
      UnwrappedStops(offsets, partial, s, j, current + 1);
    }
  }

  /** After a run an object has used, in cyclic order, as many offsets as it has returned tokens. */
  lemma {:induction false} OffsetsUsed(f: Func, s: string, i: nat)
    requires f.Offsets? && Progresses(f) && i <= |s| && f.current <= |f.offsets|
    ensures var f' := FinalState(f, s, i);
            && f'.Offsets? && f' == f.(current := f'.current)
            && f'.current % |f.offsets| == (f.current + |Iterate(f, s, i).tokens|) % |f.offsets|
            && (!f.wrap ==> f'.current == f.current + |Iterate(f, s, i).tokens|)
    decreases |s| - i
  {
    StepDecreases(f, s, i);
    var r, n := Step(f, s, i), |f.offsets|;
    var used := if f.current == n then 0 else f.current;
    SameOffset(n, f.current, used, 0);
    if r.Token? {
      OffsetsUsed(r.f, s, r.next);
      var rest := |Iterate(r.f, s, r.next).tokens|;
      SameOffset(n, f.current, used, 1 + rest);
      assert used + (1 + rest) == r.f.current + rest;
    }
  }

  /** An offset of zero or less yields a blank token and consumes nothing, so a run over such offsets does not end. */
  lemma BlankToken(offsets: seq<int>, wrap: bool, partial: bool, s: string, i: nat, current: nat)
    requires offsets != [] && i < |s| && current < |offsets| && offsets[current] <= 0
    ensures Step(Offsets(offsets, wrap, partial, current), s, i)
            == Token("", i, Offsets(offsets, wrap, partial, current + 1))
  {
    assert s[i..i + 0] == "";
  }

  // ----- return_partial_last == false

  /** The tokens without the last one if that lacks at least two characters: the test compares with c - 1. */
  function Trim(offsets: seq<int>, current: nat, ts: seq<string>): seq<string>
    requires offsets != []
  {
    if ts != [] && |ts[|ts| - 1]| < OffsetOf(offsets, current, |ts| - 1) - 1 then ts[..|ts| - 1] else ts
  }

  lemma TrimCons(offsets: seq<int>, current: nat, used: nat, tok: string, ts: seq<string>)
    requires offsets != [] && current <= |offsets| && used == if current == |offsets| then 0 else current
    ensures ts != [] ==> Trim(offsets, current, [tok] + ts) == [tok] + Trim(offsets, used + 1, ts)
    ensures ts == [] ==> Trim(offsets, current, [tok] + ts) == if |tok| < offsets[used] - 1 then [] else [tok]
  {
    hide OffsetOf;
    NextToken(offsets, current, used, |ts|);
    if ts != [] {
      assert ([tok] + ts)[..|ts|] == [tok] + ts[..|ts| - 1];
    }
  }

  lemma StepWithFlagOff(offsets: seq<int>, wrap: bool, s: string, i: nat, current: nat)
    requires i < |s| && current <= |offsets| && Progresses(Offsets(offsets, wrap, false, current))
    requires wrap || current < |offsets|
    ensures var used := if current == |offsets| then 0 else current;
            var n := Min(offsets[used], |s| - i);
            Iterate(Offsets(offsets, wrap, false, current), s, i)
            == if n < offsets[used] - 1 then Run([], None)
               else Cons(s[i..i + n], Iterate(Offsets(offsets, wrap, false, used + 1), s, i + n))
  {
  }

  /**
   With the flag off a run yields the tokens of the run with the flag on, minus the last one exactly when that is
   shorter than its offset by two or more.
   */
  lemma {:induction false} PartialTokenSuppressed(offsets: seq<int>, wrap: bool, s: string, i: nat, current: nat)
    requires i <= |s| && current <= |offsets| && Progresses(Offsets(offsets, wrap, true, current))
    ensures Iterate(Offsets(offsets, wrap, false, current), s, i)
            == Run(Trim(offsets, current, Iterate(Offsets(offsets, wrap, true, current), s, i).tokens), None)
    decreases |s| - i
  {
    hide Iterate, Trim;
    if i == |s| || (!wrap && current == |offsets|) {
      NothingLeft(offsets, wrap, true, s, i, current);
      NothingLeft(offsets, wrap, false, s, i, current);
      TrimNothing(offsets, current);
    } else {
      var used := if current == |offsets| then 0 else current;
      var n := Min(offsets[used], |s| - i);
      StepToken(offsets, wrap, s, i, current);
      StepWithFlagOff(offsets, wrap, s, i, current);
      var rest := Iterate(Offsets(offsets, wrap, true, used + 1), s, i + n).tokens;
      TrimCons(offsets, current, used, s[i..i + n], rest);
      PartialTokenSuppressed(offsets, wrap, s, i + n, used + 1);
      TrimNothing(offsets, used + 1);
      if n < offsets[used] { NothingLeft(offsets, wrap, true, s, i + n, used + 1); }
    }
  }

  lemma TrimNothing(offsets: seq<int>, current: nat)
    requires offsets != []
    ensures Trim(offsets, current, []) == []
  {
  }

  /** How many characters the last token lacks when `rest` characters are left to cut. */
  function ShortBy(offsets: seq<int>, wrap: bool, current: nat, rest: nat): (n: nat)
    requires current <= |offsets| && Progresses(Offsets(offsets, wrap, true, current))
    decreases rest
  {
    if rest == 0 || (!wrap && current == |offsets|) then 0
    else
      var used := if current == |offsets| then 0 else current;
      if rest <= offsets[used] then offsets[used] - rest
      else ShortBy(offsets, wrap, used + 1, rest - offsets[used])
  }

  predicate IsWhole(offsets: seq<int>, current: nat, ts: seq<string>, k: nat)
    requires offsets != [] && k < |ts|
  {
    |ts[k]| == OffsetOf(offsets, current, k)
  }

  predicate AllWhole(offsets: seq<int>, current: nat, ts: seq<string>)
    requires offsets != []
  {
    forall k :: 0 <= k < |ts| ==> IsWhole(offsets, current, ts, k)
  }

  lemma {:induction false} LastTokenLacks(offsets: seq<int>, wrap: bool, s: string, i: nat, current: nat)
    requires i <= |s| && current <= |offsets| && Progresses(Offsets(offsets, wrap, true, current))
    ensures var ts := Iterate(Offsets(offsets, wrap, true, current), s, i).tokens;
            var short := ShortBy(offsets, wrap, current, |s| - i);
            && (ts == [] ==> short == 0)
            && (ts != [] ==> |ts[|ts| - 1]| == OffsetOf(offsets, current, |ts| - 1) - short)
    decreases |s| - i
  {
    hide Iterate, OffsetOf;
    if i == |s| || (!wrap && current == |offsets|) {
      NothingLeft(offsets, wrap, true, s, i, current);
    } else {
      var used := if current == |offsets| then 0 else current;
      var n := Min(offsets[used], |s| - i);
      StepToken(offsets, wrap, s, i, current);
      var rest := Iterate(Offsets(offsets, wrap, true, used + 1), s, i + n).tokens;
      NextToken(offsets, current, used, |rest|);
      if |s| - i <= offsets[used] {
        NothingLeft(offsets, wrap, true, s, i + n, used + 1);
      } else {
        LastTokenLacks(offsets, wrap, s, i + n, used + 1);
      }
    }
  }

  /** With the flag off every token is whole, exactly when the last cut is not one character short. */
  lemma WholeTokensCondition(offsets: seq<int>, wrap: bool, s: string, i: nat, current: nat)
    requires i <= |s| && current <= |offsets| && Progresses(Offsets(offsets, wrap, true, current))
    ensures AllWhole(offsets, current, Iterate(Offsets(offsets, wrap, false, current), s, i).tokens)
            <==> ShortBy(offsets, wrap, current, |s| - i) != 1
  {
    hide Iterate, ShortBy, OffsetOf;
    var ts := Iterate(Offsets(offsets, wrap, true, current), s, i).tokens;
    PartialTokenSuppressed(offsets, wrap, s, i, current);
    LastTokenLacks(offsets, wrap, s, i, current);
    var short, kept := ShortBy(offsets, wrap, current, |s| - i), Trim(offsets, current, ts);
    assert kept == if short >= 2 then ts[..|ts| - 1] else ts;
    forall k | 0 <= k < |kept|
      ensures IsWhole(offsets, current, kept, k) <==> k < |ts| - 1 || short == 0
    {
      TokenLengths(offsets, wrap, s, i, current, k);
    }
    if short == 1 { assert !IsWhole(offsets, current, kept, |ts| - 1); }
  }

  /** A partial last token that comes out although it should not: "ab" cut from offset 3. */
  lemma PartialTokenReturned()
    ensures Step(Offsets([3], true, false, 0), "ab", 0) == Token("ab", 2, Offsets([3], true, false, 1))
  {
  }
}
