/** What a whole run of `char_separator` computes, under both empty-token policies. */
module CharSeparatorLaws {
  import opened Wrappers
  import opened TokenFunctions

  // ----- the specification: split at every delimiter

  /** The pieces of s from i on, empty ones included, with each kept delimiter as a token of its own. */
  function Split(d: Delims, s: string, i: nat): (ts: seq<string>)
    requires i <= |s|
    ensures ts != []
    decreases |s| - i, 1
  {
    var j := RunEnd(d, s, i);
    [s[i..j]] + Rest(d, s, j)
  }

  /** What follows a piece that ends at j. */
  function Rest(d: Delims, s: string, j: nat): seq<string>
    requires j <= |s|
    decreases |s| - j, 0
  {
    if j == |s| then []
    else (if d.kept(s[j]) then [s[j..j + 1]] else []) + Split(d, s, j + 1)
  }

  function CountKept(d: Delims, s: string, i: nat): nat
    requires i <= |s|
    decreases |s| - i
  {
    if i == |s| then 0 else (if d.kept(s[i]) then 1 else 0) + CountKept(d, s, i + 1)
  }

  function CountDropped(d: Delims, s: string, i: nat): nat
    requires i <= |s|
    decreases |s| - i
  {
    if i == |s| then 0
    else (if d.dropped(s[i]) && !d.kept(s[i]) then 1 else 0) + CountDropped(d, s, i + 1)
  }

  lemma {:induction false} CountsSkipRun(d: Delims, s: string, i: nat)
    requires i <= |s|
    ensures CountKept(d, s, i) == CountKept(d, s, RunEnd(d, s, i))
    ensures CountDropped(d, s, i) == CountDropped(d, s, RunEnd(d, s, i))
    decreases |s| - i
  {
    if i < |s| && !d.IsDelim(s[i]) { CountsSkipRun(d, s, i + 1); }
  }

  /** One token more than there are dropped delimiters, and two more for each kept one. */
  lemma {:induction false} SplitCount(d: Delims, s: string, i: nat)
    requires i <= |s|
    ensures |Split(d, s, i)| == 1 + CountDropped(d, s, i) + 2 * CountKept(d, s, i)
    decreases |s| - i
  {
    CountsSkipRun(d, s, i);
    var j := RunEnd(d, s, i);
    if j < |s| { SplitCount(d, s, j + 1); }
  }

  /** The input without its dropped delimiters; a character in both sets counts as kept. */
  function Undropped(d: Delims, s: string, i: nat): string
    requires i <= |s|
    decreases |s| - i
  {
    if i == |s| then ""
    else (if d.dropped(s[i]) && !d.kept(s[i]) then "" else [s[i]]) + Undropped(d, s, i + 1)
  }

  lemma {:induction false} UndroppedRun(d: Delims, s: string, i: nat)
    requires i <= |s|
    ensures Undropped(d, s, i) == s[i..RunEnd(d, s, i)] + Undropped(d, s, RunEnd(d, s, i))
    decreases |s| - i
  {
    var j := RunEnd(d, s, i);
    if i < |s| && !d.IsDelim(s[i]) {
      UndroppedRun(d, s, i + 1);
      assert s[i..j] == [s[i]] + s[i + 1..j];
    }
  }

  /** Splitting loses the dropped delimiters and nothing else. */
  lemma {:induction false} SplitConcatenates(d: Delims, s: string, i: nat)
    requires i <= |s|
    ensures Concat(Split(d, s, i)) == Undropped(d, s, i)
    decreases |s| - i
  {
    var j := RunEnd(d, s, i);
    UndroppedRun(d, s, i);
    ConcatCons(s[i..j], Rest(d, s, j));
    if j < |s| {
      SplitConcatenates(d, s, j + 1);
      RestConcatenates(d, s, j);
    }
  }

  lemma RestConcatenates(d: Delims, s: string, j: nat)
    requires j < |s| && d.IsDelim(s[j])
    requires Concat(Split(d, s, j + 1)) == Undropped(d, s, j + 1)
    ensures Concat(Rest(d, s, j)) == Undropped(d, s, j)
  {
    hide Split, Concat;
    if d.kept(s[j]) {
      ConcatCons(s[j..j + 1], Split(d, s, j + 1));
      assert s[j..j + 1] == [s[j]];
    } else {
      assert Rest(d, s, j) == Split(d, s, j + 1);
    }
  }

  /** The independent reading of the tokens: a kept delimiter, or a piece free of delimiters. */
  predicate IsPiece(d: Delims, t: string) {
    forall k :: 0 <= k < |t| ==> !d.IsDelim(t[k])
  }

  predicate IsKeptDelim(d: Delims, t: string) {
    |t| == 1 && d.kept(t[0])
  }

  lemma {:induction false} SplitPieces(d: Delims, s: string, i: nat, k: nat)
    requires i <= |s| && k < |Split(d, s, i)|
    ensures var t := Split(d, s, i)[k]; IsPiece(d, t) || IsKeptDelim(d, t)
    decreases |s| - i
  {
    var j := RunEnd(d, s, i);
    if k > 0 && j < |s| {
      var before := if d.kept(s[j]) then 2 else 1;
      if k >= before { SplitPieces(d, s, j + 1, k - before); }
    }
  }

  // ----- keep_empty_tokens

  function Keep(d: Delims, done: bool): Func {
    Chars(d, true, done)
  }

  /**
   Iterating from a fresh function object splits at every delimiter; once the piece before position i has been
   delivered, what remains is Rest.
   */
  lemma {:induction false} KeepIsSplit(d: Delims, s: string, i: nat, done: bool)
    requires i <= |s|
    requires done ==> i == |s| || d.IsDelim(s[i])
    ensures Iterate(Keep(d, done), s, i) == Run(if done then Rest(d, s, i) else Split(d, s, i), None)
    decreases |s| - i, if done then 0 else 1
  {
    if i == |s| || d.IsDelim(s[i]) {
      if !done {
        KeepIsSplit(d, s, i, true);
        assert s[i..i] == "";
      } else if i < |s| {
        if d.kept(s[i]) {
          KeepIsSplit(d, s, i + 1, false);
        } else {
          KeepIsSplit(d, s, RunEnd(d, s, i + 1), true);
        }
      }
    } else {
      KeepIsSplit(d, s, RunEnd(d, s, i), true);
    }
  }

  /** A run that starts with the flag set is the split exactly when the input starts with no delimiter. */
  lemma StaleFlag(d: Delims, s: string)
    ensures Iterate(Keep(d, true), s, 0) == Run(Split(d, s, 0), None) <==> s != "" && !d.IsDelim(s[0])
    ensures s == "" || d.IsDelim(s[0]) ==> Split(d, s, 0) == [""] + Iterate(Keep(d, true), s, 0).tokens
  {
    if s == "" || d.IsDelim(s[0]) {
      KeepIsSplit(d, s, 0, true);
      assert s[0..0] == "";
      assert |Split(d, s, 0)| == 1 + |Rest(d, s, 0)|;
    } else {
      KeepIsSplit(d, s, RunEnd(d, s, 0), true);
    }
  }

  /** Every run ends with the flag set, wherever and in whatever state it starts. */
  lemma {:induction false} KeepEndsDone(d: Delims, s: string, i: nat, done: bool)
    requires i <= |s|
    ensures FinalState(Keep(d, done), s, i) == Keep(d, true)
    decreases Measure(Keep(d, done), s, i)
  {
    var f := Keep(d, done);
    StepDecreases(f, s, i);
    var r := Step(f, s, i);
    if r.Token? { KeepEndsDone(d, s, r.next, r.f.done); }
  }

  /**
   `reset` does nothing, so an object that has finished one input splits the next one like a fresh object exactly when
   that starts with a character that is no delimiter; otherwise the first, blank token is missing.
   */
  lemma ReusedObject(d: Delims, done: bool, first: string, second: string)
    ensures var used := ResetOf(FinalState(ResetOf(Keep(d, done)), first, 0));
            && Progresses(used)
            && (Iterate(used, second, 0) == Iterate(Keep(d, false), second, 0)
                <==> second != "" && !d.IsDelim(second[0]))
            && (second == "" || d.IsDelim(second[0]) ==>
                  Iterate(Keep(d, false), second, 0) == Cons("", Iterate(used, second, 0)))
  {
    KeepEndsDone(d, first, 0, done);
    KeepIsSplit(d, second, 0, false);
    StaleFlag(d, second);
    if second == "" || d.IsDelim(second[0]) { KeepIsSplit(d, second, 0, true); }
  }

  // ----- drop_empty_tokens

  function NonEmpty(ts: seq<string>): (r: seq<string>)
    ensures forall t :: t in r ==> t in ts && t != ""
  {
    if ts == [] then []
    else (if ts[0] == "" then [] else [ts[0]]) + NonEmpty(ts[1..])
  }

  lemma {:induction false} NonEmptyConcat(a: seq<string>, b: seq<string>)
    ensures NonEmpty(a + b) == NonEmpty(a) + NonEmpty(b)
    decreases |a|
  {
    if a == [] {
      assert a + b == b;
    } else {
      assert (a + b)[1..] == a[1..] + b;
      NonEmptyConcat(a[1..], b);
    }
  }

  lemma NonEmptyOne(t: string, ts: seq<string>)
    ensures NonEmpty([t] + ts) == (if t == "" then [] else [t]) + NonEmpty(ts)
  {
  }

  lemma {:induction false} ConcatNonEmpty(ts: seq<string>)
    ensures Concat(NonEmpty(ts)) == Concat(ts)
  {
    if ts != [] {
      ConcatNonEmpty(ts[1..]);
      if ts[0] != "" {
        ConcatCons(ts[0], NonEmpty(ts[1..]));
      } else {
        assert NonEmpty(ts) == NonEmpty(ts[1..]);
      }
    }
  }

  function Drop(d: Delims): Func {
    Chars(d, false, false)
  }

  /** Under this policy the test for dropped delimiters comes first. */
  function DroppedFirst(d: Delims): Delims {
    Delims(c => d.kept(c) && !d.dropped(c), d.dropped)
  }

  lemma {:induction false} RunEndIgnoresOrder(d: Delims, s: string, i: nat)
    requires i <= |s|
    ensures RunEnd(DroppedFirst(d), s, i) == RunEnd(d, s, i)
    decreases |s| - i
  {
  }

  /** At a delimiter the split starts with an empty piece. */
  lemma NonEmptyAtDelim(e: Delims, s: string, i: nat)
    requires i <= |s| && RunEnd(e, s, i) == i
    ensures NonEmpty(Split(e, s, i)) == NonEmpty(Rest(e, s, i))
  {
  }

  lemma NonEmptyAfterDelim(e: Delims, s: string, i: nat)
    requires i < |s| && e.IsDelim(s[i])
    ensures NonEmpty(Rest(e, s, i)) == (if e.kept(s[i]) then [s[i..i + 1]] else []) + NonEmpty(Split(e, s, i + 1))
  {
    hide Split, NonEmpty;
    if e.kept(s[i]) {
      NonEmptyOne(s[i..i + 1], Split(e, s, i + 1));
    } else {
      assert Rest(e, s, i) == Split(e, s, i + 1);
    }
  }

  lemma NonEmptyRun(e: Delims, s: string, i: nat)
    requires i < |s| && !e.IsDelim(s[i])
    ensures var k := RunEnd(e, s, i);
            NonEmpty(Split(e, s, i)) == [s[i..k]] + NonEmpty(Split(e, s, k))
  {
  }

  lemma IterateSkips(d: Delims, s: string, i: nat)
    requires i < |s| && d.dropped(s[i])
    ensures Iterate(Drop(d), s, i) == Iterate(Drop(d), s, i + 1)
  {
  }

  /** Dropping empty tokens gives the non-empty tokens of the full split. */
  lemma {:induction false} DropIsNonEmptySplit(d: Delims, s: string, i: nat)
    requires i <= |s|
    ensures Iterate(Drop(d), s, i) == Run(NonEmpty(Split(DroppedFirst(d), s, i)), None)
    decreases |s| - i
  {
    hide Split, NonEmpty;
    var e := DroppedFirst(d);
    RunEndIgnoresOrder(d, s, i);
    if i == |s| {
      NonEmptyAtDelim(e, s, i);
      NothingIsNonEmpty();
    } else if d.dropped(s[i]) {
      IterateSkips(d, s, i);
      NonEmptyAtDelim(e, s, i);
      NonEmptyAfterDelim(e, s, i);
      DropIsNonEmptySplit(d, s, i + 1);
    } else if d.kept(s[i]) {
      NonEmptyAtDelim(e, s, i);
      NonEmptyAfterDelim(e, s, i);
      DropIsNonEmptySplit(d, s, i + 1);
    } else {
      NonEmptyRun(e, s, i);
      DropIsNonEmptySplit(d, s, RunEnd(d, s, i));
    }
  }

  lemma NothingIsNonEmpty()
    ensures NonEmpty([]) == []
  {
  }

  /** All tokens are non-empty, and together they are the input without its dropped delimiters. */
  lemma DropTokens(d: Delims, s: string)
    ensures forall t :: t in Iterate(Drop(d), s, 0).tokens ==> t != ""
    ensures Concat(Iterate(Drop(d), s, 0).tokens) == Undropped(DroppedFirst(d), s, 0)
  {
    DropIsNonEmptySplit(d, s, 0);
    ConcatNonEmpty(Split(DroppedFirst(d), s, 0));
    SplitConcatenates(DroppedFirst(d), s, 0);
  }

  // ----- the two policies compared

  ghost predicate Disjoint(d: Delims) {
    forall c :: !(d.kept(c) && d.dropped(c))
  }

  ghost predicate PoliciesAgree(d: Delims) {
    forall s: string :: Iterate(Drop(d), s, 0).tokens == NonEmpty(Iterate(Keep(d, false), s, 0).tokens)
  }

  lemma {:induction false} SplitIgnoresOrder(d: Delims, s: string, i: nat)
    requires i <= |s| && Disjoint(d)
    ensures Split(DroppedFirst(d), s, i) == Split(d, s, i)
    decreases |s| - i
  {
    RunEndIgnoresOrder(d, s, i);
    var j := RunEnd(d, s, i);
    if j < |s| { SplitIgnoresOrder(d, s, j + 1); }
  }

  /** The policies differ only in the empty tokens, exactly when no character is both kept and dropped. */
  lemma PoliciesDifferInEmptyTokens(d: Delims)
    ensures PoliciesAgree(d) <==> Disjoint(d)
  {
    if Disjoint(d) {
      forall s: string
        ensures Iterate(Drop(d), s, 0).tokens == NonEmpty(Iterate(Keep(d, false), s, 0).tokens)
      {
        KeepIsSplit(d, s, 0, false);
        DropIsNonEmptySplit(d, s, 0);
        SplitIgnoresOrder(d, s, 0);
      }
    } else {
      var c :| d.kept(c) && d.dropped(c);
      var s := [c];
      KeepIsSplit(d, s, 0, false);
      assert Split(d, s, 0) == [s[0..0]] + ([s[0..1]] + Split(d, s, 1));
      NonEmptyOne(s[0..1], Split(d, s, 1));
      NonEmptyOne("", [s[0..1]] + Split(d, s, 1));
      assert SkipDropped(d, s, 0) == 1;
      assert Iterate(Drop(d), s, 0).tokens == [];
    }
  }
}
