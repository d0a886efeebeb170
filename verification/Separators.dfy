/**
 The function objects of `token_functions.hpp`, with their fields and loops. Each `Next` is `operator()`: it is given
 the range s[i..] and returns whether it found a token, the new position and the token; `singlePass` tells whether the
 iterator is an input iterator, which makes the token grow character by character instead of being assigned as a slice.
 */
module Separators {
  import opened Wrappers
  import opened TokenFunctions

  /** The results of one call, compared with the step on values. */
  ghost predicate Agrees(r: Result, found: bool, error: Option<Error>, next: nat, tok: string, f: Func) {
    match r
    case Token(t, n, f') => found && error == None && next == n && tok == t && f == f'
    case NoToken(n, f') => !found && error == None && next == n && f == f'
    case Throws(e, n, f') => !found && error == Some(e) && next == n && f == f'
  }

  // ----- assign_or_plus_equal

  function Clear(singlePass: bool, tok: string): string {
    if singlePass then "" else tok
  }

  function PlusEqual(singlePass: bool, tok: string, c: char): string {
    if singlePass then tok + [c] else tok
  }

  function Assign(singlePass: bool, tok: string, slice: string): string {
    if singlePass then tok else slice
  }

  lemma SliceGrows(s: string, i: nat, j: nat)
    requires i <= j < |s|
    ensures s[i..j + 1] == s[i..j] + [s[j]]
  {
  }

  class EscapedListSeparator {
    const escape: string
    const c: string
    const quote: string
    var last: bool

    ghost function State(): Func
      reads this
    {
      Escaped(Escapes(escape, c, quote), last)
    }

    constructor (e: char := '\\', c: char := ',', q: char := '\"')
      ensures State() == Escaped(Escapes([e], [c], [q]), false)
    {
      this.escape, this.c, this.quote, last := [e], [c], [q], false;
    }

    constructor Sets(e: string, c: string, q: string)
      ensures State() == Escaped(Escapes(e, c, q), false)
    {
      this.escape, this.c, this.quote, last := e, c, q, false;
    }

    method Reset()
      modifies this
      ensures State() == ResetOf(old(State()))
    {
      last := false;
    }

    /** Reads the character after an escape at position i; next is that character's position. */
    method DoEscape(s: string, i: nat, tok: string) returns (error: Option<Error>, next: nat, tok': string)
      requires i < |s|
      ensures next == i + 1
      ensures i + 1 == |s| ==> error == Some(CannotEndWithEscape)
      ensures i + 1 < |s| ==>
                var y := s[i + 1];
                if y != 'n' && y !in quote && y !in c && y !in escape then error == Some(UnknownEscapeSequence)
                else error == None && tok' == tok + [if y == 'n' then '\n' else y]
    {
      next, tok', error := i + 1, tok, None;
      if next == |s| {
        error := Some(CannotEndWithEscape);
      } else if s[next] == 'n' {
        tok' := tok + ['\n'];
      } else if s[next] in quote {
        tok' := tok + [s[next]];
      } else if s[next] in c {
        tok' := tok + [s[next]];
      } else if s[next] in escape {
        tok' := tok + [s[next]];
      } else {
        error := Some(UnknownEscapeSequence);
      }
    }

    method Next(s: string, i: nat) returns (found: bool, error: Option<Error>, next: nat, tok: string)
      requires i <= |s|
      modifies this
      ensures Agrees(Step(old(State()), s, i), found, error, next, tok, State())
    {
      var inQuote := false;
      tok, next, error := "", i, None;
      if next == |s| {
        found := last;
        last := false;
        return;
      }
      last := false;
      ghost var e := Escapes(escape, c, quote);
      while next != |s|
        invariant i <= next <= |s| && error == None && !last
        invariant ScanField(e, s, i, false, "") == ScanField(e, s, next, inQuote, tok)
        decreases |s| - next
      {
        if s[next] in escape {
          error, next, tok := DoEscape(s, next, tok);
          if error.Some? {
            found := false;
            return;
          }
        } else if s[next] in c {
          if !inQuote {
            next := next + 1;
            last := true;
            found := true;
            return;
          } else {
            tok := tok + [s[next]];
          }
        } else if s[next] in quote {
          inQuote := !inQuote;
        } else {
          tok := tok + [s[next]];
        }
        next := next + 1;
      }
      found := true;
    }
  }

  datatype EmptyTokenPolicy = DropEmptyTokens | KeepEmptyTokens

  class CharSeparator {
    const keptDelims: string
    const droppedDelims: string
    const useIsPunct: bool
    const useIsSpace: bool
    const emptyTokens: EmptyTokenPolicy
    // The classification of the locale, std::ispunct and std::isspace.
    const isPunct: char -> bool
    const isSpace: char -> bool
    var outputDone: bool
    ghost const d: Delims

    ghost predicate Valid() {
      forall c :: (d.kept(c) <==> IsKept(c)) && (d.dropped(c) <==> IsDropped(c))
    }

    ghost function State(): Func
      reads this
    {
      Chars(d, emptyTokens.KeepEmptyTokens?, outputDone)
    }

    constructor (droppedDelims: string, keptDelims: string := "", emptyTokens: EmptyTokenPolicy := DropEmptyTokens)
      ensures Valid() && State() == Chars(d, emptyTokens.KeepEmptyTokens?, false)
      ensures forall c :: (d.kept(c) <==> c in keptDelims) && (d.dropped(c) <==> c in droppedDelims)
    {
      this.droppedDelims, this.keptDelims, this.emptyTokens := droppedDelims, keptDelims, emptyTokens;
      useIsPunct, useIsSpace, outputDone := false, false, false;
      isPunct, isSpace := _ => false, _ => false;
      d := Delims(c => c in keptDelims, c => c in droppedDelims);
    }

    /** The default object: std::ispunct for kept delimiters and std::isspace for dropped ones. */
    constructor Default(isPunct: char -> bool, isSpace: char -> bool)
      ensures Valid() && State() == Chars(Delims(isPunct, isSpace), false, false)
    {
      this.droppedDelims, this.keptDelims, this.emptyTokens := "", "", DropEmptyTokens;
      useIsPunct, useIsSpace, outputDone := true, true, false;
      this.isPunct, this.isSpace := isPunct, isSpace;
      d := Delims(isPunct, isSpace);
    }

    /** `reset` of this class does nothing. */
    method Reset()
      modifies this
      ensures State() == ResetOf(old(State()))
    {
    }

    predicate IsKept(c: char) {
      if |keptDelims| > 0 then c in keptDelims
      else if useIsPunct then isPunct(c)
      else false
    }

    predicate IsDropped(c: char) {
      if |droppedDelims| > 0 then c in droppedDelims
      else if useIsSpace then isSpace(c)
      else false
    }

    method Next(s: string, i: nat, before: string, singlePass: bool)
      returns (found: bool, error: Option<Error>, next: nat, tok: string)
      requires i <= |s| && Valid()
      modifies this
      ensures Agrees(Step(old(State()), s, i), found, error, next, tok, State())
    {
      hide DropStep, KeepStep;
      tok, error := Clear(singlePass, before), None;
      if emptyTokens.DropEmptyTokens? {
        found, next, tok := NextNonEmpty(s, i, tok, singlePass);
      } else {
        found, next, tok := NextPiece(s, i, tok, singlePass);
      }
    }

    /** The branch for drop_empty_tokens. */
    method NextNonEmpty(s: string, i: nat, before: string, singlePass: bool)
      returns (found: bool, next: nat, tok: string)
      requires i <= |s| && Valid()
      requires singlePass ==> before == ""
      modifies this
      ensures Agrees(DropStep(old(State()), s, i), found, None, next, tok, State())
    {
      hide SkipDropped, RunEnd;
      tok := before;
      next := SkipDelims(s, i);
      var start := next;
      if next == |s| {
        found := false;
        return;
      }
      if IsKept(s[next]) {
        tok := PlusEqual(singlePass, tok, s[next]);
        next := next + 1;
      } else {
        next, tok := TakeRun(s, start, tok, singlePass);
      }
      tok := Assign(singlePass, tok, s[start..next]);
      found := true;
    }

    /** The branch for keep_empty_tokens. */
    method NextPiece(s: string, i: nat, before: string, singlePass: bool)
      returns (found: bool, next: nat, tok: string)
      requires i <= |s| && Valid()
      requires singlePass ==> before == ""
      modifies this
      ensures Agrees(KeepStep(old(State()), s, i), found, None, next, tok, State())
    {
      hide RunEnd;
      tok, next := before, i;
      var start := next;
      if next == |s| {
        if outputDone == false {
          outputDone := true;
          tok := Assign(singlePass, tok, s[start..next]);
          found := true;
          return;
        } else {
          found := false;
          return;
        }
      }
      if IsKept(s[next]) {
        if outputDone == false {
          outputDone := true;
        } else {
          tok := PlusEqual(singlePass, tok, s[next]);
          next := next + 1;
          outputDone := false;
        }
      } else if outputDone == false && IsDropped(s[next]) {
        outputDone := true;
      } else {
        if IsDropped(s[next]) {
          next := next + 1;
          start := next;
        }
        next, tok := TakeRun(s, start, tok, singlePass);
        outputDone := true;
      }
      tok := Assign(singlePass, tok, s[start..next]);
      found := true;
    }

    /** The loop that skips dropped delimiters. */
    method SkipDelims(s: string, i: nat) returns (next: nat)
      requires i <= |s| && Valid()
      ensures next == SkipDropped(d, s, i)
    {
      next := i;
      while next != |s| && IsDropped(s[next])
        invariant i <= next <= |s|
        invariant SkipDropped(d, s, i) == SkipDropped(d, s, next)
      {
        next := next + 1;
      }
    }

    /** The loop that appends the characters up to the next delimiter. */
    method TakeRun(s: string, start: nat, before: string, singlePass: bool) returns (next: nat, tok: string)
      requires start <= |s| && Valid()
      requires singlePass ==> before == ""
      ensures next == RunEnd(d, s, start)
      ensures singlePass ==> tok == s[start..next]
    {
      next, tok := start, before;
      while next != |s| && !IsDropped(s[next]) && !IsKept(s[next])
        invariant start <= next <= |s|
        invariant RunEnd(d, s, start) == RunEnd(d, s, next)
        invariant singlePass ==> tok == s[start..next]
      {
        SliceGrows(s, start, next);
        tok := PlusEqual(singlePass, tok, s[next]);
        next := next + 1;
      }
    }
  }

  class OffsetSeparator {
    const offsets: seq<int>
    const wrapOffsets: bool
    const returnPartialLast: bool
    var currentOffset: nat

    ghost predicate Valid()
      reads this
    {
      offsets != [] && currentOffset <= |offsets|
    }

    ghost function State(): Func
      reads this
    {
      Offsets(offsets, wrapOffsets, returnPartialLast, currentOffset)
    }

    constructor (offsets: seq<int> := [1], wrapOffsets: bool := true, returnPartialLast: bool := true)
      ensures State() == Offsets(offsets, wrapOffsets, returnPartialLast, 0)
    {
      this.offsets, this.wrapOffsets, this.returnPartialLast := offsets, wrapOffsets, returnPartialLast;
      currentOffset := 0;
    }

    method Reset()
      modifies this
      ensures State() == ResetOf(old(State()))
    {
      currentOffset := 0;
    }

    method Next(s: string, i: nat, before: string, singlePass: bool)
      returns (found: bool, error: Option<Error>, next: nat, tok: string)
      requires i <= |s| && Valid()
      modifies this
      ensures Valid()
      ensures Agrees(Step(old(State()), s, i), found, error, next, tok, State())
    {
      assert Step(State(), s, i) == OffsetStep(State(), s, i);
      hide Step;
      tok, next, error := Clear(singlePass, before), i, None;
      var start := next;
      if next == |s| {
        found := false;
        return;
      }
      if currentOffset == |offsets| {
        if wrapOffsets {
          currentOffset := 0;
        } else {
          found := false;
          return;
        }
      }
      var c := offsets[currentOffset];
      var k;
      k, next, tok := TakeUpTo(s, start, c, tok, singlePass);
      tok := Assign(singlePass, tok, s[start..next]);
      if !returnPartialLast {
        if k < c - 1 {
          found := false;
          return;
        }
      }
      currentOffset := currentOffset + 1;
      found := true;
    }

    /** The loop that appends at most c characters. */
    method TakeUpTo(s: string, start: nat, c: int, before: string, singlePass: bool)
      returns (k: nat, next: nat, tok: string)
      requires start <= |s|
      requires singlePass ==> before == ""
      ensures k == if c < 0 then 0 else Min(c, |s| - start)
      ensures next == start + k
      ensures singlePass ==> tok == s[start..next]
    {
      k, next, tok := 0, start, before;
      while k < c
        invariant k <= c || (c < 0 && k == 0)
        invariant next == start + k <= |s|
        invariant singlePass ==> tok == s[start..next]
      {
        if next == |s| { break; }
        SliceGrows(s, start, next);
        tok := PlusEqual(singlePass, tok, s[next]);
        next := next + 1;
        k := k + 1;
      }
    }
  }
}
