/**
 The tokenizer functions of `token_functions.hpp` as steps on values: what one call `f(next, end, tok)` returns, and how
 it changes the position and the state of the function object.
 */
module TokenFunctions {
  import opened Wrappers

  /** Delimiter tests of `char_separator`. */
  datatype Delims = Delims(kept: char -> bool, dropped: char -> bool) {
    predicate IsDelim(c: char) {
      kept(c) || dropped(c)
    }
  }

  /** The three character sets of `escaped_list_separator`. */
  datatype Escapes = Escapes(escape: string, c: string, quote: string)

  datatype Func =
    | Escaped(e: Escapes, last: bool)
    | Chars(d: Delims, keepEmpty: bool, done: bool)
    | Offsets(offsets: seq<int>, wrap: bool, partial: bool, current: nat)

  /** The two messages of `escaped_list_error`. */
  datatype Error = CannotEndWithEscape | UnknownEscapeSequence

  datatype Result =
    | Token(tok: string, next: nat, f: Func)
    | NoToken(next: nat, f: Func)
    | Throws(error: Error, next: nat, f: Func)

  function Step(f: Func, s: string, i: nat): (r: Result)
    requires i <= |s|
    requires f.Offsets? ==> f.offsets != []
    ensures i <= r.next <= |s|
  {
    match f
    case Escaped(e, last) =>
      if i == |s| then
        if last then Token("", i, f.(last := false)) else NoToken(i, f)
      else (
        match ScanField(e, s, i, false, "")
        case Ended(n, tok, sep) => Token(tok, n, f.(last := sep))
        case Failed(error, n) => Throws(error, n, f.(last := false))
      )
    case Chars(d, keepEmpty, done) =>
      if keepEmpty then KeepStep(f, s, i) else DropStep(f, s, i)
    case Offsets(offsets, wrap, partial, current) =>
      OffsetStep(f, s, i)
  }

  // ----- escaped_list_separator

  function Unescape(e: Escapes, c: char): Option<char> {
    if c == 'n' then Some('\n')
    else if c in e.quote || c in e.c || c in e.escape then Some(c)
    else None
  }

  datatype Scan = Ended(next: nat, tok: string, sep: bool) | Failed(error: Error, next: nat)

  /**
   The loop of one call: up to the next separator outside quotes, or the end. An exception leaves the position behind
   the escape character.
   */
  function ScanField(e: Escapes, s: string, i: nat, inQuote: bool, tok: string): (r: Scan)
    requires i <= |s|
    ensures i <= r.next <= |s|
    ensures r.Ended? && i < |s| ==> i < r.next
    decreases |s| - i
  {
    if i == |s| then Ended(i, tok, false)
    else if s[i] in e.escape then
      if i + 1 == |s| then Failed(CannotEndWithEscape, i + 1)
      else
        match Unescape(e, s[i + 1])
        case None => Failed(UnknownEscapeSequence, i + 1)
        case Some(c) => ScanField(e, s, i + 2, inQuote, tok + [c])
    else if s[i] in e.c then
      if !inQuote then Ended(i + 1, tok, true) else ScanField(e, s, i + 1, inQuote, tok + [s[i]])
    else if s[i] in e.quote then ScanField(e, s, i + 1, !inQuote, tok)
    else ScanField(e, s, i + 1, inQuote, tok + [s[i]])
  }

  // ----- char_separator

  /** The first delimiter at or after i, or the end. */
  function RunEnd(d: Delims, s: string, i: nat): (j: nat)
    requires i <= |s|
    ensures i <= j <= |s|
    ensures forall k :: i <= k < j ==> !d.IsDelim(s[k])
    ensures j < |s| ==> d.IsDelim(s[j])
    decreases |s| - i
  {
    if i == |s| || d.IsDelim(s[i]) then i else RunEnd(d, s, i + 1)
  }

  /** The first character at or after i that is not dropped, or the end. */
  function SkipDropped(d: Delims, s: string, i: nat): (j: nat)
    requires i <= |s|
    ensures i <= j <= |s|
    ensures forall k :: i <= k < j ==> d.dropped(s[k])
    ensures j < |s| ==> !d.dropped(s[j])
    decreases |s| - i
  {
    if i == |s| || !d.dropped(s[i]) then i else SkipDropped(d, s, i + 1)
  }

  function DropStep(f: Func, s: string, i: nat): Result
    requires f.Chars? && i <= |s|
  {
    var j := SkipDropped(f.d, s, i);
    if j == |s| then NoToken(j, f)
    else if f.d.kept(s[j]) then Token(s[j..j + 1], j + 1, f)
    else
      var k := RunEnd(f.d, s, j);
      Token(s[j..k], k, f)
  }

  function KeepStep(f: Func, s: string, i: nat): Result
    requires f.Chars? && i <= |s|
  {
    if i == |s| then
      if !f.done then Token("", i, f.(done := true)) else NoToken(i, f)
    else if f.d.kept(s[i]) then
      if !f.done then Token("", i, f.(done := true)) else Token(s[i..i + 1], i + 1, f.(done := false))
    else if !f.done && f.d.dropped(s[i]) then Token("", i, f.(done := true))
    else
      var j := if f.d.dropped(s[i]) then i + 1 else i;
      var k := RunEnd(f.d, s, j);
      Token(s[j..k], k, f.(done := true))
  }

  // ----- offset_separator

  function OffsetStep(f: Func, s: string, i: nat): Result
    requires f.Offsets? && f.offsets != [] && i <= |s|
  {
    if i == |s| then NoToken(i, f)
    else if f.current >= |f.offsets| && !f.wrap then NoToken(i, f)
    else
      var k := if f.current >= |f.offsets| then 0 else f.current;
      var c := f.offsets[k];
      var n := if c < 0 then 0 else Min(c, |s| - i);
      if !f.partial && n < c - 1 then NoToken(i + n, f.(current := k))
      else Token(s[i..i + n], i + n, f.(current := k + 1))
  }

  /** `reset`: the flag of `char_separator` is not touched. */
  function ResetOf(f: Func): Func {
    match f
    case Escaped(e, _) => f.(last := false)
    case Chars(_, _, _) => f
    case Offsets(_, _, _, _) => f.(current := 0)
  }

  // ----- whole runs

  /** Every call that returns a token makes progress. */
  predicate Progresses(f: Func) {
    f.Offsets? ==> f.offsets != [] && forall k :: 0 <= k < |f.offsets| ==> f.offsets[k] > 0
  }

  /** The termination measure of iteration: some calls return a token without consuming input. */
  function Measure(f: Func, s: string, i: nat): nat
    requires i <= |s|
  {
    2 * (|s| - i) + match f
                    case Escaped(_, last) => if last then 1 else 0
                    case Chars(_, keepEmpty, done) => if keepEmpty && !done then 1 else 0
                    case Offsets(_, _, _, _) => 0
  }

  lemma StepDecreases(f: Func, s: string, i: nat)
    requires i <= |s| && Progresses(f)
    ensures var r := Step(f, s, i);
            r.Token? ==> Progresses(r.f) && Measure(r.f, s, r.next) < Measure(f, s, i)
  {
  }

  /** The tokens of a run, and the exception that ended it, if any. */
  datatype Run = Run(tokens: seq<string>, error: Option<Error>)

  function Cons(tok: string, r: Run): Run {
    Run([tok] + r.tokens, r.error)
  }

  /** Calling the function again and again until it returns false or throws. */
  function Iterate(f: Func, s: string, i: nat): Run
    requires i <= |s| && Progresses(f)
    decreases Measure(f, s, i)
  {
    StepDecreases(f, s, i);
    match Step(f, s, i)
    case Token(tok, next, f') => Cons(tok, Iterate(f', s, next))
    case NoToken(_, _) => Run([], None)
    case Throws(error, _, _) => Run([], Some(error))
  }

  /** The function object after the call that ends the run. */
  function FinalState(f: Func, s: string, i: nat): Func
    requires i <= |s| && Progresses(f)
    decreases Measure(f, s, i)
  {
    StepDecreases(f, s, i);
    match Step(f, s, i)
    case Token(_, next, f') => FinalState(f', s, next)
    case NoToken(_, f') => f'
    case Throws(_, _, f') => f'
  }

  /** Where the call that ends the run leaves the position. */
  function FinalPosition(f: Func, s: string, i: nat): (j: nat)
    requires i <= |s| && Progresses(f)
    ensures i <= j <= |s|
    decreases Measure(f, s, i)
  {
    StepDecreases(f, s, i);
    match Step(f, s, i)
    case Token(_, next, f') => FinalPosition(f', s, next)
    case NoToken(next, _) => next
    case Throws(_, next, _) => next
  }

  /** A run that no exception ends has read everything, save that of offsets that do not wrap. */
  lemma {:induction false} RunsToTheEnd(f: Func, s: string, i: nat)
    requires i <= |s| && Progresses(f) && (f.Offsets? ==> f.wrap)
    requires Iterate(f, s, i).error.None?
    ensures FinalPosition(f, s, i) == |s|
    decreases Measure(f, s, i)
  {
    StepDecreases(f, s, i);
    var r := Step(f, s, i);
    if r.Token? { RunsToTheEnd(r.f, s, r.next); }
  }

  function Concat(ts: seq<string>): string {
    if ts == [] then "" else ts[0] + Concat(ts[1..])
  }

  lemma ConcatCons(t: string, ts: seq<string>)
    ensures Concat([t] + ts) == t + Concat(ts)
  {
  }
}
