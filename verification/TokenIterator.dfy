/** `token_iterator`: the driver that turns a token function into a sequence of tokens. */
module TokenIterators {
  import opened Wrappers
  import opened TokenFunctions
  import opened Separators

  /** The template parameter TokenizerFunc. */
  datatype Function =
    | Escapeds(e: EscapedListSeparator)
    | CharSeps(c: CharSeparator)
    | OffsetSeps(o: OffsetSeparator)
  {
    ghost function Footprint(): set<object> {
      match this
      case Escapeds(e) => {e}
      case CharSeps(c) => {c}
      case OffsetSeps(o) => {o}
    }

    ghost predicate Valid()
      reads Footprint()
    {
      && (CharSeps? ==> c.Valid())
      && (OffsetSeps? ==> o.Valid())
    }

    ghost function State(): Func
      reads Footprint()
    {
      match this
      case Escapeds(e) => e.State()
      case CharSeps(c) => c.State()
      case OffsetSeps(o) => o.State()
    }

    method Reset()
      requires Valid()
      modifies Footprint()
      ensures Valid() && State() == ResetOf(old(State()))
    {
      match this
      case Escapeds(e) => e.Reset();
      case CharSeps(c) => c.Reset();
      case OffsetSeps(o) => o.Reset();
    }

    method Call(s: string, i: nat, before: string, singlePass: bool)
      returns (found: bool, error: Option<Error>, next: nat, tok: string)
      requires i <= |s| && Valid()
      modifies Footprint()
      ensures Valid()
      ensures Agrees(Step(old(State()), s, i), found, error, next, tok, State())
    {
      match this
      case Escapeds(e) => found, error, next, tok := e.Next(s, i);
      case CharSeps(c) => found, error, next, tok := c.Next(s, i, before, singlePass);
      case OffsetSeps(o) => found, error, next, tok := o.Next(s, i, before, singlePass);
    }
  }

  class TokenIterator {
    const f: Function
    const input: string
    const singlePass: bool
    var begin: nat
    var valid: bool
    var tok: string
    var error: Option<Error>    // the exception that left the last call, if any

    ghost predicate Valid()
      reads this, f.Footprint()
    {
      this !in f.Footprint() && begin <= |input| && f.Valid()
    }

    /** What the last call has done. */
    ghost predicate Follows(r: Result)
      reads this, f.Footprint()
    {
      match r
      case Token(t, n, f') => error.None? && valid && tok == t && begin == n && f.State() == f'
      case NoToken(n, f') => error.None? && !valid && begin == n && f.State() == f'
      case Throws(e, n, f') => error == Some(e) && begin == n && f.State() == f'
    }

    /** The tokens still to come, the current one first. */
    ghost function Remaining(): Run
      requires Valid() && Progresses(f.State())
      reads this, f.Footprint()
    {
      if error.Some? then Run([], error)
      else if valid then Cons(tok, Iterate(f.State(), input, begin))
      else Run([], None)
    }

    /** The function object as it will be when no token is left. */
    ghost function Final(): Func
      requires Valid() && Progresses(f.State())
      reads this, f.Footprint()
    {
      if valid && error.None? then FinalState(f.State(), input, begin) else f.State()
    }

    /** Iterating over an empty input yields nothing, whatever the function would return for it. */
    constructor (f: Function, input: string, singlePass: bool := false)
      requires f.Valid()
      modifies f.Footprint()
      ensures Valid() && this.f == f && this.input == input
      ensures input != "" ==> Follows(Step(ResetOf(old(f.State())), input, 0))
      ensures input == "" ==> !valid && error.None? && f.State() == ResetOf(old(f.State()))
      ensures input != "" && f.OffsetSeps? ==>
                Follows(Step(Offsets(f.o.offsets, f.o.wrapOffsets, f.o.returnPartialLast, 0), input, 0))
      ensures input != "" && f.Escapeds? ==>
                Follows(Step(Escaped(Escapes(f.e.escape, f.e.c, f.e.quote), false), input, 0))
      ensures Progresses(f.State()) <==> Progresses(old(f.State()))
      ensures Progresses(f.State()) ==>
                Remaining() == if input == "" then Run([], None) else Iterate(ResetOf(old(f.State())), input, 0)
      ensures Progresses(f.State()) && input != "" ==> Final() == FinalState(ResetOf(old(f.State())), input, 0)
    {
      this.f, this.input, this.singlePass := f, input, singlePass;
      begin, valid, tok, error := 0, false, "", None;
      new;
      Initialize();
    }

    method Initialize()
      requires f.Valid() && this !in f.Footprint() && begin == 0 && !valid && error == None
      modifies this, f.Footprint()
      ensures Valid()
      ensures input != "" ==> Follows(Step(ResetOf(old(f.State())), input, 0))
      ensures input == "" ==> !valid && error.None? && f.State() == ResetOf(old(f.State()))
    {
      f.Reset();
      if begin != |input| {
        Advance();
      } else {
        valid := false;
      }
    }

    /** Calls the function; an exception leaves `valid` as it was. */
    method Advance()
      requires Valid()
      modifies this, f.Footprint()
      ensures Valid() && Follows(Step(old(f.State()), input, old(begin)))
      ensures error.Some? ==> valid == old(valid)
    {
      var found, thrown, next, token := f.Call(input, begin, tok, singlePass);
      begin, tok, error := next, token, thrown;
      if thrown.None? { valid := found; }
    }

    method Increment()
      requires Valid() && valid
      modifies this, f.Footprint()
      ensures Valid() && Follows(Step(old(f.State()), input, old(begin)))
      ensures error.Some? ==> valid
      ensures old(error.None? && Progresses(f.State())) ==>
                Progresses(f.State()) && Cons(old(tok), Remaining()) == old(Remaining()) && Final() == old(Final())
    {
      Advance();
    }

    method Dereference() returns (t: string)
      requires Valid() && valid
      ensures t == tok
      ensures error.None? && Progresses(f.State()) ==> Remaining().tokens != [] && t == Remaining().tokens[0]
    {
      t := tok;
    }

    method AtEnd() returns (b: bool)
      requires Valid()
      ensures b <==> !valid
      ensures error.None? && Progresses(f.State()) ==> (b <==> Remaining() == Run([], None))
      ensures error.None? && Progresses(f.State()) && b ==> f.State() == Final()
    {
      b := !valid;
    }
  }
}
