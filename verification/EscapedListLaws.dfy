/** What a whole run of `escaped_list_separator` computes, and when it can be undone. */
module EscapedListLaws {
  import opened Wrappers
  import opened TokenFunctions

  // ----- the specification: one automaton over the whole input

  /** Reads all fields in one pass; tok is the field read so far. */
  function Parse(e: Escapes, s: string, inQuote: bool, tok: string): Run
    decreases |s|
  {
    if s == "" then Run([tok], None)
    else if s[0] in e.escape then
      if |s| == 1 then Run([], Some(CannotEndWithEscape))
      else
        match Unescape(e, s[1])
        case None => Run([], Some(UnknownEscapeSequence))
        case Some(c) => Parse(e, s[2..], inQuote, tok + [c])
    else if s[0] in e.c then
      if inQuote then Parse(e, s[1..], true, tok + [s[0]])
      else Cons(tok, Parse(e, s[1..], false, ""))
    else if s[0] in e.quote then Parse(e, s[1..], !inQuote, tok)
    else Parse(e, s[1..], inQuote, tok + [s[0]])
  }

  /** One call of the function object reads one field of the automaton. */
  lemma {:induction false} ScanIsParse(e: Escapes, s: string, i: nat, inQuote: bool, tok: string)
    requires i <= |s|
    ensures Parse(e, s[i..], inQuote, tok) ==
            match ScanField(e, s, i, inQuote, tok) {
              case Failed(error, _) => Run([], Some(error))
              case Ended(n, t, sep) => if sep then Cons(t, Parse(e, s[n..], false, "")) else Run([t], None)
            }
    ensures var r := ScanField(e, s, i, inQuote, tok); r.Ended? && !r.sep ==> r.next == |s|
    decreases |s| - i
  {
    if i < |s| {
      assert s[i..][1..] == s[i + 1..];
      if s[i] in e.escape {
        if i + 1 < |s| && Unescape(e, s[i + 1]).Some? {
          assert s[i..][2..] == s[i + 2..];
          ScanIsParse(e, s, i + 2, inQuote, tok + [Unescape(e, s[i + 1]).value]);
        }
      } else if s[i] in e.c {
        if inQuote { ScanIsParse(e, s, i + 1, inQuote, tok + [s[i]]); }
      } else if s[i] in e.quote {
        ScanIsParse(e, s, i + 1, !inQuote, tok);
      } else {
        ScanIsParse(e, s, i + 1, inQuote, tok + [s[i]]);
      }
    }
  }

  /**
   The call-by-call run, with its flag for a blank field after a final separator, is the one-pass parse: same fields,
   same exception.
   */
  lemma {:induction false} IterateIsParse(e: Escapes, s: string, i: nat, last: bool)
    requires i <= |s| && (i < |s| || last)
    ensures Iterate(Escaped(e, last), s, i) == Parse(e, s[i..], false, "")
    decreases |s| - i
  {
    if i < |s| {
      ScanIsParse(e, s, i, false, "");
      var r := ScanField(e, s, i, false, "");
      if r.Ended? && r.sep { IterateIsParse(e, s, r.next, true); }
    } else {
      assert s[i..] == "";
    }
  }

  // ----- the grammar, one character at a time

  /** What a run yields after a separator; a blank field if nothing follows. */
  function Fields(e: Escapes, s: string): Run {
    Iterate(Escaped(e, true), s, 0)
  }

  /** The run whose first token is continued from t. */
  function Prepend(t: string, r: Run): Run {
    if r.tokens == [] then r else Run([t + r.tokens[0]] + r.tokens[1..], r.error)
  }

  lemma PrependTwice(t: string, u: string, r: Run)
    ensures Prepend(t, Prepend(u, r)) == Prepend(t + u, r)
  {
    if r.tokens != [] { assert t + (u + r.tokens[0]) == (t + u) + r.tokens[0]; }
  }

  lemma FieldsIsParse(e: Escapes, s: string)
    ensures Fields(e, s) == Parse(e, s, false, "")
    ensures s != "" ==> Iterate(Escaped(e, false), s, 0) == Fields(e, s)
  {
    assert s[0..] == s;
    IterateIsParse(e, s, 0, true);
    if s != "" { IterateIsParse(e, s, 0, false); }
  }

  /** The characters read so far only get in front of the first field. */
  lemma {:induction false} ParsePrepends(e: Escapes, s: string, inQuote: bool, tok: string)
    ensures Parse(e, s, inQuote, tok) == Prepend(tok, Parse(e, s, inQuote, ""))
    decreases |s|, 0
  {
    if s != "" {
      var x := s[0];
      if x in e.escape {
        if |s| > 1 && Unescape(e, s[1]).Some? {
          ParseOneMore(e, s[2..], inQuote, tok, Unescape(e, s[1]).value);
        }
      } else if x in e.c {
        if inQuote {
          ParseOneMore(e, s[1..], true, tok, x);
        } else {
          assert tok + "" == tok;
        }
      } else if x in e.quote {
        ParsePrepends(e, s[1..], !inQuote, tok);
      } else {
        ParseOneMore(e, s[1..], inQuote, tok, x);
      }
    } else {
      assert tok + "" == tok;
    }
  }

  lemma ParseOneMore(e: Escapes, s: string, inQuote: bool, tok: string, x: char)
    ensures Parse(e, s, inQuote, tok + [x]) == Prepend(tok, Parse(e, s, inQuote, "" + [x]))
    decreases |s|, 1
  {
    hide Parse;
    ParsePrepends(e, s, inQuote, tok + [x]);
    ParsePrepends(e, s, inQuote, [x]);
    PrependTwice(tok, [x], Parse(e, s, inQuote, ""));
    assert "" + [x] == [x];
  }

  /** The character an escaped y stands for; any other y is an error. */
  predicate CanFollowEscape(e: Escapes, y: char) {
    y == 'n' || y in e.escape || y in e.c || y in e.quote
  }

  function Meant(y: char): char {
    if y == 'n' then '\n' else y
  }

  /** What an escape character does, followed by t: in `continued`, reading goes on behind the escaped character. */
  ghost predicate EscapeIsRead(e: Escapes, t: string, r: Run, continued: string -> Run) {
    && (t == "" ==> r == Run([], Some(CannotEndWithEscape)))
    && (t != "" && !CanFollowEscape(e, t[0]) ==> r == Run([], Some(UnknownEscapeSequence)))
    && (t != "" && CanFollowEscape(e, t[0]) ==> r == Prepend([Meant(t[0])], continued(t[1..])))
  }

  /** Outside quotes: an escape, a separator, a quote, or any other character, tested in this order. */
  lemma FirstCharacter(e: Escapes, x: char, t: string)
    ensures Fields(e, "") == Run([""], None) && Iterate(Escaped(e, false), "", 0) == Run([], None)
    ensures Iterate(Escaped(e, false), [x] + t, 0) == Fields(e, [x] + t)
    ensures x in e.escape ==> EscapeIsRead(e, t, Fields(e, [x] + t), u => Fields(e, u))
    ensures x !in e.escape && x in e.c ==> Fields(e, [x] + t) == Cons("", Fields(e, t))
    ensures x !in e.escape && x !in e.c && x !in e.quote ==> Fields(e, [x] + t) == Prepend([x], Fields(e, t))
  {
    var s := [x] + t;
    assert s[1..] == t;
    if t != "" { assert s[2..] == t[1..] && s[1] == t[0]; }
    FieldsIsParse(e, "");
    FieldsIsParse(e, s);
    FieldsIsParse(e, t);
    if t != "" {
      FieldsIsParse(e, t[1..]);
      ParsePrepends(e, t[1..], false, "" + [Meant(t[0])]);
      assert "" + [Meant(t[0])] == [Meant(t[0])];
    }
    ParsePrepends(e, t, false, "" + [x]);
    assert "" + [x] == [x];
  }

  predicate IsQuote(e: Escapes, x: char) {
    x !in e.escape && x !in e.c && x in e.quote
  }

  /**
   Inside quotes, that is behind a quote character q: an escape does what it does outside, a second quote ends the
   quoting, and any other character, separators included, is part of the field. Quotes need not be closed.
   */
  lemma FirstQuoted(e: Escapes, q: char, x: char, t: string)
    requires IsQuote(e, q)
    ensures Fields(e, [q]) == Run([""], None)
    ensures x in e.escape ==> EscapeIsRead(e, t, Fields(e, [q, x] + t), u => Fields(e, [q] + u))
    ensures IsQuote(e, x) ==> Fields(e, [q, x] + t) == Fields(e, t)
    ensures x !in e.escape && !IsQuote(e, x) ==> Fields(e, [q, x] + t) == Prepend([x], Fields(e, [q] + t))
  {
    var s := [x] + t;
    assert s[1..] == t;
    if t != "" { assert s[2..] == t[1..] && s[1] == t[0]; }
    BehindQuote(e, q, "");
    BehindQuote(e, q, s);
    BehindQuote(e, q, t);
    FieldsIsParse(e, t);
    assert [q, x] + t == [q] + s && [q] + "" == [q];
    if t != "" {
      BehindQuote(e, q, t[1..]);
      ParsePrepends(e, t[1..], true, "" + [Meant(t[0])]);
      assert "" + [Meant(t[0])] == [Meant(t[0])];
    }
    ParsePrepends(e, t, true, "" + [x]);
    assert "" + [x] == [x];
  }

  lemma BehindQuote(e: Escapes, q: char, t: string)
    requires IsQuote(e, q)
    ensures Fields(e, [q] + t) == Parse(e, t, true, "")
  {
    assert ([q] + t)[1..] == t;
    FieldsIsParse(e, [q] + t);
  }

  predicate IsPlain(e: Escapes, p: string) {
    forall i :: 0 <= i < |p| ==> p[i] !in e.escape && p[i] !in e.c && p[i] !in e.quote
  }

  lemma {:induction false} PlainPrefix(e: Escapes, p: string, t: string)
    requires IsPlain(e, p)
    ensures Fields(e, p + t) == Prepend(p, Fields(e, t))
    decreases |p|
  {
    hide Iterate;
    if p == "" {
      assert p + t == t;
      FieldsIsParse(e, t);
      ParsePrepends(e, t, false, "");
    } else {
      assert p + t == [p[0]] + (p[1..] + t);
      FirstCharacter(e, p[0], p[1..] + t);
      PlainPrefix(e, p[1..], t);
      PrependTwice([p[0]], p[1..], Fields(e, t));
      assert [p[0]] + p[1..] == p;
    }
  }

  /**
   An escape x behind a plain prefix: followed by nothing, or by a y that is not 'n' and in none of the three sets, it
   ends the run with its exception and without a token; otherwise the field goes on with the character y stands for.
   */
  lemma EscapeInField(e: Escapes, p: string, x: char, y: char, t: string)
    requires IsPlain(e, p) && x in e.escape
    ensures Iterate(Escaped(e, false), p + [x], 0) == Run([], Some(CannotEndWithEscape))
    ensures Iterate(Escaped(e, false), p + [x, y] + t, 0)
            == if y != 'n' && y !in e.escape && y !in e.c && y !in e.quote then Run([], Some(UnknownEscapeSequence))
               else Prepend(p + [if y == 'n' then '\n' else y], Fields(e, t))
    ensures IsPlain(e, t) ==>
              (Iterate(Escaped(e, false), p + [x, y] + t, 0) == Run([], Some(UnknownEscapeSequence))
               <==> y != 'n' && y !in e.escape && y !in e.c && y !in e.quote)
  {
    hide Iterate;
    FieldsIsParse(e, p + [x]);
    FieldsIsParse(e, p + [x, y] + t);
    PlainPrefix(e, p, [x]);
    PlainPrefix(e, p, [x, y] + t);
    assert p + [x, y] + t == p + ([x, y] + t);
    assert [x, y] + t == [x] + ([y] + t) && ([y] + t)[1..] == t && [x] + "" == [x];
    FirstCharacter(e, x, "");
    FirstCharacter(e, x, [y] + t);
    PrependTwice(p, [Meant(y)], Fields(e, t));
    if IsPlain(e, t) {
      PlainPrefix(e, t, "");
      assert t + "" == t;
    }
  }

  /**
   An exception leaves the position just behind an escape character: at the end of the input, or before a character that
   cannot follow one.
   */
  lemma {:induction false} FailsBehindEscape(e: Escapes, s: string, i: nat, inQuote: bool, tok: string)
    requires i <= |s| && ScanField(e, s, i, inQuote, tok).Failed?
    ensures var r := ScanField(e, s, i, inQuote, tok);
            && i < r.next <= |s| && s[r.next - 1] in e.escape
            && (r.error == CannotEndWithEscape <==> r.next == |s|)
            && (r.error == UnknownEscapeSequence <==> r.next < |s| && !CanFollowEscape(e, s[r.next]))
    decreases |s| - i
  {
    if s[i] in e.escape {
      if i + 1 < |s| && Unescape(e, s[i + 1]).Some? {
        FailsBehindEscape(e, s, i + 2, inQuote, tok + [Unescape(e, s[i + 1]).value]);
      }
    } else if s[i] in e.c {
      if inQuote { FailsBehindEscape(e, s, i + 1, inQuote, tok + [s[i]]); }
    } else if s[i] in e.quote {
      FailsBehindEscape(e, s, i + 1, !inQuote, tok);
    } else {
      FailsBehindEscape(e, s, i + 1, inQuote, tok + [s[i]]);
    }
  }

  /** So does a run that an exception ends. */
  lemma {:induction false} RunFailsBehindEscape(e: Escapes, s: string, i: nat, last: bool)
    requires i <= |s| && Iterate(Escaped(e, last), s, i).error.Some?
    ensures var error, j := Iterate(Escaped(e, last), s, i).error.value, FinalPosition(Escaped(e, last), s, i);
            && i < j <= |s| && s[j - 1] in e.escape
            && (error == CannotEndWithEscape <==> j == |s|)
            && (error == UnknownEscapeSequence <==> j < |s| && !CanFollowEscape(e, s[j]))
    decreases Measure(Escaped(e, last), s, i)
  {
    var f := Escaped(e, last);
    StepDecreases(f, s, i);
    var r := Step(f, s, i);
    if r.Token? {
      RunFailsBehindEscape(e, s, r.next, r.f.last);
    } else if i < |s| {
      FailsBehindEscape(e, s, i, false, "");
    }
  }

  // ----- reset

  /** Every run ends with the flag cleared, exceptions included. */
  lemma {:induction false} EveryRunEndsFresh(e: Escapes, s: string, i: nat, last: bool)
    requires i <= |s|
    ensures FinalState(Escaped(e, last), s, i) == Escaped(e, false)
    decreases Measure(Escaped(e, last), s, i)
  {
    var f := Escaped(e, last);
    StepDecreases(f, s, i);
    var r := Step(f, s, i);
    if r.Token? { EveryRunEndsFresh(e, s, r.next, r.f.last); }
  }

  /** After reset, whatever the flag was, a run has no blank field for an empty input and is that of a fresh object. */
  lemma RunAfterReset(e: Escapes, last: bool, s: string)
    ensures ResetOf(Escaped(e, last)) == Escaped(e, false)
    ensures s == "" ==> Iterate(ResetOf(Escaped(e, last)), s, 0) == Run([], None)
    ensures s != "" ==> Iterate(ResetOf(Escaped(e, last)), s, 0) == Fields(e, s)
  {
    FieldsIsParse(e, s);
  }

  // ----- writing fields

  /** The characters a writer uses, each of a kind the reader recognises as such. */
  datatype Writer = Writer(escape: char, c: char, quote: char)

  predicate Fits(w: Writer, e: Escapes) {
    && w.escape in e.escape
    && w.c in e.c && w.c !in e.escape
    && w.quote in e.quote && w.quote !in e.escape && w.quote !in e.c
  }

  function EscapeChar(w: Writer, e: Escapes, x: char): string {
    if x == '\n' then [w.escape, 'n']
    else if x in e.escape || x in e.quote then [w.escape, x]
    else [x]
  }

  function EscapeAll(w: Writer, e: Escapes, field: string): string {
    if field == "" then "" else EscapeChar(w, e, field[0]) + EscapeAll(w, e, field[1..])
  }

  function Quoted(w: Writer, e: Escapes, field: string): string {
    [w.quote] + EscapeAll(w, e, field) + [w.quote]
  }

  function Joined(w: Writer, e: Escapes, fields: seq<string>): string
    requires fields != []
  {
    if |fields| == 1 then Quoted(w, e, fields[0])
    else Quoted(w, e, fields[0]) + [w.c] + Joined(w, e, fields[1..])
  }

  /** What the reader makes of one written character: 'n' stands for newline after an escape. */
  function ReadBack(e: Escapes, x: char): char {
    if x == 'n' && (x in e.escape || x in e.quote) then '\n' else x
  }

  function ReadBackAll(e: Escapes, field: string): string {
    seq(|field|, i requires 0 <= i < |field| => ReadBack(e, field[i]))
  }

  lemma ReadChar(w: Writer, e: Escapes, x: char, rest: string, tok: string)
    requires Fits(w, e)
    ensures Parse(e, EscapeChar(w, e, x) + rest, true, tok) == Parse(e, rest, true, tok + [ReadBack(e, x)])
  {
  }

  lemma ReadQuote(w: Writer, e: Escapes, rest: string, inQuote: bool, tok: string)
    requires Fits(w, e)
    ensures Parse(e, [w.quote] + rest, inQuote, tok) == Parse(e, rest, !inQuote, tok)
  {
  }

  lemma {:induction false} ReadField(w: Writer, e: Escapes, field: string, rest: string, tok: string)
    requires Fits(w, e)
    ensures Parse(e, EscapeAll(w, e, field) + ([w.quote] + rest), true, tok)
            == Parse(e, rest, false, tok + ReadBackAll(e, field))
    decreases |field|
  {
    hide Parse, EscapeChar, ReadBack;
    var tail := [w.quote] + rest;
    if field == "" {
      assert EscapeAll(w, e, field) + tail == tail;
      ReadQuote(w, e, rest, true, tok);
      assert tok + ReadBackAll(e, field) == tok;
    } else {
      var more := EscapeAll(w, e, field[1..]) + tail;
      assert EscapeAll(w, e, field) + tail == EscapeChar(w, e, field[0]) + more;
      ReadChar(w, e, field[0], more, tok);
      ReadField(w, e, field[1..], rest, tok + [ReadBack(e, field[0])]);
      assert tok + [ReadBack(e, field[0])] + ReadBackAll(e, field[1..]) == tok + ReadBackAll(e, field);
    }
  }

  lemma ReadQuoted(w: Writer, e: Escapes, field: string, rest: string)
    requires Fits(w, e)
    ensures Parse(e, Quoted(w, e, field) + rest, false, "") == Parse(e, rest, false, ReadBackAll(e, field))
  {
    var body := EscapeAll(w, e, field) + ([w.quote] + rest);
    assert Quoted(w, e, field) + rest == [w.quote] + body;
    ReadQuote(w, e, body, false, "");
    ReadField(w, e, field, rest, "");
    assert "" + ReadBackAll(e, field) == ReadBackAll(e, field);
  }

  function ReadBackFields(e: Escapes, fields: seq<string>): seq<string> {
    seq(|fields|, i requires 0 <= i < |fields| => ReadBackAll(e, fields[i]))
  }

  lemma {:induction false} ReadJoined(w: Writer, e: Escapes, fields: seq<string>)
    requires Fits(w, e) && fields != []
    ensures Parse(e, Joined(w, e, fields), false, "") == Run(ReadBackFields(e, fields), None)
    decreases |fields|
  {
    var field := fields[0];
    if |fields| == 1 {
      assert Joined(w, e, fields) == Quoted(w, e, field) + "";
      ReadQuoted(w, e, field, "");
      assert ReadBackFields(e, fields) == [ReadBackAll(e, field)];
    } else {
      var rest := [w.c] + Joined(w, e, fields[1..]);
      assert Joined(w, e, fields) == Quoted(w, e, field) + rest;
      ReadQuoted(w, e, field, rest);
      assert rest[0] == w.c && rest[1..] == Joined(w, e, fields[1..]);
      ReadJoined(w, e, fields[1..]);
      assert ReadBackFields(e, fields) == [ReadBackAll(e, field)] + ReadBackFields(e, fields[1..]);
    }
  }

  /** The tokens of written fields, read with a fresh function object. */
  lemma TokensOfJoined(w: Writer, e: Escapes, fields: seq<string>)
    requires Fits(w, e) && fields != []
    ensures Joined(w, e, fields) != ""
    ensures Iterate(Escaped(e, false), Joined(w, e, fields), 0) == Run(ReadBackFields(e, fields), None)
  {
    var s := Joined(w, e, fields);
    assert s[0..] == s;
    IterateIsParse(e, s, 0, false);
    ReadJoined(w, e, fields);
  }

  // ----- writing fields without quotes

  function EscapeBareChar(w: Writer, e: Escapes, x: char): string {
    if x == '\n' then [w.escape, 'n']
    else if x in e.escape || x in e.c || x in e.quote then [w.escape, x]
    else [x]
  }

  function EscapeBare(w: Writer, e: Escapes, field: string): string {
    if field == "" then "" else EscapeBareChar(w, e, field[0]) + EscapeBare(w, e, field[1..])
  }

  function JoinedBare(w: Writer, e: Escapes, fields: seq<string>): string
    requires fields != []
  {
    if |fields| == 1 then EscapeBare(w, e, fields[0])
    else EscapeBare(w, e, fields[0]) + [w.c] + JoinedBare(w, e, fields[1..])
  }

  function ReadBareChar(e: Escapes, x: char): char {
    if x == 'n' && (x in e.escape || x in e.c || x in e.quote) then '\n' else x
  }

  function ReadBare(e: Escapes, field: string): string {
    seq(|field|, i requires 0 <= i < |field| => ReadBareChar(e, field[i]))
  }

  lemma ReadOneBare(w: Writer, e: Escapes, x: char, rest: string, tok: string)
    requires Fits(w, e)
    ensures Parse(e, EscapeBareChar(w, e, x) + rest, false, tok) == Parse(e, rest, false, tok + [ReadBareChar(e, x)])
  {
  }

  lemma {:induction false} ReadBareField(w: Writer, e: Escapes, field: string, rest: string, tok: string)
    requires Fits(w, e)
    ensures Parse(e, EscapeBare(w, e, field) + rest, false, tok) == Parse(e, rest, false, tok + ReadBare(e, field))
    decreases |field|
  {
    hide Parse, EscapeBareChar, ReadBareChar;
    if field == "" {
      assert EscapeBare(w, e, field) + rest == rest;
      assert tok + ReadBare(e, field) == tok;
    } else {
      var more := EscapeBare(w, e, field[1..]) + rest;
      assert EscapeBare(w, e, field) + rest == EscapeBareChar(w, e, field[0]) + more;
      ReadOneBare(w, e, field[0], more, tok);
      ReadBareField(w, e, field[1..], rest, tok + [ReadBareChar(e, field[0])]);
      assert tok + [ReadBareChar(e, field[0])] + ReadBare(e, field[1..]) == tok + ReadBare(e, field);
    }
  }

  function ReadBareFields(e: Escapes, fields: seq<string>): seq<string> {
    seq(|fields|, i requires 0 <= i < |fields| => ReadBare(e, fields[i]))
  }

  lemma {:induction false} ReadJoinedBare(w: Writer, e: Escapes, fields: seq<string>)
    requires Fits(w, e) && fields != []
    ensures Parse(e, JoinedBare(w, e, fields), false, "") == Run(ReadBareFields(e, fields), None)
    decreases |fields|
  {
    hide EscapeBare, ReadBare;
    var field := fields[0];
    if |fields| == 1 {
      assert JoinedBare(w, e, fields) == EscapeBare(w, e, field) + "";
      ReadBareField(w, e, field, "", "");
      assert "" + ReadBare(e, field) == ReadBare(e, field);
      assert ReadBareFields(e, fields) == [ReadBare(e, field)];
    } else {
      var rest := [w.c] + JoinedBare(w, e, fields[1..]);
      assert JoinedBare(w, e, fields) == EscapeBare(w, e, field) + rest;
      ReadBareField(w, e, field, rest, "");
      assert "" + ReadBare(e, field) == ReadBare(e, field);
      assert rest[0] == w.c && rest[1..] == JoinedBare(w, e, fields[1..]);
      ReadJoinedBare(w, e, fields[1..]);
      assert ReadBareFields(e, fields) == [ReadBare(e, field)] + ReadBareFields(e, fields[1..]);
    }
  }

  /** What the iterator, which yields nothing for an empty input, makes of a text. */
  function TokensOf(e: Escapes, s: string): Run {
    if s == "" then Run([], None) else Iterate(Escaped(e, false), s, 0)
  }

  lemma TokensOfBare(w: Writer, e: Escapes, fields: seq<string>)
    requires Fits(w, e) && fields != []
    ensures JoinedBare(w, e, fields) == "" <==> fields == [""]
    ensures fields != [""] ==> TokensOf(e, JoinedBare(w, e, fields)) == Run(ReadBareFields(e, fields), None)
  {
    var s := JoinedBare(w, e, fields);
    assert s[0..] == s;
    if s != "" { IterateIsParse(e, s, 0, false); }
    ReadJoinedBare(w, e, fields);
  }

  ghost predicate BareRoundTrips(w: Writer, e: Escapes, fields: seq<string>)
    requires fields != []
  {
    TokensOf(e, JoinedBare(w, e, fields)) == Run(fields, None)
  }

  predicate ReadsBareN(e: Escapes) {
    'n' !in e.escape && 'n' !in e.c && 'n' !in e.quote
  }

  /**
   Fields written with escapes only come back exactly when the text is not empty, that is for every list but the one
   blank field, and no field contains an 'n' that had to be escaped.
   */
  lemma BareRoundTripCondition(w: Writer, e: Escapes, fields: seq<string>)
    requires Fits(w, e) && fields != []
    ensures BareRoundTrips(w, e, fields) <==>
              fields != [""] && (ReadsBareN(e) || forall i :: 0 <= i < |fields| ==> 'n' !in fields[i])
  {
    TokensOfBare(w, e, fields);
    if fields != [""] {
      if ReadsBareN(e) || forall i :: 0 <= i < |fields| ==> 'n' !in fields[i] {
        forall i | 0 <= i < |fields|
          ensures ReadBareFields(e, fields)[i] == fields[i]
        {
          assert ReadBare(e, fields[i]) == fields[i];
        }
        assert ReadBareFields(e, fields) == fields;
      } else {
        var i :| 0 <= i < |fields| && 'n' in fields[i];
        var k :| 0 <= k < |fields[i]| && fields[i][k] == 'n';
        assert ReadBareFields(e, fields)[i][k] == '\n';
      }
    }
  }

  // ----- when quoted fields come back

  ghost predicate RoundTrips(w: Writer, e: Escapes) {
    forall fields: seq<string> :: fields != [] ==>
      Iterate(Escaped(e, false), Joined(w, e, fields), 0) == Run(fields, None)
  }

  /**
   Writing and reading every list of fields gives the fields back exactly when 'n' is neither an escape nor a quote
   character. (The separator may be 'n'.)
   */
  lemma RoundTripCondition(w: Writer, e: Escapes)
    requires Fits(w, e)
    ensures RoundTrips(w, e) <==> 'n' !in e.escape && 'n' !in e.quote
  {
    if 'n' !in e.escape && 'n' !in e.quote {
      forall fields: seq<string> | fields != []
        ensures Iterate(Escaped(e, false), Joined(w, e, fields), 0) == Run(fields, None)
      {
        TokensOfJoined(w, e, fields);
        forall i | 0 <= i < |fields|
          ensures ReadBackFields(e, fields)[i] == fields[i]
        {
          assert ReadBackAll(e, fields[i]) == fields[i];
        }
        assert ReadBackFields(e, fields) == fields;
      }
    } else {
      var fields := ["n"];
      TokensOfJoined(w, e, fields);
      assert ReadBackFields(e, fields)[0][0] == '\n';
      assert fields[0][0] == 'n';
    }
  }

  /** The default object: backslash, comma and double quote. */
  lemma DefaultRoundTrips()
    ensures RoundTrips(Writer('\\', ',', '\"'), Escapes("\\", ",", "\""))
  {
    RoundTripCondition(Writer('\\', ',', '\"'), Escapes("\\", ",", "\""));
  }
}
