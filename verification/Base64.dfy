/** `EncodeBase64` and `DecodeBase64` of the JSON protocol. */
module Base64 {
  import opened NumberTheory
  import opened Bits
  import opened TransformWidths
  import opened Wrappers

  type sextet = x: nat | x < 64

  // ----- the two lookup tables

  const UPPER := "ABCDEFGHIJKLMNOPQRSTUVWXYZ"
  const LOWER := "abcdefghijklmnopqrstuvwxyz"
  const DIGITS := "0123456789"
  const ALPHABET: string := UPPER + LOWER + DIGITS + "+/"

  function FromSixBits(t: sextet): char {
    ALPHABET[t]
  }

  /** None stands for the exception invalid_base64_character; '=' is read as 0. */
  function ToSixBits(c: char): Option<sextet> {
    if 'A' <= c <= 'Z' then Some((c - 'A') as int)
    else if 'a' <= c <= 'z' then Some((c - 'a') as int + 26)
    else if '0' <= c <= '9' then Some((c - '0') as int + 52)
    else if c == '+' then Some(62)
    else if c == '/' then Some(63)
    else if c == '=' then Some(0)
    else None
  }

  /** The letter table: 26 capitals, 26 small letters, 10 digits and two signs. */
  function Letter(t: sextet): char {
    if t < 26 then 'A' + t as char
    else if t < 52 then 'a' + (t - 26) as char
    else if t < 62 then '0' + (t - 52) as char
    else if t == 62 then '+'
    else '/'
  }

  lemma AlphabetIsLetters(t: sextet)
    ensures FromSixBits(t) == Letter(t)
  {
    if t < 26 {
      UpperLetters(t);
    } else if t < 52 {
      LowerLetters(t - 26);
    } else if t < 62 {
      DigitLetters(t - 52);
    }
  }

  lemma UpperLetters(t: nat)
    requires t < 26
    ensures UPPER[t] == 'A' + t as char
  {
  }

  lemma LowerLetters(t: nat)
    requires t < 26
    ensures LOWER[t] == 'a' + t as char
  {
  }

  lemma DigitLetters(t: nat)
    requires t < 10
    ensures DIGITS[t] == '0' + t as char
  {
  }

  lemma TablesAreInverse(t: sextet)
    ensures ToSixBits(FromSixBits(t)) == Some(t)
    ensures FromSixBits(t) != '='
  {
    hide FromSixBits;
    AlphabetIsLetters(t);
  }

  /** A character is read as a sextet exactly when it is the letter of that sextet, or '=' and the sextet is 0. */
  lemma SixBitsExactly(c: char, t: sextet)
    ensures ToSixBits(c) == Some(t) <==> c == Letter(t) || (c == '=' && t == 0)
    ensures ToSixBits(c).None? <==> !IsLetter(c) && c != '='
  {
  }

  predicate IsLetter(c: char) {
    'A' <= c <= 'Z' || 'a' <= c <= 'z' || '0' <= c <= '9' || c == '+' || c == '/'
  }

  // ----- the specification of section 4 of RFC 4648

  /** A 24-bit group as four sextets. */
  function Quad(a: u8, b: u8, c: u8): (ts: seq<nat>)
    ensures |ts| == 4
    ensures forall i :: 0 <= i < 4 ==> ts[i] < 64
  {
    [a / 4, a % 4 * 16 + b / 16, b % 16 * 4 + c / 64, c % 64]
  }

  /** Whole groups of three bytes; a shorter last group is filled up with zeros, and '=' marks what is missing. */
  function Rfc4648(v: seq<u8>): string {
    if |v| == 0 then ""
    else if |v| == 1 then Letters(Quad(v[0], 0, 0)[..2]) + Equals(2)
    else if |v| == 2 then Letters(Quad(v[0], v[1], 0)[..3]) + Equals(1)
    else Letters(Quad(v[0], v[1], v[2])) + Rfc4648(v[3..])
  }

  /** The number of '=' and of bytes that decoding adds. */
  function Pad(n: nat): nat {
    (3 - n % 3) % 3
  }

  lemma {:induction false} Rfc4648Length(v: seq<u8>)
    ensures |Rfc4648(v)| == 4 * ((|v| + 2) / 3)
    decreases |v|
  {
    hide Quad, FromSixBits;
    if |v| >= 3 { Rfc4648Length(v[3..]); }
  }

  function Letters(ts: seq<nat>): (s: string)
    requires forall i :: 0 <= i < |ts| ==> ts[i] < 64
    ensures |s| == |ts|
  {
    seq(|ts|, i requires 0 <= i < |ts| => FromSixBits(ts[i]))
  }

  function Equals(n: nat): string {
    seq(n, _ => '=')
  }

  // ----- the bits of three bytes are the bits of four sextets

  /** The low k bits of a next to the top bits of b form one sextet. */
  lemma JoinBits(a: nat, b: nat, m: nat, k: nat)
    requires b < Pow2(k)
    ensures BitsOf(a * Pow2(k) + b, m + k) == BitsOf(a, m) + BitsOf(b, k)
  {
    hide Pow2, BitsOf, ShiftRight, LowBits;
    var x := a * Pow2(k) + b;
    SplitBits(x, m, k);
    MaskBits(x, k);
    ShiftAndMask(x, k);
    QuotientIsUnique(Pow2(k), a, ShiftRight(x, k), b, LowBits(x, k));
  }

  lemma Powers()
    ensures Pow2(2) == 4 && Pow2(4) == 16 && Pow2(6) == 64 && Pow2(8) == 256
  {
  }

  /** A byte is its top bits next to its low two, four or six. */
  lemma ByteSplits(a: u8)
    ensures BitsOf(a, 8) == BitsOf(a / 4, 6) + BitsOf(a % 4, 2)
    ensures BitsOf(a, 8) == BitsOf(a / 16, 4) + BitsOf(a % 16, 4)
    ensures BitsOf(a, 8) == BitsOf(a / 64, 2) + BitsOf(a % 64, 6)
  {
    hide BitsOf, Pow2;
    Powers();
    JoinBits(a / 4, a % 4, 6, 2);
    JoinBits(a / 16, a % 16, 4, 4);
    JoinBits(a / 64, a % 64, 2, 6);
  }

  lemma ThreeBytes(a: u8, b: u8, c: u8)
    ensures BitsOf(a, 8) + BitsOf(b, 8) + BitsOf(c, 8)
            == BitsOf(a / 4, 6) + BitsOf(a % 4 * 16 + b / 16, 6) + BitsOf(b % 16 * 4 + c / 64, 6) + BitsOf(c % 64, 6)
  {
    hide BitsOf, Pow2;
    Powers();
    ByteSplits(a);
    ByteSplits(b);
    ByteSplits(c);
    JoinBits(a % 4, b / 16, 2, 4);
    JoinBits(b % 16, c / 64, 4, 2);
    SixParts(BitsOf(a / 4, 6), BitsOf(a % 4, 2), BitsOf(b / 16, 4), BitsOf(b % 16, 4), BitsOf(c / 64, 2),
             BitsOf(c % 64, 6));
  }

  lemma SixParts<T>(a: seq<T>, b: seq<T>, c: seq<T>, d: seq<T>, e: seq<T>, f: seq<T>)
    ensures (a + b) + (c + d) + (e + f) == a + (b + c) + (d + e) + f
  {
  }

  lemma RegroupOne(t: nat, rest: seq<bool>)
    requires t < 64
    ensures Regroup(BitsOf(t, 6) + rest, 6) == [t] + Regroup(rest, 6)
  {
    Powers();
    ValueOfBits(t, 6);
    var bs := BitsOf(t, 6) + rest;
    assert bs[..6] == BitsOf(t, 6) && bs[6..] == rest;
  }

  lemma RegroupThreeBytes(a: u8, b: u8, c: u8, rest: seq<bool>)
    ensures Regroup(BitsOf(a, 8) + BitsOf(b, 8) + BitsOf(c, 8) + rest, 6)
            == Quad(a, b, c) + Regroup(rest, 6)
  {
    hide BitsOf, Regroup;
    ThreeBytes(a, b, c);
    var p, q, r, s := a / 4, a % 4 * 16 + b / 16, b % 16 * 4 + c / 64, c % 64;
    RegroupOne(s, rest);
    RegroupOne(r, BitsOf(s, 6) + rest);
    RegroupOne(q, BitsOf(r, 6) + (BitsOf(s, 6) + rest));
    RegroupOne(p, BitsOf(q, 6) + (BitsOf(r, 6) + (BitsOf(s, 6) + rest)));
    assert BitsOf(a, 8) + BitsOf(b, 8) + BitsOf(c, 8) + rest
        == BitsOf(p, 6) + (BitsOf(q, 6) + (BitsOf(r, 6) + (BitsOf(s, 6) + rest)));
  }

  /** Regrouping the bytes, looking the sextets up and padding is the encoding of the standard. */
  lemma {:induction false} RegroupIsRfc4648(v: seq<u8>)
    ensures var ts := Regroup(Flatten(v, 8), 6);
            && (forall i :: 0 <= i < |ts| ==> ts[i] < 64)
            && Letters(ts) + Equals(Pad(|v|)) == Rfc4648(v)
    decreases |v|
  {
    hide BitsOf, ValueOf, Letters, Quad;
    if |v| == 0 {
      NoBytes();
      assert v == [];
    } else if |v| == 1 {
      OneByte(v);
    } else if |v| == 2 {
      TwoBytes(v);
    } else {
      RegroupIsRfc4648(v[3..]);
      FlattenThree(v);
      RegroupThreeBytes(v[0], v[1], v[2], Flatten(v[3..], 8));
      Rfc4648Step(v, Regroup(Flatten(v[3..], 8), 6));
    }
  }

  lemma Rfc4648Step(v: seq<u8>, rest: seq<nat>)
    requires |v| >= 3
    requires forall i :: 0 <= i < |rest| ==> rest[i] < 64
    requires Letters(rest) + Equals(Pad(|v| - 3)) == Rfc4648(v[3..])
    ensures var ts := Quad(v[0], v[1], v[2]) + rest;
            && (forall i :: 0 <= i < |ts| ==> ts[i] < 64)
            && Letters(ts) + Equals(Pad(|v|)) == Rfc4648(v)
  {
    hide Quad;
    LettersConcat(Quad(v[0], v[1], v[2]), rest);
    PadStep(|v|);
    AppendAssociates(Letters(Quad(v[0], v[1], v[2])), Letters(rest), Equals(Pad(|v|)));
  }

  lemma LettersConcat(a: seq<nat>, b: seq<nat>)
    requires forall i :: 0 <= i < |a| ==> a[i] < 64
    requires forall i :: 0 <= i < |b| ==> b[i] < 64
    ensures forall i :: 0 <= i < |a + b| ==> (a + b)[i] < 64
    ensures Letters(a + b) == Letters(a) + Letters(b)
  {
  }

  lemma LettersAppend(ts: seq<nat>, t: sextet)
    requires forall i :: 0 <= i < |ts| ==> ts[i] < 64
    ensures forall i :: 0 <= i < |ts + [t]| ==> (ts + [t])[i] < 64
    ensures Letters(ts + [t]) == Letters(ts) + [FromSixBits(t)]
  {
  }

  lemma PadStep(n: nat)
    requires n >= 3
    ensures Pad(n) == Pad(n - 3)
  {
  }

  lemma FlattenThree(v: seq<u8>)
    requires |v| >= 3
    ensures Flatten(v, 8) == BitsOf(v[0], 8) + BitsOf(v[1], 8) + BitsOf(v[2], 8) + Flatten(v[3..], 8)
  {
    hide BitsOf, Flatten;
    assert v[0..] == v;
    UnreadBits(v, 0, 8);
    UnreadBits(v, 1, 8);
    UnreadBits(v, 2, 8);
    AppendAssociates(BitsOf(v[0], 8), BitsOf(v[1], 8), Flatten(v[2..], 8));
    AppendAssociates(BitsOf(v[0], 8) + BitsOf(v[1], 8), BitsOf(v[2], 8), Flatten(v[3..], 8));
  }

  lemma NoBytes()
    ensures Regroup(Flatten([], 8), 6) == [] && Letters([]) + Equals(0) == ""
  {
  }

  /** One or two bytes at the end: the last sextet is filled up with zero bits. */
  lemma OneByte(v: seq<u8>)
    requires |v| == 1
    ensures Regroup(Flatten(v, 8), 6) == Quad(v[0], 0, 0)[..2]
  {
    Powers();
    var a := v[0];
    ByteSplits(a);
    assert Flatten(v, 8) == BitsOf(a, 8) + Flatten(v[1..], 8);
    assert Flatten(v, 8) == BitsOf(a / 4, 6) + BitsOf(a % 4, 2);
    RegroupOne(a / 4, BitsOf(a % 4, 2));
    RegroupLast(a % 4, 2);
  }

  lemma TwoBytes(v: seq<u8>)
    requires |v| == 2
    ensures Regroup(Flatten(v, 8), 6) == Quad(v[0], v[1], 0)[..3]
  {
    hide BitsOf, ValueOf, Flatten, Regroup, Pow2, Quad;
    var a, b := v[0], v[1];
    assert v[0..] == v;
    UnreadBits(v, 0, 8);
    UnreadBits(v, 1, 8);
    NoBits(v[2..]);
    assert Flatten(v[1..], 8) == BitsOf(b, 8);
    assert Flatten(v, 8) == BitsOf(a, 8) + BitsOf(b, 8);
    TwoByteBits(a, b);
    TwoByteSextets(a, b);
  }

  lemma TwoByteSextets(a: u8, b: u8)
    ensures Regroup(BitsOf(a / 4, 6) + (BitsOf(a % 4 * 16 + b / 16, 6) + BitsOf(b % 16, 4)), 6) == Quad(a, b, 0)[..3]
  {
    hide BitsOf, ValueOf, Regroup, Pow2;
    Powers();
    var p, q, r := a / 4, a % 4 * 16 + b / 16, b % 16;
    assert Quad(a, b, 0)[..3] == [p, q, r * 4];
    RegroupLast(r, 4);
    RegroupOne(q, BitsOf(r, 4));
    RegroupOne(p, BitsOf(q, 6) + BitsOf(r, 4));
  }

  lemma NoBits(v: seq<u8>)
    requires v == []
    ensures Flatten(v, 8) == []
  {
  }

  lemma TwoByteBits(a: u8, b: u8)
    ensures BitsOf(a, 8) + BitsOf(b, 8)
            == BitsOf(a / 4, 6) + (BitsOf(a % 4 * 16 + b / 16, 6) + BitsOf(b % 16, 4))
  {
    hide BitsOf, Pow2;
    Powers();
    ByteSplits(a);
    ByteSplits(b);
    JoinBits(a % 4, b / 16, 2, 4);
    FourParts(BitsOf(a / 4, 6), BitsOf(a % 4, 2), BitsOf(b / 16, 4), BitsOf(b % 16, 4));
  }

  lemma FourParts<T>(a: seq<T>, b: seq<T>, c: seq<T>, d: seq<T>)
    ensures (a + b) + (c + d) == a + ((b + c) + d)
  {
  }

  lemma RegroupLast(t: nat, k: nat)
    requires 0 < k < 6 && t < Pow2(k)
    ensures Regroup(BitsOf(t, k), 6) == [t * Pow2(6 - k)]
  {
    hide Pow2, ValueOf;
    ZeroBits(6 - k);
    Powers();
    JoinBits(t, 0, k, 6 - k);
    ShiftedBelow(t, k);
    ValueOfBits(t * Pow2(6 - k), 6);
    FilledLast(BitsOf(t, k));
  }

  lemma FilledLast(bs: seq<bool>)
    requires 0 < |bs| < 6
    ensures Regroup(bs, 6) == [ValueOf(bs + Zeros(6 - |bs|))]
  {
  }

  lemma ShiftedBelow(t: nat, k: nat)
    requires 0 < k < 6 && t < Pow2(k)
    ensures t * Pow2(6 - k) < Pow2(6)
  {
  }

  // ----- encoding

  lemma RegroupNext(bs: seq<bool>)
    requires bs != []
    ensures var full := Filled(bs, 6);
            Regroup(bs, 6) == [ValueOf(full[..6])] + Regroup(full[6..], 6)
    ensures ValueOf(Filled(bs, 6)[..6]) < 64
  {
    Powers();
    BitsOfValue(Filled(bs, 6)[..6]);
    if |bs| < 6 {
      assert Filled(bs, 6)[..6] == Filled(bs, 6);
    }
  }

  method EncodeBase64(val: seq<u8>) returns (tmp: string)
    ensures tmp == Rfc4648(val)
    ensures |tmp| == 4 * ((|val| + 2) / 3)
  {
    hide BitsOf, ValueOf, Flatten, Regroup, Filled, FromSixBits, Rfc4648, Letters;
    var it := new TransformWidth(val, 6, 8);
    ghost var all := Regroup(Flatten(val, 8), 6);
    ghost var out: seq<nat> := [];
    tmp := "";
    RegroupIsRfc4648(val);
    NoBytes();
    while true
      invariant fresh(it) && it.Valid() && !it.bufferOutFull && it.bitsIn == 8 && it.bitsOut == 6
      invariant all == out + Regroup(it.Pending(), 6)
      invariant forall i :: 0 <= i < |out| ==> out[i] < 64
      invariant tmp == Letters(out)
      decreases |it.Pending()|
    {
      var atEnd := it.AtEnd();
      if atEnd { break; }
      ghost var pending := it.Pending();
      RegroupNext(pending);
      FilledShrinks(pending, 6);
      if !it.endOfSequence { UnreadBits(it.input, it.base, 8); }
      var ok, v := it.Dereference();
      assert ok;
      LettersAppend(out, v);
      out := out + [v];
      tmp := tmp + [FromSixBits(v)];
      it.Increment();
    }
    assert all == out;
    tmp := tmp + seq((3 - |val| % 3) % 3, _ => '=');
    assert tmp == Letters(out) + Equals(Pad(|val|));
    Rfc4648Length(val);
  }

  lemma FilledShrinks(bs: seq<bool>, w: nat)
    requires bs != [] && w > 0
    ensures |Filled(bs, w)[w..]| < |bs|
  {
  }

  // ----- decoding

  datatype Decoded = Bytes(out: seq<nat>) | InvalidCharacter | ReadPastEnd

  function Sextets(s: string): (r: Option<seq<nat>>)
    ensures r.Some? ==> |r.value| == |s| && forall i :: 0 <= i < |s| ==> ToSixBits(s[i]) == Some(r.value[i])
    ensures r.None? <==> exists i :: 0 <= i < |s| && ToSixBits(s[i]).None?
  {
    if s == "" then Some([])
    else
      match Sextets(s[..|s| - 1])
      case None => None
      case Some(ts) =>
        match ToSixBits(s[|s| - 1])
        case None => None
        case Some(t) => Some(ts + [t])
  }

  /** What decoding gives for every string: bits left over are discarded, and 4k + 1 characters lack bits. */
  function Decode(s: string): Decoded {
    match Sextets(s)
    case None => InvalidCharacter
    case Some(ts) => if |s| % 4 == 1 then ReadPastEnd else Bytes(RegroupWhole(Flatten(ts, 6), 8))
  }

  method LookUp(val: string) returns (r: Option<seq<nat>>)
    ensures r == Sextets(val)
  {
    hide ToSixBits;
    var ts: seq<nat> := [];
    for k := 0 to |val|
      invariant Sextets(val[..k]) == Some(ts)
    {
      assert val[..k + 1][..k] == val[..k];
      match ToSixBits(val[k]) {
        case None =>
          return None;
        case Some(t) =>
          ts := ts + [t];
      }
    }
    assert val[..|val|] == val;
    return Some(ts);
  }

  method DecodeBase64(val: string) returns (r: Decoded)
    ensures r == Decode(val)
  {
    hide BitsOf, ValueOf, Flatten, RegroupWhole, Filled, Sextets;
    var looked := LookUp(val);
    if looked.None? { return InvalidCharacter; }
    var ts := looked.value;
    var it := new TransformWidth(ts, 8, 6);
    ghost var all := Flatten(ts, 6);
    var out: seq<nat> := [];
    while true
      invariant fresh(it) && it.Valid() && !it.bufferOutFull && it.bitsIn == 6 && it.bitsOut == 8
      invariant it.input == ts && !it.endOfSequence
      invariant RegroupWhole(all, 8) == out + RegroupWhole(it.Pending(), 8)
      invariant |all| == 8 * |out| + |it.Pending()|
      decreases |it.Pending()|
    {
      var atEnd := it.AtEnd();
      if atEnd {
        WholeWordsEnd(it.Pending());
        CountLeftOver(|val|, |out|, |it.Pending()|);
        return Bytes(out);
      }
      ghost var pending := it.Pending();
      UnreadBits(it.input, it.base, 6);
      WholeWordsNext(pending);
      var ok, v := it.Dereference();
      if !ok {
        CountLeftOver(|val|, |out|, |pending|);
        return ReadPastEnd;
      }
      out := out + [v];
      it.Increment();
    }
  }

  /** Characters of six bits leave over six bits only when their number is one more than a multiple of four. */
  lemma CountLeftOver(chars: nat, bytes: nat, rest: nat)
    requires 6 * chars == 8 * bytes + rest && rest < 8
    ensures rest < 6 <==> chars % 4 != 1
  {
    var k, m := chars / 4, chars % 4;
    assert 6 * chars == 8 * (3 * k) + 6 * m;
    if m == 0 { QuotientIsUnique(8, bytes, 3 * k, rest, 0); }
    if m == 1 { QuotientIsUnique(8, bytes, 3 * k, rest, 6); }
    if m == 2 { QuotientIsUnique(8, bytes, 3 * k + 1, rest, 4); }
    if m == 3 { QuotientIsUnique(8, bytes, 3 * k + 2, rest, 2); }
  }

  lemma WholeWordsNext(bs: seq<bool>)
    ensures |bs| >= 8 ==> Filled(bs, 8) == bs
    ensures |bs| >= 8 ==> RegroupWhole(bs, 8) == [ValueOf(bs[..8])] + RegroupWhole(bs[8..], 8)
  {
  }

  lemma WholeWordsEnd(bs: seq<bool>)
    ensures |bs| < 8 ==> RegroupWhole(bs, 8) == []
  {
  }

  // ----- what decoding gives, group by group

  /** The three bytes of four sextets; of a shorter last group only its whole bytes. */
  function Bytewise(ts: seq<nat>): seq<nat> {
    if |ts| < 2 then []
    else if |ts| == 2 then [ts[0] * 4 + ts[1] / 16]
    else if |ts| == 3 then [ts[0] * 4 + ts[1] / 16, ts[1] % 16 * 16 + ts[2] / 4]
    else [ts[0] * 4 + ts[1] / 16, ts[1] % 16 * 16 + ts[2] / 4, ts[2] % 4 * 64 + ts[3]] + Bytewise(ts[4..])
  }

  /** A sextet is its top bits next to its low two or four. */
  lemma SextetSplits(t: sextet)
    ensures BitsOf(t, 6) == BitsOf(t / 4, 4) + BitsOf(t % 4, 2)
    ensures BitsOf(t, 6) == BitsOf(t / 16, 2) + BitsOf(t % 16, 4)
  {
    hide BitsOf, Pow2;
    Powers();
    JoinBits(t / 4, t % 4, 4, 2);
    JoinBits(t / 16, t % 16, 2, 4);
  }

  lemma TwoSextets(p: sextet, q: sextet)
    ensures BitsOf(p, 6) + BitsOf(q, 6) == BitsOf(p * 4 + q / 16, 8) + BitsOf(q % 16, 4)
  {
    hide BitsOf, Pow2;
    Powers();
    SextetSplits(q);
    JoinBits(p, q / 16, 6, 2);
    AppendAssociates(BitsOf(p, 6), BitsOf(q / 16, 2), BitsOf(q % 16, 4));
  }

  lemma ThreeSextets(p: sextet, q: sextet, r: sextet)
    ensures BitsOf(p, 6) + BitsOf(q, 6) + BitsOf(r, 6)
            == BitsOf(p * 4 + q / 16, 8) + (BitsOf(q % 16 * 16 + r / 4, 8) + BitsOf(r % 4, 2))
  {
    hide BitsOf, Pow2;
    Powers();
    TwoSextets(p, q);
    SextetSplits(r);
    JoinBits(q % 16, r / 4, 4, 4);
    FourParts(BitsOf(p * 4 + q / 16, 8), BitsOf(q % 16, 4), BitsOf(r / 4, 4), BitsOf(r % 4, 2));
    AppendAssociates(BitsOf(p * 4 + q / 16, 8), BitsOf(q % 16 * 16 + r / 4, 8), BitsOf(r % 4, 2));
  }

  /** Four sextets, the middle ones given by their parts. */
  lemma FourSextets(p: sextet, q: nat, q': nat, r: nat, r': nat, s: sextet)
    requires q < 4 && q' < 16 && r < 16 && r' < 4
    ensures BitsOf(p, 6) + BitsOf(q * 16 + q', 6) + BitsOf(r * 4 + r', 6) + BitsOf(s, 6)
            == BitsOf(p * 4 + q, 8) + (BitsOf(q' * 16 + r, 8) + BitsOf(r' * 64 + s, 8))
  {
    hide BitsOf, Pow2;
    Powers();
    JoinBits(q, q', 2, 4);
    JoinBits(r, r', 4, 2);
    JoinBits(p, q, 6, 2);
    JoinBits(q', r, 4, 4);
    JoinBits(r', s, 2, 6);
    BytesOfParts(BitsOf(p, 6), BitsOf(q, 2), BitsOf(q', 4), BitsOf(r, 4), BitsOf(r', 2), BitsOf(s, 6));
  }

  lemma BytesOfParts<T>(a: seq<T>, b: seq<T>, c: seq<T>, d: seq<T>, e: seq<T>, f: seq<T>)
    ensures a + (b + c) + (d + e) + f == (a + b) + ((c + d) + (e + f))
  {
  }

  lemma WholeByte(b: nat, rest: seq<bool>)
    requires b < 256
    ensures RegroupWhole(BitsOf(b, 8) + rest, 8) == [b] + RegroupWhole(rest, 8)
  {
    hide BitsOf, ValueOf, Pow2;
    Powers();
    ValueOfBits(b, 8);
    var bs := BitsOf(b, 8) + rest;
    assert bs[..8] == BitsOf(b, 8) && bs[8..] == rest;
  }

  predicate AreSextets(ts: seq<nat>) {
    forall i :: 0 <= i < |ts| ==> ts[i] < 64
  }

  /** Regrouping the bits into whole bytes is the group-wise arithmetic. */
  lemma {:induction false} RegroupIsBytewise(ts: seq<nat>)
    requires AreSextets(ts)
    ensures RegroupWhole(Flatten(ts, 6), 8) == Bytewise(ts)
    decreases |ts|
  {
    hide BitsOf, RegroupWhole, Flatten;
    if |ts| < 2 {
      WholeWordsEnd(Flatten(ts, 6));
    } else if |ts| < 4 {
      LastSextets(ts);
    } else {
      var p, q, r, s := ts[0], ts[1], ts[2], ts[3];
      var rest := Flatten(ts[4..], 6);
      FlattenFour(ts);
      FourSextets(p, q / 16, q % 16, r / 4, r % 4, s);
      var x, y, z := p * 4 + q / 16, q % 16 * 16 + r / 4, r % 4 * 64 + s;
      AppendAssociates(BitsOf(y, 8), BitsOf(z, 8), rest);
      AppendAssociates(BitsOf(x, 8), BitsOf(y, 8) + BitsOf(z, 8), rest);
      WholeByte(z, rest);
      WholeByte(y, BitsOf(z, 8) + rest);
      WholeByte(x, BitsOf(y, 8) + (BitsOf(z, 8) + rest));
      RegroupIsBytewise(ts[4..]);
    }
  }

  lemma LastSextets(ts: seq<nat>)
    requires AreSextets(ts) && 2 <= |ts| < 4
    ensures RegroupWhole(Flatten(ts, 6), 8) == Bytewise(ts)
  {
    hide BitsOf, RegroupWhole, Flatten;
    var p, q := ts[0], ts[1];
    assert ts[0..] == ts;
    UnreadBits(ts, 0, 6);
    UnreadBits(ts, 1, 6);
    TwoSextets(p, q);
    if |ts| == 2 {
      NothingFlattens(ts[2..]);
      assert BitsOf(q, 6) + [] == BitsOf(q, 6);
      WholeByte(p * 4 + q / 16, BitsOf(q % 16, 4));
      WholeWordsEnd(BitsOf(q % 16, 4));
    } else {
      var r := ts[2];
      UnreadBits(ts, 2, 6);
      NothingFlattens(ts[3..]);
      assert BitsOf(r, 6) + [] == BitsOf(r, 6);
      AppendAssociates(BitsOf(p, 6), BitsOf(q, 6), BitsOf(r, 6));
      ThreeSextets(p, q, r);
      WholeByte(q % 16 * 16 + r / 4, BitsOf(r % 4, 2));
      WholeByte(p * 4 + q / 16, BitsOf(q % 16 * 16 + r / 4, 8) + BitsOf(r % 4, 2));
      WholeWordsEnd(BitsOf(r % 4, 2));
    }
  }

  lemma NothingFlattens(ts: seq<nat>)
    requires ts == []
    ensures Flatten(ts, 6) == []
  {
  }

  lemma FlattenFour(ts: seq<nat>)
    requires |ts| >= 4
    ensures Flatten(ts, 6)
            == BitsOf(ts[0], 6) + BitsOf(ts[1], 6) + BitsOf(ts[2], 6) + BitsOf(ts[3], 6) + Flatten(ts[4..], 6)
  {
    hide BitsOf, Flatten;
    assert ts[0..] == ts;
    UnreadBits(ts, 0, 6);
    UnreadBits(ts, 1, 6);
    UnreadBits(ts, 2, 6);
    UnreadBits(ts, 3, 6);
    var a, b, c, d := BitsOf(ts[0], 6), BitsOf(ts[1], 6), BitsOf(ts[2], 6), BitsOf(ts[3], 6);
    AppendAssociates(a, b, Flatten(ts[2..], 6));
    AppendAssociates(a + b, c, Flatten(ts[3..], 6));
    AppendAssociates(a + b + c, d, Flatten(ts[4..], 6));
  }

  /** A sextet per character, as the letter table or '=' has it. */
  predicate AreSixBits(s: string, ts: seq<nat>) {
    |ts| == |s| && forall i :: 0 <= i < |s| ==> ts[i] < 64 && (s[i] == Letter(ts[i]) || (s[i] == '=' && ts[i] == 0))
  }

  /** A character that is no letter and no '=' is invalid; else 4k + 1 characters lack bits; all else gives bytes. */
  lemma DecodeExactly(s: string)
    ensures Decode(s) == InvalidCharacter <==> exists i :: 0 <= i < |s| && !IsLetter(s[i]) && s[i] != '='
    ensures Decode(s) == ReadPastEnd <==>
              |s| % 4 == 1 && forall i :: 0 <= i < |s| ==> IsLetter(s[i]) || s[i] == '='
    ensures forall ts :: AreSixBits(s, ts) && |s| % 4 != 1 ==> Decode(s) == Bytes(Bytewise(ts))
  {
    hide ToSixBits, Letter, Bytewise, RegroupWhole, Flatten;
    forall i | 0 <= i < |s|
      ensures ToSixBits(s[i]).None? <==> !IsLetter(s[i]) && s[i] != '='
    {
      SixBitsExactly(s[i], 0);
    }
    forall ts | AreSixBits(s, ts) && |s| % 4 != 1
      ensures Decode(s) == Bytes(Bytewise(ts))
    {
      SextetsFrom(s, ts);
      RegroupIsBytewise(ts);
    }
  }

  lemma SextetsFrom(s: string, ts: seq<nat>)
    requires AreSixBits(s, ts)
    ensures Sextets(s) == Some(ts)
  {
    hide ToSixBits, Letter;
    forall i | 0 <= i < |s|
      ensures ToSixBits(s[i]) == Some(ts[i])
    {
      SixBitsExactly(s[i], ts[i]);
    }
    assert Sextets(s).Some?;
    assert Sextets(s).value == ts;
  }

  // ----- round trip

  function ZeroWords(n: nat): seq<nat> {
    seq(n, _ => 0)
  }

  lemma SextetsOfLetters(ts: seq<nat>, n: nat)
    requires forall i :: 0 <= i < |ts| ==> ts[i] < 64
    ensures Sextets(Letters(ts) + Equals(n)) == Some(ts + ZeroWords(n))
  {
    var s := Letters(ts) + Equals(n);
    forall i | 0 <= i < |s|
      ensures ToSixBits(s[i]) == Some((ts + ZeroWords(n))[i])
    {
      if i < |ts| { TablesAreInverse(ts[i]); }
    }
    assert Sextets(s).Some?;
    assert Sextets(s).value == ts + ZeroWords(n);
  }

  lemma {:induction false} FlattenZeros(n: nat, w: nat)
    ensures Flatten(ZeroWords(n), w) == Zeros(n * w)
  {
    if n > 0 {
      assert ZeroWords(n)[1..] == ZeroWords(n - 1);
      FlattenZeros(n - 1, w);
      ZeroBits(w);
      assert n * w == w + (n - 1) * w;
    }
  }

  lemma PaddingBits(n: nat)
    ensures Padding(n * 8, 6) + Pad(n) * 6 == Pad(n) * 8
  {
    var k, m := n / 3, n % 3;
    assert n == 3 * k + m;
    if m == 0 { QuotientBy(6, 4 * k, 0); }
    if m == 1 { QuotientBy(6, 4 * k + 1, 2); }
    if m == 2 { QuotientBy(6, 4 * k + 2, 4); }
  }

  /**
   Decoding an encoding gives the bytes back followed by one zero byte per '=': the decoder reads '=' as six zero bits
   and never drops them.
   */
  lemma RoundTrip(v: seq<u8>)
    ensures Decode(Rfc4648(v)) == Bytes(v + ZeroWords(Pad(|v|)))
  {
    hide Regroup, Flatten, RegroupWhole, Rfc4648, Letters, Sextets, Padding, Pow2;
    var n := |v|;
    var ts, zeros := Regroup(Flatten(v, 8), 6), ZeroWords(Pad(n));
    RegroupIsRfc4648(v);
    SextetsOfLetters(ts, Pad(n));
    Rfc4648Length(v);
    WholeQuads((n + 2) / 3);
    RoundTripBits(v, ts, zeros);
    PaddedBytes(v, Pad(n));
  }

  lemma WholeQuads(k: nat)
    ensures (4 * k) % 4 == 0
  {
  }

  lemma PaddedBytes(v: seq<u8>, n: nat)
    ensures RegroupWhole(Flatten(v + ZeroWords(n), 8), 8) == v + ZeroWords(n)
  {
    hide Flatten, RegroupWhole;
    var w: seq<nat> := v + ZeroWords(n);
    Powers();
    RegroupFlatten(w, 8, []);
    assert Flatten(w, 8) + [] == Flatten(w, 8);
  }

  lemma RoundTripBits(v: seq<u8>, ts: seq<nat>, zeros: seq<nat>)
    requires ts == Regroup(Flatten(v, 8), 6) && zeros == ZeroWords(Pad(|v|))
    ensures Flatten(ts + zeros, 6) == Flatten(v + zeros, 8)
  {
    hide BitsOf, ValueOf, Regroup, Flatten, Pad, Padding, Zeros, ZeroWords;
    var n := |v|;
    FlattenRegroup(Flatten(v, 8), 6);
    FlattenConcat(ts, zeros, 6);
    FlattenConcat(v, zeros, 8);
    FlattenZeros(Pad(n), 6);
    FlattenZeros(Pad(n), 8);
    PaddingBits(n);
    ZerosConcat(Padding(n * 8, 6), Pad(n) * 6);
    AppendAssociates(Flatten(v, 8), Zeros(Padding(n * 8, 6)), Zeros(Pad(n) * 6));
  }

  lemma ZerosConcat(a: nat, b: nat)
    ensures Zeros(a) + Zeros(b) == Zeros(a + b)
  {
  }

  /** Different byte strings have different encodings, although decoding may not tell them apart. */
  lemma EncodingIsInjective(v: seq<u8>, w: seq<u8>)
    requires Rfc4648(v) == Rfc4648(w)
    ensures v == w
  {
    hide Rfc4648, Regroup, Flatten, Decode, ALPHABET;
    RegroupIsRfc4648(v);
    RegroupIsRfc4648(w);
    SamePadding(Regroup(Flatten(v, 8), 6), Pad(|v|), Regroup(Flatten(w, 8), 6), Pad(|w|));
    RoundTrip(v);
    RoundTrip(w);
    assert v == (v + ZeroWords(Pad(|v|)))[..|v|];
    assert w == (w + ZeroWords(Pad(|v|)))[..|w|];
    assert |v| + Pad(|v|) == |w| + Pad(|w|);
  }

  lemma SamePadding(ts: seq<nat>, m: nat, us: seq<nat>, n: nat)
    requires forall i :: 0 <= i < |ts| ==> ts[i] < 64
    requires forall i :: 0 <= i < |us| ==> us[i] < 64
    requires Letters(ts) + Equals(m) == Letters(us) + Equals(n)
    ensures m == n
  {
    assert |ts| + m == |Letters(ts) + Equals(m)| == |us| + n;
    if n > 0 {
      PaddingStarts(ts, m, |us|);
      PaddingStarts(us, n, |us|);
    }
    if m > 0 {
      PaddingStarts(ts, m, |ts|);
      PaddingStarts(us, n, |ts|);
    }
  }

  lemma PaddingStarts(ts: seq<nat>, n: nat, i: nat)
    requires forall k :: 0 <= k < |ts| ==> ts[k] < 64
    requires i < |ts| + n
    ensures (Letters(ts) + Equals(n))[i] == '=' <==> i >= |ts|
  {
    hide FromSixBits;
    if i < |ts| { TablesAreInverse(ts[i]); }
  }

  /** The round trip is exact for the lengths that are multiples of three, and for no other. */
  lemma RoundTripIsExact(v: seq<u8>)
    ensures Decode(Rfc4648(v)) == Bytes(v) <==> |v| % 3 == 0
  {
    hide Rfc4648, Decode;
    RoundTrip(v);
    if |v| % 3 == 0 {
      assert v + ZeroWords(Pad(|v|)) == v;
    } else {
      assert |v + ZeroWords(Pad(|v|))| > |v|;
    }
  }
}
