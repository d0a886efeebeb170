/** `asio::basic_streambuf`: one growable array with get and put positions, refining a byte queue. */
module StreamBufs {
  import opened Wrappers
  import opened ByteQueues

  const BUFFER_DELTA := 128

  /** The array after a failed or successful shift of s[g..p] to the front. */
  function Shifted(s: seq<u8>, g: nat, p: nat): seq<u8>
    requires g <= p <= |s|
  {
    s[g..p] + s[p - g..]
  }

  /** s[g..p] repeats with period g. */
  predicate Repeats(s: seq<u8>, g: nat, p: nat)
    requires p <= |s|
  {
    forall i :: g <= i < p - g ==> s[i] == s[i + g]
  }

  /**
   `reserve` moves the bytes before it checks the cap, and a throw leaves the positions where they were. The input
   sequence read through the old positions is then unchanged exactly when it repeats with period g, in particular when
   nothing had been consumed since the last shift or at least half had.
   */
  lemma FailedShiftKeepsContents(s: seq<u8>, g: nat, p: nat)
    requires g <= p <= |s|
    ensures Shifted(s, g, p)[g..p] == s[g..p] <==> Repeats(s, g, p)
    ensures g == 0 || p - g <= g ==> Shifted(s, g, p)[g..p] == s[g..p]
  {
    var t := Shifted(s, g, p);
    forall i | g <= i < p
      ensures t[i] == if i < p - g then s[i + g] else s[i]
    {
    }
    if t[g..p] == s[g..p] {
      forall i | g <= i < p - g
        ensures s[i] == s[i + g]
      {
        assert t[g..p][i - g] == s[g..p][i - g];
      }
    } else {
      var k :| 0 <= k < p - g && t[g..p][k] != s[g..p][k];
      assert s[g + k] != s[g + k + g];
    }
  }

  ghost predicate AlwaysKeeps(length: nat, g: nat, p: nat)
    requires g <= p <= length
  {
    forall s: seq<u8> :: |s| == length ==> Shifted(s, g, p)[g..p] == s[g..p]
  }

  /**
   The positions alone decide whether a failed shift keeps the input whatever the bytes are: nothing had been consumed
   since the last shift, or at least half had.
   */
  lemma FailedShiftAlwaysKeeps(length: nat, g: nat, p: nat)
    requires g <= p <= length
    ensures AlwaysKeeps(length, g, p) <==> g == 0 || p - g <= g
  {
    forall s: seq<u8> | |s| == length && (g == 0 || p - g <= g)
      ensures Shifted(s, g, p)[g..p] == s[g..p]
    {
      FailedShiftKeepsContents(s, g, p);
    }
    if g > 0 && g < p - g {
      var s: seq<u8> := seq(length, i => if i == g then 1 else 0);
      FailedShiftKeepsContents(s, g, p);
      assert s[g] != s[g + g];
    }
  }

  class StreamBuf {
    const maxSize: nat
    var buffer: array<u8>
    // Stream positions, as offsets from the start of the buffer; eback is always 0.
    var gptr: nat
    var egptr: nat
    var pptr: nat
    var epptr: nat
    // History: all bytes appended to the input sequence, and all bytes consumed from it.
    ghost var put: seq<u8>
    ghost var taken: seq<u8>

    ghost predicate Positions()
      reads this, buffer
    {
      && gptr <= egptr <= pptr <= epptr <= maxSize
      && buffer.Length == (if epptr == 0 then 1 else epptr)
    }

    ghost predicate Valid()
      reads this, buffer
    {
      && Positions()
      && taken + buffer[gptr..pptr] == put
    }

    ghost function Contents(): seq<u8>
      requires Positions()
      reads this, buffer
    {
      buffer[gptr..pptr]
    }

    /** The byte queue this buffer implements. */
    ghost function Model(): (q: Queue)
      requires Valid()
      reads this, buffer
      ensures InOrder(q) && Pending(q) == Contents()
    {
      Queue(maxSize, put, taken)
    }

    constructor (maximumSize: nat)
      ensures Valid() && fresh(buffer)
      ensures Model() == Queue(maximumSize, [], []) && maxSize == maximumSize && Size() == 0
      ensures gptr == 0 && epptr == Min(maximumSize, 128)
    {
      maxSize := maximumSize;
      var pend := Min(maximumSize, BUFFER_DELTA);
      buffer := new u8[if pend < 1 then 1 else pend](_ => 0);
      gptr, egptr, pptr, epptr := 0, 0, 0, pend;
      put, taken := [], [];
    }

    function Size(): nat
      requires gptr <= pptr
      reads this
    {
      pptr - gptr
    }

    /** False stands for std::length_error. The n bytes from pptr on are the returned output area. */
    method Prepare(n: nat) returns (ok: bool)
      requires Valid()
      modifies this, buffer
      ensures buffer == old(buffer) || fresh(buffer)
      ensures ok <==> Step(old(Model()), Call.Prepare(n)).Some?
      ensures ok <==> old(Size()) + n <= maxSize
      ensures ok ==> Valid() && Model() == old(Model()) && n <= epptr - pptr
      ensures ok ==> Contents() == old(Contents())
      ensures ok ==> Placed(n, old(gptr), old(egptr), old(pptr), old(epptr))
      ensures !ok ==> Torn(old(buffer[..]), old(gptr), old(egptr), old(pptr), old(epptr))
      ensures !ok ==> (buffer[gptr..pptr] == old(Contents()) <==> Repeats(old(buffer[..]), old(gptr), old(pptr)))
      ensures put == old(put) && taken == old(taken)
    {
      hide Shifted, Repeats;
      ok := Reserve(n);
    }

    /**
     The state a call of `reserve` leaves behind: unchanged if n bytes fit behind the put position; else the input is
     slid to the front, and the array grows by just what is then missing.
     */
    ghost predicate Placed(n: nat, g: nat, eg: nat, p: nat, ep: nat)
      requires g <= p <= ep
      reads this
    {
      if n <= ep - p then (gptr, egptr, pptr, epptr) == (g, eg, p, ep)
      else (gptr, egptr, pptr) == (0, p - g, p - g) && epptr == Max(ep, p - g + n)
    }

    /** The state a length_error leaves behind: old positions over shifted bytes. */
    ghost predicate Torn(s: seq<u8>, g: nat, eg: nat, p: nat, ep: nat)
      requires g <= p <= |s|
      reads this, buffer
    {
      && (gptr, egptr, pptr, epptr) == (g, eg, p, ep)
      && buffer[..] == Shifted(s, g, p)
    }

    /** The caller of Prepare stores bytes in the output area. */
    method Fill(data: seq<u8>)
      requires Valid() && |data| <= epptr - pptr
      modifies buffer
      ensures Valid() && Model() == old(Model())
      ensures buffer[pptr..pptr + |data|] == data
    {
      ghost var contents := Contents();
      var i := 0;
      while i < |data|
        invariant 0 <= i <= |data|
        invariant buffer[pptr..pptr + i] == data[..i]
        invariant buffer[gptr..pptr] == contents
      {
        buffer[pptr + i] := data[i];
        i := i + 1;
        assert data[..i] == data[..i - 1] + [data[i - 1]];
      }
    }

    method Commit(n: nat)
      requires Valid()
      modifies this
      ensures Valid() && buffer == old(buffer)
      ensures var bytes := old(buffer[pptr..pptr + Min(n, epptr - pptr)]);
              && Step(old(Model()), Call.Commit(bytes)) == Some(Model())
              && Contents() == old(Contents()) + bytes
      ensures gptr == old(gptr) && epptr == old(epptr)
    {
      hide Step, Pending;
      var k := Min(n, epptr - pptr);
      ghost var bytes := buffer[pptr..pptr + k];
      CommitStep(maxSize, put, taken, Contents(), bytes);
      put := put + bytes;
      assert buffer[gptr..pptr + k] == buffer[gptr..pptr] + bytes;
      pptr := pptr + k;
      egptr := pptr;
    }

    /** What a caller does to append bytes; it stops at the exception. */
    method Append(data: seq<u8>) returns (ok: bool)
      requires Valid()
      modifies this, buffer
      ensures buffer == old(buffer) || fresh(buffer)
      ensures ok <==> old(Size()) + |data| <= maxSize
      ensures ok ==> Valid() && Positions() && Contents() == old(Contents()) + data
    {
      hide Step, Pending, Repeats, Shifted;
      ok := Prepare(|data|);
      if ok {
        ghost var contents := Contents();
        Fill(data);
        assert Contents() == contents && Min(|data|, epptr - pptr) == |data|;
        Commit(|data|);
        assert Contents() == contents + data;
      }
    }

    method Consume(n: nat)
      requires Valid()
      modifies this
      ensures Valid() && buffer == old(buffer)
      ensures Step(old(Model()), Call.Consume(n)) == Some(Model())
      ensures Contents() == old(Contents())[Min(n, old(Size()))..] && pptr == old(pptr) && epptr == old(epptr)
    {
      hide Step, Pending;
      ghost var contents := Contents();
      if egptr < pptr { egptr := pptr; }
      var k := n;
      if gptr + k > pptr { k := pptr - gptr; }
      ConsumeStep(maxSize, put, taken, contents, n, k);
      taken := taken + contents[..k];
      gptr := gptr + k;
      assert Contents() == contents[k..];
    }

    /** The next byte without consuming it, or None for end of file. */
    method Underflow() returns (c: Option<u8>)
      requires Valid()
      modifies this
      ensures Valid() && buffer == old(buffer)
      ensures Step(old(Model()), Call.Underflow) == Some(Model())
      ensures c == if Pending(Model()) == [] then None else Some(Pending(Model())[0])
      ensures c.Some? ==> egptr == pptr
      ensures gptr == old(gptr) && pptr == old(pptr) && epptr == old(epptr)
    {
      if gptr < pptr {
        egptr := pptr;
        return Some(buffer[gptr]);
      } else {
        return None;
      }
    }

    /** None is the end-of-file character, which is ignored. False stands for std::length_error. */
    method Overflow(c: Option<u8>) returns (ok: bool)
      requires Valid()
      modifies this, buffer
      ensures buffer == old(buffer) || fresh(buffer)
      ensures ok <==> Step(old(Model()), Call.Overflow(c)).Some?
      ensures ok ==> Valid() && Some(Model()) == Step(old(Model()), Call.Overflow(c))
      ensures ok <==> c.None? || old(Size()) < maxSize
      ensures ok ==> Contents() == old(Contents()) + if c.Some? then [c.value] else []
      ensures ok && c.Some? && old(pptr) == old(epptr) ==>
                epptr == Max(old(epptr), old(Size()) + Min(128, maxSize - old(Size())))
      ensures ok && (c.None? || old(pptr) < old(epptr)) ==> epptr == old(epptr) && gptr == old(gptr)
      ensures !ok ==> Torn(old(buffer[..]), old(gptr), old(egptr), old(pptr), old(epptr))
      ensures !ok ==> gptr <= pptr <= buffer.Length && buffer[gptr..pptr] == old(Contents())
    {
      hide Shifted, Torn;
      if c.Some? {
        if pptr == epptr {
          ok := MakeRoom();
          if !ok { return; }
        }
        PutByte(c.value);
      }
      return true;
    }

    /** Room for at least one byte, and for BUFFER_DELTA bytes if the cap allows. */
    method MakeRoom() returns (ok: bool)
      requires Valid() && pptr == epptr
      modifies this, buffer
      ensures buffer == old(buffer) || fresh(buffer)
      ensures ok <==> old(Size()) < maxSize
      ensures ok ==> Valid() && Model() == old(Model()) && Contents() == old(Contents()) && pptr < epptr
      ensures ok ==> epptr == Max(old(epptr), old(Size()) + Min(BUFFER_DELTA, maxSize - old(Size())))
      ensures !ok ==> gptr <= pptr <= buffer.Length && buffer[gptr..pptr] == old(Contents())
      ensures !ok ==> Torn(old(buffer[..]), old(gptr), old(egptr), old(pptr), old(epptr))
    {
      hide Step, Pending;
      var bufferSize := pptr - gptr;
      if bufferSize < maxSize && maxSize - bufferSize < BUFFER_DELTA {
        ok := Reserve(maxSize - bufferSize);
      } else {
        ok := Reserve(BUFFER_DELTA);
      }
    }

    /** Stores one byte at the put position and moves past it. */
    method PutByte(c: u8)
      requires Valid() && pptr < epptr
      modifies this, buffer
      ensures Valid() && buffer == old(buffer)
      ensures put == old(put) + [c] && taken == old(taken)
      ensures Contents() == old(Contents()) + [c]
      ensures epptr == old(epptr) && gptr == old(gptr)
    {
      ghost var contents := Contents();
      buffer[pptr] := c;
      pptr := pptr + 1;
      put := put + [c];
      assert buffer[gptr..pptr] == contents + [c];
    }

    /** Shifts the input sequence to the start of the buffer, and returns where it ends there. */
    method Slide() returns (pnext: nat)
      requires Positions()
      modifies buffer
      ensures pnext == pptr - gptr
      ensures buffer[..] == Shifted(old(buffer[..]), gptr, pptr)
      ensures buffer[..pnext] == old(Contents())
    {
      hide Shifted;
      ghost var all := buffer[..];
      ShiftedPrefix(all, gptr, pptr);
      pnext := pptr;
      if gptr > 0 {
        pnext := pptr - gptr;
        MoveToFront(buffer, gptr, pnext);
      }
      assert buffer[..pnext] == buffer[..][..pnext];
    }

    /** Makes room for n more bytes, sliding the input sequence to the front before growing the array. */
    method Reserve(n: nat) returns (ok: bool)
      requires Valid()
      modifies this, buffer
      ensures buffer == old(buffer) || fresh(buffer)
      ensures ok <==> old(Size()) + n <= maxSize
      ensures ok ==> Valid() && Model() == old(Model()) && n <= epptr - pptr
      ensures ok ==> Contents() == old(Contents())
      ensures ok ==> Placed(n, old(gptr), old(egptr), old(pptr), old(epptr))
      ensures !ok ==> Torn(old(buffer[..]), old(gptr), old(egptr), old(pptr), old(epptr))
      ensures !ok ==> (buffer[gptr..pptr] == old(Contents()) <==> Repeats(old(buffer[..]), old(gptr), old(pptr)))
      ensures put == old(put) && taken == old(taken)
    {
      hide Shifted, Repeats;
      var pnext, pend := pptr, epptr;
      if n <= pend - pnext { return true; }
      ghost var all, contents := buffer[..], Contents();
      pnext := Slide();
      if n > pend - pnext {
        if n <= maxSize && pnext <= maxSize - n {
          pend := pnext + n;
          var grown := Resized(buffer, if pend < 1 then 1 else pend);
          assert grown[..pnext] == buffer[..pnext];
          buffer := grown;
        } else {
          FailedShiftKeepsContents(all, gptr, pptr);
          assert buffer[gptr..pptr] == buffer[..][gptr..pptr] && contents == all[gptr..pptr];
          return false;
        }
      }
      gptr, egptr := 0, pnext;
      pptr, epptr := pnext, pend;
      assert buffer[gptr..pptr] == contents;
      return true;
    }

    /** `read_size_helper`: a read size that Prepare always grants. The vector's capacity is a parameter. */
    method ReadSizeHelper(maximum: nat, capacity: nat) returns (n: nat)
      requires Valid() && capacity >= buffer.Length
      ensures Step(Model(), Call.Prepare(n)).Some?
      ensures n <= maximum && n <= Max(512, capacity - Size())
      ensures n == 0 <==> maximum == 0 || Size() == maxSize
      ensures n == maximum || n == Max(512, capacity - Size()) || Size() + n == maxSize
    {
      var atLeast := if 512 < capacity - Size() then capacity - Size() else 512;
      n := Min(atLeast, Min(maximum, maxSize - Size()));
    }
  }

  lemma ShiftedPrefix(s: seq<u8>, g: nat, p: nat)
    requires g <= p <= |s|
    ensures Shifted(s, g, p) == s[g..g + (p - g)] + s[p - g..]
    ensures |Shifted(s, g, p)| == |s|
    ensures Shifted(s, g, p)[..p - g] == s[g..p]
    ensures g == 0 ==> Shifted(s, g, p) == s
  {
  }

  lemma CommitStep(max: nat, put: seq<u8>, taken: seq<u8>, contents: seq<u8>, bytes: seq<u8>)
    requires taken + contents == put && |contents| + |bytes| <= max
    ensures Step(Queue(max, put, taken), Call.Commit(bytes)) == Some(Queue(max, put + bytes, taken))
    ensures taken + (contents + bytes) == put + bytes
  {
  }

  lemma ConsumeStep(max: nat, put: seq<u8>, taken: seq<u8>, contents: seq<u8>, n: nat, k: nat)
    requires taken + contents == put && |contents| <= max && k == Min(n, |contents|)
    ensures Step(Queue(max, put, taken), Call.Consume(n)) == Some(Queue(max, put, taken + contents[..k]))
    ensures (taken + contents[..k]) + contents[k..] == put
  {
  }

  /** std::memmove of count bytes from offset from down to the start of the array. */
  method MoveToFront(a: array<u8>, from: nat, count: nat)
    requires from + count <= a.Length
    modifies a
    ensures a[..] == old(a[..])[from..from + count] + old(a[..])[count..]
  {
    ghost var s := a[..];
    var i := 0;
    while i < count
      invariant 0 <= i <= count
      invariant forall k :: 0 <= k < i ==> a[k] == s[from + k]
      invariant forall k :: i <= k < a.Length ==> a[k] == s[k]
    {
      a[i] := a[from + i];
      i := i + 1;
    }
  }

  /** std::vector::resize: the old bytes, then zeroes. */
  method Resized(a: array<u8>, n: nat) returns (b: array<u8>)
    ensures fresh(b) && b.Length == n
    ensures forall k :: 0 <= k < n ==> b[k] == if k < a.Length then a[k] else 0
  {
    b := new u8[n](_ => 0);
    var i := 0;
    while i < n && i < a.Length
      invariant 0 <= i <= n && i <= a.Length
      invariant forall k :: 0 <= k < n ==> b[k] == if k < i then a[k] else 0
    {
      b[i] := a[i];
      i := i + 1;
    }
  }

  /** With "abc" in a full buffer and one byte consumed, a failed `prepare` turns the input "bc" into "cc". */
  method FailedPrepareChangesInput() returns (b: StreamBuf, ok: bool, before: seq<u8>, after: seq<u8>)
    ensures !ok && before == [98, 99] && after == [99, 99]
    ensures b.maxSize == 3 && b.gptr <= b.pptr <= b.buffer.Length && after == b.buffer[b.gptr..b.pptr]
  {
    b := ReadingBuffer();
    before := b.buffer[b.gptr..b.pptr];
    ghost var all := b.buffer[..];
    ok := b.Prepare(2);
    assert all == [97, 98, 99];
    assert all[1..3] == [98, 99] && all[2..] == [99];
    assert Shifted(all, 1, 3) == [98, 99, 99];
    after := b.buffer[b.gptr..b.pptr];
    assert after == b.buffer[..][1..3];
  }

  /** A full buffer holding "abc" of which one byte has been consumed. */
  method ReadingBuffer() returns (b: StreamBuf)
    ensures fresh(b) && fresh(b.buffer) && b.Valid() && b.maxSize == 3
    ensures b.gptr == 1 && b.pptr == 3 && b.buffer.Length == 3 && b.buffer[..] == [97, 98, 99]
  {
    hide Step, Pending, InOrder, Repeats, Shifted, StreamBuf.Model;
    b := new StreamBuf(3);
    var ok := b.Append([97, 98, 99]);
    assert b.pptr == 3;
    assert b.buffer[..] == b.Contents();
    b.Consume(1);
  }
}
