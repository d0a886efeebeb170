/**
 The specification of `asio::basic_streambuf`: a first-in first-out queue of bytes with a size cap, whose operations
 fail exactly when the cap would be exceeded.
 */
module ByteQueues {
  import opened Wrappers

  /** Everything ever put, everything taken so far, and the cap on what is between. */
  datatype Queue = Queue(max: nat, put: seq<u8>, taken: seq<u8>)

  ghost predicate InOrder(q: Queue) {
    q.taken <= q.put && |q.put| - |q.taken| <= q.max
  }

  function Pending(q: Queue): seq<u8>
    requires InOrder(q)
  {
    q.put[|q.taken|..]
  }

  datatype Call =
    | Prepare(n: nat)
    | Commit(bytes: seq<u8>)
    | Consume(n: nat)
    | Overflow(c: Option<u8>)
    | Underflow

  /** None is std::length_error. */
  function Step(q: Queue, call: Call): Option<Queue>
    requires InOrder(q)
  {
    var size := |Pending(q)|;
    match call
    case Prepare(n) => if size + n <= q.max then Some(q) else None
    case Commit(bytes) => if size + |bytes| <= q.max then Some(q.(put := q.put + bytes)) else None
    case Consume(n) => Some(q.(taken := q.taken + Pending(q)[..Min(n, size)]))
    case Overflow(None) => Some(q)
    case Overflow(Some(c)) => if size < q.max then Some(q.(put := q.put + [c])) else None
    case Underflow => Some(q)
  }

  /** A run ends at the first call that throws. */
  function Run(q: Queue, calls: seq<Call>): Option<Queue>
    requires InOrder(q)
    decreases |calls|
  {
    if calls == [] then Some(q)
    else
      StepKeepsOrder(q, calls[0]);
      match Step(q, calls[0])
      case None => None
      case Some(q') => Run(q', calls[1..])
  }

  lemma StepKeepsOrder(q: Queue, call: Call)
    requires InOrder(q)
    ensures Step(q, call).Some? ==> InOrder(Step(q, call).value) && Step(q, call).value.max == q.max
    ensures Step(q, call).Some? ==> q.taken <= Step(q, call).value.taken && q.put <= Step(q, call).value.put
  {
  }

  /** The bytes a list of calls appends. */
  function Appended(calls: seq<Call>): seq<u8> {
    if calls == [] then [] else AppendedBy(calls[0]) + Appended(calls[1..])
  }

  function AppendedBy(call: Call): seq<u8> {
    match call
    case Commit(bytes) => bytes
    case Overflow(Some(c)) => [c]
    case _ => []
  }

  /**
   Over every run: what has been taken, followed by what is pending, is what was there before followed by everything
   appended, in order; and the size never exceeds the cap.
   */
  lemma {:induction false} RunConservesBytes(q: Queue, calls: seq<Call>)
    requires InOrder(q) && Run(q, calls).Some?
    ensures var q' := Run(q, calls).value;
            && InOrder(q') && q'.max == q.max
            && q'.taken + Pending(q') == q.taken + Pending(q) + Appended(calls)
            && q.taken <= q'.taken
    decreases |calls|
  {
    hide Step, Pending;
    TakenAndPending(q);
    if calls == [] {
      assert q.put + [] == q.put;
    } else {
      StepKeepsOrder(q, calls[0]);
      StepAppends(q, calls[0]);
      var q1 := Step(q, calls[0]).value;
      RunConservesBytes(q1, calls[1..]);
      TakenAndPending(q1);
      var head := AppendedBy(calls[0]);
      assert q.put + head + Appended(calls[1..]) == q.put + (head + Appended(calls[1..]));
    }
  }

  lemma TakenAndPending(q: Queue)
    requires InOrder(q)
    ensures q.taken + Pending(q) == q.put
  {
  }

  lemma StepAppends(q: Queue, call: Call)
    requires InOrder(q) && Step(q, call).Some?
    ensures Step(q, call).value.put == q.put + AppendedBy(call)
  {
  }
}
