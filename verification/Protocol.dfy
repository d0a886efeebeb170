/** The packets of the RPC protocol and `JSONSerializer`, on parsed JSON messages. */
module Protocol {
  import opened Wrappers
  import opened Base64

  /** A request as it sits in the queue; Other stands for the methods that `HandleRequest` answers with nothing. */
  datatype Request =
    | MemoryRead(id: u32, address: nat, length: nat)
    | MemoryWrite(id: u32, address: nat, data: seq<nat>)
    | Other(id: u32)

  datatype Response =
    | ReadResult(id: u32, result: seq<u8>)
    | WriteDone(id: u32)

  /** A parsed JSON message: the members the serializer looks up, absent ones as None. */
  datatype Message = Message(jsonrpc: Option<string>, id: Option<u32>, methodName: Option<string>,
                             params: Option<Params>)
  datatype Params = Params(timing: Option<string>, sync: Option<string>, functionKind: Option<string>,
                           address: Option<nat>, length: Option<nat>, data: Option<string>)

  datatype Error = MissingField | VersionMismatch | InvalidMethod | InvalidData | DataReadsPastEnd

  datatype Parsed = Ok(request: Request) | Err(error: Error)

  function DeserializeRequest(m: Message): Parsed {
    if m.jsonrpc.None? then Err(MissingField)
    else if m.jsonrpc.value != "2.0" then Err(VersionMismatch)
    else if m.methodName.None? then Err(MissingField)
    else if m.methodName.value == "memory_write" then ReadMemoryWrite(m)
    else if m.methodName.value == "memory_read" then ReadMemoryRead(m)
    else Err(InvalidMethod)
  }

  /** `FromBasePacket` */
  predicate HasBase(m: Message) {
    m.id.Some? && m.methodName.Some? && m.params.Some?
    && m.params.value.timing.Some? && m.params.value.sync.Some? && m.params.value.functionKind.Some?
  }

  function ReadMemoryWrite(m: Message): Parsed {
    if !HasBase(m) || m.params.value.data.None? then Err(MissingField)
    else
      match Decode(m.params.value.data.value)
      case InvalidCharacter => Err(InvalidData)
      case ReadPastEnd => Err(DataReadsPastEnd)
      case Bytes(data) =>
        if m.params.value.address.None? then Err(MissingField)
        else Ok(MemoryWrite(m.id.value, m.params.value.address.value, data))
  }

  function ReadMemoryRead(m: Message): Parsed {
    if !HasBase(m) || m.params.value.address.None? || m.params.value.length.None? then Err(MissingField)
    else Ok(MemoryRead(m.id.value, m.params.value.address.value, m.params.value.length.value))
  }

  /** The members of a serialized response. */
  datatype Reply = Reply(jsonrpc: string, id: u32, result: string)

  function SerializeResponse(r: Response): Reply {
    match r
    case ReadResult(id, result) => Reply("2.0", id, Rfc4648(result))
    case WriteDone(id) => Reply("2.0", id, "")
  }

  /** Only memory packets come out of the serializer, with the id of the message. */
  lemma OnlyMemoryPackets(m: Message)
    ensures var p := DeserializeRequest(m);
            p.Ok? ==> !p.request.Other? && m.id == Some(p.request.id) && m.jsonrpc == Some("2.0")
    ensures DeserializeRequest(m).Ok? && DeserializeRequest(m).request.MemoryWrite? <==>
              m.jsonrpc == Some("2.0") && m.methodName == Some("memory_write") && HasBase(m)
              && m.params.value.data.Some? && m.params.value.address.Some?
              && Decode(m.params.value.data.value).Bytes?
    ensures DeserializeRequest(m).Ok? && DeserializeRequest(m).request.MemoryRead? <==>
              m.jsonrpc == Some("2.0") && m.methodName == Some("memory_read") && HasBase(m)
              && m.params.value.address.Some? && m.params.value.length.Some?
  {
  }

  /** The message a client sends to write bytes v, with its data encoded as section 4 of RFC 4648 says. */
  function WriteMessage(id: u32, address: nat, v: seq<u8>): Message {
    Message(Some("2.0"), Some(id), Some("memory_write"),
            Some(Params(Some("immediate"), Some("nonblocking"), Some("once"), Some(address), None, Some(Rfc4648(v)))))
  }

  function ReadMessage(id: u32, address: nat, length: nat): Message {
    Message(Some("2.0"), Some(id), Some("memory_read"),
            Some(Params(Some("immediate"), Some("nonblocking"), Some("once"), Some(address), Some(length), None)))
  }

  /**
   The server then writes v followed by one zero byte per '=', so what the client asked for is written exactly when the
   number of bytes is a multiple of three.
   */
  lemma WriteMessageIsPadded(id: u32, address: nat, v: seq<u8>)
    ensures DeserializeRequest(WriteMessage(id, address, v))
            == Ok(MemoryWrite(id, address, v + ZeroWords(Pad(|v|))))
    ensures DeserializeRequest(WriteMessage(id, address, v)) == Ok(MemoryWrite(id, address, v)) <==> |v| % 3 == 0
  {
    hide Decode, Rfc4648;
    RoundTrip(v);
    RoundTripIsExact(v);
  }

  /** The address and length of a read arrive as they were sent. */
  lemma ReadMessageIsParsed(id: u32, address: nat, length: nat)
    ensures DeserializeRequest(ReadMessage(id, address, length)) == Ok(MemoryRead(id, address, length))
  {
  }

  /** What a request contains is what the message says. */
  lemma ParsedContents(m: Message)
    requires DeserializeRequest(m).Ok?
    ensures var p := DeserializeRequest(m).request;
            && m.id == Some(p.id) && m.params.Some?
            && match p {
                 case MemoryRead(_, address, length) =>
                   && m.methodName == Some("memory_read")
                   && m.params.value.address == Some(address) && m.params.value.length == Some(length)
                 case MemoryWrite(_, address, data) =>
                   && m.methodName == Some("memory_write") && m.params.value.address == Some(address)
                   && m.params.value.data.Some? && Decode(m.params.value.data.value) == Bytes(data)
                 case Other(_) => false
               }
  {
  }

  /** The members every request needs besides its version and method. */
  predicate HasCommon(m: Message) {
    m.id.Some? && m.params.Some? && m.params.value.timing.Some? && m.params.value.sync.Some?
    && m.params.value.functionKind.Some?
  }

  /** Which exception a message that does not parse raises, in the order in which the serializer looks. */
  lemma ErrorsExactly(m: Message)
    ensures var r := DeserializeRequest(m); var v := m.jsonrpc == Some("2.0");
            var write, read := v && m.methodName == Some("memory_write"), v && m.methodName == Some("memory_read");
            var sent := write && HasCommon(m) && m.params.value.data.Some?;
            && (r == Err(VersionMismatch) <==> m.jsonrpc.Some? && !v)
            && (r == Err(InvalidMethod) <==> v && m.methodName.Some? && !write && !read)
            && (r == Err(InvalidData) <==> sent && Decode(m.params.value.data.value) == InvalidCharacter)
            && (r == Err(DataReadsPastEnd) <==> sent && Decode(m.params.value.data.value) == ReadPastEnd)
            && (r == Err(MissingField) <==>
                  || m.jsonrpc.None? || (v && m.methodName.None?)
                  || ((read || write) && !HasCommon(m))
                  || (read && HasCommon(m) && (m.params.value.address.None? || m.params.value.length.None?))
                  || (write && HasCommon(m) && m.params.value.data.None?)
                  || (sent && Decode(m.params.value.data.value).Bytes? && m.params.value.address.None?))
  {
  }

  /** A reply carries the id of the response, and decoding its text gives the bytes read, padded as for writes. */
  lemma RepliesExactly(r: Response)
    ensures var reply := SerializeResponse(r);
            && reply.jsonrpc == "2.0" && reply.id == r.id
            && match r {
                 case ReadResult(_, v) =>
                   reply.result == Rfc4648(v) && Decode(reply.result) == Bytes(v + ZeroWords(Pad(|v|)))
                 case WriteDone(_) => reply.result == ""
               }
  {
    if r.ReadResult? { RoundTrip(r.result); }
  }

  predicate IsEmpty(r: Response) {
    r.ReadResult? ==> r.result == []
  }

  /** Two responses serialize alike exactly when they are the same, or a finished write and a read of nothing. */
  lemma RepliesDiffer(a: Response, b: Response)
    ensures SerializeResponse(a) == SerializeResponse(b) <==> a == b || (a.id == b.id && IsEmpty(a) && IsEmpty(b))
  {
    hide Rfc4648;
    RepliesExactly(a);
    RepliesExactly(b);
    NothingEncodes();
    if a.ReadResult? && b.ReadResult? && a.id == b.id && Rfc4648(a.result) == Rfc4648(b.result) {
      EncodingIsInjective(a.result, b.result);
    }
    if a.ReadResult? && Rfc4648(a.result) == "" { EncodingIsInjective(a.result, []); }
    if b.ReadResult? && Rfc4648(b.result) == "" { EncodingIsInjective(b.result, []); }
  }

  lemma NothingEncodes()
    ensures Rfc4648([]) == ""
  {
  }

  /** Two answers to memory reads that look the same to the client are the same. */
  lemma ReadRepliesAreFaithful(a: Response, b: Response)
    requires a.ReadResult? && b.ReadResult? && SerializeResponse(a) == SerializeResponse(b)
    ensures a == b
  {
    hide Rfc4648;
    EncodingIsInjective(a.result, b.result);
  }
}
