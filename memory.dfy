/** The two public operations, reading and writing emulator memory: the
    request each one sends and what each makes of the reply. The socket is a
    parameter `send` that maps the request bytes to the reply bytes or to the
    error the socket reports. */
module Memory {
  import opened Wrappers
  import opened LittleEndian
  import opened HeaderCodec

  /** Request type of a memory read. */
  const READ: U32 := 1

  /** Request type of a memory write. */
  const WRITE: U32 := 2

  /** One request/reply exchange over the connection: the reply message, or
      the error the socket emits before one arrives. */
  type Transport = seq<Byte> -> Result<seq<Byte>, string>

  /** Why an operation's Promise rejects: a socket error, or a reply too short
      for its header to be read. */
  datatype MemoryError = TransportError(reason: string) | MalformedReply(cause: RangeError)

  /** The request `readMemory(citra, memoryAddr, dataLength)` sends: a READ
      header declaring 8 data bytes, then the address and the length. */
  function BuildReadRequest(memoryAddr: int, dataLength: int, reqId: RequestId): (request: seq<Byte>)
    ensures |request| == HEADER_SIZE + 8
    ensures ParseReply(request).Success?
    ensures ParseReply(request).value.header == Header(CURRENT_REQUEST_VERSION, reqId, READ, 8)
    ensures ParseReply(request).value.header.dataLength == |request| - HEADER_SIZE
    ensures ReadUIntLE(request, 16) == Success(ToUint32(memoryAddr))
    ensures ReadUIntLE(request, 20) == Success(ToUint32(dataLength))
  {
    var reqData := Make32BitBuffer([memoryAddr, dataLength]);
    var generated := GenerateHeader(READ, |reqData|, reqId);
    var request := generated.header + reqData;
    ParseEncodedReply(Header(CURRENT_REQUEST_VERSION, reqId, READ, 8), reqData);
    assert request[16..24] == reqData;
    ReadPackedField(request, 16, [memoryAddr, dataLength], 0);
    ReadPackedField(request, 16, [memoryAddr, dataLength], 1);
    request
  }

  /** The request `writeMemory(citra, memoryAddr, buf)` sends: a WRITE header
      declaring 8 + |buf| data bytes (modulo 2^32), the address, the length
      of `buf`, then `buf` itself unframed. */
  function BuildWriteRequest(memoryAddr: int, buf: seq<Byte>, reqId: RequestId): (request: seq<Byte>)
    ensures |request| == HEADER_SIZE + 8 + |buf|
    ensures ParseReply(request).Success?
    ensures ParseReply(request).value.header == Header(CURRENT_REQUEST_VERSION, reqId, WRITE, ToUint32(8 + |buf|))
    ensures 8 + |buf| < TWO_TO_THE_32 ==> ParseReply(request).value.header.dataLength == |request| - HEADER_SIZE
    ensures ReadUIntLE(request, 16) == Success(ToUint32(memoryAddr))
    ensures ReadUIntLE(request, 20) == Success(ToUint32(|buf|))
    ensures request[HEADER_SIZE + 8..] == buf
  {
    var reqData := Make32BitBuffer([memoryAddr, |buf|]);
    var generated := GenerateHeader(WRITE, |reqData| + |buf|, reqId);
    var request := generated.header + reqData + buf;
    assert request == generated.header + (reqData + buf);
    ParseEncodedReply(Header(CURRENT_REQUEST_VERSION, reqId, WRITE, ToUint32(8 + |buf|)), reqData + buf);
    assert request[16..24] == reqData;
    ReadPackedField(request, 16, [memoryAddr, |buf|], 0);
    ReadPackedField(request, 16, [memoryAddr, |buf|], 1);
    request
  }

  /** `readMemory`: sends the read request and validates the reply against
      the id and the READ type it was sent with. The result is the bytes after
      the reply header when the reply's version, id and type match, None (the
      source's `null`) when they do not, and an error when the socket fails or
      the reply is shorter than a header. */
  function ReadMemory(memoryAddr: int, dataLength: int, reqId: RequestId, send: Transport)
    : (r: Result<Option<seq<Byte>>, MemoryError>)
    ensures var reply := send(BuildReadRequest(memoryAddr, dataLength, reqId));
      && (reply.Failure? ==> r == Failure(TransportError(reply.error)))
      && (reply.Success? ==> (r.Failure? <==> |reply.value| < HEADER_SIZE))
      && (reply.Success? && |reply.value| < HEADER_SIZE ==>
            r == Failure(MalformedReply(OutOfRange(|reply.value| / 4 * 4))))
      && (r.Success? && r.value.Some? <==>
            && reply.Success?
            && ParseReply(reply.value).Success?
            && ParseReply(reply.value).value.header.version == CURRENT_REQUEST_VERSION
            && ParseReply(reply.value).value.header.requestId == reqId
            && ParseReply(reply.value).value.header.requestType == READ)
      && (r.Success? && r.value.Some? ==> r.value.value == reply.value[HEADER_SIZE..])
  {
    var request := BuildReadRequest(memoryAddr, dataLength, reqId);
    match send(request)
    case Failure(reason) => Failure(TransportError(reason))
    case Success(reply) =>
      match ReadAndValidateHeader(reply, reqId, READ, dataLength)
      case Failure(cause) => Failure(MalformedReply(cause))
      case Success(data) => Success(data)
  }

  /** `writeMemory`: sends the write request and hands back the reply exactly
      as received, whatever its header says and however short it is; only a
      socket error makes it fail. */
  function WriteMemory(memoryAddr: int, buf: seq<Byte>, reqId: RequestId, send: Transport)
    : (r: Result<seq<Byte>, MemoryError>)
    ensures var reply := send(BuildWriteRequest(memoryAddr, buf, reqId));
      && (r.Success? <==> reply.Success?)
      && (r.Success? ==> r.value == reply.value)
      && (r.Failure? ==> r.error == TransportError(reply.error))
  {
    var request := BuildWriteRequest(memoryAddr, buf, reqId);
    match send(request)
    case Failure(reason) => Failure(TransportError(reason))
    case Success(reply) => Success(reply)
  }

  /** Against an emulator that answers the read request with a reply of header
      `h` and data `data`: the read yields `data`, of whatever length, exactly
      when `h` echoes the current version, the request id and READ, and None
      when any of the three differs. */
  lemma ReadMemoryAgainstReply(memoryAddr: int, dataLength: int, reqId: RequestId, send: Transport,
                               h: Header, data: seq<Byte>)
    requires send(BuildReadRequest(memoryAddr, dataLength, reqId)) == Success(EncodeHeader(h) + data)
    ensures ReadMemory(memoryAddr, dataLength, reqId, send)
         == if h.version == CURRENT_REQUEST_VERSION && h.requestId == reqId && h.requestType == READ
            then Success(Some(data))
            else Success(None)
  {
    ValidateEncodedReply(h, data, reqId, READ, dataLength);
  }

  /** Reading 4 bytes at 0x08000000 sends a 24-byte request whose data bytes
      are the address and the length, little-endian. */
  lemma ReadRequestExample(reqId: RequestId)
    ensures var request := BuildReadRequest(0x0800_0000, 4, reqId);
      && |request| == 24
      && request[16..] == [0x00, 0x00, 0x00, 0x08, 0x04, 0x00, 0x00, 0x00]
  {
  }

  /** Writing [0xFF, 0xFF] at 0x08000000 sends a WRITE header declaring 10 data
      bytes, then the address, the length 2 and the two bytes. */
  lemma WriteRequestExample(reqId: RequestId)
    ensures var request := BuildWriteRequest(0x0800_0000, [0xFF, 0xFF], reqId);
      && |request| == 26
      && ParseReply(request).value.header == Header(CURRENT_REQUEST_VERSION, reqId, WRITE, 10)
      && request[16..] == [0x00, 0x00, 0x00, 0x08, 0x02, 0x00, 0x00, 0x00, 0xFF, 0xFF]
  {
  }
}
