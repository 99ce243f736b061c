/** The 16-byte header shared by requests and replies, its generation for a
    request, the parsing of a reply and the check that a reply answers the
    request it was sent for. */
module HeaderCodec {
  import opened Wrappers
  import opened LittleEndian

  /** The only protocol version this client speaks or accepts. */
  const CURRENT_REQUEST_VERSION: U32 := 1

  /** Size in bytes of the header: four 32-bit fields. */
  const HEADER_SIZE: nat := 16

  /** The request ids `Math.floor(Math.random() * 0xffffffff)` can produce. */
  type RequestId = id: int | 0 <= id < 0xffff_ffff

  /** The four header fields, in wire order. */
  datatype Header = Header(version: U32, requestId: U32, requestType: U32, dataLength: U32)

  /** A parsed reply: its header fields and every byte after the header. */
  datatype Reply = Reply(header: Header, data: seq<Byte>)

  /** What `generateHeader` returns: the id it drew and the header bytes. */
  datatype GeneratedHeader = GeneratedHeader(reqId: RequestId, header: seq<Byte>)

  /** The request id drawn from a value `random` of `Math.random()`, which lies
      in [0, 1): the largest id 0xffffffff is never drawn. The product is
      taken exactly, not rounded to a double first. */
  function RequestIdFromRandom(random: real): (id: int)
    requires 0.0 <= random < 1.0
    ensures 0 <= id < 0xffff_ffff
    ensures id as real <= random * 0xffff_ffff as real < id as real + 1.0
  {
    (random * 0xffff_ffff as real).Floor
  }

  /** The reference layout of a header: version, request id, request type and
      data length, each as four little-endian bytes. */
  function EncodeHeader(h: Header): (bytes: seq<Byte>)
    ensures |bytes| == HEADER_SIZE
  {
    EncodeU32LE(h.version) + EncodeU32LE(h.requestId) + EncodeU32LE(h.requestType) + EncodeU32LE(h.dataLength)
  }

  /** A packed buffer of four numbers is the header of those numbers taken
      modulo 2^32. */
  lemma PackedHeader(version: int, reqId: int, reqType: int, dataLen: int)
    ensures Make32BitBuffer([version, reqId, reqType, dataLen])
         == EncodeHeader(Header(ToUint32(version), ToUint32(reqId), ToUint32(reqType), ToUint32(dataLen)))
  {
    var nums := [version, reqId, reqType, dataLen];
    var packed := Make32BitBuffer(nums);
    var h := Header(ToUint32(version), ToUint32(reqId), ToUint32(reqType), ToUint32(dataLen));
    assert packed[0..4] == EncodeU32LE(h.version) by { assert nums[0] == version; }
    assert packed[4..8] == EncodeU32LE(h.requestId) by { assert nums[1] == reqId; }
    assert packed[8..12] == EncodeU32LE(h.requestType) by { assert nums[2] == reqType; }
    assert packed[12..16] == EncodeU32LE(h.dataLength) by { assert nums[3] == dataLen; }
    assert packed == packed[0..4] + packed[4..8] + packed[8..12] + packed[12..16];
  }

  /** `generateHeader(reqType, dataLen)` with the request id as a parameter:
      the header is version 1, the id, the type and the length, in that
      order, each reduced modulo 2^32 as a `Uint32Array` does. */
  function GenerateHeader(reqType: int, dataLen: int, reqId: RequestId): (g: GeneratedHeader)
    ensures g.reqId == reqId
    ensures g.header == EncodeHeader(Header(CURRENT_REQUEST_VERSION, reqId, ToUint32(reqType), ToUint32(dataLen)))
  {
    PackedHeader(CURRENT_REQUEST_VERSION, reqId, reqType, dataLen);
    GeneratedHeader(reqId, Make32BitBuffer([CURRENT_REQUEST_VERSION, reqId, reqType, dataLen]))
  }

  /** `parseReply`: the four header fields read at offsets 0, 4, 8 and 12, and
      the rest of the buffer as the data. A reply shorter than the header makes
      the first read that runs past its end throw. */
  function ParseReply(reply: seq<Byte>): (r: Result<Reply, RangeError>)
    ensures r.Success? <==> HEADER_SIZE <= |reply|
    ensures r.Failure? ==> r.error == OutOfRange(|reply| / 4 * 4)
    ensures r.Success? ==> reply == EncodeHeader(r.value.header) + r.value.data
  {
    var version :- ReadUIntLE(reply, 0);
    var requestId :- ReadUIntLE(reply, 4);
    var requestType :- ReadUIntLE(reply, 8);
    var dataLength :- ReadUIntLE(reply, 12);
    assert reply == reply[0..4] + reply[4..8] + reply[8..12] + reply[12..16] + reply[16..];
    Success(Reply(Header(version, requestId, requestType, dataLength), reply[16..]))
  }

  /** Parsing an encoded header followed by any data gives back that header
      and that data. */
  lemma ParseEncodedReply(h: Header, data: seq<Byte>)
    ensures ParseReply(EncodeHeader(h) + data) == Success(Reply(h, data))
  {
    var reply := EncodeHeader(h) + data;
    var r := ParseReply(reply);
    assert reply[..16] == EncodeHeader(r.value.header);
    assert EncodeHeader(h)[0..4] == EncodeU32LE(h.version);
    assert EncodeHeader(h)[4..8] == EncodeU32LE(h.requestId);
    assert EncodeHeader(h)[8..12] == EncodeU32LE(h.requestType);
    assert EncodeHeader(h)[12..16] == EncodeU32LE(h.dataLength);
    EncodeU32LEInjective(r.value.header.version, h.version);
    EncodeU32LEInjective(r.value.header.requestId, h.requestId);
    EncodeU32LEInjective(r.value.header.requestType, h.requestType);
    EncodeU32LEInjective(r.value.header.dataLength, h.dataLength);
  }

  /** `readAndValidateHeader`: the data after the header when the reply's
      version, id and type all equal the expected ones, `null` (None)
      otherwise. The declared data length and `expectedLength` play no part.
      A reply shorter than the header makes `parseReply` throw. */
  function ReadAndValidateHeader(reply: seq<Byte>, expectedId: int, expectedType: int, expectedLength: int)
    : (r: Result<Option<seq<Byte>>, RangeError>)
    ensures r.Failure? <==> |reply| < HEADER_SIZE
    ensures r.Failure? ==> r.error == OutOfRange(|reply| / 4 * 4)
    ensures r.Success? && r.value.Some? <==>
              && HEADER_SIZE <= |reply|
              && 0 <= expectedId < TWO_TO_THE_32 && 0 <= expectedType < TWO_TO_THE_32
              && reply[0..4] == EncodeU32LE(CURRENT_REQUEST_VERSION)
              && reply[4..8] == EncodeU32LE(expectedId)
              && reply[8..12] == EncodeU32LE(expectedType)
    ensures r.Success? && r.value.Some? ==> r.value.value == reply[HEADER_SIZE..]
  {
    var parsed :- ParseReply(reply);
    if CURRENT_REQUEST_VERSION == parsed.header.version
       && parsed.header.requestId == expectedId
       && parsed.header.requestType == expectedType
    then
      Success(Some(parsed.data))
    else
      Success(None)
  }

  /** A reply carrying header `h` is accepted, with exactly the bytes after
      the header, if and only if its version is current and its id and type
      are the expected ones; whatever its declared data length and whatever
      length the caller expected. */
  lemma ValidateEncodedReply(h: Header, data: seq<Byte>, expectedId: int, expectedType: int, expectedLength: int)
    ensures ReadAndValidateHeader(EncodeHeader(h) + data, expectedId, expectedType, expectedLength)
         == if h.version == CURRENT_REQUEST_VERSION && h.requestId == expectedId && h.requestType == expectedType
            then Success(Some(data))
            else Success(None)
  {
    ParseEncodedReply(h, data);
  }
}
