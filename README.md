# Citra.js memory protocol — a Dafny model

Citra.js is a Node.js client that reads and writes the memory of a running
Citra emulator over a ZeroMQ request/reply socket. This project models the
client's wire format and reply handling in `index.js`:

- the packing of numbers into a `Uint32Array` buffer (`make32BitBuffer`):
  each number is reduced modulo 2^32 and laid out as four little-endian bytes;
- the 16-byte header (`generateHeader`): version 1, request id, request type,
  data length, in that order; the random id is a parameter;
- the request of `readMemory` (READ = 1, data length 8, then address and
  length) and of `writeMemory` (WRITE = 2, data length 8 + |buf|, then
  address, |buf| and the bytes of `buf`);
- `parseReply`, which reads four little-endian 32-bit fields at offsets 0, 4,
  8 and 12 and returns the rest of the buffer as data;
- `readAndValidateHeader`, which returns that data when the reply's version,
  id and type match the request, and `null` otherwise;
- `readMemory` and `writeMemory` as functions of a `send` parameter that
  stands for one exchange over the socket.

Files: `wrappers.dfy` (Option and Result), `little_endian.dfy` (module
`LittleEndian`: bytes, 32-bit values, `Uint32Array` packing, `readUIntLE`),
`header.dfy` (module `HeaderCodec`: header generation, reply parsing and
validation), `memory.dfy` (module `Memory`: the two requests and operations).

Modelling choices:

- Bytes are integers in [0, 256); 32-bit fields are integers in [0, 2^32).
  Numbers handed to `Uint32Array` are integers, reduced modulo 2^32 with a
  non-negative remainder, which is what the array's conversion does for
  integral values (so -1 is stored as 0xffffffff).
- The host is taken to be little-endian, so the bytes of a `Uint32Array`
  field are its little-endian encoding.
- `readUIntLE` throws a range error when its four bytes run past the end of
  the buffer; the model returns `Failure(OutOfRange(offset))`. A reply
  shorter than 16 bytes therefore makes `parseReply` fail, and the model
  records the offset of the first read that runs past the end. Node's
  distinct error codes and messages are not modelled.
- A thrown error or a rejected Promise is a `Failure`; the `null` that
  `readAndValidateHeader` returns is `None`.
- `expectedLength` (and the reply's declared data length) is ignored by the
  validation, as in the code: an accepted reply yields every byte after the
  header, however many there are. The code does not check that the data has
  `dataLength` bytes; it trusts the remote side, and so does the model.

## Model

| member | source | states |
|---|---|---|
| `LittleEndian.ToUint32` | index.js:57-59 | a number stored in a `Uint32Array` is the unique value in [0, 2^32) congruent to it modulo 2^32; values already in range are kept |
| `LittleEndian.EncodeU32LE` | index.js:57-59 | one array element occupies four bytes whose little-endian value is the element |
| `LittleEndian.EncodeU32LEInjective` | index.js:57-59 | two different 32-bit values never share a 4-byte encoding |
| `LittleEndian.FromToLE` | index.js:107-110 | reading back n little-endian bytes yields the number written, when it fits in n bytes |
| `LittleEndian.ToFromLE` | index.js:107-110 | every byte sequence is the little-endian encoding of the value read from it |
| `LittleEndian.ReadUIntLE` | index.js:107-110 | a 4-byte read succeeds exactly when the four bytes lie inside the buffer, and then returns the value whose encoding those bytes are; otherwise it fails with a range error at that offset |
| `LittleEndian.ReadEncoded` | index.js:107-110 | reading where a value was encoded returns that value |
| `LittleEndian.Make32BitBuffer` | index.js:57-59 | packing k numbers yields exactly 4k bytes, field i at bytes 4i..4i+3 holding the i-th number modulo 2^32, little-endian |
| `LittleEndian.PackedFieldBytes` | index.js:57-59 | field i of a packed buffer keeps its position 4i..4i+3 relative to wherever the buffer is placed in a message |
| `LittleEndian.ReadPackedField` | index.js:57-59 | reading field i of a packed buffer inside a message returns the i-th number modulo 2^32 |
| `LittleEndian.Make32BitBufferModular` | index.js:57-59 | packing depends only on the numbers modulo 2^32 |
| `HeaderCodec.RequestIdFromRandom` | index.js:62 | the id drawn from `Math.random()` in [0, 1) lies in [0, 0xffffffff), never 0xffffffff; it is the floor of the exact product random·0xffffffff (see "## Left out" for double rounding) |
| `HeaderCodec.EncodeHeader` | index.js:61-67 | the reference header layout is exactly 16 bytes |
| `HeaderCodec.PackedHeader` | index.js:65 | packing four numbers gives the reference header of those numbers taken modulo 2^32 |
| `HeaderCodec.GenerateHeader` | index.js:61-67 | the generated header is the 16-byte layout of version 1, the given id, the type and the length (each modulo 2^32), and the id returned is the one used |
| `HeaderCodec.ParseReply` | index.js:105-113 | parsing succeeds exactly on replies of at least 16 bytes; on success the reply is the encoding of the parsed header followed by the parsed data, so nothing is lost; on failure the error names the offset 4·⌊len/4⌋ of the first read past the end |
| `HeaderCodec.ParseEncodedReply` | index.js:105-113 | round trip: parsing an encoded header followed by any data returns that header and that data |
| `HeaderCodec.ReadAndValidateHeader` | index.js:83-103 | fails exactly on replies shorter than 16 bytes, with the range error of the first read past the end (offset 4·⌊len/4⌋); returns data exactly when the reply's bytes 0..11 encode version 1, the expected id and the expected type; the data is then every byte from offset 16 on |
| `HeaderCodec.ValidateEncodedReply` | index.js:94-102 | a reply with header h is accepted with its data iff h has the current version, the expected id and the expected type, and is rejected with `null` otherwise, whatever its declared length and the expected length |
| `Memory.BuildReadRequest` | index.js:30-34 | the read request is 24 bytes: a header of version 1, the id, READ and data length 8 (the true size of what follows), then the address and the length modulo 2^32 |
| `Memory.BuildWriteRequest` | index.js:47-51 | the write request is 24 + |buf| bytes: a header of version 1, the id, WRITE and data length 8 + |buf| modulo 2^32 (the true size when it fits), the address, |buf|, then the bytes of buf unchanged |
| `Memory.ReadMemory` | index.js:30-37 | a socket error propagates as a transport error; otherwise the read fails exactly on a reply shorter than 16 bytes, with a malformed-reply error carrying the range error at offset 4·⌊len/4⌋ (never a transport error), and yields data exactly when the reply's version, id and type match the request, the data being every byte after the header |
| `Memory.ReadMemoryAgainstReply` | index.js:35-37 | against a reply of header h and data d, the read yields d (of any length) when h echoes version 1, the request id and READ, and `null` when any of the three differs |
| `Memory.WriteMemory` | index.js:47-54 | the write fails only on a socket error and otherwise returns the reply exactly as received, with no header check |
| `Memory.ReadRequestExample` | index.js:30-34 | reading 4 bytes at 0x08000000 sends 24 bytes whose data part is 00 00 00 08 04 00 00 00 |
| `Memory.WriteRequestExample` | index.js:47-51 | writing FF FF at 0x08000000 sends 26 bytes: a WRITE header declaring 10, then 00 00 00 08 02 00 00 00 FF FF |

## Left out

- `createConnection` (index.js:11-21): opening the ZeroMQ socket, monitoring
  it and connecting over TCP are I/O and are not modelled.
- `sendRequest` (index.js:69-81): the event listeners and the Promise around
  one send and one reply are replaced by the `send` parameter, a function from
  request bytes to reply bytes or to the socket's error. Waiting, the lack of
  a timeout and the one-exchange-at-a-time rule of the socket are not modelled.
- `Math.random()` (index.js:62): the request id is an input; how the source
  derives it from a random number is modelled by `RequestIdFromRandom`.
- HeaderCodec.RequestIdFromRandom: takes the product random·0xffffffff in
  exact reals, not in float64; where that product lies just below an integer
  the source's rounded product reaches the integer, so the model's id can be
  one less than the source's (for random = (2^32 + 1)·2^-52 the source gives
  4096 and the model 4095). The bound 0 <= id < 0xffffffff holds in both.
- Numbers that are not integers (fractions, NaN, infinities) stored into a
  `Uint32Array` are not modelled; every number here is an integer.
- A big-endian host, on which `Uint32Array` bytes would be reversed, is not
  modelled: the layout is little-endian.
- A write followed by a read returning the written bytes depends on the
  emulator's memory, which is outside the client and not modelled.
