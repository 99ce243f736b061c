/** Unsigned little-endian integers in byte buffers: the conversion a
    `Uint32Array` applies to the numbers stored in it, the bytes of its
    backing buffer on a little-endian host, and Node's `Buffer.readUIntLE`
    for a 4-byte field. */
module LittleEndian {
  import opened Wrappers

  /** One byte of a Node.js `Buffer`. */
  type Byte = b: int | 0 <= b < 256

  const TWO_TO_THE_32: int := 0x1_0000_0000

  /** An element of a `Uint32Array`. */
  type U32 = x: int | 0 <= x < TWO_TO_THE_32

  /** The range error `readUIntLE` throws when the 4 bytes at `offset` do not
      all lie inside the buffer. */
  datatype RangeError = OutOfRange(offset: nat)

  function Pow256(n: nat): nat
  {
    if n == 0 then 1 else 256 * Pow256(n - 1)
  }

  /** The `n` low-order bytes of `x`, least significant first. */
  function ToLE(x: nat, n: nat): (s: seq<Byte>)
    ensures |s| == n
  {
    if n == 0 then [] else [x % 256] + ToLE(x / 256, n - 1)
  }

  /** The unsigned number whose little-endian representation is `s`. */
  function FromLE(s: seq<Byte>): (x: nat)
    ensures x < Pow256(|s|)
  {
    if s == [] then 0 else s[0] + 256 * FromLE(s[1..])
  }

  /** Reading back `n` little-endian bytes gives the number that was written,
      when it fits in `n` bytes. */
  lemma {:induction false} FromToLE(x: nat, n: nat)
    requires x < Pow256(n)
    ensures FromLE(ToLE(x, n)) == x
  {
    if n > 0 {
      FromToLE(x / 256, n - 1);
    }
  }

  /** Every byte sequence is the little-endian representation of its value. */
  lemma {:induction false} ToFromLE(s: seq<Byte>)
    ensures ToLE(FromLE(s), |s|) == s
  {
    if s != [] {
      var rest := FromLE(s[1..]);
      assert (s[0] + 256 * rest) % 256 == s[0];
      assert (s[0] + 256 * rest) / 256 == rest;
      ToFromLE(s[1..]);
    }
  }

  /** How a `Uint32Array` stores a number: reduced modulo 2^32 (the model
      takes integral numbers only). */
  function ToUint32(n: int): (x: U32)
    ensures (n - x) % TWO_TO_THE_32 == 0
    ensures 0 <= n < TWO_TO_THE_32 ==> x == n
  {
    n % TWO_TO_THE_32
  }

  /** The four bytes of one `Uint32Array` element on a little-endian host. */
  function EncodeU32LE(x: U32): (s: seq<Byte>)
    ensures |s| == 4
    ensures FromLE(s) == x
  {
    assert Pow256(4) == TWO_TO_THE_32;
    FromToLE(x, 4);
    ToLE(x, 4)
  }

  /** Two different 32-bit values never share an encoding. */
  lemma EncodeU32LEInjective(x: U32, y: U32)
    requires EncodeU32LE(x) == EncodeU32LE(y)
    ensures x == y
  {
  }

  /** `buf.readUIntLE(offset, 4)`: the 32-bit unsigned value stored little-endian
      at `offset`, or a range error when the buffer ends too early. */
  function ReadUIntLE(buf: seq<Byte>, offset: nat): (r: Result<U32, RangeError>)
    ensures r.Success? <==> offset + 4 <= |buf|
    ensures r.Success? ==> EncodeU32LE(r.value) == buf[offset..offset + 4]
    ensures r.Failure? ==> r.error == OutOfRange(offset)
  {
    if offset + 4 <= |buf| then
      var field := buf[offset..offset + 4];
      ToFromLE(field);
      assert Pow256(4) == TWO_TO_THE_32;
      Success(FromLE(field))
    else
      Failure(OutOfRange(offset))
  }

  /** `Buffer.from(new Uint32Array(nums).buffer)`: each number reduced modulo
      2^32 and laid out as four little-endian bytes, field `i` at bytes
      `4 * i` to `4 * i + 3`. */
  function Make32BitBuffer(nums: seq<int>): (buf: seq<Byte>)
    ensures |buf| == 4 * |nums|
    ensures forall i :: 0 <= i < |nums| ==> buf[4 * i..4 * i + 4] == EncodeU32LE(ToUint32(nums[i]))
  {
    if nums == [] then
      []
    else
      var rest := Make32BitBuffer(nums[1..]);
      var buf := EncodeU32LE(ToUint32(nums[0])) + rest;
      assert forall i :: 1 <= i < |nums| ==> buf[4 * i..4 * i + 4] == rest[4 * (i - 1)..4 * (i - 1) + 4];
      buf
  }

  /** A field read where a value was encoded gives back that value. */
  lemma ReadEncoded(buf: seq<Byte>, offset: nat, x: U32)
    requires offset + 4 <= |buf|
    requires buf[offset..offset + 4] == EncodeU32LE(x)
    ensures ReadUIntLE(buf, offset) == Success(x)
  {
  }

  /** Field `i` of a packed buffer sits at bytes `4 * i` to `4 * i + 3` of it,
      wherever the buffer is placed inside a larger message. */
  lemma {:induction false} PackedFieldBytes(msg: seq<Byte>, offset: nat, nums: seq<int>, i: nat)
    requires offset + 4 * |nums| <= |msg|
    requires msg[offset..offset + 4 * |nums|] == Make32BitBuffer(nums)
    requires i < |nums|
    ensures msg[offset + 4 * i..offset + 4 * i + 4] == EncodeU32LE(ToUint32(nums[i]))
  {
    var packed := Make32BitBuffer(nums);
    var field, packedField := msg[offset + 4 * i..offset + 4 * i + 4], packed[4 * i..4 * i + 4];
    assert forall k :: 0 <= k < 4 ==> field[k] == msg[offset..offset + 4 * |nums|][4 * i + k];
    assert field == packedField;
  }

  /** Reading field `i` of a packed buffer, wherever it sits inside a larger
      message, gives back the `i`-th number modulo 2^32. */
  lemma {:induction false} ReadPackedField(msg: seq<Byte>, offset: nat, nums: seq<int>, i: nat)
    requires offset + 4 * |nums| <= |msg|
    requires msg[offset..offset + 4 * |nums|] == Make32BitBuffer(nums)
    requires i < |nums|
    ensures ReadUIntLE(msg, offset + 4 * i) == Success(ToUint32(nums[i]))
  {
    PackedFieldBytes(msg, offset, nums, i);
    ReadEncoded(msg, offset + 4 * i, ToUint32(nums[i]));
  }

  /** Packing is determined by the numbers modulo 2^32 alone. */
  lemma {:induction false} Make32BitBufferModular(a: seq<int>, b: seq<int>)
    requires |a| == |b|
    requires forall i :: 0 <= i < |a| ==> ToUint32(a[i]) == ToUint32(b[i])
    ensures Make32BitBuffer(a) == Make32BitBuffer(b)
  {
    if a != [] {
      assert ToUint32(a[0]) == ToUint32(b[0]);
      Make32BitBufferModular(a[1..], b[1..]);
    }
  }
}
