/**
 * The part of Node's `Buffer` the extension decodes with: `readUInt16LE` and
 * `readUInt32LE`, which throw a RangeError when `offset + width` passes the
 * end of the buffer. The throw becomes an `Err`.
 */
module NodeBuffer {
  import opened Results

  /** One element of a Buffer: an integer from 0 to 255. */
  newtype byte = b: int | 0 <= b < 0x100

  /** The RangeError `readUInt*LE` raises: the offset it was asked for and the field width. */
  datatype RangeError = OutOfRange(offset: nat, width: nat)

  /** The two bytes at `offset`, least significant first. */
  function U16At(buf: seq<byte>, offset: nat): nat
    requires offset + 2 <= |buf|
  {
    buf[offset] as int + 0x100 * buf[offset + 1] as int
  }

  /** The four bytes at `offset`, least significant first. */
  function U32At(buf: seq<byte>, offset: nat): nat
    requires offset + 4 <= |buf|
  {
    buf[offset] as int + 0x100 * buf[offset + 1] as int
      + 0x1_0000 * buf[offset + 2] as int + 0x100_0000 * buf[offset + 3] as int
  }

  /** `buf.readUInt16LE(offset)`: the field, or the RangeError when it overruns the buffer. */
  function ReadUInt16LE(buf: seq<byte>, offset: nat): (r: Result<nat, RangeError>)
    ensures r.Ok? <==> offset + 2 <= |buf|
    ensures r.Ok? ==> r.value < 0x1_0000
    ensures r.Err? ==> r.error == OutOfRange(offset, 2)
  {
    if offset + 2 <= |buf| then Ok(U16At(buf, offset)) else Err(OutOfRange(offset, 2))
  }

  /** `buf.readUInt32LE(offset)`: the field, or the RangeError when it overruns the buffer. */
  function ReadUInt32LE(buf: seq<byte>, offset: nat): (r: Result<nat, RangeError>)
    ensures r.Ok? <==> offset + 4 <= |buf|
    ensures r.Ok? ==> r.value < 0x1_0000_0000
    ensures r.Err? ==> r.error == OutOfRange(offset, 4)
  {
    if offset + 4 <= |buf| then Ok(U32At(buf, offset)) else Err(OutOfRange(offset, 4))
  }

  /** The two bytes that store `v` least significant first. */
  function EncodeU16(v: nat): (bytes: seq<byte>)
    requires v < 0x1_0000
    ensures |bytes| == 2
  {
    [(v % 0x100) as byte, (v / 0x100) as byte]
  }

  /** The four bytes that store `v` least significant first. */
  function EncodeU32(v: nat): (bytes: seq<byte>)
    requires v < 0x1_0000_0000
    ensures |bytes| == 4
  {
    [(v % 0x100) as byte, (v / 0x100 % 0x100) as byte, (v / 0x1_0000 % 0x100) as byte, (v / 0x100_0000) as byte]
  }

  /** A 16-bit field written at an offset reads back as the value written, whatever surrounds it. */
  lemma ReadWritten16(pre: seq<byte>, v: nat, post: seq<byte>)
    requires v < 0x1_0000
    ensures ReadUInt16LE(pre + EncodeU16(v) + post, |pre|) == Ok(v)
  {
    var buf := pre + EncodeU16(v) + post;
    assert buf[|pre|..|pre| + 2] == EncodeU16(v);
    assert buf[|pre|] == EncodeU16(v)[0] && buf[|pre| + 1] == EncodeU16(v)[1];
  }

  /** A 32-bit field written at an offset reads back as the value written, whatever surrounds it. */
  lemma ReadWritten32(pre: seq<byte>, v: nat, post: seq<byte>)
    requires v < 0x1_0000_0000
    ensures ReadUInt32LE(pre + EncodeU32(v) + post, |pre|) == Ok(v)
  {
    var buf := pre + EncodeU32(v) + post;
    var e := EncodeU32(v);
    assert buf[|pre|] == e[0] && buf[|pre| + 1] == e[1] && buf[|pre| + 2] == e[2] && buf[|pre| + 3] == e[3];
    ByteDigits(v);
  }

  lemma ByteDigits(v: nat)
    requires v < 0x1_0000_0000
    ensures v == v % 0x100 + 0x100 * (v / 0x100 % 0x100)
      + 0x1_0000 * (v / 0x1_0000 % 0x100) + 0x100_0000 * (v / 0x100_0000)
  {
    var a := v / 0x100;
    var b := a / 0x100;
    assert v / 0x1_0000 == b;
    assert v / 0x100_0000 == b / 0x100;
  }

  /** Reading is also injective: the bytes a 32-bit field came from are the encoding of its value. */
  lemma EncodeRead32(buf: seq<byte>, offset: nat)
    requires offset + 4 <= |buf|
    ensures EncodeU32(U32At(buf, offset)) == buf[offset..offset + 4]
  {
    var b0, b1, b2, b3 := buf[offset] as int, buf[offset + 1] as int, buf[offset + 2] as int, buf[offset + 3] as int;
    var v := U32At(buf, offset);
    assert v == b0 + 0x100 * (b1 + 0x100 * (b2 + 0x100 * b3));
    assert v % 0x100 == b0 && v / 0x100 == b1 + 0x100 * (b2 + 0x100 * b3);
    var w := v / 0x100;
    assert w % 0x100 == b1 && w / 0x100 == b2 + 0x100 * b3;
    assert v / 0x1_0000 == w / 0x100;
    assert v / 0x100_0000 == (w / 0x100) / 0x100;
  }

  /** A 32-bit field inside `mid` reads the same wherever `mid` is placed. */
  lemma U32AtInside(pre: seq<byte>, mid: seq<byte>, post: seq<byte>, offset: nat)
    requires offset + 4 <= |mid|
    ensures U32At(pre + mid + post, |pre| + offset) == U32At(mid, offset)
  {
    var buf := pre + mid + post;
    assert buf[|pre| + offset] == mid[offset] && buf[|pre| + offset + 1] == mid[offset + 1];
    assert buf[|pre| + offset + 2] == mid[offset + 2] && buf[|pre| + offset + 3] == mid[offset + 3];
  }

  /** The encoding of `v` reads back as `v`. */
  lemma U32AtEncoded(v: nat)
    requires v < 0x1_0000_0000
    ensures U32At(EncodeU32(v), 0) == v
  {
    ReadWritten32([], v, []);
    assert [] + EncodeU32(v) + [] == EncodeU32(v);
  }
}
