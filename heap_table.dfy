/**
 * `MemoryManager.parseHeapBlocks` (src/models/memoryManager.ts): the target
 * keeps a table of 16-byte heap records, each a pointer, a size and a name
 * pointer, ended by a record whose pointer is 0. The decoder walks a memory
 * snapshot of that table. A read that overruns the snapshot throws, the
 * throw is caught, and the blocks decoded so far are returned.
 */
module HeapTable {
  import opened Results
  import opened NodeBuffer
  import opened TextFormat

  /** The length of one heap record. */
  const HEAP_RECORD_SIZE: nat := 16

  datatype HeapBlock = HeapBlock(ptr: nat, size: nat, name: string)

  /** "Heap Block @0x" and the pointer in lower-case hex. */
  function BlockName(ptr: nat): string {
    "Heap Block @0x" + NumberToString(ptr, 16)
  }

  /** A block's name is the fixed prefix and its pointer as `toString(16)` writes it, which reads back as the pointer. */
  lemma BlockNameMeans(ptr: nat)
    ensures var name := BlockName(ptr);
      && |name| > 14 && name[..14] == "Heap Block @0x"
      && Canonical(name[14..], 16) && ParseRadix(name[14..], 16) == Some(ptr)
  {
    var digits := NumberToString(ptr, 16);
    assert BlockName(ptr)[14..] == digits;
    NumberToStringCanonical(ptr, 16);
    NumberToStringReadsBack(ptr, 16);
  }

  /** The blocks the decoder collects from the record at `offset` on. */
  function HeapBlocksFrom(data: seq<byte>, offset: nat): seq<HeapBlock>
    decreases |data| - offset
  {
    if offset >= |data| then []
    else
      match ReadUInt32LE(data, offset)
      case Err(_) => []
      case Ok(ptr) =>
        if ptr == 0 then []
        else
          match (ReadUInt32LE(data, offset + 4), ReadUInt32LE(data, offset + 8))
          case (Ok(size), Ok(_)) =>
            (if size > 0 then [HeapBlock(ptr, size, BlockName(ptr))] else []) + HeapBlocksFrom(data, offset + HEAP_RECORD_SIZE)
          case _ => []
  }

  /** One full record with a non-zero pointer: its block, if its size is not 0, then the rest of the walk. */
  lemma RecordStep(data: seq<byte>, offset: nat)
    requires offset + 12 <= |data| && U32At(data, offset) != 0
    ensures var ptr, size := U32At(data, offset), U32At(data, offset + 4);
      && ptr < 0x1_0000_0000 && size < 0x1_0000_0000
      && HeapBlocksFrom(data, offset) ==
        (if size > 0 then [HeapBlock(ptr, size, BlockName(ptr))] else []) + HeapBlocksFrom(data, offset + HEAP_RECORD_SIZE)
  {
    assert ReadUInt32LE(data, offset) == Ok(U32At(data, offset));
    assert ReadUInt32LE(data, offset + 4) == Ok(U32At(data, offset + 4));
    assert ReadUInt32LE(data, offset + 8).Ok?;
  }

  /** Every block has a non-zero pointer, a non-zero size and the name of its pointer. */
  lemma {:induction false} DecodedBlocks(data: seq<byte>, offset: nat)
    ensures var blocks := HeapBlocksFrom(data, offset);
      forall i :: 0 <= i < |blocks| ==>
        && 0 < blocks[i].ptr < 0x1_0000_0000
        && 0 < blocks[i].size < 0x1_0000_0000
        && blocks[i].name == BlockName(blocks[i].ptr)
    decreases |data| - offset
  {
    if offset + 12 <= |data| && U32At(data, offset) != 0 {
      DecodedBlocks(data, offset + HEAP_RECORD_SIZE);
      RecordStep(data, offset);
    }
  }

  /** `parseHeapBlocks`: the records from offset 0, in snapshot order. */
  method ParseHeapBlocks(data: seq<byte>) returns (blocks: seq<HeapBlock>)
    ensures blocks == HeapBlocksFrom(data, 0)
  {
    blocks := [];
    var offset := 0;
    while offset < |data|
      invariant blocks + HeapBlocksFrom(data, offset) == HeapBlocksFrom(data, 0)
      decreases |data| - offset
    {
      var found := ReadRecord(data, offset);
      if found.None? {
        assert blocks + [] == blocks;
        return;
      }
      var rest := HeapBlocksFrom(data, offset + HEAP_RECORD_SIZE);
      assert (blocks + found.value) + rest == blocks + (found.value + rest);
      blocks := blocks + found.value;
      offset := offset + HEAP_RECORD_SIZE;
    }
    assert HeapBlocksFrom(data, offset) == [];
    assert blocks + [] == blocks;
  }

  /**
   * One pass of the loop: the block of the record at `offset` (none when its
   * size is 0), or None when the walk ends there, at a zero pointer (`break`)
   * or at a read that throws (caught, ending the parse).
   */
  method ReadRecord(data: seq<byte>, offset: nat) returns (found: Option<seq<HeapBlock>>)
    requires offset < |data|
    ensures found.None? ==> HeapBlocksFrom(data, offset) == []
    ensures found.Some? ==> HeapBlocksFrom(data, offset) == found.value + HeapBlocksFrom(data, offset + HEAP_RECORD_SIZE)
  {
    var ptr := ReadUInt32LE(data, offset);
    if ptr.Err? || ptr.value == 0 {
      return None;
    }
    var size := ReadUInt32LE(data, offset + 4);
    var namePtr := ReadUInt32LE(data, offset + 8);
    if size.Err? || namePtr.Err? {
      return None;
    }
    RecordStep(data, offset);
    found := Some(if ptr.value != 0 && size.value > 0 then [HeapBlock(ptr.value, size.value, BlockName(ptr.value))] else []);
  }

  /** A record as the target lays it out: the name pointer is read but not used. */
  datatype HeapRecord = HeapRecord(ptr: nat, size: nat, namePtr: nat)

  predicate Encodable(r: HeapRecord) {
    0 < r.ptr < 0x1_0000_0000 && r.size < 0x1_0000_0000 && r.namePtr < 0x1_0000_0000
  }

  /** The 16 bytes of a record: pointer, size and name pointer little-endian, then four unused bytes. */
  function EncodeRecord(r: HeapRecord): (bytes: seq<byte>)
    requires Encodable(r)
    ensures |bytes| == HEAP_RECORD_SIZE
  {
    EncodeU32(r.ptr) + EncodeU32(r.size) + EncodeU32(r.namePtr) + [0, 0, 0, 0]
  }

  function EncodeTable(records: seq<HeapRecord>): (bytes: seq<byte>)
    requires forall i :: 0 <= i < |records| ==> Encodable(records[i])
    ensures |bytes| == 16 * |records|
  {
    if records == [] then [] else EncodeRecord(records[0]) + EncodeTable(records[1..])
  }

  /** The blocks a table of records describes: the records of non-zero size, in order. */
  function BlocksOf(records: seq<HeapRecord>): seq<HeapBlock> {
    if records == [] then []
    else
      (if records[0].size > 0 then [HeapBlock(records[0].ptr, records[0].size, BlockName(records[0].ptr))] else [])
        + BlocksOf(records[1..])
  }

  /**
   * Decoding a written table gives back its blocks, whatever precedes it and
   * whatever follows it, as long as what follows ends the walk: a zero
   * pointer (the sentinel), or fewer bytes than a record needs.
   */
  lemma {:induction false} HeapTableRoundTrip(pre: seq<byte>, records: seq<HeapRecord>, tail: seq<byte>)
    requires forall i :: 0 <= i < |records| ==> Encodable(records[i])
    requires |tail| < 12 || U32At(tail, 0) == 0
    ensures HeapBlocksFrom(pre + EncodeTable(records) + tail, |pre|) == BlocksOf(records)
    decreases |records|
  {
    var data := pre + EncodeTable(records) + tail;
    if records == [] {
      assert data == pre + tail;
      TableEnd(pre, tail);
    } else {
      var next := pre + EncodeRecord(records[0]);
      HeapTableRoundTrip(next, records[1..], tail);
      RoundTripStep(pre, records, tail);
    }
  }

  /** The inductive step of the round trip: the first record, then the walk from the second on. */
  lemma RoundTripStep(pre: seq<byte>, records: seq<HeapRecord>, tail: seq<byte>)
    requires records != [] && forall i :: 0 <= i < |records| ==> Encodable(records[i])
    requires HeapBlocksFrom(pre + EncodeRecord(records[0]) + EncodeTable(records[1..]) + tail, |pre| + HEAP_RECORD_SIZE)
      == BlocksOf(records[1..])
    ensures HeapBlocksFrom(pre + EncodeTable(records) + tail, |pre|) == BlocksOf(records)
  {
    var r, rest := records[0], records[1..];
    assert EncodeTable(records) == EncodeRecord(r) + EncodeTable(rest);
    Regroup(pre, EncodeRecord(r), EncodeTable(rest), tail);
    RecordDecodes(pre, r, EncodeTable(rest) + tail);
  }

  /** Regrouping a buffer made of four parts. */
  lemma Regroup<T>(pre: seq<T>, first: seq<T>, others: seq<T>, tail: seq<T>)
    ensures pre + (first + others) + tail == (pre + first) + (others + tail)
    ensures pre + (first + others) + tail == (pre + first) + others + tail
  {
  }

  /** The walk stops at a zero pointer, and at a record too short to hold its three words. */
  lemma TableEnd(pre: seq<byte>, tail: seq<byte>)
    requires |tail| < 12 || U32At(tail, 0) == 0
    ensures HeapBlocksFrom(pre + tail, |pre|) == []
  {
    var data := pre + tail;
    if |pre| < |data| {
      match ReadUInt32LE(data, |pre|)
      case Err(_) =>
      case Ok(ptr) =>
        if 12 <= |tail| {
          assert ptr == U32At(tail, 0);
        } else {
          assert ReadUInt32LE(data, |pre| + 8).Err?;
        }
    }
  }

  /** The three words of a written record read back as its pointer, size and name pointer. */
  lemma RecordFields(r: HeapRecord)
    requires Encodable(r)
    ensures var e := EncodeRecord(r);
      U32At(e, 0) == r.ptr && U32At(e, 4) == r.size && U32At(e, 8) == r.namePtr
  {
    var a, b, c := EncodeU32(r.ptr), EncodeU32(r.size), EncodeU32(r.namePtr);
    var e := EncodeRecord(r);
    U32AtEncoded(r.ptr);
    U32AtEncoded(r.size);
    U32AtEncoded(r.namePtr);
    assert e[0] == a[0] && e[1] == a[1] && e[2] == a[2] && e[3] == a[3];
    assert e[4] == b[0] && e[5] == b[1] && e[6] == b[2] && e[7] == b[3];
    assert e[8] == c[0] && e[9] == c[1] && e[10] == c[2] && e[11] == c[3];
  }

  /** A written record decodes to its block (none when its size is 0), and the walk moves to the next record. */
  lemma RecordDecodes(pre: seq<byte>, r: HeapRecord, rest: seq<byte>)
    requires Encodable(r)
    ensures var data := pre + EncodeRecord(r) + rest;
      HeapBlocksFrom(data, |pre|) ==
        (if r.size > 0 then [HeapBlock(r.ptr, r.size, BlockName(r.ptr))] else [])
          + HeapBlocksFrom(data, |pre| + HEAP_RECORD_SIZE)
  {
    var data := pre + EncodeRecord(r) + rest;
    RecordWords(pre, r, rest);
    RecordStep(data, |pre|);
  }

  /** Inside any buffer, a written record's first two words read back as its pointer and size. */
  lemma RecordWords(pre: seq<byte>, r: HeapRecord, rest: seq<byte>)
    requires Encodable(r)
    ensures var data := pre + EncodeRecord(r) + rest;
      |pre| + 12 <= |data| && U32At(data, |pre|) == r.ptr && U32At(data, |pre| + 4) == r.size
  {
    var e := EncodeRecord(r);
    RecordFields(r);
    U32AtInside(pre, e, rest, 0);
    U32AtInside(pre, e, rest, 4);
  }
}
