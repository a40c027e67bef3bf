/**
 * `ElfParser.parseFile` (src/debugger/elfParser.ts): decodes an ELF32 image
 * into the list of data-object symbols. Every header, section-header and
 * symbol field is read little-endian with the bounds-checked readers of
 * NodeBuffer; a read that overruns the image aborts the whole parse.
 * The byte layouts are those of the Tool Interface Standard ELF
 * Specification v1.2, Book I, chapter 1 ("ELF Header", "Sections",
 * "Symbol Table").
 */
module Elf {
  import opened Results
  import opened NodeBuffer
  import opened TextFormat

  const SHT_SYMTAB: nat := 2
  const STT_OBJECT: nat := 1
  const STB_LOCAL: nat := 0
  const STB_GLOBAL: nat := 1
  /** Size of one Elf32_Sym entry. */
  const SYMBOL_ENTRY_SIZE: nat := 16

  datatype SymbolType = Object
  datatype Binding = Local | Global

  /** One output record: `type` is always "OBJECT", `section` is `st_shndx` in decimal. */
  datatype ElfSymbol = ElfSymbol(
    name: string,
    address: nat,
    size: nat,
    symbolType: SymbolType,
    binding: Binding,
    section: string)

  function BindingName(b: Binding): string {
    match b
    case Global => "GLOBAL"
    case Local => "LOCAL"
  }

  function TypeName(t: SymbolType): string {
    "OBJECT"
  }

  /** Why a parse fails: the magic check, or a RangeError from one of the buffer reads. */
  datatype ParseError = NotElfFile | ReadFailed(cause: RangeError)

  /** `buffer.readUInt32LE(offset)` with its RangeError carried as a ParseError. */
  function U32(buf: seq<byte>, offset: nat): (r: Result<nat, ParseError>)
    ensures r.Ok? <==> offset + 4 <= |buf|
    ensures r.Ok? ==> r.value == U32At(buf, offset) && r.value < 0x1_0000_0000
    ensures r.Err? ==> r.error == ReadFailed(OutOfRange(offset, 4))
  {
    match ReadUInt32LE(buf, offset)
    case Ok(v) => Ok(v)
    case Err(e) => Err(ReadFailed(e))
  }

  /** `buffer.readUInt16LE(offset)` with its RangeError carried as a ParseError. */
  function U16(buf: seq<byte>, offset: nat): (r: Result<nat, ParseError>)
    ensures r.Ok? <==> offset + 2 <= |buf|
    ensures r.Ok? ==> r.value == U16At(buf, offset) && r.value < 0x1_0000
    ensures r.Err? ==> r.error == ReadFailed(OutOfRange(offset, 2))
  {
    match ReadUInt16LE(buf, offset)
    case Ok(v) => Ok(v)
    case Err(e) => Err(ReadFailed(e))
  }

  /** `String.fromCharCode(byte)`. */
  function ByteChar(b: byte): char {
    (b as int) as char
  }

  predicate HasElfMagic(buf: seq<byte>) {
    |buf| >= 4 && buf[0] == 0x7F && buf[1] == 0x45 && buf[2] == 0x4C && buf[3] == 0x46
  }

  /** e_shoff, e_shentsize, e_shnum and e_shstrndx. */
  datatype ElfHeader = ElfHeader(shoff: nat, shentsize: nat, shnum: nat, shstrndx: nat)

  /**
   * The magic check, then the four header fields at 32, 46, 48 and 50. The
   * class and data bytes (4 and 5) are only logged, so they decide nothing.
   */
  function ReadHeader(buf: seq<byte>): (r: Result<ElfHeader, ParseError>)
    ensures r == Err(NotElfFile) <==> !HasElfMagic(buf)
    ensures r.Err? ==> r.error == NotElfFile || r.error.ReadFailed?
  {
    if !HasElfMagic(buf) then Err(NotElfFile)
    else
      var shoff :- U32(buf, 32);
      var shentsize :- U16(buf, 46);
      var shnum :- U16(buf, 48);
      var shstrndx :- U16(buf, 50);
      Ok(ElfHeader(shoff, shentsize, shnum, shstrndx))
  }

  /** File offset of section header `i`. */
  function SectionOffset(h: ElfHeader, i: nat): nat {
    h.shoff + i * h.shentsize
  }

  /**
   * The section-name string table's sh_offset and sh_size. The parser only
   * logs them, but the two reads still fail on a short image.
   */
  function NameTableHeader(buf: seq<byte>, h: ElfHeader): (r: Result<(nat, nat), ParseError>)
    ensures r.Err? ==> r.error.ReadFailed?
  {
    var at := SectionOffset(h, h.shstrndx);
    var offset :- U32(buf, at + 16);
    var size :- U32(buf, at + 20);
    Ok((offset, size))
  }

  /** sh_type of section header `i`. */
  function SectionType(buf: seq<byte>, h: ElfHeader, i: nat): Result<nat, ParseError> {
    U32(buf, SectionOffset(h, i) + 4)
  }

  /** Where the symbol table and the string table its sh_link names lie in the image. */
  datatype SymbolTables = SymbolTables(symtabOffset: nat, symtabSize: nat, symstrOffset: nat, symstrSize: nat)

  /**
   * sh_offset and sh_size of section header `i`, and sh_offset and sh_size of
   * the section header its sh_link selects.
   */
  function TablesOf(buf: seq<byte>, h: ElfHeader, i: nat): (r: Result<SymbolTables, ParseError>)
    ensures r.Err? ==> r.error.ReadFailed?
  {
    var at := SectionOffset(h, i);
    var symtabOffset :- U32(buf, at + 16);
    var symtabSize :- U32(buf, at + 20);
    var link :- U32(buf, at + 24);
    var symstrOffset :- U32(buf, SectionOffset(h, link) + 16);
    var symstrSize :- U32(buf, SectionOffset(h, link) + 20);
    Ok(SymbolTables(symtabOffset, symtabSize, symstrOffset, symstrSize))
  }

  /** The scan over section headers from `i` on: the first SHT_SYMTAB wins. */
  function FindSymtab(buf: seq<byte>, h: ElfHeader, i: nat): (r: Result<Option<SymbolTables>, ParseError>)
    ensures r.Err? ==> r.error.ReadFailed?
    decreases h.shnum - i
  {
    if i >= h.shnum then Ok(None)
    else
      var sectionType :- SectionType(buf, h, i);
      if sectionType == SHT_SYMTAB then
        var tables :- TablesOf(buf, h, i);
        Ok(Some(tables))
      else
        FindSymtab(buf, h, i + 1)
  }

  /**
   * Everything before the symbol entries: the header, the name-table reads and
   * the section scan. None when there is no symbol table to decode (none was
   * found, or its sh_offset is 0).
   */
  function Locate(buf: seq<byte>): Result<Option<SymbolTables>, ParseError> {
    var h :- ReadHeader(buf);
    var nameTable :- NameTableHeader(buf, h);
    var found :- FindSymtab(buf, h, 0);
    if found.Some? && found.value.symtabOffset != 0 then Ok(found) else Ok(None)
  }

  /** How many entries `for (i = 0; i < symtabSize / 16; i++)` visits. */
  function EntryCount(symtabSize: nat): nat {
    (symtabSize + SYMBOL_ENTRY_SIZE - 1) / SYMBOL_ENTRY_SIZE
  }

  /** File offset of symbol entry `i`. */
  function EntryOffset(t: SymbolTables, i: nat): nat {
    t.symtabOffset + i * SYMBOL_ENTRY_SIZE
  }

  /**
   * The name at `j`: one character per byte up to the first zero byte or the
   * end of the image, whichever comes first. The string table's size does not
   * bound it.
   */
  function CStringAt(buf: seq<byte>, j: nat): string
    decreases |buf| - j
  {
    if j >= |buf| || buf[j] == 0 then []
    else [ByteChar(buf[j])] + CStringAt(buf, j + 1)
  }

  /**
   * The name is the run of non-zero bytes from `j`, one character per byte,
   * ended by a zero byte or by the end of the buffer.
   */
  lemma {:induction false} CStringAtMeans(buf: seq<byte>, j: nat)
    ensures var name := CStringAt(buf, j);
      && (name == [] || j + |name| <= |buf|)
      && (forall i :: j <= i < j + |name| ==> buf[i] != 0 && name[i - j] == ByteChar(buf[i]))
      && (j + |name| >= |buf| || buf[j + |name|] == 0)
    decreases |buf| - j
  {
    if j < |buf| && buf[j] != 0 {
      CStringAtMeans(buf, j + 1);
    }
  }

  /** ELF32_ST_BIND(info): `info >> 4`, which on a byte value is `info / 16`. */
  function Bind(info: nat): nat {
    info / 16
  }

  /** ELF32_ST_TYPE(info): `info & 0xf`, which on a byte value is `info % 16`. */
  function SymType(info: nat): nat {
    info % 16
  }

  /** Whether an entry is output: a named data object of non-zero size with local or global binding. */
  predicate Wanted(t: SymbolTables, nameOffset: nat, size: nat, info: nat) {
    && 0 < nameOffset < t.symstrSize
    && SymType(info) == STT_OBJECT
    && size > 0
    && (Bind(info) == STB_GLOBAL || Bind(info) == STB_LOCAL)
  }

  /** The fields of one Elf32_Sym entry. */
  datatype RawSymbol = RawSymbol(nameOffset: nat, value: nat, size: nat, info: nat, shndx: nat)

  /**
   * The entry at `at`: st_name, st_value, st_size and st_shndx are read (any
   * of them may fail); st_info is the byte at +12. The parser reads st_info
   * with `buffer[...]`, which never throws, but the st_shndx read at +14 fails
   * whenever +12 lies past the end, so reading st_shndx first fails on the
   * same images.
   */
  function RawEntry(buf: seq<byte>, at: nat): (r: Result<RawSymbol, ParseError>)
    ensures r.Ok? <==> at + SYMBOL_ENTRY_SIZE <= |buf|
    ensures r.Err? ==> r.error.ReadFailed?
    ensures r.Ok? ==> r.value.size < 0x1_0000_0000 && r.value.value < 0x1_0000_0000
  {
    var nameOffset :- U32(buf, at);
    var value :- U32(buf, at + 4);
    var size :- U32(buf, at + 8);
    var shndx :- U16(buf, at + 14);
    Ok(RawSymbol(nameOffset, value, size, buf[at + 12] as nat, shndx))
  }

  /** Symbol entry `i` as an output record, None when the filter drops it. */
  function DecodeEntry(buf: seq<byte>, t: SymbolTables, i: nat): (r: Result<Option<ElfSymbol>, ParseError>)
    ensures r.Ok? <==> EntryOffset(t, i) + SYMBOL_ENTRY_SIZE <= |buf|
    ensures r.Err? ==> r.error.ReadFailed?
    ensures r.Ok? && r.value.Some? ==> 0 < r.value.value.size < 0x1_0000_0000
    ensures r.Ok? ==>
      var at := EntryOffset(t, i);
      var nameOffset, size, info := U32At(buf, at), U32At(buf, at + 8), buf[at + 12] as nat;
      && (r.value.Some? <==> Wanted(t, nameOffset, size, info))
      && (r.value.Some? ==>
        && r.value.value.name == CStringAt(buf, t.symstrOffset + nameOffset)
        && r.value.value.address == U32At(buf, at + 4)
        && r.value.value.size == size
        && (r.value.value.binding == Global <==> Bind(info) == STB_GLOBAL)
        && Canonical(r.value.value.section, 10)
        && ParseRadix(r.value.value.section, 10) == Some(U16At(buf, at + 14)))
  {
    var e :- RawEntry(buf, EntryOffset(t, i));
    if Wanted(t, e.nameOffset, e.size, e.info) then
      NumberToStringReadsBack(e.shndx, 10);
      NumberToStringCanonical(e.shndx, 10);
      Ok(Some(ElfSymbol(
        CStringAt(buf, t.symstrOffset + e.nameOffset),
        e.value,
        e.size,
        Object,
        if Bind(e.info) == STB_GLOBAL then Global else Local,
        NumberToString(e.shndx, 10))))
    else
      Ok(None)
  }

  /** The symbols pushed so far, and the error that stopped the loop, if any. */
  datatype Scan = Scan(found: seq<ElfSymbol>, failure: Option<ParseError>)

  /** The first `k` iterations of the symbol loop; after a failure nothing more happens. */
  function ScanEntries(buf: seq<byte>, t: SymbolTables, k: nat): (s: Scan)
    ensures s.failure.Some? ==> s.failure.value.ReadFailed?
  {
    if k == 0 then Scan([], None)
    else
      var s := ScanEntries(buf, t, k - 1);
      if s.failure.Some? then s
      else
        match DecodeEntry(buf, t, k - 1)
        case Err(e) => Scan(s.found, Some(e))
        case Ok(None) => s
        case Ok(Some(sym)) => Scan(s.found + [sym], None)
  }

  /** What `parseFile` returns, or the error it rethrows. */
  function ParseElf(buf: seq<byte>): (r: Result<seq<ElfSymbol>, ParseError>)
    ensures r == Err(NotElfFile) <==> !HasElfMagic(buf)
    ensures r.Err? ==> r.error == NotElfFile || r.error.ReadFailed?
  {
    match Locate(buf)
    case Err(e) => Err(e)
    case Ok(None) => Ok([])
    case Ok(Some(t)) =>
      var s := ScanEntries(buf, t, EntryCount(t.symtabSize));
      if s.failure.Some? then Err(s.failure.value) else Ok(s.found)
  }

  /** Every symbol pushed has a size above 0 that fits in 32 bits. */
  lemma {:induction false} ScanSizes(buf: seq<byte>, t: SymbolTables, k: nat)
    ensures forall sym :: sym in ScanEntries(buf, t, k).found ==> 0 < sym.size < 0x1_0000_0000
  {
    if k > 0 {
      ScanSizes(buf, t, k - 1);
      var s := ScanEntries(buf, t, k - 1);
      if s.failure.Some? {
        assert ScanEntries(buf, t, k).found == s.found;
      } else {
        match DecodeEntry(buf, t, k - 1)
        case Err(e) =>
          assert ScanEntries(buf, t, k).found == s.found;
        case Ok(None) =>
          assert ScanEntries(buf, t, k).found == s.found;
        case Ok(Some(sym)) =>
          assert ScanEntries(buf, t, k).found == s.found + [sym];
      }
    }
  }

  /** Every symbol a successful parse returns has a size above 0 that fits in 32 bits. */
  lemma ParsedSizes(buf: seq<byte>)
    ensures ParseElf(buf).Ok? ==> forall sym :: sym in ParseElf(buf).value ==> 0 < sym.size < 0x1_0000_0000
  {
    match Locate(buf)
    case Err(e) =>
    case Ok(None) =>
    case Ok(Some(t)) =>
      var s := ScanEntries(buf, t, EntryCount(t.symtabSize));
      assert ParseElf(buf) == if s.failure.Some? then Err(s.failure.value) else Ok(s.found);
      ScanSizes(buf, t, EntryCount(t.symtabSize));
  }

  /**
   * The `symbols` field after a parse: it is reset only once a symbol table
   * has been located, and then holds what was pushed before the parse ended
   * or failed. Otherwise it keeps its previous value.
   */
  function SymbolsAfterParse(buf: seq<byte>, previous: seq<ElfSymbol>): seq<ElfSymbol> {
    match Locate(buf)
    case Ok(Some(t)) => ScanEntries(buf, t, EntryCount(t.symtabSize)).found
    case _ => previous
  }

  /** The inner `while` of `parseFile`: append one character per byte until a zero byte or the end. */
  method ReadName(buf: seq<byte>, start: nat) returns (name: string)
    ensures name == CStringAt(buf, start)
  {
    name := "";
    var j := start;
    while j < |buf| && buf[j] != 0
      invariant start <= j
      invariant name + CStringAt(buf, j) == CStringAt(buf, start)
      decreases |buf| - j
    {
      name := name + [ByteChar(buf[j])];
      j := j + 1;
    }
  }

  /**
   * The section-header loop of `parseFile`: stops (`break`) at the first
   * SHT_SYMTAB header after reading its tables; any failed read aborts.
   */
  method FindSymbolTable(buf: seq<byte>, h: ElfHeader) returns (r: Result<Option<SymbolTables>, ParseError>)
    ensures r == FindSymtab(buf, h, 0)
  {
    var symtabOffset, symtabSize, symstrOffset, symstrSize := 0, 0, 0, 0;
    var i := 0;
    while i < h.shnum
      invariant i <= h.shnum
      invariant FindSymtab(buf, h, 0) == FindSymtab(buf, h, i)
    {
      var sectionOffset := h.shoff + i * h.shentsize;
      var sectionType :- U32(buf, sectionOffset + 4);
      if sectionType == SHT_SYMTAB {
        symtabOffset :- U32(buf, sectionOffset + 16);
        symtabSize :- U32(buf, sectionOffset + 20);
        var link :- U32(buf, sectionOffset + 24);
        var strSecOffset := h.shoff + link * h.shentsize;
        symstrOffset :- U32(buf, strSecOffset + 16);
        symstrSize :- U32(buf, strSecOffset + 20);
        return Ok(Some(SymbolTables(symtabOffset, symtabSize, symstrOffset, symstrSize)));
      }
      i := i + 1;
    }
    return Ok(None);
  }

  class ElfParser {
    var symbols: seq<ElfSymbol>

    constructor ()
      ensures symbols == []
    {
      symbols := [];
    }

    /** `parseFile`, on the image bytes the file read would return. */
    method ParseFile(buf: seq<byte>) returns (r: Result<seq<ElfSymbol>, ParseError>)
      modifies this
      ensures r == ParseElf(buf)
      ensures symbols == SymbolsAfterParse(buf, old(symbols))
    {
      var h :- ReadHeader(buf);
      var nameTable :- NameTableHeader(buf, h);
      var found :- FindSymbolTable(buf, h);
      if found.None? || found.value.symtabOffset == 0 {
        return Ok([]);
      }
      var t := found.value;
      assert Locate(buf) == Ok(Some(t));

      symbols := [];
      r := PushSymbols(buf, t);
    }

    /** The symbol-entry loop of `parseFile`, run on a freshly reset `symbols`. */
    method PushSymbols(buf: seq<byte>, t: SymbolTables) returns (r: Result<seq<ElfSymbol>, ParseError>)
      requires symbols == []
      modifies this
      ensures var s := ScanEntries(buf, t, EntryCount(t.symtabSize));
        && symbols == s.found
        && r == if s.failure.Some? then Err(s.failure.value) else Ok(s.found)
    {
      var numSymbols := (t.symtabSize + SYMBOL_ENTRY_SIZE - 1) / SYMBOL_ENTRY_SIZE;
      assert numSymbols == EntryCount(t.symtabSize);
      var k := 0;
      while k < numSymbols
        invariant k <= numSymbols
        invariant ScanEntries(buf, t, k) == Scan(symbols, None)
      {
        FailureIsFinal(buf, t, k, numSymbols);
        ScanStep(buf, t, k);
        var entry :- ReadEntry(buf, t, k);
        if entry.Some? {
          symbols := symbols + [entry.value];
        }
        k := k + 1;
      }
      return Ok(symbols);
    }
  }

  /** One iteration of the symbol loop: read entry `i`, apply the filter, build the record. */
  method ReadEntry(buf: seq<byte>, t: SymbolTables, i: nat) returns (r: Result<Option<ElfSymbol>, ParseError>)
    ensures r == DecodeEntry(buf, t, i)
  {
    var symOffset := t.symtabOffset + i * SYMBOL_ENTRY_SIZE;
    var e :- RawEntry(buf, symOffset);
    var nameOffset, value, size, shndx := e.nameOffset, e.value, e.size, e.shndx;
    var bind := e.info / 16;
    var kind := e.info % 16;
    if 0 < nameOffset < t.symstrSize {
      var name := ReadName(buf, t.symstrOffset + nameOffset);
      if kind == STT_OBJECT && size > 0 && (bind == STB_GLOBAL || bind == STB_LOCAL) {
        var binding := if bind == STB_GLOBAL then Global else Local;
        return Ok(Some(ElfSymbol(name, value, size, Object, binding, NumberToString(shndx, 10))));
      }
    }
    return Ok(None);
  }

  lemma ScanStep(buf: seq<byte>, t: SymbolTables, k: nat)
    requires ScanEntries(buf, t, k).failure.None?
    ensures ScanEntries(buf, t, k + 1) ==
      match DecodeEntry(buf, t, k)
      case Err(e) => Scan(ScanEntries(buf, t, k).found, Some(e))
      case Ok(None) => ScanEntries(buf, t, k)
      case Ok(Some(sym)) => Scan(ScanEntries(buf, t, k).found + [sym], None)
  {
  }

  /** Once an entry fails, the scan's outcome is fixed: what was found before it, and that error. */
  lemma {:induction false} FailureIsFinal(buf: seq<byte>, t: SymbolTables, k: nat, n: nat)
    requires k < n
    requires ScanEntries(buf, t, k).failure.None?
    ensures DecodeEntry(buf, t, k).Err? ==>
      ScanEntries(buf, t, n) == Scan(ScanEntries(buf, t, k).found, Some(DecodeEntry(buf, t, k).error))
    decreases n - k
  {
    if DecodeEntry(buf, t, k).Err? && n > k + 1 {
      FailureIsFinal(buf, t, k, n - 1);
    }
  }

  /** The first SHT_SYMTAB header at or after `i` decides the scan; later headers are never read. */
  lemma {:induction false} FirstSymtabWins(buf: seq<byte>, h: ElfHeader, i: nat, j: nat)
    requires i <= j < h.shnum
    requires forall k :: i <= k < j ==> SectionType(buf, h, k).Ok? && SectionType(buf, h, k).value != SHT_SYMTAB
    requires SectionType(buf, h, j) == Ok(SHT_SYMTAB)
    ensures FindSymtab(buf, h, i) ==
      match TablesOf(buf, h, j)
      case Ok(t) => Ok(Some(t))
      case Err(e) => Err(e)
    decreases j - i
  {
    if i < j {
      FirstSymtabWins(buf, h, i + 1, j);
    }
  }

  /** The scan finds nothing exactly when every remaining header reads and none is SHT_SYMTAB. */
  lemma {:induction false} NoSymtabFound(buf: seq<byte>, h: ElfHeader, i: nat)
    ensures FindSymtab(buf, h, i) == Ok(None) <==>
      forall k :: i <= k < h.shnum ==> SectionType(buf, h, k).Ok? && SectionType(buf, h, k).value != SHT_SYMTAB
    decreases h.shnum - i
  {
    if i < h.shnum {
      NoSymtabFound(buf, h, i + 1);
      if FindSymtab(buf, h, i) == Ok(None) {
        forall k | i <= k < h.shnum
          ensures SectionType(buf, h, k).Ok? && SectionType(buf, h, k).value != SHT_SYMTAB
        {
          if k > i {
            assert i + 1 <= k;
          }
        }
      }
    }
  }

  /** `k` entries are visited exactly when `k * 16` is below sh_size, as `i < symtabSize / 16` compares. */
  lemma EntryCountIsCeiling(symtabSize: nat, k: nat)
    ensures k < EntryCount(symtabSize) <==> (k as real) < (symtabSize as real) / 16.0
  {
    var n := EntryCount(symtabSize);
    assert n * 16 >= symtabSize && (n == 0 || (n - 1) * 16 < symtabSize);
    if k < n {
      assert k * 16 < symtabSize;
    } else {
      assert k * 16 >= symtabSize;
    }
  }

  /** The symbol loop runs to completion exactly when the last entry it visits lies inside the image. */
  lemma {:induction false} ScanCompletes(buf: seq<byte>, t: SymbolTables, n: nat)
    ensures ScanEntries(buf, t, n).failure.None? <==>
      n == 0 || EntryOffset(t, n - 1) + SYMBOL_ENTRY_SIZE <= |buf|
  {
    if n > 0 {
      ScanCompletes(buf, t, n - 1);
    }
  }

  /** Every symbol found comes from one of the entries visited. */
  lemma {:induction false} ScanMembers(buf: seq<byte>, t: SymbolTables, n: nat)
    ensures forall sym :: sym in ScanEntries(buf, t, n).found ==>
      exists i :: 0 <= i < n && DecodeEntry(buf, t, i) == Ok(Some(sym))
  {
    if n > 0 {
      ScanMembers(buf, t, n - 1);
    }
  }

  /** The values of the successful, present outcomes, in order. */
  function Picked<T, E>(outcomes: seq<Result<Option<T>, E>>): (r: seq<T>)
    ensures |r| <= |outcomes|
  {
    if outcomes == [] then []
    else
      var front := Picked(outcomes[..|outcomes| - 1]);
      var last := outcomes[|outcomes| - 1];
      if last.Ok? && last.value.Some? then front + [last.value.value] else front
  }

  /** A value is picked exactly when some outcome carries it. */
  lemma {:induction false} PickedMembers<T, E>(outcomes: seq<Result<Option<T>, E>>, x: T)
    ensures x in Picked(outcomes) <==> exists i :: 0 <= i < |outcomes| && outcomes[i] == Ok(Some(x))
  {
    if outcomes != [] {
      var front := outcomes[..|outcomes| - 1];
      PickedMembers(front, x);
      if exists i :: 0 <= i < |outcomes| && outcomes[i] == Ok(Some(x)) {
        var i :| 0 <= i < |outcomes| && outcomes[i] == Ok(Some(x));
        if i < |front| {
          assert front[i] == outcomes[i];
        }
      }
      if x in Picked(front) {
        var i :| 0 <= i < |front| && front[i] == Ok(Some(x));
        assert outcomes[i] == front[i];
      }
    }
  }

  /** Picking from more outcomes only appends. */
  lemma {:induction false} PickedPrefix<T, E>(outcomes: seq<Result<Option<T>, E>>, m: nat)
    requires m <= |outcomes|
    ensures Picked(outcomes[..m]) <= Picked(outcomes)
    decreases |outcomes| - m
  {
    if m < |outcomes| {
      var front := outcomes[..|outcomes| - 1];
      assert front[..m] == outcomes[..m];
      PickedPrefix(front, m);
      PrefixTransitive(Picked(outcomes[..m]), Picked(front), Picked(outcomes));
    } else {
      assert outcomes[..m] == outcomes;
    }
  }

  /**
   * Order: the value of outcome `i` is picked at position `|Picked(outcomes[..i])|`,
   * the number of values picked before it.
   */
  lemma PickedAt<T, E>(outcomes: seq<Result<Option<T>, E>>, i: nat)
    requires i < |outcomes| && outcomes[i].Ok? && outcomes[i].value.Some?
    ensures |Picked(outcomes[..i])| < |Picked(outcomes)|
    ensures Picked(outcomes)[|Picked(outcomes[..i])|] == outcomes[i].value.value
  {
    var upTo := outcomes[..i + 1];
    assert upTo[..i] == outcomes[..i];
    assert outcomes[..i + 1][..i + 1] == upTo;
    PickedPrefix(outcomes, i + 1);
  }

  /** What the decoder makes of each of the first `n` entries. */
  function Decoded(buf: seq<byte>, t: SymbolTables, n: nat): (r: seq<Result<Option<ElfSymbol>, ParseError>>)
    ensures |r| == n
  {
    if n == 0 then [] else Decoded(buf, t, n - 1) + [DecodeEntry(buf, t, n - 1)]
  }

  /** Outcome `i` is the decoding of entry `i`, and the first `m` outcomes are those of the first `m` entries. */
  lemma {:induction false} DecodedAt(buf: seq<byte>, t: SymbolTables, n: nat, m: nat)
    requires m <= n
    ensures Decoded(buf, t, n)[..m] == Decoded(buf, t, m)
    ensures m < n ==> Decoded(buf, t, n)[m] == DecodeEntry(buf, t, m)
    decreases n
  {
    if m < n {
      DecodedAt(buf, t, n - 1, m);
      if m < n - 1 {
        assert Decoded(buf, t, n)[m] == Decoded(buf, t, n - 1)[m];
      }
      assert Decoded(buf, t, n)[..m] == Decoded(buf, t, n - 1)[..m];
    }
  }

  /**
   * The reference for what the symbol loop collects: the symbol of every
   * entry below `n` that decodes and passes the filter, in table-index order.
   */
  function Accepted(buf: seq<byte>, t: SymbolTables, n: nat): seq<ElfSymbol> {
    Picked(Decoded(buf, t, n))
  }

  /** A loop that meets no failure collects exactly the accepted entries, in index order. */
  lemma {:induction false} ScanIsAccepted(buf: seq<byte>, t: SymbolTables, n: nat)
    ensures ScanEntries(buf, t, n).failure.None? ==> ScanEntries(buf, t, n).found == Accepted(buf, t, n)
  {
    if n > 0 {
      ScanIsAccepted(buf, t, n - 1);
      var s := ScanEntries(buf, t, n - 1);
      if s.failure.None? {
        AcceptedStep(buf, t, n);
        match DecodeEntry(buf, t, n - 1)
        case Err(e) =>
          assert ScanEntries(buf, t, n).failure == Some(e);
        case Ok(None) =>
          assert ScanEntries(buf, t, n) == s;
        case Ok(Some(sym)) =>
          assert ScanEntries(buf, t, n).found == s.found + [sym];
      }
    }
  }

  /** One more entry appends its symbol when it is accepted, and nothing otherwise. */
  lemma AcceptedStep(buf: seq<byte>, t: SymbolTables, n: nat)
    requires n > 0
    ensures var e := DecodeEntry(buf, t, n - 1);
      Accepted(buf, t, n) == Accepted(buf, t, n - 1) + (if e.Ok? && e.value.Some? then [e.value.value] else [])
  {
    var d := Decoded(buf, t, n);
    DecodedAt(buf, t, n, n - 1);
  }

  /**
   * A loop stopped by the entry at `k` keeps exactly the accepted entries
   * before `k`: the partial list `this.symbols` holds when the error is rethrown.
   */
  lemma PartialIsAccepted(buf: seq<byte>, t: SymbolTables, k: nat, n: nat)
    requires k < n
    requires ScanEntries(buf, t, k).failure.None? && DecodeEntry(buf, t, k).Err?
    ensures ScanEntries(buf, t, n) == Scan(Accepted(buf, t, k), Some(DecodeEntry(buf, t, k).error))
  {
    FailureIsFinal(buf, t, k, n);
    ScanIsAccepted(buf, t, k);
  }

  /** A symbol is accepted exactly when some entry below `n` decodes to it and passes the filter. */
  lemma AcceptedMembers(buf: seq<byte>, t: SymbolTables, n: nat, sym: ElfSymbol)
    ensures sym in Accepted(buf, t, n) <==> exists i :: 0 <= i < n && DecodeEntry(buf, t, i) == Ok(Some(sym))
  {
    var d := Decoded(buf, t, n);
    PickedMembers(d, sym);
    if exists i :: 0 <= i < n && DecodeEntry(buf, t, i) == Ok(Some(sym)) {
      var i :| 0 <= i < n && DecodeEntry(buf, t, i) == Ok(Some(sym));
      DecodedAt(buf, t, n, i);
    }
    forall i | 0 <= i < n ensures d[i] == DecodeEntry(buf, t, i) {
      DecodedAt(buf, t, n, i);
    }
  }

  /**
   * Index order: the symbol of accepted entry `i` sits at position
   * `|Accepted(i)|`, the number of accepted entries before it, and the symbol
   * of an accepted entry `j` after it lands strictly later.
   */
  lemma AcceptedInIndexOrder(buf: seq<byte>, t: SymbolTables, i: nat, j: nat, n: nat)
    requires i < j < n
    requires DecodeEntry(buf, t, i).Ok? && DecodeEntry(buf, t, i).value.Some?
    requires DecodeEntry(buf, t, j).Ok? && DecodeEntry(buf, t, j).value.Some?
    ensures |Accepted(buf, t, i)| < |Accepted(buf, t, j)| < |Accepted(buf, t, n)|
    ensures Accepted(buf, t, n)[|Accepted(buf, t, i)|] == DecodeEntry(buf, t, i).value.value
    ensures Accepted(buf, t, n)[|Accepted(buf, t, j)|] == DecodeEntry(buf, t, j).value.value
  {
    var d, dj := Decoded(buf, t, n), Decoded(buf, t, j);
    DecodedAt(buf, t, n, i);
    DecodedAt(buf, t, n, j);
    DecodedAt(buf, t, j, i);
    PickedAt(d, i);
    PickedAt(d, j);
    PickedAt(dj, i);
  }

  /** A successful parse returns exactly the accepted entries of the located table, in index order. */
  lemma ParseElfIsAccepted(buf: seq<byte>)
    ensures ParseElf(buf).Ok? && Locate(buf).Ok? && Locate(buf).value.Some? ==>
      var t := Locate(buf).value.value;
      ParseElf(buf).value == Accepted(buf, t, EntryCount(t.symtabSize))
  {
    if Locate(buf).Ok? && Locate(buf).value.Some? {
      var t := Locate(buf).value.value;
      ScanIsAccepted(buf, t, EntryCount(t.symtabSize));
    }
  }

  /** Scanning further only appends: the symbols of the first `m` entries are a prefix of those of `n`. */
  lemma {:induction false} ScanPrefix(buf: seq<byte>, t: SymbolTables, m: nat, n: nat)
    requires m <= n
    ensures ScanEntries(buf, t, m).found <= ScanEntries(buf, t, n).found
    decreases n - m
  {
    if m < n {
      ScanPrefix(buf, t, m, n - 1);
      ScanExtends(buf, t, n);
      PrefixTransitive(ScanEntries(buf, t, m).found, ScanEntries(buf, t, n - 1).found, ScanEntries(buf, t, n).found);
    }
  }

  lemma PrefixTransitive<T>(a: seq<T>, b: seq<T>, c: seq<T>)
    requires a <= b && b <= c
    ensures a <= c
  {
    assert a == b[..|a|] && b == c[..|b|];
    assert a == c[..|a|];
  }

  /** One more entry keeps every symbol found so far. */
  lemma ScanExtends(buf: seq<byte>, t: SymbolTables, k: nat)
    requires k > 0
    ensures ScanEntries(buf, t, k - 1).found <= ScanEntries(buf, t, k).found
  {
    var s := ScanEntries(buf, t, k - 1);
    if s.failure.None? {
      match DecodeEntry(buf, t, k - 1)
      case Err(e) =>
      case Ok(None) =>
      case Ok(Some(sym)) =>
        assert ScanEntries(buf, t, k).found == s.found + [sym];
    }
  }

  /**
   * A parse succeeds on an image whose symbol table was located exactly when
   * every visited entry lies inside the image; otherwise it rethrows the
   * RangeError of the first entry that does not.
   */
  lemma TruncatedTableFails(buf: seq<byte>, t: SymbolTables)
    requires Locate(buf) == Ok(Some(t))
    ensures ParseElf(buf).Ok? <==>
      t.symtabSize == 0 || t.symtabOffset + SYMBOL_ENTRY_SIZE * EntryCount(t.symtabSize) <= |buf|
  {
    var n := EntryCount(t.symtabSize);
    ScanCompletes(buf, t, n);
    if n > 0 {
      calc {
        EntryOffset(t, n - 1) + SYMBOL_ENTRY_SIZE;
        t.symtabOffset + (n - 1) * 16 + 16;
        t.symtabOffset + 16 * n;
      }
    }
  }

  /**
   * An image with a valid header but no SHT_SYMTAB section yields no symbols
   * and no error, and the parser's `symbols` field keeps its previous value.
   */
  lemma NoSymtabNoSymbols(buf: seq<byte>, h: ElfHeader, previous: seq<ElfSymbol>)
    requires ReadHeader(buf) == Ok(h) && NameTableHeader(buf, h).Ok?
    requires forall k :: 0 <= k < h.shnum ==> SectionType(buf, h, k).Ok? && SectionType(buf, h, k).value != SHT_SYMTAB
    ensures ParseElf(buf) == Ok([])
    ensures SymbolsAfterParse(buf, previous) == previous
  {
    NoSymtabFound(buf, h, 0);
  }

  /**
   * A symbol table whose sh_offset is 0 is treated like a missing one: no
   * symbols, no error, and the `symbols` field keeps its previous value.
   */
  lemma SymtabAtZeroNoSymbols(buf: seq<byte>, h: ElfHeader, t: SymbolTables, previous: seq<ElfSymbol>)
    requires ReadHeader(buf) == Ok(h) && NameTableHeader(buf, h).Ok?
    requires FindSymtab(buf, h, 0) == Ok(Some(t)) && t.symtabOffset == 0
    ensures ParseElf(buf) == Ok([])
    ensures SymbolsAfterParse(buf, previous) == previous
  {
  }

  /** The 16 bytes of an Elf32_Sym entry; st_other (byte 13) is written as 0. */
  function EncodeEntry(e: RawSymbol): (bytes: seq<byte>)
    requires e.nameOffset < 0x1_0000_0000 && e.value < 0x1_0000_0000 && e.size < 0x1_0000_0000
    requires e.info < 0x100 && e.shndx < 0x1_0000
    ensures |bytes| == SYMBOL_ENTRY_SIZE
    ensures bytes[12] as nat == e.info
  {
    EncodeU32(e.nameOffset) + EncodeU32(e.value) + EncodeU32(e.size) + [e.info as byte, 0] + EncodeU16(e.shndx)
  }

  /** Reading an entry back from wherever it was written gives the fields that were written. */
  lemma {:induction false} RawEntryReadsEncoded(pre: seq<byte>, e: RawSymbol, post: seq<byte>)
    requires e.nameOffset < 0x1_0000_0000 && e.value < 0x1_0000_0000 && e.size < 0x1_0000_0000
    requires e.info < 0x100 && e.shndx < 0x1_0000
    ensures RawEntry(pre + EncodeEntry(e) + post, |pre|) == Ok(e)
  {
    var a, b, c, d, f := EncodeU32(e.nameOffset), EncodeU32(e.value), EncodeU32(e.size), [e.info as byte, 0 as byte], EncodeU16(e.shndx);
    var buf := pre + EncodeEntry(e) + post;
    assert buf == pre + a + (b + c + d + f + post);
    ReadWritten32(pre, e.nameOffset, b + c + d + f + post);
    assert buf == (pre + a) + b + (c + d + f + post);
    ReadWritten32(pre + a, e.value, c + d + f + post);
    assert buf == (pre + a + b) + c + (d + f + post);
    ReadWritten32(pre + a + b, e.size, d + f + post);
    assert buf == (pre + a + b + c + d) + f + post;
    ReadWritten16(pre + a + b + c + d, e.shndx, post);
    assert buf[|pre| + 12] == e.info as byte;
  }
}
