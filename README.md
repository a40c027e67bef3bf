# MCU memory debugger core, in Dafny

This project models the data core of a VS Code extension for debugging microcontroller memory. The core has four parts:

- **ELF symbol extraction.** `ElfParser.parseFile` decodes an ELF32 image into the list of data-object symbols: named `STT_OBJECT` entries of non-zero size with local or global binding.
- **The memory-item catalog.** `MemoryManager` keeps a JavaScript `Map<string, MemoryItem>`:
  - `loadElfFile` sets one variable item per symbol;
  - `readHeapInfo` decodes a snapshot of the target's heap table, deletes every heap item and sets one item per block;
  - `getItems` lists the catalog in insertion order.

  The part also covers `formatAddress`, `createPeripheralRegisters` and the heap-table decoder `parseHeapBlocks`.
- **Memory-map layout.** `MemoryMapView.show` filters a region's children down to variables and heap blocks and sorts them by address. It fills the holes with "Unused" gap items and packs the result into a `MemorySegment`.
- **Hex dump.** `GDBInterface.formatMemoryContent` renders a byte snapshot as a header plus one 81-character line per 16 bytes.

Modules, one file each:

| module | file | contents |
|---|---|---|
| `Results` | `results.dfy` | `Option` and `Result`. |
| `NodeBuffer` | `node_buffer.dfy` | Node's bounds-checked `readUInt16LE` and `readUInt32LE`, with little-endian encoders. |
| `TextFormat` | `text_format.dfy` | `toString(radix)`, `toUpperCase`, `toLowerCase`, `padStart`, `padEnd` and `repeat`, each with a parser or characterisation as its partner. |
| `Elf` | `elf.dfy` | The ELF parser. |
| `ItemCatalog` | `catalog.dfy` | The `Map` as a value: its entries and its key order. |
| `HeapTable` | `heap_table.dfy` | The heap-record decoder. |
| `Memory` | `memory.dfy` | `MemoryManager`. |
| `MemoryMap` | `memory_map.dfy` | `show`. |
| `HexDump` | `gdb_format.dfy` | `formatMemoryContent`. |

How the source's constructs are modelled:

- Objects whose fields the source mutates are classes: `ElfParser.symbols`, and the manager's Map as an entries map plus a key order. Each loop of the source is a method with loop invariants. Each method is proved equal to a specification function, and the lemmas state what those functions mean.
- A thrown `RangeError` or `Error` is an `Err` value.
- A file read or a debugger memory read is a parameter: the image bytes, or an `Option` snapshot.
- The change event is a counter of how often it fired.

Behaviour of the code worth knowing, which the model reproduces:

- A reload only sets the loaded symbols; symbols from a previous image are never removed.
- A heap table that runs past the end of the snapshot yields the blocks decoded so far. The error is caught, not propagated.
- A bad ELF magic is rethrown as an error rather than giving an empty result.
- The class and data bytes of the ELF identification are only logged, never checked.
- Symbol ids are "symbol_" plus the symbol's name, not derived from its kind and address.
- The trailing gap of the memory map is computed as written; see "## Findings". `MemoryMap.Show` keeps the code as written. The corrected layout sits beside it with its tiling proved.

## Model

| member | source | states |
|---|---|---|
| NodeBuffer.ReadUInt32LE | src/debugger/elfParser.ts:48 | The read succeeds exactly when four bytes fit at the offset. It then gives a value below 2^32; otherwise it gives the RangeError for that offset and width 4. |
| NodeBuffer.ReadUInt16LE | src/debugger/elfParser.ts:49-51 | The read succeeds exactly when two bytes fit. It then gives a value below 2^16; otherwise it gives the RangeError for that offset and width 2. |
| NodeBuffer.ReadWritten32 | src/models/memoryManager.ts:184-188 | A 32-bit field written little-endian anywhere in a buffer reads back as the value written. |
| NodeBuffer.ReadWritten16 | src/debugger/elfParser.ts:109 | A 16-bit field written little-endian anywhere in a buffer reads back as the value written. |
| NodeBuffer.EncodeRead32 | src/debugger/elfParser.ts:103-105 | The four bytes a word was read from are exactly the encoding of the word read, so reading loses nothing. |
| TextFormat.NumberToStringReadsBack | src/models/memoryManager.ts:78 | `toString(radix)` is inverted by the radix parser: the text reads back as the number. |
| TextFormat.NumberToString | src/debugger/elfParser.ts:139 | `toString(radix)` of a non-negative integer is never empty. That it reads back is `NumberToStringReadsBack`; its form is `NumberToStringCanonical`. |
| TextFormat.NumberToStringCanonical | src/models/memoryManager.ts:78 | `toString(radix)` writes only 0-9 and lower-case letters worth less than the radix. It starts with '0' exactly for 0, so there is never a leading zero. |
| TextFormat.CanonicalUnique | src/models/memoryManager.ts:78 | Text in that form that reads back as n is exactly `n.toString(radix)`, so the form and the value pin the text down. |
| TextFormat.Upper | src/models/memoryManager.ts:116 | `toUpperCase` keeps the length and maps each character to its upper-case form. |
| TextFormat.Lower | src/models/memoryManager.ts:157 | `toLowerCase` keeps the length and maps each character to its lower-case form. |
| TextFormat.Repeat | src/debugger/gdbInterface.ts:137 | `repeat(n)` gives n copies of the character. |
| TextFormat.PadStart | src/debugger/gdbInterface.ts:134 | `padStart` never truncates: the result has the larger of the two lengths, ends with the input and is filled on the left. |
| TextFormat.PadEnd | src/debugger/gdbInterface.ts:148 | `padEnd` never truncates: the result has the larger of the two lengths, starts with the input and is filled on the right. |
| TextFormat.DigitsValueUpper | src/models/memoryManager.ts:116 | Upper-casing a digit string does not change the number it denotes. |
| TextFormat.DigitsValueLeadingZeros | src/models/memoryManager.ts:116 | Leading zeros do not change the number a digit string denotes. |
| TextFormat.PadStartValue | src/models/memoryManager.ts:116 | Zero-padding on the left keeps the hexadecimal value. |
| TextFormat.PaddedHexIsPadStart | src/models/memoryManager.ts:116 | The digit-by-digit address text equals upper-cased `toString(16)` zero-padded to the width. |
| TextFormat.PaddedHexLength | src/models/memoryManager.ts:116 | The padded text has at least `width` places and at least one. For a positive width it has exactly `width` places exactly when the number is below 16^width. |
| TextFormat.AddressTextLength | src/models/memoryManager.ts:115-117 | `formatAddress` gives "0x" and at least eight digits. The text is 10 characters exactly when the address fits in 32 bits. |
| TextFormat.AddressTextIsPadded | src/models/memoryManager.ts:115-117 | `formatAddress(n)` is "0x" followed by upper-cased `n.toString(16)` zero-padded to 8. |
| TextFormat.AddressTextReadsBack | src/models/memoryManager.ts:115-117 | After "0x" come only upper-case hex digits, and they read back as the address. |
| TextFormat.PaddedHexFacts | src/debugger/gdbInterface.ts:141 | Upper-cased, zero-padded hexadecimal text reads back as the number and uses only 0-9 and A-F. |
| TextFormat.HexDigitsUpper | src/debugger/gdbInterface.ts:146 | Upper-cased `toString(16)` uses only 0-9 and A-F. |
| TextFormat.ByteHex | src/debugger/gdbInterface.ts:146 | A byte's hex text is two characters. |
| TextFormat.ByteHexIsPadded | src/debugger/gdbInterface.ts:146 | The two digits equal upper-cased `b.toString(16)` zero-padded to 2. |
| TextFormat.ByteHexReadsBack | src/debugger/gdbInterface.ts:146 | The two digits are upper-case hex digits and read back as the byte. |
| Elf.U32 | src/debugger/elfParser.ts:48 | A word read succeeds exactly when it fits. Its value is the little-endian word, below 2^32; a failure carries the RangeError. |
| Elf.U16 | src/debugger/elfParser.ts:49-51 | A half-word read succeeds exactly when it fits. Its value is the little-endian half-word, below 2^16; a failure carries the RangeError. |
| Elf.ReadHeader | src/debugger/elfParser.ts:32-51 | The result is the not-an-ELF error exactly when the magic bytes are missing. Any other failure is a failed field read. |
| Elf.NameTableHeader | src/debugger/elfParser.ts:59-61 | The section-name table reads can only fail as read failures; their values are unused. |
| Elf.TablesOf | src/debugger/elfParser.ts:77-84 | Reading a symbol table's offsets and its linked string table can only fail as a read failure. |
| Elf.FindSymtab | src/debugger/elfParser.ts:72-89 | The section scan can only fail as a read failure. `FirstSymtabWins` and `NoSymtabFound` state which tables it returns. |
| Elf.FindSymbolTable | src/debugger/elfParser.ts:72-89 | The section-header loop returns exactly the scan `FindSymtab` specifies. |
| Elf.FirstSymtabWins | src/debugger/elfParser.ts:72-88 | The first SHT_SYMTAB header decides the result, namely its tables or their read error. Later headers are never read. |
| Elf.NoSymtabFound | src/debugger/elfParser.ts:72-94 | The scan finds no table exactly when every header's type reads and none is SHT_SYMTAB. |
| Elf.NoSymtabNoSymbols | src/debugger/elfParser.ts:91-94 | A valid header with no SHT_SYMTAB section gives an empty result and no error, and the parser's `symbols` field keeps its previous value. |
| Elf.SymtabAtZeroNoSymbols | src/debugger/elfParser.ts:91-94 | A SHT_SYMTAB section whose sh_offset is 0 counts as no table: an empty result, no error, and `symbols` keeps its previous value. |
| Elf.CStringAtMeans | src/debugger/elfParser.ts:113-118 | A name is the run of non-zero bytes from its offset, one character per byte. It ends at a zero byte or at the image end, and the string table's size does not bound it. |
| Elf.ReadName | src/debugger/elfParser.ts:113-118 | The character loop builds exactly that run. |
| Elf.RawEntry | src/debugger/elfParser.ts:102-109 | An entry reads exactly when its 16 bytes fit. Otherwise it is a read failure; size and value are below 2^32. |
| Elf.RawEntryReadsEncoded | src/debugger/elfParser.ts:102-109 | An Elf32_Sym written anywhere in an image reads back field by field. |
| Elf.DecodeEntry | src/debugger/elfParser.ts:101-141 | An entry decodes exactly when it fits in the image. It is output exactly when its name offset is in (0, symstrSize), its type is OBJECT, its size is non-zero and its binding is LOCAL or GLOBAL. The output carries the C-string name, st_value, st_size, GLOBAL exactly when the bind is 1, and as section the canonical decimal text of st_shndx: digits only, no leading zero, reading back as st_shndx. |
| Elf.ReadEntry | src/debugger/elfParser.ts:102-141 | One pass of the symbol loop returns exactly `DecodeEntry`. |
| Elf.ScanEntries | src/debugger/elfParser.ts:101-143 | The loop can only stop on a read failure; the lemmas below state what it collects. |
| Elf.ScanStep | src/debugger/elfParser.ts:101-141 | One more iteration records the entry's error, skips a filtered entry, or appends the symbol. |
| Elf.FailureIsFinal | src/debugger/elfParser.ts:101-152 | The first failing entry fixes the outcome: the symbols found before it and its error. |
| Elf.ScanCompletes | src/debugger/elfParser.ts:101-109 | The loop runs to completion exactly when the last entry it visits lies inside the image. |
| Elf.ScanMembers | src/debugger/elfParser.ts:101-141 | Every symbol found is the decoding of one of the entries visited. |
| Elf.ScanIsAccepted | src/debugger/elfParser.ts:101-143 | A loop that meets no failure collects exactly `Accepted`: the symbol of every entry that decodes and passes the filter, in table-index order. |
| Elf.PartialIsAccepted | src/debugger/elfParser.ts:101-152 | A loop stopped by a failing entry k holds exactly the accepted symbols of the entries before k, and that entry's error. |
| Elf.AcceptedMembers | src/debugger/elfParser.ts:121-140 | A symbol is accepted exactly when some visited entry decodes to it and passes the filter: nothing the filter accepts is dropped. |
| Elf.AcceptedInIndexOrder | src/debugger/elfParser.ts:101-140 | Accepted entry i's symbol sits at the position given by the number of accepted entries before it. An accepted entry j > i lands strictly later. |
| Elf.ParseElfIsAccepted | src/debugger/elfParser.ts:26-146 | A successful parse returns exactly the accepted symbols of the located table, in index order. |
| Elf.ScanPrefix | src/debugger/elfParser.ts:133-140 | Scanning further only appends: the symbols of fewer entries are a prefix of those of more. |
| Elf.ScanExtends | src/debugger/elfParser.ts:133-140 | One more iteration keeps every symbol found so far. |
| Elf.ScanSizes | src/debugger/elfParser.ts:121-123 | Every symbol pushed has a size above 0 that fits in 32 bits. |
| Elf.EntryCountIsCeiling | src/debugger/elfParser.ts:98-101 | Entry k is visited exactly when k < symtabSize / 16 in real division, which is the number of entries the loop visits. |
| Elf.TruncatedTableFails | src/debugger/elfParser.ts:98-109 | Once a table is located, the parse succeeds exactly when every visited entry lies inside the image. Otherwise it rethrows a RangeError. |
| Elf.ParseElf | src/debugger/elfParser.ts:26-154 | The parse fails with the not-an-ELF error exactly when the magic is missing. Every other failure is a rethrown read failure. |
| Elf.ParsedSizes | src/debugger/elfParser.ts:121-146 | Every symbol a successful parse returns has a size above 0 that fits in 32 bits. |
| Elf.ElfParser.constructor | src/debugger/elfParser.ts:14 | A new parser's `symbols` is empty. |
| Elf.ElfParser.ParseFile | src/debugger/elfParser.ts:26-154 | `parseFile` returns exactly `ParseElf`. `symbols` is reset only once a table is located, and then holds what was pushed before the loop ended or threw. |
| Elf.ElfParser.PushSymbols | src/debugger/elfParser.ts:96-146 | The symbol loop leaves in `symbols` exactly the symbols found. It returns them, or the error of the first entry that did not fit. |
| ItemCatalog.PutFacts | src/models/memoryManager.ts:162 | `set` files the item under its id and touches no other entry. A new key goes last and an existing key keeps its place; well-formedness is kept. |
| ItemCatalog.PutAllEntries | src/models/memoryManager.ts:150-163 | After setting several items, the keys are the old keys plus the items' ids. An id holds the last item carrying it; other entries are untouched. |
| ItemCatalog.PutAllOrder | src/models/memoryManager.ts:150-163 | Old keys keep their order, and every key after them is the id of an item set. |
| ItemCatalog.FirstWithId | src/models/memoryManager.ts:150-163 | The position of the first item carrying an id: it carries the id and no earlier item does. |
| ItemCatalog.AppendedIdsMembers | src/models/memoryManager.ts:150-163 | The keys a run of `set` calls appends are exactly the items' ids that were not already keys. |
| ItemCatalog.AppendedIdsFirstSeen | src/models/memoryManager.ts:150-163 | The appended keys are listed in the order in which their first items were set. |
| ItemCatalog.PutAllOrderExact | src/models/memoryManager.ts:150-163 | After setting items, the key order that `values()` follows is the old keys, then the appended keys in first-set order, and keys and entries stay in step. |
| ItemCatalog.PutAllWellFormed | src/models/memoryManager.ts:150-163 | Setting items keeps every key listed once and every item under its own id. |
| ItemCatalog.ReloadIsNoOp | src/models/memoryManager.ts:150-163 | Setting the same items a second time changes neither the entries nor the order. |
| ItemCatalog.SameIdsKeepOrder | src/models/memoryManager.ts:162 | Setting items whose ids are all present leaves the key order unchanged. |
| ItemCatalog.Delete | src/models/memoryManager.ts:254 | `delete` removes the key and leaves every other entry as it was. |
| ItemCatalog.DeleteOrder | src/models/memoryManager.ts:254 | `delete` takes the key out of the insertion order `getItems` follows. Every other key keeps its place, and a missing key changes nothing. |
| ItemCatalog.DeleteWellFormed | src/models/memoryManager.ts:254 | `delete` keeps the Map well formed. |
| ItemCatalog.KeepIdsMembers | src/models/memoryManager.ts:252-256 | The reference filter keeps exactly the ids with no entry or an entry of another kind. |
| ItemCatalog.DeleteAmongEntries | src/models/memoryManager.ts:252-256 | After the delete loop over some keys, the remaining entries are those not visited or not of the kind, unchanged. |
| ItemCatalog.DeletePrefixOrder | src/models/memoryManager.ts:252-256 | Part-way through the loop, the key order is the kept keys visited so far followed by the keys not yet visited. |
| ItemCatalog.WithoutKindEntries | src/models/memoryManager.ts:252-256 | Deleting every item of a kind leaves exactly the entries of other kinds, unchanged. |
| ItemCatalog.WithoutKindOrder | src/models/memoryManager.ts:252-256 | The remaining keys keep their previous relative order. |
| ItemCatalog.WithoutKindWellFormed | src/models/memoryManager.ts:252-256 | The deletion keeps the Map well formed. |
| ItemCatalog.AddedKindRemoved | src/models/memoryManager.ts:252-272 | Deleting a kind undoes setting new items of that kind, in entries and in order. |
| HeapTable.RecordStep | src/models/memoryManager.ts:183-201 | Take a full record whose pointer is non-zero. The walk yields its block when the size is non-zero, named "Heap Block @0x" plus the hex pointer, then continues 16 bytes on. |
| HeapTable.TableEnd | src/models/memoryManager.ts:183-188 | The walk stops at a zero pointer, and at a record too short to read its three words. |
| HeapTable.BlockNameMeans | src/models/memoryManager.ts:197 | A block's name is "Heap Block @0x" followed by the pointer as `toString(16)` writes it: canonical lower-case hex that reads back as the pointer. |
| HeapTable.DecodedBlocks | src/models/memoryManager.ts:183-201 | Every decoded block has a non-zero pointer and a non-zero size below 2^32, and carries the name of its pointer. |
| HeapTable.ReadRecord | src/models/memoryManager.ts:184-188 | One record's reads either end the walk or give this record's blocks followed by the walk from the next record. |
| HeapTable.ParseHeapBlocks | src/models/memoryManager.ts:175-209 | The decoder loop returns exactly the blocks of the walk. A read past the end ends it with the blocks collected so far. |
| HeapTable.RecordDecodes | src/models/memoryManager.ts:184-201 | A written record decodes to its block (none when its size is 0), and the walk moves on to the next record. |
| HeapTable.HeapTableRoundTrip | src/models/memoryManager.ts:175-209 | Decoding a written table gives back exactly its non-empty blocks, in order. This holds whatever precedes the table, if what follows is a zero pointer or too short for a record. |
| Memory.SymbolItems | src/models/memoryManager.ts:150-160 | One item per symbol, in order, each the symbol's variable item. |
| Memory.SymbolIdInjective | src/models/memoryManager.ts:152 | Different symbol names give different ids, and every such id has the "symbol_" prefix. |
| Memory.LoadedSymbol | src/models/memoryManager.ts:150-163 | After loading, a symbol's id holds the item of the last symbol with that name. |
| Memory.LoadKeepsOthers | src/models/memoryManager.ts:150-163 | Loading leaves every entry whose id is not a loaded symbol's as it was. |
| Memory.HeapIdInjective | src/models/memoryManager.ts:261 | Different pointers give different heap ids, and no heap id is a symbol id. |
| Memory.HeapItems | src/models/memoryManager.ts:259-270 | One item per block, in order, each the block's heap item. |
| Memory.RefreshContents | src/models/memoryManager.ts:251-276 | After a heap refresh the catalog holds the previous non-heap items unchanged, plus one heap item per block under "heap_" and the decimal pointer, at the block's address. It stays well formed. |
| Memory.RefreshReplacesPrevious | src/models/memoryManager.ts:251-276 | Two refreshes in a row equal one refresh with the second snapshot: the first batch is gone entirely. |
| Memory.LoadKeepsInvariant | src/models/memoryManager.ts:150-163 | Loading keeps the catalog well formed, with every non-heap id a symbol id. |
| Memory.RefreshKeepsInvariant | src/models/memoryManager.ts:251-276 | A refresh keeps the same invariant. |
| Memory.RegisterItem | src/models/memoryManager.ts:76-84 | The register at an offset is a 4-byte variable at base plus offset. It is filed under "reg_" plus its address in canonical lower-case hex, which by `CanonicalUnique` is `address.toString(16)`. Its description is the name, " Register at offset " and the offset in canonical decimal. |
| Memory.CreatePeripheralRegisters | src/models/memoryManager.ts:65-88 | Five 4-byte variable items, CR1, CR2, SR, DR and BRR, at base + 0, 4, 8, 12 and 16. Each is filed under "reg_" plus its address in canonical lower-case hex, and described as "<name> Register at offset <offset in decimal>". |
| Memory.RegistersTile | src/models/memoryManager.ts:65-88 | The registers tile [base, base + 20) without gaps, and no two share an id. |
| Memory.MemoryManager.constructor | src/models/memoryManager.ts:30-42 | A new manager has an empty catalog, no event fired, and a fresh parser with no symbols. |
| Memory.MemoryManager.Set | src/models/memoryManager.ts:162 | `set` on the Map is `Put` on the catalog. |
| Memory.MemoryManager.Remove | src/models/memoryManager.ts:254 | `delete` on the Map is `Delete` on the catalog. |
| Memory.MemoryManager.GetItems | src/models/memoryManager.ts:104-106 | The items in insertion order, each once, each the entry of its key; every catalog item is listed. |
| Memory.MemoryManager.LoadElfFile | src/models/memoryManager.ts:142-173 | A parse error is rethrown with the catalog untouched and no event. Otherwise every symbol's item is set in order and the event fires once; the invariant is kept. |
| Memory.MemoryManager.ReadHeapInfo | src/models/memoryManager.ts:241-289 | No snapshot leaves everything as it was. Otherwise the catalog becomes the refresh with the decoded blocks and the event fires once; the invariant is kept. |
| Memory.MemoryManager.DeleteHeapItems | src/models/memoryManager.ts:252-256 | The loop over the Map's entries leaves the catalog without its heap items. |
| Memory.MemoryManager.SetHeapItems | src/models/memoryManager.ts:259-276 | The loop sets one heap item per block, in block order. |
| MemoryMap.KeptCounts | src/views/memoryMapView.ts:45-47 | The filter keeps each variable and heap block as often as it occurs, and nothing else. |
| MemoryMap.SortByAddress | src/views/memoryMapView.ts:46-48 | The sort gives ascending addresses and a permutation of its input. |
| MemoryMap.SortStable | src/views/memoryMapView.ts:46-48 | The sort is stable: items at one address keep their relative order. |
| MemoryMap.Show | src/views/memoryMapView.ts:39-106 | No segment when the region's address or size is undefined. Otherwise the segment has the region's name and the laid-out items, and spans address to address + size - 1. |
| MemoryMap.CompleteItems | src/views/memoryMapView.ts:51-99 | The gap-filling code gives exactly the specified layout: leading gap, items with the gaps between them, trailing gap. |
| MemoryMap.PushLead | src/views/memoryMapView.ts:53-62 | A leading gap is added exactly when the first item lies above the region's start. |
| MemoryMap.PushItem | src/views/memoryMapView.ts:65-82 | Each iteration pushes its item, then a gap up to the next item when they do not touch. |
| MemoryMap.PushTrail | src/views/memoryMapView.ts:84-99 | The trailing gap is added as written: it is compared against the inclusive region end. |
| MemoryMap.EmptyRegionHasNoEntries | src/views/memoryMapView.ts:51-99 | A region with nothing to draw gets no entries at all, not even a gap. |
| MemoryMap.LayoutRealItems | src/views/memoryMapView.ts:51-99 | Removing the gaps from a layout gives back exactly the sorted items, in order. |
| MemoryMap.ShownOnceInOrder | src/views/memoryMapView.ts:45-99 | Every variable and heap-block child is drawn exactly as often as it occurs, and nothing else but gaps is drawn. The drawn items ascend by address, and items at one address keep their order. |
| MemoryMap.BetweenTiles | src/views/memoryMapView.ts:65-82 | For non-overlapping items, the loop's entries run contiguously from the first item to the start of the next unvisited one. |
| MemoryMap.LayoutTiles | src/views/memoryMapView.ts:51-99 | Take non-overlapping items inside the region. The entries tile it contiguously from its first byte to its end, except that a last item ending one byte short leaves that byte uncovered. |
| MemoryMap.TrailingByteUncovered | src/views/memoryMapView.ts:84-99 | In region [0, 0x100) with one item at [0xF0, 0xFF), the layout ends at 0xFF: byte 0xFF is in no entry. |
| MemoryMap.CorrectedLayoutTiles | src/views/memoryMapView.ts:84-99 | With the trailing gap compared against the exclusive end, the entries tile the whole region, its last byte included. |
| MemoryMap.CorrectionOnlyAtLastByte | src/views/memoryMapView.ts:84-99 | The written and the corrected layouts differ exactly when the last item ends one byte before the region's end. |
| HexDump.ColumnLabels | src/debugger/gdbInterface.ts:133-135 | n column labels take 3n characters. |
| HexDump.ColumnLabelsStep | src/debugger/gdbInterface.ts:133-135 | Each pass of the header loop appends a space and the column's two digits. |
| HexDump.ColumnLabelReadsBack | src/debugger/gdbInterface.ts:133-135 | Label k is a space and two upper-case hex digits that read back as k. |
| HexDump.HeaderFrame | src/debugger/gdbInterface.ts:132-137 | The header is 156 characters: nine spaces, 48 characters of labels, the ASCII heading, 77 dashes and a newline. |
| HexDump.HeaderColumns | src/debugger/gdbInterface.ts:132-135 | Column k of the header is a space and two upper-case hex digits reading back as k. |
| HexDump.HexPart | src/debugger/gdbInterface.ts:145-147 | The joined hex part of n bytes is 3n - 1 characters, or empty. |
| HexDump.HexPartDigits | src/debugger/gdbInterface.ts:145-147 | Byte k's two digits sit at 3k, and a space follows every byte but the last. |
| HexDump.AsciiPart | src/debugger/gdbInterface.ts:152-154 | One character per byte: printable bytes 32-126 as themselves, every other byte as '.'. |
| HexDump.LineLayout | src/debugger/gdbInterface.ts:141-158 | For an address below 2^32 a line is 81 characters. It holds the address text, ": ", byte k's digits at column 12 + 3k with spaces to column 60, "  \|", byte k's character at column 63 + k with spaces to column 79, then "\|" and a newline. |
| HexDump.LineHexReadsBack | src/debugger/gdbInterface.ts:141-148 | The two hex digits of byte k on its line read back as the byte. |
| HexDump.LineAddressReadsBack | src/debugger/gdbInterface.ts:141 | A line starts with "0x" and eight digits that read back as its address. |
| HexDump.LineCountMeans | src/debugger/gdbInterface.ts:139 | Chunk k exists exactly when 16k is below the data length. |
| HexDump.Chunk | src/debugger/gdbInterface.ts:144 | Each chunk is 16 bytes, or what is left at the end. |
| HexDump.LinesAt | src/debugger/gdbInterface.ts:139-159 | Line j shows chunk j at base + 16j. |
| HexDump.AllChunksCover | src/debugger/gdbInterface.ts:139-159 | Every byte is shown exactly once: the chunks put back together are the data. |
| HexDump.DumpHeader | src/debugger/gdbInterface.ts:132-137 | The header code builds exactly the header. |
| HexDump.DumpLine | src/debugger/gdbInterface.ts:141-158 | One pass builds exactly the chunk's line. |
| HexDump.AppendChunk | src/debugger/gdbInterface.ts:139-158 | The pass at offset 16n appends line n. |
| HexDump.DumpLines | src/debugger/gdbInterface.ts:139-159 | The chunk loop appends every line in order. |
| HexDump.FormatMemoryContent | src/debugger/gdbInterface.ts:127-162 | `formatMemoryContent` returns exactly the header followed by the lines. |
| HexDump.EmptyDumpIsHeader | src/debugger/gdbInterface.ts:127-162 | Empty data gives the header alone. |
| HexDump.DumpLayout | src/debugger/gdbInterface.ts:127-162 | For addresses below 2^32 the dump is the 156-character header and one 81-character line per started chunk. Line j sits at 156 + 81j and shows the bytes at base + 16j. |

## Left out

- File and transport I/O are not modelled. `fs.readFileSync`, `GDBInterface.readMemory` and the debug session are parameters: the image bytes, or an `Option` snapshot.
- `initHeapInfo` is not modelled. It calls `evaluateExpression`, which `GDBInterface` does not define. `ReadHeapInfo` therefore starts at the memory read and does not model the `heapInfo` address and size.
- As shipped, the modelled heap refresh is never reached. `heapInfo.address` starts at 0 (src/models/memoryManager.ts:34), so `readHeapInfo` first calls `initHeapInfo`. Calling the undefined `evaluateExpression` throws a TypeError, which is rethrown (line 228) and swallowed by `readHeapInfo`'s catch. `ReadHeapInfo` models the refresh as it would run once a heap location is known.
- `readRegisterValue`, `getItemValue`, `viewMemoryContent` and `updateMemoryInfo` are not modelled. They are debugger reads and workspace searches around code that is modelled.
- Both `formatSize` methods are left out because their KB and MB texts use floating-point `toFixed`. A heap item's description keeps the size it formats.
- The webview panel, `getWebviewContent` and every output-channel line are left out. The same goes for the debug dump `parseHeapBlocks` writes and the error dialogs; none of them changes state.
- The change event is not modelled as an event; the model counts how often `onDidChangeMemory` fires.
- `memoryConfig`, the tree provider and the extension activation code are not part of this model.
- Numbers are unbounded naturals, not JavaScript doubles. Addresses beyond 2^53 are not considered.
- TextFormat.Upper: maps only ASCII letters, the only letters the core upper-cases.
- TextFormat.Lower: maps only ASCII letters; it is applied only to "GLOBAL", "LOCAL" and "OBJECT".
- HexDump.LineLayout: the 81-character line layout is stated for addresses below 2^32. Above that the address text is longer, as `AddressTextLength` states.
- HexDump.DumpLayout: stated for addresses below 2^32, like the line layout.
- Elf.ScanEntries: its own contract says only that the loop stops on a read failure. `ScanIsAccepted` and `PartialIsAccepted` state what it collects, against the reference filter `Accepted`. `AcceptedMembers` and `AcceptedInIndexOrder` state what that filter keeps and in which order.
- Elf.FindSymtab: its own contract states only the error kind. `FirstSymtabWins` and `NoSymtabFound` state its result.
- TextFormat.NumberToString: its own contract states only that the text is non-empty. `NumberToStringReadsBack` states the round trip, and `NumberToStringCanonical` states its form.
- The rethrown exception in `loadElfFile` and the swallowed one in `readHeapInfo` are `Err` values or early returns. Their log lines are omitted.

## Findings

| source | as written | input that shows it | evidently intended | confidence | as-written member | corrected member |
|---|---|---|---|---|---|---|
| src/views/memoryMapView.ts:84-99 | The trailing gap is added only when the inclusive region end `address + size - 1` lies strictly above the last item's exclusive end. | A region at 0 of size 0x100 holding one variable at 0xF0 of size 0x0F: no trailing gap is added, and byte 0xFF lies in no entry. | Add the gap whenever `address + size` exceeds the last item's end, sized up to `address + size`, so the entries tile the region. | not executed | MemoryMap.TrailingByteUncovered | MemoryMap.CorrectedLayoutTiles |
