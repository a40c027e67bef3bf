/**
 * `MemoryManager` (src/models/memoryManager.ts): the catalog of memory items
 * the views show. `loadElfFile` files one variable item per ELF symbol,
 * `readHeapInfo` replaces the heap items with the blocks of a fresh heap-table
 * snapshot, and `getItems` lists the catalog in insertion order. The debug
 * transport's memory read is the `Option` snapshot a caller passes in.
 */
module Memory {
  import opened Results
  import opened NodeBuffer
  import opened TextFormat
  import opened Elf
  import opened ItemCatalog
  import opened HeapTable

  // ---------------------------------------------------------------- symbols

  function SymbolId(name: string): string {
    "symbol_" + name
  }

  predicate IsSymbolId(id: string) {
    |id| >= 7 && id[..7] == "symbol_"
  }

  /** The item `loadElfFile` files for a symbol: a readable, writable variable described as e.g. "global object in 3". */
  function SymbolItem(sym: ElfSymbol): MemoryItem {
    MemoryItem(
      SymbolId(sym.name),
      sym.name,
      sym.address,
      sym.size,
      Variable,
      Some(Text(Lower(BindingName(sym.binding)) + " " + Lower(TypeName(sym.symbolType)) + " in " + sym.section)),
      Some(true),
      Some(true),
      None,
      None)
  }

  function SymbolItems(symbols: seq<ElfSymbol>): (items: seq<MemoryItem>)
    ensures |items| == |symbols|
    ensures forall i :: 0 <= i < |symbols| ==> items[i] == SymbolItem(symbols[i])
  {
    seq(|symbols|, i requires 0 <= i < |symbols| => SymbolItem(symbols[i]))
  }

  /** "symbol_" prefixes are told apart by what follows them. */
  lemma SymbolIdInjective(a: string, b: string)
    ensures SymbolId(a) == SymbolId(b) ==> a == b
    ensures IsSymbolId(SymbolId(a))
  {
    if SymbolId(a) == SymbolId(b) {
      assert SymbolId(a)[7..] == a && SymbolId(b)[7..] == b;
    }
    assert SymbolId(a)[..7] == "symbol_";
  }

  /** The index of the last symbol named like symbol `i`. */
  function LastSymbol(symbols: seq<ElfSymbol>, i: nat): (j: nat)
    requires i < |symbols|
    ensures i <= j < |symbols| && symbols[j].name == symbols[i].name
    ensures forall k :: j < k < |symbols| ==> symbols[k].name != symbols[i].name
  {
    var n := |symbols| - 1;
    if i == n || symbols[n].name == symbols[i].name then n else LastSymbol(symbols[..n], i)
  }

  /**
   * Loading symbols files symbol `i` under "symbol_" and its name: the item
   * there is the one built from the last symbol of that name, so a later
   * symbol with the same name overwrites an earlier one.
   */
  lemma LoadedSymbol(c: Catalog, symbols: seq<ElfSymbol>, i: nat)
    requires i < |symbols|
    ensures var r := PutAll(c, SymbolItems(symbols));
      var id := SymbolId(symbols[i].name);
      && id in r.entries
      && r.entries[id] == SymbolItem(symbols[LastSymbol(symbols, i)])
  {
    var items := SymbolItems(symbols);
    var j := LastSymbol(symbols, i);
    PutAllEntries(c, items);
    forall k | j < k < |items|
      ensures items[k].id != items[j].id
    {
      SymbolIdInjective(symbols[k].name, symbols[j].name);
    }
    LastWithIdIsLast(items, j);
  }

  /** Loading symbols leaves every entry under an id that is not a loaded symbol's as it was. */
  lemma LoadKeepsOthers(c: Catalog, symbols: seq<ElfSymbol>, id: string)
    requires forall i :: 0 <= i < |symbols| ==> SymbolId(symbols[i].name) != id
    ensures var r := PutAll(c, SymbolItems(symbols));
      && (id in r.entries <==> id in c.entries)
      && (id in c.entries ==> r.entries[id] == c.entries[id])
  {
    var items := SymbolItems(symbols);
    PutAllEntries(c, items);
    assert forall i :: 0 <= i < |items| ==> items[i].id != id;
  }

  /** The last item filed under an id is the one `LastWithId` finds. */
  lemma {:induction false} LastWithIdIsLast(items: seq<MemoryItem>, j: nat)
    requires j < |items|
    requires forall k :: j < k < |items| ==> items[k].id != items[j].id
    ensures LastWithId(items, items[j].id) == Some(items[j])
  {
    if j < |items| - 1 {
      var front := items[..|items| - 1];
      LastWithIdIsLast(front, j);
    }
  }

  // ---------------------------------------------------------------- heap

  /** "heap_" and the block's pointer in decimal. */
  function HeapId(ptr: nat): string {
    "heap_" + NumberToString(ptr, 10)
  }

  /** Distinct pointers get distinct ids, and no heap id is a symbol id. */
  lemma HeapIdInjective(p: nat, q: nat)
    ensures HeapId(p) == HeapId(q) ==> p == q
    ensures !IsSymbolId(HeapId(p))
  {
    if HeapId(p) == HeapId(q) {
      assert HeapId(p)[5..] == NumberToString(p, 10);
      assert HeapId(q)[5..] == NumberToString(q, 10);
      NumberToStringReadsBack(p, 10);
      NumberToStringReadsBack(q, 10);
    }
    assert HeapId(p)[0] == 'h';
  }

  /** The item `readHeapInfo` files for a block: a readable, writable, orange heap block. */
  function HeapItem(b: HeapBlock): MemoryItem {
    MemoryItem(
      HeapId(b.ptr),
      b.name,
      b.ptr,
      b.size,
      ItemKind.HeapBlock,
      Some(HeapAllocation(b.size)),
      Some(true),
      Some(true),
      None,
      Some("#FFA500"))
  }

  function HeapItems(blocks: seq<HeapBlock>): (items: seq<MemoryItem>)
    ensures |items| == |blocks|
    ensures forall i :: 0 <= i < |blocks| ==> items[i] == HeapItem(blocks[i])
  {
    seq(|blocks|, i requires 0 <= i < |blocks| => HeapItem(blocks[i]))
  }

  /** The catalog after a heap refresh: heap items deleted, then one item per block set. */
  function Refreshed(c: Catalog, blocks: seq<HeapBlock>): Catalog {
    PutAll(WithoutKind(c, ItemKind.HeapBlock), HeapItems(blocks))
  }

  /**
   * After a refresh the catalog holds exactly the previous items that are not
   * heap blocks, unchanged, plus one heap item per block under "heap_" and the
   * decimal pointer, at the block's address; with no other block at the same
   * pointer it is exactly that block's item.
   */
  lemma RefreshContents(c: Catalog, blocks: seq<HeapBlock>)
    requires WellFormed(c)
    ensures var r := Refreshed(c, blocks);
      && WellFormed(r)
      && (forall id :: id in r.entries <==>
            (id in c.entries && c.entries[id].kind != ItemKind.HeapBlock)
            || exists i :: 0 <= i < |blocks| && HeapId(blocks[i].ptr) == id)
      && (forall id ::
            (id in c.entries && c.entries[id].kind != ItemKind.HeapBlock
             && forall i :: 0 <= i < |blocks| ==> HeapId(blocks[i].ptr) != id)
            ==> r.entries[id] == c.entries[id])
      && (forall i :: 0 <= i < |blocks| ==>
            && r.entries[HeapId(blocks[i].ptr)].kind == ItemKind.HeapBlock
            && r.entries[HeapId(blocks[i].ptr)].address == blocks[i].ptr
            && ((forall j :: 0 <= j < |blocks| && j != i ==> blocks[j].ptr != blocks[i].ptr) ==>
                  r.entries[HeapId(blocks[i].ptr)] == HeapItem(blocks[i])))
  {
    var w := WithoutKind(c, ItemKind.HeapBlock);
    var items := HeapItems(blocks);
    var r := PutAll(w, items);
    WithoutKindEntries(c, ItemKind.HeapBlock);
    WithoutKindWellFormed(c, ItemKind.HeapBlock);
    PutAllEntries(w, items);
    PutAllWellFormed(w, items);
    forall id
      ensures LastWithId(items, id).Some? <==> exists i :: 0 <= i < |blocks| && HeapId(blocks[i].ptr) == id
    {
      assert forall i :: 0 <= i < |blocks| ==> items[i].id == HeapId(blocks[i].ptr);
    }
    forall i | 0 <= i < |blocks|
      ensures var e := r.entries[HeapId(blocks[i].ptr)];
        && e.kind == ItemKind.HeapBlock
        && e.address == blocks[i].ptr
        && ((forall j :: 0 <= j < |blocks| && j != i ==> blocks[j].ptr != blocks[i].ptr) ==> e == HeapItem(blocks[i]))
    {
      var id := HeapId(blocks[i].ptr);
      assert items[i].id == id;
      var last := LastWithId(items, id).value;
      assert last in items;
      var j :| 0 <= j < |items| && items[j] == last;
      HeapIdInjective(blocks[j].ptr, blocks[i].ptr);
      if forall k :: 0 <= k < |blocks| && k != i ==> blocks[k].ptr != blocks[i].ptr {
        forall k | i < k < |items|
          ensures items[k].id != id
        {
          HeapIdInjective(blocks[k].ptr, blocks[i].ptr);
        }
        LastWithIdIsLast(items, i);
      }
    }
  }

  /**
   * A refresh replaces the previous refresh entirely: refreshing twice gives
   * the catalog a single refresh with the second snapshot's blocks gives,
   * provided no item that is not a heap block sits under a heap id.
   */
  lemma RefreshReplacesPrevious(c: Catalog, first: seq<HeapBlock>, second: seq<HeapBlock>)
    requires WellFormed(c)
    requires forall id :: id in c.entries && c.entries[id].kind != ItemKind.HeapBlock ==> IsSymbolId(id)
    ensures Refreshed(Refreshed(c, first), second) == Refreshed(c, second)
  {
    var w := WithoutKind(c, ItemKind.HeapBlock);
    var items := HeapItems(first);
    WithoutKindEntries(c, ItemKind.HeapBlock);
    WithoutKindWellFormed(c, ItemKind.HeapBlock);
    forall i | 0 <= i < |items|
      ensures items[i].kind == ItemKind.HeapBlock && items[i].id !in w.entries
    {
      HeapIdInjective(first[i].ptr, first[i].ptr);
    }
    AddedKindRemoved(w, items, ItemKind.HeapBlock);
  }

  // ---------------------------------------------------------------- registers

  /** The registers of a peripheral, one word apart from offset 0x00: CR1, CR2, SR, DR and BRR. */
  const REGISTER_NAMES: seq<string> := ["CR1", "CR2", "SR", "DR", "BRR"]

  /** The item of the register at `offset`: "reg_" and its address in lower-case hex, four bytes wide. */
  function RegisterItem(base: nat, offset: nat, name: string): (item: MemoryItem)
    ensures item.address == base + offset && item.size == 4 && item.kind == Variable && item.name == name
    ensures |item.id| > 4 && item.id[..4] == "reg_"
    ensures Canonical(item.id[4..], 16) && ParseRadix(item.id[4..], 16) == Some(item.address)
    ensures item.description.Some? && item.description.value.Text?
    ensures var d := item.description.value.text;
      && |d| > |name| + 20 && d[..|name| + 20] == name + " Register at offset "
      && Canonical(d[|name| + 20..], 10) && ParseRadix(d[|name| + 20..], 10) == Some(offset)
  {
    var digits := NumberToString(base + offset, 16);
    var written := NumberToString(offset, 10);
    assert ("reg_" + digits)[4..] == digits;
    assert (name + " Register at offset " + written)[|name| + 20..] == written;
    assert (name + " Register at offset " + written)[..|name| + 20] == name + " Register at offset ";
    NumberToStringReadsBack(base + offset, 16);
    NumberToStringCanonical(base + offset, 16);
    NumberToStringReadsBack(offset, 10);
    NumberToStringCanonical(offset, 10);
    MemoryItem(
      "reg_" + digits,
      name,
      base + offset,
      4,
      Variable,
      Some(Text(name + " Register at offset " + written)),
      None,
      None,
      None,
      None)
  }

  /**
   * `createPeripheralRegisters`: five four-byte variable items CR1, CR2, SR,
   * DR and BRR, one word apart from `base` on, each filed under "reg_" and
   * its address in hex.
   */
  function CreatePeripheralRegisters(base: nat): (regs: seq<MemoryItem>)
    ensures |regs| == 5
    ensures forall i :: 0 <= i < 5 ==>
      && regs[i].address == base + 4 * i
      && regs[i].size == 4
      && regs[i].kind == Variable
      && regs[i].name == REGISTER_NAMES[i]
      && |regs[i].id| > 4 && regs[i].id[..4] == "reg_"
      && Canonical(regs[i].id[4..], 16) && ParseRadix(regs[i].id[4..], 16) == Some(regs[i].address)
      && regs[i].description.Some? && regs[i].description.value.Text?
      && var d := regs[i].description.value.text;
        && |d| > |REGISTER_NAMES[i]| + 20 && d[..|REGISTER_NAMES[i]| + 20] == REGISTER_NAMES[i] + " Register at offset "
        && Canonical(d[|REGISTER_NAMES[i]| + 20..], 10) && ParseRadix(d[|REGISTER_NAMES[i]| + 20..], 10) == Some(4 * i)
  {
    seq(5, i requires 0 <= i < 5 => RegisterItem(base, 4 * i, REGISTER_NAMES[i]))
  }

  /** The registers tile `[base, base + 20)` without gaps, and no two share an id. */
  lemma RegistersTile(base: nat)
    ensures var regs := CreatePeripheralRegisters(base);
      && regs[0].address == base
      && regs[4].address + regs[4].size == base + 20
      && (forall i :: 0 <= i < 4 ==> regs[i].address + regs[i].size == regs[i + 1].address)
      && (forall i, j :: 0 <= i < j < 5 ==> regs[i].id != regs[j].id)
  {
  }

  // ---------------------------------------------------------------- manager

  /** A well-formed Map whose non-heap items are all symbol items. */
  predicate CatalogInvariant(c: Catalog) {
    && WellFormed(c)
    && (forall id :: id in c.entries && c.entries[id].kind != ItemKind.HeapBlock ==> IsSymbolId(id))
  }

  lemma LoadKeepsInvariant(c: Catalog, symbols: seq<ElfSymbol>)
    requires CatalogInvariant(c)
    ensures CatalogInvariant(PutAll(c, SymbolItems(symbols)))
  {
    var items := SymbolItems(symbols);
    PutAllWellFormed(c, items);
    PutAllEntries(c, items);
    forall id | LastWithId(items, id).Some?
      ensures IsSymbolId(id)
    {
      var i :| 0 <= i < |items| && items[i].id == id;
      assert id[..7] == "symbol_";
    }
  }

  lemma RefreshKeepsInvariant(c: Catalog, blocks: seq<HeapBlock>)
    requires CatalogInvariant(c)
    ensures CatalogInvariant(Refreshed(c, blocks))
  {
    var w := WithoutKind(c, ItemKind.HeapBlock);
    var items := HeapItems(blocks);
    WithoutKindEntries(c, ItemKind.HeapBlock);
    WithoutKindWellFormed(c, ItemKind.HeapBlock);
    PutAllWellFormed(w, items);
    PutAllEntries(w, items);
    forall id | LastWithId(items, id).Some?
      ensures LastWithId(items, id).value.kind == ItemKind.HeapBlock
    {
      assert LastWithId(items, id).value in items;
    }
  }

  class MemoryManager {
    /** The `memoryItems` Map: its entries and its keys in insertion order. */
    var entries: map<string, MemoryItem>
    var order: seq<string>
    /** How many times `onDidChangeMemory` has fired. */
    var changes: nat
    const elfParser: ElfParser

    function Items(): Catalog
      reads this
    {
      Catalog(entries, order)
    }

    predicate Valid()
      reads this
    {
      CatalogInvariant(Items())
    }

    constructor ()
      ensures Items() == Empty && changes == 0
      ensures Valid()
      ensures fresh(elfParser) && elfParser.symbols == []
    {
      entries := map[];
      order := [];
      changes := 0;
      elfParser := new ElfParser();
    }

    /** `memoryItems.set(item.id, item)`. */
    method Set(item: MemoryItem)
      modifies this
      ensures Items() == Put(old(Items()), item)
      ensures changes == old(changes)
    {
      if item.id !in entries {
        order := order + [item.id];
      }
      entries := entries[item.id := item];
    }

    /** `memoryItems.delete(id)`. */
    method Remove(id: string)
      modifies this
      ensures Items() == Delete(old(Items()), id)
      ensures changes == old(changes)
    {
      entries := entries - {id};
      order := Without(order, id);
    }

    /**
     * `getItems`: the items in insertion order, each once; every item in the
     * catalog is listed.
     */
    function GetItems(): (items: seq<MemoryItem>)
      reads this
      requires Valid()
      ensures |items| == |order|
      ensures forall i :: 0 <= i < |items| ==> items[i].id == order[i] && items[i] == entries[order[i]]
      ensures forall id :: id in entries ==> entries[id] in items
      ensures forall i, j :: 0 <= i < j < |items| ==> items[i].id != items[j].id
    {
      var ids, m := order, entries;
      seq(|ids|, i requires 0 <= i < |ids| => m[ids[i]])
    }

    /**
     * `loadElfFile` on the image the file read returns: the parse's error is
     * rethrown with the catalog untouched; otherwise every symbol is set, in
     * order, and the change event fires once.
     */
    method LoadElfFile(image: seq<byte>) returns (r: Result<(), ParseError>)
      requires Valid()
      modifies this, elfParser
      ensures Valid()
      ensures elfParser.symbols == SymbolsAfterParse(image, old(elfParser.symbols))
      ensures ParseElf(image).Err? ==>
        r == Err(ParseElf(image).error) && Items() == old(Items()) && changes == old(changes)
      ensures ParseElf(image).Ok? ==>
        && r == Ok(())
        && Items() == PutAll(old(Items()), SymbolItems(ParseElf(image).value))
        && changes == old(changes) + 1
    {
      var symbols :- elfParser.ParseFile(image);
      var items := SymbolItems(symbols);
      ghost var start := Items();
      var k := 0;
      while k < |symbols|
        invariant k <= |symbols|
        invariant Items() == PutAll(start, items[..k])
        invariant changes == old(changes)
        modifies this
      {
        Set(SymbolItem(symbols[k]));
        assert items[..k + 1][..k] == items[..k];
        k := k + 1;
      }
      assert items[..k] == items;
      LoadKeepsInvariant(start, symbols);
      changes := changes + 1;
      r := Ok(());
    }

    /**
     * `readHeapInfo` from the memory read on: no snapshot leaves everything
     * as it was; otherwise every heap item is deleted, one item per decoded
     * block is set, and the change event fires once.
     */
    method ReadHeapInfo(snapshot: Option<seq<byte>>)
      requires Valid()
      modifies this
      ensures Valid()
      ensures snapshot.None? ==> Items() == old(Items()) && changes == old(changes)
      ensures snapshot.Some? ==>
        && Items() == Refreshed(old(Items()), HeapBlocksFrom(snapshot.value, 0))
        && changes == old(changes) + 1
    {
      if snapshot.None? {
        return;
      }
      var blocks := ParseHeapBlocks(snapshot.value);
      ghost var start := Items();
      DeleteHeapItems();
      SetHeapItems(blocks);
      RefreshKeepsInvariant(start, blocks);
      changes := changes + 1;
    }

    /** The loop over the Map's entries that deletes every heap block, visiting each key present at its start. */
    method DeleteHeapItems()
      modifies this
      ensures Items() == WithoutKind(old(Items()), ItemKind.HeapBlock)
      ensures changes == old(changes)
    {
      ghost var start := Items();
      var ids := order;
      var i := 0;
      while i < |ids|
        invariant i <= |ids|
        invariant Items() == DeleteKindAmong(start, ItemKind.HeapBlock, ids[..i])
        invariant changes == old(changes)
      {
        var id := ids[i];
        assert ids[..i + 1][..i] == ids[..i];
        if id in entries && entries[id].kind == ItemKind.HeapBlock {
          Remove(id);
        }
        i := i + 1;
      }
      assert ids[..i] == ids;
    }

    /** The loop that sets one heap item per block, in block order. */
    method SetHeapItems(blocks: seq<HeapBlock>)
      modifies this
      ensures Items() == PutAll(old(Items()), HeapItems(blocks))
      ensures changes == old(changes)
    {
      ghost var start := Items();
      ghost var items := HeapItems(blocks);
      var k := 0;
      while k < |blocks|
        invariant k <= |blocks|
        invariant Items() == PutAll(start, items[..k])
        invariant changes == old(changes)
      {
        Set(HeapItem(blocks[k]));
        assert items[..k + 1][..k] == items[..k];
        k := k + 1;
      }
      assert items[..k] == items;
    }
  }
}
