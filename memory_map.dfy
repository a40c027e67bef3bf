/**
 * The layout half of `MemoryMapView.show` (src/views/memoryMapView.ts): a
 * region's variable and heap-block children, sorted by address, with
 * synthetic "Unused" gap items before, between and after them, packed into
 * the `MemorySegment` the webview draws.
 */
module MemoryMap {
  import opened Results
  import opened TextFormat
  import opened ItemCatalog

  datatype MemorySegment = MemorySegment(name: string, items: seq<MemoryItem>, minAddress: int, maxAddress: int)

  /** The region item `show` is called with; its address and size may be undefined. */
  datatype Region = Region(name: string, address: Option<nat>, size: Option<nat>, children: Option<seq<MemoryItem>>)

  /** One past the item's last byte. */
  function End(x: MemoryItem): nat {
    x.address + x.size
  }

  // ---------------------------------------------------------------- filter and sort

  /** The kinds the map draws. */
  predicate Shown(x: MemoryItem) {
    x.kind == Variable || x.kind == HeapBlock
  }

  /** `items.filter(...)`: the variables and heap blocks, in order. */
  function Kept(items: seq<MemoryItem>): seq<MemoryItem> {
    if items == [] then [] else (if Shown(items[0]) then [items[0]] else []) + Kept(items[1..])
  }

  /** The filter keeps each variable and heap block as often as it occurs, and nothing else. */
  lemma {:induction false} KeptCounts(items: seq<MemoryItem>)
    ensures forall x :: multiset(Kept(items))[x] == if Shown(x) then multiset(items)[x] else 0
  {
    if items != [] {
      KeptCounts(items[1..]);
      assert items == [items[0]] + items[1..];
    }
  }

  /** Each item's address is at most the next one's. */
  predicate SortedByAddress(s: seq<MemoryItem>) {
    forall k :: 0 <= k < |s| - 1 ==> s[k].address <= s[k + 1].address
  }

  /** Puts `x` before the first item at or above its address. */
  function Insert(x: MemoryItem, s: seq<MemoryItem>): (r: seq<MemoryItem>)
    ensures |r| == |s| + 1
    ensures r[0] == x || (s != [] && r[0] == s[0])
    ensures SortedByAddress(s) ==> SortedByAddress(r)
    ensures multiset(r) == multiset(s) + multiset{x}
  {
    if s == [] || x.address <= s[0].address then [x] + s
    else
      assert s == [s[0]] + s[1..];
      [s[0]] + Insert(x, s[1..])
  }

  /** `sort((a, b) => a.address - b.address)`: ascending by address, a permutation of its input. */
  function SortByAddress(s: seq<MemoryItem>): (r: seq<MemoryItem>)
    ensures SortedByAddress(r)
    ensures multiset(r) == multiset(s)
  {
    if s == [] then []
    else
      assert s == [s[0]] + s[1..];
      Insert(s[0], SortByAddress(s[1..]))
  }

  /** The items of `s` at address `a`, in order. */
  function AtAddress(s: seq<MemoryItem>, a: nat): seq<MemoryItem> {
    if s == [] then [] else (if s[0].address == a then [s[0]] else []) + AtAddress(s[1..], a)
  }

  lemma {:induction false} InsertStable(x: MemoryItem, s: seq<MemoryItem>, a: nat)
    requires SortedByAddress(s)
    ensures AtAddress(Insert(x, s), a) == AtAddress([x] + s, a)
  {
    if s == [] || x.address <= s[0].address {
    } else {
      InsertStable(x, s[1..], a);
      var r := Insert(x, s);
      assert r[1..] == Insert(x, s[1..]);
      assert ([x] + s)[1..] == s;
      assert ([x] + s[1..])[1..] == s[1..];
    }
  }

  /**
   * The sort is stable, as `Array.prototype.sort` is: items at the same
   * address keep their relative order.
   */
  lemma {:induction false} SortStable(s: seq<MemoryItem>, a: nat)
    ensures AtAddress(SortByAddress(s), a) == AtAddress(s, a)
  {
    if s != [] {
      SortStable(s[1..], a);
      InsertStable(s[0], SortByAddress(s[1..]), a);
      assert ([s[0]] + SortByAddress(s[1..]))[1..] == SortByAddress(s[1..]);
    }
  }

  // ---------------------------------------------------------------- layout

  /** An "Unused" gap item. */
  function GapItem(id: string, address: nat, size: nat): MemoryItem {
    MemoryItem(id, "Unused", address, size, Gap, None, None, None, None, None)
  }

  /** The leading gap, from the region's start to the first item when that lies above it. */
  function Lead(address: nat, sorted: seq<MemoryItem>): seq<MemoryItem> {
    if |sorted| > 0 && sorted[0].address > address then
      [GapItem("gap_start_" + NumberToString(address, 10), address, sorted[0].address - address)]
    else []
  }

  /** What loop iteration `i` pushes: the item, then a gap up to the next item when they do not touch. */
  function Step(sorted: seq<MemoryItem>, i: nat): seq<MemoryItem>
    requires i < |sorted|
  {
    var currentEnd := End(sorted[i]);
    [sorted[i]]
      + if i < |sorted| - 1 && sorted[i + 1].address > currentEnd then
          [GapItem("gap_" + NumberToString(currentEnd, 10), currentEnd, sorted[i + 1].address - currentEnd)]
        else []
  }

  /** What the first `i` iterations push. */
  function Between(sorted: seq<MemoryItem>, i: nat): seq<MemoryItem>
    requires i <= |sorted|
  {
    if i == 0 then [] else Between(sorted, i - 1) + Step(sorted, i - 1)
  }

  /**
   * The trailing gap as written: it is added when the inclusive region end
   * `address + size - 1` lies above the last item's exclusive end.
   */
  function Trail(address: nat, size: nat, sorted: seq<MemoryItem>): seq<MemoryItem> {
    if |sorted| == 0 then []
    else
      var lastEnd := End(sorted[|sorted| - 1]);
      var regionEnd: int := address + size - 1;
      if regionEnd > lastEnd then
        [GapItem("gap_end_" + NumberToString(lastEnd, 10), lastEnd, regionEnd - lastEnd + 1)]
      else []
  }

  /** `completeItems` for a region at `address` of `size` bytes whose sorted items are `sorted`. */
  function Layout(address: nat, size: nat, sorted: seq<MemoryItem>): seq<MemoryItem> {
    Lead(address, sorted) + Between(sorted, |sorted|) + Trail(address, size, sorted)
  }

  /** The items `show` lays out for a region's children. */
  function SortedChildren(region: Region): seq<MemoryItem> {
    SortByAddress(Kept(if region.children.Some? then region.children.value else []))
  }

  /**
   * `show` up to the webview: no segment when the region's address or size
   * is undefined; otherwise the segment named like the region, holding the
   * laid-out items and spanning `address` to `address + size - 1`.
   */
  method Show(region: Region) returns (r: Option<MemorySegment>)
    ensures region.address.None? || region.size.None? ==> r == None
    ensures region.address.Some? && region.size.Some? ==>
      var address, size := region.address.value, region.size.value;
      r == Some(MemorySegment(region.name, Layout(address, size, SortedChildren(region)), address, address + size - 1))
  {
    if region.address.None? || region.size.None? {
      return None;
    }
    var address, size := region.address.value, region.size.value;
    var sorted := SortedChildren(region);
    var complete := CompleteItems(address, size, sorted);
    r := Some(MemorySegment(region.name, complete, address, address as int + size - 1));
  }

  /** The loop of `show` that interleaves the gaps with the sorted items. */
  method CompleteItems(address: nat, size: nat, sorted: seq<MemoryItem>) returns (complete: seq<MemoryItem>)
    ensures complete == Layout(address, size, sorted)
  {
    complete := PushLead(address, sorted);
    var i := 0;
    while i < |sorted|
      invariant i <= |sorted|
      invariant complete == Lead(address, sorted) + Between(sorted, i)
    {
      var lead, between := Lead(address, sorted), Between(sorted, i);
      complete := PushItem(complete, sorted, i);
      assert Between(sorted, i + 1) == between + Step(sorted, i);
      assert complete == lead + (between + Step(sorted, i));
      i := i + 1;
    }
    assert complete == Lead(address, sorted) + Between(sorted, |sorted|);
    complete := PushTrail(complete, address, size, sorted);
  }

  /** Before the loop: the gap from the region's start to the first item, when it lies above the start. */
  method PushLead(address: nat, sorted: seq<MemoryItem>) returns (complete: seq<MemoryItem>)
    ensures complete == Lead(address, sorted)
  {
    complete := [];
    if |sorted| > 0 && sorted[0].address > address {
      complete := complete + [GapItem("gap_start_" + NumberToString(address, 10), address, sorted[0].address - address)];
    }
  }

  /** After the loop: the trailing gap, compared against the inclusive region end. */
  method PushTrail(before: seq<MemoryItem>, address: nat, size: nat, sorted: seq<MemoryItem>) returns (complete: seq<MemoryItem>)
    ensures complete == before + Trail(address, size, sorted)
  {
    complete := before;
    if |sorted| > 0 {
      var lastItem := sorted[|sorted| - 1];
      var lastEnd := lastItem.address + lastItem.size;
      var regionEnd := address as int + size - 1;
      if regionEnd > lastEnd {
        complete := complete + [GapItem("gap_end_" + NumberToString(lastEnd, 10), lastEnd, regionEnd - lastEnd + 1)];
      }
    }
  }

  /** One iteration: push item `i`, then the gap up to item `i + 1` when there is room between them. */
  method PushItem(before: seq<MemoryItem>, sorted: seq<MemoryItem>, i: nat) returns (complete: seq<MemoryItem>)
    requires i < |sorted|
    ensures complete == before + Step(sorted, i)
  {
    complete := before + [sorted[i]];
    if i < |sorted| - 1 {
      var currentEnd := sorted[i].address + sorted[i].size;
      var nextStart := sorted[i + 1].address;
      if nextStart > currentEnd {
        complete := complete + [GapItem("gap_" + NumberToString(currentEnd, 10), currentEnd, nextStart - currentEnd)];
      }
    }
  }

  // ---------------------------------------------------------------- properties

  /** A region with nothing to draw gets no entries at all, not even a gap. */
  lemma EmptyRegionHasNoEntries(address: nat, size: nat)
    ensures Layout(address, size, []) == []
  {
  }

  /** The entries that are not gaps. */
  function RealItems(s: seq<MemoryItem>): seq<MemoryItem> {
    if s == [] then [] else (if s[0].kind != Gap then [s[0]] else []) + RealItems(s[1..])
  }

  lemma {:induction false} RealItemsAppend(a: seq<MemoryItem>, b: seq<MemoryItem>)
    ensures RealItems(a + b) == RealItems(a) + RealItems(b)
  {
    if a != [] {
      RealItemsAppend(a[1..], b);
      assert (a + b)[1..] == a[1..] + b;
    } else {
      assert a + b == b;
    }
  }

  lemma {:induction false} BetweenRealItems(sorted: seq<MemoryItem>, i: nat)
    requires i <= |sorted|
    requires forall k :: 0 <= k < |sorted| ==> sorted[k].kind != Gap
    ensures RealItems(Between(sorted, i)) == sorted[..i]
  {
    if i > 0 {
      var before, step := Between(sorted, i - 1), Step(sorted, i - 1);
      calc {
        RealItems(Between(sorted, i));
        RealItems(before + step);
        { RealItemsAppend(before, step); }
        RealItems(before) + RealItems(step);
        { BetweenRealItems(sorted, i - 1); StepRealItems(sorted, i - 1); }
        sorted[..i - 1] + [sorted[i - 1]];
        { assert sorted[..i] == sorted[..i - 1] + [sorted[i - 1]]; }
        sorted[..i];
      }
    }
  }

  /** One iteration pushes one real item; the gap it may add after it is not one. */
  lemma StepRealItems(sorted: seq<MemoryItem>, j: nat)
    requires j < |sorted| && sorted[j].kind != Gap
    ensures RealItems(Step(sorted, j)) == [sorted[j]]
  {
    var step := Step(sorted, j);
    var gaps := step[1..];
    assert step == [sorted[j]] + gaps;
    assert gaps == [] || (|gaps| == 1 && gaps[0].kind == Gap);
    assert RealItems(gaps) == [] by {
      if gaps != [] {
        assert gaps[1..] == [];
      }
    }
    RealItemsAppend([sorted[j]], gaps);
  }

  /** Stripping the gaps from a layout gives back exactly the items laid out, in order. */
  lemma LayoutRealItems(address: nat, size: nat, sorted: seq<MemoryItem>)
    requires forall k :: 0 <= k < |sorted| ==> sorted[k].kind != Gap
    ensures RealItems(Layout(address, size, sorted)) == sorted
  {
    var lead, trail := Lead(address, sorted), Trail(address, size, sorted);
    RealItemsAppend(lead + Between(sorted, |sorted|), trail);
    RealItemsAppend(lead, Between(sorted, |sorted|));
    BetweenRealItems(sorted, |sorted|);
    assert sorted[..|sorted|] == sorted;
  }

  /**
   * Every variable and heap-block child appears in the map exactly as often as
   * among the children, and nothing else that is not a gap does; the
   * non-gap entries are in ascending address order, and children at the same
   * address keep their order.
   */
  lemma ShownOnceInOrder(region: Region)
    requires region.address.Some? && region.size.Some?
    ensures var children := if region.children.Some? then region.children.value else [];
      var drawn := RealItems(Layout(region.address.value, region.size.value, SortedChildren(region)));
      && (forall x :: multiset(drawn)[x] == if Shown(x) then multiset(children)[x] else 0)
      && SortedByAddress(drawn)
      && (forall a: nat :: AtAddress(drawn, a) == AtAddress(Kept(children), a))
  {
    var children := if region.children.Some? then region.children.value else [];
    var sorted := SortedChildren(region);
    KeptCounts(children);
    assert forall k :: 0 <= k < |sorted| ==> sorted[k].kind != Gap by {
      forall k | 0 <= k < |sorted| ensures sorted[k].kind != Gap {
        assert sorted[k] in multiset(Kept(children));
      }
    }
    LayoutRealItems(region.address.value, region.size.value, sorted);
    forall a: nat ensures AtAddress(sorted, a) == AtAddress(Kept(children), a) {
      SortStable(Kept(children), a);
    }
  }

  /** Each entry starts where the previous one ends. */
  predicate Contiguous(s: seq<MemoryItem>) {
    forall k :: 0 <= k < |s| - 1 ==> End(s[k]) == s[k + 1].address
  }

  /** No item reaches past the start of the next. */
  predicate NonOverlapping(s: seq<MemoryItem>) {
    forall k :: 0 <= k < |s| - 1 ==> End(s[k]) <= s[k + 1].address
  }

  lemma ContiguousAppend(a: seq<MemoryItem>, b: seq<MemoryItem>)
    requires Contiguous(a) && Contiguous(b)
    requires a != [] && b != [] ==> End(a[|a| - 1]) == b[0].address
    ensures Contiguous(a + b)
  {
    var s := a + b;
    forall k | 0 <= k < |s| - 1
      ensures End(s[k]) == s[k + 1].address
    {
      if k < |a| - 1 {
        assert s[k] == a[k] && s[k + 1] == a[k + 1];
      } else if k == |a| - 1 {
        assert s[k] == a[|a| - 1] && s[k + 1] == b[0];
      } else {
        assert s[k] == b[k - |a|] && s[k + 1] == b[k - |a| + 1];
      }
    }
  }

  /** The first `i` iterations push a contiguous run from the first item to the start of item `i`. */
  lemma {:induction false} BetweenTiles(sorted: seq<MemoryItem>, i: nat)
    requires 1 <= i <= |sorted|
    requires NonOverlapping(sorted)
    ensures var b := Between(sorted, i);
      && b != [] && b[0] == sorted[0] && Contiguous(b)
      && End(b[|b| - 1]) == if i < |sorted| then sorted[i].address else End(sorted[i - 1])
  {
    var step := Step(sorted, i - 1);
    assert Contiguous(step) && step[0] == sorted[i - 1];
    if i > 1 {
      BetweenTiles(sorted, i - 1);
      ContiguousAppend(Between(sorted, i - 1), step);
    } else {
      assert Between(sorted, i) == step;
    }
  }

  /**
   * For non-overlapping items from the region's start on that end inside the
   * region, the entries tile the region from its first byte without holes.
   * They reach its end, except when the last item ends one byte short of it:
   * then the trailing gap is not added and the last byte stays uncovered.
   */
  lemma LayoutTiles(address: nat, size: nat, sorted: seq<MemoryItem>)
    requires sorted != [] && NonOverlapping(sorted)
    requires address <= sorted[0].address && End(sorted[|sorted| - 1]) <= address + size
    ensures var entries := Layout(address, size, sorted);
      && entries != []
      && entries[0].address == address
      && Contiguous(entries)
      && End(entries[|entries| - 1]) ==
           if End(sorted[|sorted| - 1]) == address + size - 1 then address + size - 1 else address + size
  {
    var lead, body, trail := Lead(address, sorted), Between(sorted, |sorted|), Trail(address, size, sorted);
    BetweenTiles(sorted, |sorted|);
    ContiguousAppend(lead, body);
    ContiguousAppend(lead + body, trail);
    assert (lead + body)[|lead + body| - 1] == body[|body| - 1];
  }

  // ---------------------------------------------------------------- the trailing gap

  /** The smallest case of the uncovered last byte: region [0, 0x100) holding one item [0xF0, 0xFF). */
  lemma TrailingByteUncovered()
    ensures var item := MemoryItem("v", "v", 0xF0, 0x0F, Variable, None, None, None, None, None);
      var entries := Layout(0, 0x100, [item]);
      |entries| == 2 && entries[1] == item && End(entries[1]) == 0xFF
  {
    var item := MemoryItem("v", "v", 0xF0, 0x0F, Variable, None, None, None, None, None);
    assert Between([item], 1) == [item];
    assert Trail(0, 0x100, [item]) == [];
  }

  /** The trailing gap as intended: up to the region's exclusive end `address + size`. */
  function CorrectedTrail(address: nat, size: nat, sorted: seq<MemoryItem>): seq<MemoryItem> {
    if |sorted| == 0 then []
    else
      var lastEnd := End(sorted[|sorted| - 1]);
      if address + size > lastEnd then
        [GapItem("gap_end_" + NumberToString(lastEnd, 10), lastEnd, address + size - lastEnd)]
      else []
  }

  function CorrectedLayout(address: nat, size: nat, sorted: seq<MemoryItem>): seq<MemoryItem> {
    Lead(address, sorted) + Between(sorted, |sorted|) + CorrectedTrail(address, size, sorted)
  }

  /** With the intended trailing gap the entries cover the whole region, its last byte included. */
  lemma CorrectedLayoutTiles(address: nat, size: nat, sorted: seq<MemoryItem>)
    requires sorted != [] && NonOverlapping(sorted)
    requires address <= sorted[0].address && End(sorted[|sorted| - 1]) <= address + size
    ensures var entries := CorrectedLayout(address, size, sorted);
      && entries != []
      && entries[0].address == address
      && Contiguous(entries)
      && End(entries[|entries| - 1]) == address + size
  {
    var lead, body, trail := Lead(address, sorted), Between(sorted, |sorted|), CorrectedTrail(address, size, sorted);
    BetweenTiles(sorted, |sorted|);
    ContiguousAppend(lead, body);
    ContiguousAppend(lead + body, trail);
    assert (lead + body)[|lead + body| - 1] == body[|body| - 1];
  }

  /** The two layouts differ only when the last item ends exactly one byte before the region's end. */
  lemma CorrectionOnlyAtLastByte(address: nat, size: nat, sorted: seq<MemoryItem>)
    requires sorted != []
    ensures CorrectedLayout(address, size, sorted) != Layout(address, size, sorted)
      <==> End(sorted[|sorted| - 1]) == address + size - 1
  {
    var prefix := Lead(address, sorted) + Between(sorted, |sorted|);
    var t, c := Trail(address, size, sorted), CorrectedTrail(address, size, sorted);
    if End(sorted[|sorted| - 1]) == address + size - 1 {
      assert |prefix + t| != |prefix + c|;
    } else {
      assert t == c;
    }
  }
}
