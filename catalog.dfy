/**
 * The `MemoryItem` record (src/models/memoryManager.ts) and the
 * `Map<string, MemoryItem>` the manager keeps them in. A JavaScript Map
 * remembers insertion order: `set` on a new key appends it, `set` on an
 * existing key replaces the value in place, and `delete` drops the key from
 * the order. A Catalog is that Map as a value: its entries and its key order.
 */
module ItemCatalog {
  import opened Results

  datatype ItemKind = Region | Peripheral | Variable | HeapBlock | Gap

  /**
   * An item's description. Heap items describe their size through
   * `formatSize`, whose KB and MB texts are floating-point; the size is kept.
   */
  datatype Description = Text(text: string) | HeapAllocation(size: nat)

  /** A memory item; the optional fields of the interface are Options. */
  datatype MemoryItem = MemoryItem(
    id: string,
    name: string,
    address: nat,
    size: nat,
    kind: ItemKind,
    description: Option<Description>,
    readable: Option<bool>,
    writable: Option<bool>,
    children: Option<seq<MemoryItem>>,
    color: Option<string>)

  /** The Map as a value: its entries, and its keys in insertion order. */
  datatype Catalog = Catalog(entries: map<string, MemoryItem>, order: seq<string>)

  const Empty: Catalog := Catalog(map[], [])

  predicate Distinct(ids: seq<string>) {
    forall i, j :: 0 <= i < j < |ids| ==> ids[i] != ids[j]
  }

  /** The order lists every key once, and every item is filed under its own id. */
  predicate WellFormed(c: Catalog) {
    && Distinct(c.order)
    && (forall id :: id in c.entries ==> id in c.order && c.entries[id].id == id)
    && (forall i :: 0 <= i < |c.order| ==> c.order[i] in c.entries)
  }

  /** `map.set(item.id, item)`. */
  function Put(c: Catalog, item: MemoryItem): Catalog {
    Catalog(c.entries[item.id := item], if item.id in c.entries then c.order else c.order + [item.id])
  }

  /**
   * `set` files the item under its id and touches no other entry; a new key
   * goes after all others, an existing key keeps its place; the Map stays
   * well formed.
   */
  lemma PutFacts(c: Catalog, item: MemoryItem)
    ensures var r := Put(c, item);
      && item.id in r.entries && r.entries[item.id] == item
      && (forall id :: id != item.id ==>
            && (id in r.entries <==> id in c.entries)
            && (id in c.entries ==> r.entries[id] == c.entries[id]))
      && c.order <= r.order
      && (item.id in c.entries ==> r.order == c.order)
      && (item.id !in c.entries ==> r.order == c.order + [item.id])
      && (WellFormed(c) ==> WellFormed(r))
  {
  }

  /** The items set one after another, first to last, as a `for … of` loop of `set` calls does. */
  function PutAll(c: Catalog, items: seq<MemoryItem>): Catalog {
    if items == [] then c else Put(PutAll(c, items[..|items| - 1]), items[|items| - 1])
  }

  /** The last of `items` filed under `id`, the one whose `set` is seen last. */
  function LastWithId(items: seq<MemoryItem>, id: string): (r: Option<MemoryItem>)
    ensures r.Some? <==> exists i :: 0 <= i < |items| && items[i].id == id
    ensures r.Some? ==> r.value.id == id && r.value in items
  {
    if items == [] then None
    else if items[|items| - 1].id == id then Some(items[|items| - 1])
    else LastWithId(items[..|items| - 1], id)
  }

  /**
   * After setting `items`: the keys are the old keys plus the items' ids; an
   * id that some item carries holds the last such item, every other entry is
   * untouched.
   */
  lemma {:induction false} PutAllEntries(c: Catalog, items: seq<MemoryItem>)
    ensures var r := PutAll(c, items);
      && (forall id :: id in r.entries <==> id in c.entries || LastWithId(items, id).Some?)
      && (forall id :: id in r.entries ==>
            r.entries[id] == if LastWithId(items, id).Some? then LastWithId(items, id).value else c.entries[id])
  {
    if items != [] {
      var front := items[..|items| - 1];
      PutAllEntries(c, front);
      PutFacts(PutAll(c, front), items[|items| - 1]);
      forall id | id != items[|items| - 1].id
        ensures LastWithId(items, id) == LastWithId(front, id)
      {
      }
    }
  }

  /** Old keys keep their places; the keys that follow them are ids of the items set. */
  lemma {:induction false} PutAllOrder(c: Catalog, items: seq<MemoryItem>)
    ensures var r := PutAll(c, items);
      && c.order <= r.order
      && (forall k :: |c.order| <= k < |r.order| ==> LastWithId(items, r.order[k]).Some?)
  {
    if items != [] {
      var front := items[..|items| - 1];
      var last := items[|items| - 1];
      PutAllOrder(c, front);
      var p := PutAll(c, front);
      var r := Put(p, last);
      PutFacts(p, last);
      forall k | |c.order| <= k < |r.order|
        ensures LastWithId(items, r.order[k]).Some?
      {
        if k < |p.order| {
          assert r.order[k] == p.order[k];
          assert LastWithId(front, r.order[k]).Some?;
          var i :| 0 <= i < |front| && front[i].id == r.order[k];
          assert items[i] == front[i];
        } else {
          assert r.order[k] == last.id;
        }
      }
    }
  }

  /** The position of the first of `items` filed under `id`. */
  function FirstWithId(items: seq<MemoryItem>, id: string): (r: nat)
    requires LastWithId(items, id).Some?
    ensures r < |items| && items[r].id == id
    ensures forall i :: 0 <= i < r ==> items[i].id != id
  {
    var front := items[..|items| - 1];
    if LastWithId(front, id).Some? then FirstWithId(front, id) else |items| - 1
  }

  /** The ids of `items` not among `known`, each once, in the order the ids are first seen. */
  function AppendedIds(known: seq<string>, items: seq<MemoryItem>): seq<string> {
    if items == [] then []
    else
      var earlier := AppendedIds(known, items[..|items| - 1]);
      var id := items[|items| - 1].id;
      if id in known || id in earlier then earlier else earlier + [id]
  }

  /** The appended ids are exactly the ids of items that are not among `known`. */
  lemma {:induction false} AppendedIdsMembers(known: seq<string>, items: seq<MemoryItem>, id: string)
    ensures id in AppendedIds(known, items) <==> id !in known && LastWithId(items, id).Some?
  {
    if items != [] {
      AppendedIdsMembers(known, items[..|items| - 1], id);
    }
  }

  /** Both ids are carried by some item, and the first item carrying `x` comes before the first carrying `y`. */
  predicate FirstSeenBefore(items: seq<MemoryItem>, x: string, y: string) {
    && LastWithId(items, x).Some? && LastWithId(items, y).Some?
    && FirstWithId(items, x) < FirstWithId(items, y)
  }

  /** The appended ids are listed by the position of the first item carrying each. */
  lemma {:induction false} AppendedIdsFirstSeen(known: seq<string>, items: seq<MemoryItem>)
    ensures var r := AppendedIds(known, items);
      forall p, q :: 0 <= p < q < |r| ==> FirstSeenBefore(items, r[p], r[q])
  {
    if items != [] {
      var front, last := items[..|items| - 1], items[|items| - 1];
      var earlier := AppendedIds(known, front);
      var r := AppendedIds(known, items);
      AppendedIdsFirstSeen(known, front);
      AppendedIdsMembers(known, front, last.id);
      forall p, q | 0 <= p < q < |r| ensures FirstSeenBefore(items, r[p], r[q]) {
        assert r[p] == earlier[p];
        AppendedIdsMembers(known, front, r[p]);
        if q < |earlier| {
          assert r[q] == earlier[q];
          assert FirstSeenBefore(front, earlier[p], earlier[q]);
        } else {
          assert r[q] == last.id && last.id !in known && last.id !in earlier;
          assert LastWithId(front, last.id).None?;
        }
      }
    }
  }

  /**
   * With the Map's keys and entries in step, setting `items` leaves exactly
   * the old keys followed by the new ids in the order their first items were
   * set, which is the order `values()` lists them in.
   */
  lemma {:induction false} PutAllOrderExact(c: Catalog, items: seq<MemoryItem>)
    requires forall id :: id in c.entries <==> id in c.order
    ensures PutAll(c, items).order == c.order + AppendedIds(c.order, items)
    ensures forall id :: id in PutAll(c, items).entries <==> id in PutAll(c, items).order
  {
    if items != [] {
      var front, last := items[..|items| - 1], items[|items| - 1];
      PutAllOrderExact(c, front);
      var p := PutAll(c, front);
      PutFacts(p, last);
      var earlier := AppendedIds(c.order, front);
      if last.id !in p.entries {
        assert last.id !in c.order && last.id !in earlier;
        assert p.order + [last.id] == c.order + (earlier + [last.id]);
      }
    }
  }

  lemma {:induction false} PutAllWellFormed(c: Catalog, items: seq<MemoryItem>)
    requires WellFormed(c)
    ensures WellFormed(PutAll(c, items))
  {
    if items != [] {
      PutAllWellFormed(c, items[..|items| - 1]);
      PutFacts(PutAll(c, items[..|items| - 1]), items[|items| - 1]);
    }
  }

  /** Setting the same items again changes nothing: ids already present keep their places and values. */
  lemma ReloadIsNoOp(c: Catalog, items: seq<MemoryItem>)
    ensures PutAll(PutAll(c, items), items) == PutAll(c, items)
  {
    var once := PutAll(c, items);
    var twice := PutAll(once, items);
    PutAllEntries(c, items);
    PutAllEntries(once, items);
    SameIdsKeepOrder(once, items);
    assert twice.entries == once.entries;
  }

  /** Setting items whose ids are all present leaves the key order alone. */
  lemma {:induction false} SameIdsKeepOrder(c: Catalog, items: seq<MemoryItem>)
    requires forall i :: 0 <= i < |items| ==> items[i].id in c.entries
    ensures PutAll(c, items).order == c.order
  {
    if items != [] {
      SameIdsKeepOrder(c, items[..|items| - 1]);
      PutAllEntries(c, items[..|items| - 1]);
      PutFacts(PutAll(c, items[..|items| - 1]), items[|items| - 1]);
    }
  }

  /** `s` without `x`. */
  function Without(s: seq<string>, x: string): seq<string> {
    if s == [] then [] else (if s[0] == x then [] else [s[0]]) + Without(s[1..], x)
  }

  lemma {:induction false} WithoutAbsent(s: seq<string>, x: string)
    requires x !in s
    ensures Without(s, x) == s
  {
    if s != [] {
      WithoutAbsent(s[1..], x);
      assert s == [s[0]] + s[1..];
    }
  }

  lemma {:induction false} WithoutAppend(a: seq<string>, b: seq<string>, x: string)
    ensures Without(a + b, x) == Without(a, x) + Without(b, x)
  {
    if a != [] {
      WithoutAppend(a[1..], b, x);
      assert (a + b)[1..] == a[1..] + b;
    } else {
      assert a + b == b;
    }
  }

  lemma WithoutMiddle(before: seq<string>, x: string, after: seq<string>)
    requires x !in before && x !in after
    ensures Without(before + ([x] + after), x) == before + after
  {
    var rest := [x] + after;
    assert rest[0] == x && rest[1..] == after;
    assert Without(rest, x) == Without(after, x);
    WithoutAbsent(after, x);
    WithoutAbsent(before, x);
    WithoutAppend(before, rest, x);
  }

  /** `map.delete(id)`. */
  function Delete(c: Catalog, id: string): (r: Catalog)
    ensures id !in r.entries
    ensures forall k :: k != id ==> (k in r.entries <==> k in c.entries) && (k in c.entries ==> r.entries[k] == c.entries[k])
  {
    Catalog(c.entries - {id}, Without(c.order, id))
  }

  /**
   * What `delete` does to the key order `getItems` follows: the key leaves
   * the order, a missing key changes nothing, and every other key keeps its
   * place.
   */
  lemma DeleteOrder(c: Catalog, id: string)
    ensures id !in Delete(c, id).order
    ensures id !in c.order ==> Delete(c, id).order == c.order
    ensures forall j :: 0 <= j < |c.order| && c.order[j] == id && Distinct(c.order) ==>
      Delete(c, id).order == c.order[..j] + c.order[j + 1..]
  {
    WithoutMembers(c.order, id);
    if id !in c.order {
      WithoutAbsent(c.order, id);
    }
    forall j | 0 <= j < |c.order| && c.order[j] == id && Distinct(c.order)
      ensures Delete(c, id).order == c.order[..j] + c.order[j + 1..]
    {
      WithoutAt(c.order, j);
    }
  }

  /** `delete` keeps the Map well formed. */
  lemma DeleteWellFormed(c: Catalog, id: string)
    requires WellFormed(c)
    ensures WellFormed(Delete(c, id))
  {
    var r := Delete(c, id);
    WithoutMembers(c.order, id);
    if id in c.order {
      var j :| 0 <= j < |c.order| && c.order[j] == id;
      WithoutAt(c.order, j);
      DropDistinct(c.order, j);
    } else {
      WithoutAbsent(c.order, id);
    }
    assert Distinct(r.order);
    forall k | k in r.entries ensures k in r.order && r.entries[k].id == k {
    }
    forall i | 0 <= i < |r.order| ensures r.order[i] in r.entries {
      assert r.order[i] in r.order;
    }
  }

  /** Taking the key at `j` out of a list of distinct keys leaves the others in order. */
  lemma WithoutAt(order: seq<string>, j: nat)
    requires j < |order| && Distinct(order)
    ensures Without(order, order[j]) == order[..j] + order[j + 1..]
  {
    var before, x, after := order[..j], order[j], order[j + 1..];
    assert order == before + ([x] + after);
    DistinctSplit(order, j);
    WithoutMiddle(before, x, after);
  }

  /** In a list of distinct keys, the key at `j` occurs neither before nor after `j`. */
  lemma DistinctSplit(order: seq<string>, j: nat)
    requires j < |order| && Distinct(order)
    ensures order[j] !in order[..j] && order[j] !in order[j + 1..]
  {
    forall i | 0 <= i < j ensures order[..j][i] != order[j] {
      assert order[..j][i] == order[i];
    }
    var after := order[j + 1..];
    forall i | 0 <= i < |after| ensures after[i] != order[j] {
      assert after[i] == order[j + 1 + i];
    }
  }

  /** Dropping one key of a list of distinct keys leaves them distinct. */
  lemma DropDistinct(order: seq<string>, j: nat)
    requires j < |order| && Distinct(order)
    ensures Distinct(order[..j] + order[j + 1..])
  {
    var rest := order[..j] + order[j + 1..];
    forall p, q | 0 <= p < q < |rest| ensures rest[p] != rest[q] {
      var p', q' := if p < j then p else p + 1, if q < j then q else q + 1;
      assert rest[p] == order[p'] && rest[q] == order[q'];
    }
  }

  /** `Without(s, x)` keeps exactly the elements of `s` other than `x`. */
  lemma {:induction false} WithoutMembers(s: seq<string>, x: string)
    ensures forall y :: y in Without(s, x) <==> y in s && y != x
  {
    if s != [] {
      WithoutMembers(s[1..], x);
      assert s == [s[0]] + s[1..];
    }
  }

  /**
   * The `for (const [id, item] of map.entries())` loop that deletes every item
   * of `kind`, over the keys `ids` it visits. Deleting the entry just visited
   * does not disturb the iteration, so each key present at the start is visited.
   */
  function DeleteKindAmong(c: Catalog, kind: ItemKind, ids: seq<string>): Catalog {
    if ids == [] then c
    else
      var d := DeleteKindAmong(c, kind, ids[..|ids| - 1]);
      var id := ids[|ids| - 1];
      if id in d.entries && d.entries[id].kind == kind then Delete(d, id) else d
  }

  /** Reference filter: the ids of `ids` whose entry is not of `kind`, in order. */
  function KeepIds(c: Catalog, kind: ItemKind, ids: seq<string>): seq<string> {
    if ids == [] then []
    else
      var front := KeepIds(c, kind, ids[..|ids| - 1]);
      var id := ids[|ids| - 1];
      if id !in c.entries || c.entries[id].kind != kind then front + [id] else front
  }

  /** The filter keeps exactly the ids that have no entry or an entry of another kind. */
  lemma {:induction false} KeepIdsMembers(c: Catalog, kind: ItemKind, ids: seq<string>)
    ensures forall id :: id in KeepIds(c, kind, ids) <==> id in ids && (id !in c.entries || c.entries[id].kind != kind)
  {
    if ids != [] {
      var front, last := ids[..|ids| - 1], ids[|ids| - 1];
      KeepIdsMembers(c, kind, front);
      assert ids == front + [last];
    }
  }

  /** Filtering a list of distinct ids leaves them distinct. */
  lemma {:induction false} KeepIdsDistinct(c: Catalog, kind: ItemKind, ids: seq<string>)
    requires Distinct(ids)
    ensures Distinct(KeepIds(c, kind, ids))
  {
    if ids != [] {
      var front := ids[..|ids| - 1];
      KeepIdsDistinct(c, kind, front);
      KeepIdsMembers(c, kind, front);
      assert ids[|ids| - 1] !in front;
    }
  }

  lemma {:induction false} KeepIdsAppend(c: Catalog, kind: ItemKind, a: seq<string>, b: seq<string>)
    ensures KeepIds(c, kind, a + b) == KeepIds(c, kind, a) + KeepIds(c, kind, b)
    decreases |b|
  {
    if b == [] {
      assert a + b == a;
    } else {
      var front, last := b[..|b| - 1], b[|b| - 1];
      KeepIdsAppend(c, kind, a, front);
      assert (a + b)[..|a + b| - 1] == a + front;
      assert (a + b)[|a + b| - 1] == last;
      var tail := if last !in c.entries || c.entries[last].kind != kind then [last] else [];
      assert KeepIds(c, kind, a + b) == KeepIds(c, kind, a + front) + tail;
      assert KeepIds(c, kind, b) == KeepIds(c, kind, front) + tail;
    }
  }

  /** Removing every item of `kind`: all other entries and their order stay as they were. */
  function WithoutKind(c: Catalog, kind: ItemKind): Catalog {
    DeleteKindAmong(c, kind, c.order)
  }

  /** The delete loop leaves exactly the entries not of `kind`, unchanged. */
  lemma WithoutKindEntries(c: Catalog, kind: ItemKind)
    requires forall id :: id in c.entries ==> id in c.order
    ensures var r := WithoutKind(c, kind);
      && (forall id :: id in r.entries <==> id in c.entries && c.entries[id].kind != kind)
      && (forall id :: id in r.entries ==> r.entries[id] == c.entries[id])
  {
    DeleteAmongEntries(c, kind, c.order);
  }

  /** On a well-formed Map, the remaining keys keep their previous order. */
  lemma WithoutKindOrder(c: Catalog, kind: ItemKind)
    requires WellFormed(c)
    ensures WithoutKind(c, kind).order == KeepIds(c, kind, c.order)
  {
    DeletePrefixOrder(c, kind, |c.order|);
    assert c.order[..|c.order|] == c.order;
  }

  lemma WithoutKindWellFormed(c: Catalog, kind: ItemKind)
    requires WellFormed(c)
    ensures WellFormed(WithoutKind(c, kind))
  {
    WithoutKindEntries(c, kind);
    WithoutKindOrder(c, kind);
    KeepIdsMembers(c, kind, c.order);
    KeepIdsDistinct(c, kind, c.order);
  }

  /**
   * Which entries the delete loop has removed after visiting the keys `ids`:
   * those of `kind` among them. A key visited twice is deleted once.
   */
  lemma {:induction false} DeleteAmongEntries(c: Catalog, kind: ItemKind, ids: seq<string>)
    ensures var d := DeleteKindAmong(c, kind, ids);
      && (forall id :: id in d.entries <==> id in c.entries && (id !in ids || c.entries[id].kind != kind))
      && (forall id :: id in d.entries ==> d.entries[id] == c.entries[id])
  {
    if ids != [] {
      DeleteAmongEntries(c, kind, ids[..|ids| - 1]);
      assert ids == ids[..|ids| - 1] + [ids[|ids| - 1]];
    }
  }

  /** The key order the delete loop leaves after `i` keys: the kept ones, then the unvisited ones. */
  lemma {:induction false} DeletePrefixOrder(c: Catalog, kind: ItemKind, i: nat)
    requires WellFormed(c) && i <= |c.order|
    ensures DeleteKindAmong(c, kind, c.order[..i]).order == KeepIds(c, kind, c.order[..i]) + c.order[i..]
  {
    if i == 0 {
      assert c.order[..0] == [];
    } else {
      DeletePrefixOrder(c, kind, i - 1);
      DeleteAmongEntries(c, kind, c.order[..i - 1]);
      assert c.order[i - 1] !in c.order[..i - 1] && c.order[i - 1] !in c.order[i..];
      DeleteOrderStep(c, kind, i);
    }
  }

  lemma DeleteOrderStep(c: Catalog, kind: ItemKind, i: nat)
    requires 0 < i <= |c.order|
    requires c.order[i - 1] !in c.order[..i - 1] && c.order[i - 1] !in c.order[i..]
    requires DeleteKindAmong(c, kind, c.order[..i - 1]).order == KeepIds(c, kind, c.order[..i - 1]) + c.order[i - 1..]
    requires c.order[i - 1] in DeleteKindAmong(c, kind, c.order[..i - 1]).entries
    requires c.order[i - 1] in c.entries
    requires DeleteKindAmong(c, kind, c.order[..i - 1]).entries[c.order[i - 1]] == c.entries[c.order[i - 1]]
    ensures DeleteKindAmong(c, kind, c.order[..i]).order == KeepIds(c, kind, c.order[..i]) + c.order[i..]
  {
    var ids := c.order[..i];
    var id := c.order[i - 1];
    var d := DeleteKindAmong(c, kind, c.order[..i - 1]);
    var kept := KeepIds(c, kind, c.order[..i - 1]);
    var rest := c.order[i..];
    assert |ids| == i && ids[|ids| - 1] == id && ids[..|ids| - 1] == c.order[..i - 1];
    assert d.order == kept + [id] + rest by {
      assert c.order[i - 1..] == [id] + rest;
    }
    if c.entries[id].kind == kind {
      calc {
        DeleteKindAmong(c, kind, ids).order;
        Delete(d, id).order;
        { assert kept + [id] + rest == kept + ([id] + rest); }
        Without(kept + ([id] + rest), id);
        { KeepIdsMembers(c, kind, c.order[..i - 1]); WithoutMiddle(kept, id, rest); }
        kept + rest;
        KeepIds(c, kind, ids) + rest;
      }
    } else {
      calc {
        DeleteKindAmong(c, kind, ids).order;
        d.order;
        (kept + [id]) + rest;
        KeepIds(c, kind, ids) + rest;
      }
    }
  }

  lemma {:induction false} KeepIdsAll(c: Catalog, kind: ItemKind, ids: seq<string>)
    requires forall k :: 0 <= k < |ids| ==> ids[k] !in c.entries || c.entries[ids[k]].kind != kind
    ensures KeepIds(c, kind, ids) == ids
  {
    if ids != [] {
      KeepIdsAll(c, kind, ids[..|ids| - 1]);
    }
  }

  lemma {:induction false} KeepIdsNone(c: Catalog, kind: ItemKind, ids: seq<string>)
    requires forall k :: 0 <= k < |ids| ==> ids[k] in c.entries && c.entries[ids[k]].kind == kind
    ensures KeepIds(c, kind, ids) == []
  {
    if ids != [] {
      KeepIdsNone(c, kind, ids[..|ids| - 1]);
    }
  }

  /**
   * Adding items of `kind` under fresh ids and then removing every item of
   * `kind` gives back the catalog: the removal takes exactly what was added.
   */
  lemma AddedKindRemoved(w: Catalog, items: seq<MemoryItem>, kind: ItemKind)
    requires WellFormed(w)
    requires forall id :: id in w.entries ==> w.entries[id].kind != kind
    requires forall i :: 0 <= i < |items| ==> items[i].kind == kind && items[i].id !in w.entries
    ensures WithoutKind(PutAll(w, items), kind) == w
  {
    PutAllWellFormed(w, items);
    AddedEntriesRemoved(w, items, kind);
    AddedOrderRemoved(w, items, kind);
  }

  lemma AddedEntriesRemoved(w: Catalog, items: seq<MemoryItem>, kind: ItemKind)
    requires forall id :: id in w.entries ==> w.entries[id].kind != kind
    requires forall i :: 0 <= i < |items| ==> items[i].kind == kind && items[i].id !in w.entries
    requires forall id :: id in PutAll(w, items).entries ==> id in PutAll(w, items).order
    ensures WithoutKind(PutAll(w, items), kind).entries == w.entries
  {
    var x := PutAll(w, items);
    PutAllEntries(w, items);
    WithoutKindEntries(x, kind);
    var r := WithoutKind(x, kind);
    forall id | id in w.entries
      ensures LastWithId(items, id).None?
    {
      assert forall i :: 0 <= i < |items| ==> items[i].id != id;
    }
    forall id
      ensures id in r.entries <==> id in w.entries
    {
      if id in x.entries && LastWithId(items, id).Some? {
        assert LastWithId(items, id).value in items;
      }
    }
    forall id | id in r.entries
      ensures r.entries[id] == w.entries[id]
    {
    }
    assert r.entries.Keys == w.entries.Keys;
  }

  lemma AddedOrderRemoved(w: Catalog, items: seq<MemoryItem>, kind: ItemKind)
    requires forall id :: id in w.entries ==> w.entries[id].kind != kind
    requires forall i :: 0 <= i < |items| ==> items[i].kind == kind && items[i].id !in w.entries
    requires forall k :: 0 <= k < |w.order| ==> w.order[k] in w.entries
    requires WellFormed(PutAll(w, items))
    ensures WithoutKind(PutAll(w, items), kind).order == w.order
  {
    var x := PutAll(w, items);
    assert |w.order| <= |x.order| by {
      AddedKeysDropped(w, items, kind);
    }
    var added := x.order[|w.order|..];
    var kept := KeepIds(x, kind, x.order);
    assert WithoutKind(x, kind).order == kept by {
      WithoutKindOrder(x, kind);
    }
    assert kept == KeepIds(x, kind, w.order) + KeepIds(x, kind, added) by {
      PutAllOrder(w, items);
      assert x.order == w.order + added;
      KeepIdsAppend(x, kind, w.order, added);
    }
    assert KeepIds(x, kind, w.order) == w.order by {
      OldKeysKept(w, items, kind);
    }
    assert KeepIds(x, kind, added) == [] by {
      AddedKeysDropped(w, items, kind);
    }
    assert w.order + [] == w.order;
  }

  lemma OldKeysKept(w: Catalog, items: seq<MemoryItem>, kind: ItemKind)
    requires forall id :: id in w.entries ==> w.entries[id].kind != kind
    requires forall i :: 0 <= i < |items| ==> items[i].id !in w.entries
    requires forall k :: 0 <= k < |w.order| ==> w.order[k] in w.entries
    ensures KeepIds(PutAll(w, items), kind, w.order) == w.order
  {
    var x := PutAll(w, items);
    PutAllEntries(w, items);
    forall k | 0 <= k < |w.order|
      ensures w.order[k] !in x.entries || x.entries[w.order[k]].kind != kind
    {
      var id := w.order[k];
      assert forall i :: 0 <= i < |items| ==> items[i].id != id;
    }
    KeepIdsAll(x, kind, w.order);
  }

  lemma AddedKeysDropped(w: Catalog, items: seq<MemoryItem>, kind: ItemKind)
    requires forall i :: 0 <= i < |items| ==> items[i].kind == kind
    ensures |w.order| <= |PutAll(w, items).order|
    ensures KeepIds(PutAll(w, items), kind, PutAll(w, items).order[|w.order|..]) == []
  {
    var x := PutAll(w, items);
    PutAllEntries(w, items);
    PutAllOrder(w, items);
    var added := x.order[|w.order|..];
    forall k | 0 <= k < |added|
      ensures added[k] in x.entries && x.entries[added[k]].kind == kind
    {
      assert added[k] == x.order[|w.order| + k];
      assert LastWithId(items, added[k]).value in items;
    }
    KeepIdsNone(x, kind, added);
  }
}
