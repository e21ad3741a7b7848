/**
 The `.dbidx` file: whatever order the index is written in, it reads back as itself.
 */
module IndexFile {
  import opened Bytes
  import opened Dtypes
  import opened Format

  /** Every entry fits its fixed-width slots and names its own key's length. */
  predicate WfIndex(index: Index) {
    forall k :: k in index ==> WfIndexEntry(k, index[k])
  }

  predicate WfIndexEntry(k: Key, e: IndexEntry) {
    e.keyLen == |k| < U16 && e.fieldLen < U32 && e.offset < U64
  }

  /** The map a list of entries makes, later entries winning. */
  function FromItems<V>(items: seq<(Key, V)>): map<Key, V> {
    if items == [] then map[]
    else
      var (k, v) := items[|items| - 1];
      FromItems(items[..|items| - 1])[k := v]
  }

  /** `items` is one possible iteration of the map: all its entries, each once. */
  predicate Iterates<V(==)>(items: seq<(Key, V)>, m: map<Key, V>) {
    && FromItems(items) == m
    && forall i, j :: 0 <= i < j < |items| ==> items[i].0 != items[j].0
  }

  lemma IndexEntryReads(buf: Bytes, pos: nat, key: Key, e: IndexEntry)
    requires WfIndexEntry(key, e)
    requires At(buf, pos, IndexEntryBytes(key, e))
    ensures ReadIndexEntry(buf, pos) == Ok((key, e, pos + |IndexEntryBytes(key, e)|))
  {
    hide LE, FromLE, ReadExact, At;
    var tail3 := LE(4, e.fieldLen) + LE(8, e.offset);
    var tail2 := key + tail3;
    AtSplit(buf, pos, LE(2, e.keyLen), tail2);
    AtSplit(buf, pos + 2, key, tail3);
    AtSplit(buf, pos + 2 + |key|, LE(4, e.fieldLen), LE(8, e.offset));
    AtRead(buf, pos, LE(2, e.keyLen));
    AtRead(buf, pos + 2, key);
    AtRead(buf, pos + 2 + |key|, LE(4, e.fieldLen));
    AtRead(buf, pos + 6 + |key|, LE(8, e.offset));
    LEWidths(e.keyLen);
    LEWidths(e.fieldLen);
    LEWidths(e.offset);
  }

  predicate WfItems(items: seq<(Key, IndexEntry)>) {
    forall i :: 0 <= i < |items| ==> WfIndexEntry(items[i].0, items[i].1)
  }

  lemma {:induction false} ScanIndexFilePasses(buf: Bytes, items: seq<(Key, IndexEntry)>)
    requires WfItems(items) && At(buf, 0, IndexFileBytes(items))
    ensures ScanIndexFile(buf, 0, map[]) == ScanIndexFile(buf, |IndexFileBytes(items)|, FromItems(items))
    decreases |items|
  {
    hide IndexEntryBytes, At, ReadIndexEntry, WfIndexEntry;
    if items == [] {
    } else {
      var init := items[..|items| - 1];
      var (k, e) := items[|items| - 1];
      AtSplit(buf, 0, IndexFileBytes(init), IndexEntryBytes(k, e));
      ScanIndexFilePasses(buf, init);
      IndexEntryReads(buf, |IndexFileBytes(init)|, k, e);
      assert |IndexFileBytes(init)| < |buf| by { EntryFits(buf, |IndexFileBytes(init)|, k, e); }
    }
  }

  lemma EntryFits(buf: Bytes, pos: nat, k: Key, e: IndexEntry)
    requires At(buf, pos, IndexEntryBytes(k, e))
    ensures pos < |buf|
  {
    hide LE;
  }

  lemma {:induction false} WfItemsOf(items: seq<(Key, IndexEntry)>)
    requires WfIndex(FromItems(items))
    requires forall i, j :: 0 <= i < j < |items| ==> items[i].0 != items[j].0
    ensures WfItems(items)
    decreases |items|
  {
    hide WfIndexEntry;
    if items != [] {
      var init := items[..|items| - 1];
      var (k, e) := items[|items| - 1];
      LastIsNew(items);
      assert FromItems(items)[k] == e;
      forall x | x in FromItems(init)
        ensures WfIndexEntry(x, FromItems(init)[x])
      {
        assert FromItems(items)[x] == FromItems(init)[x];
      }
      WfItemsOf(init);
    }
  }

  lemma {:induction false} ItemKeys<V>(items: seq<(Key, V)>, k: Key)
    ensures k in FromItems(items) <==> exists i :: 0 <= i < |items| && items[i].0 == k
    decreases |items|
  {
    if items != [] {
      var init := items[..|items| - 1];
      ItemKeys(init, k);
      if k in FromItems(init) {
        var i :| 0 <= i < |init| && init[i].0 == k;
        assert items[i].0 == k;
      }
      if i :| 0 <= i < |items| && items[i].0 == k && i < |init| {
        assert init[i].0 == k;
      }
    }
  }

  lemma LastIsNew<V>(items: seq<(Key, V)>)
    requires items != []
    requires forall i, j :: 0 <= i < j < |items| ==> items[i].0 != items[j].0
    ensures items[|items| - 1].0 !in FromItems(items[..|items| - 1])
  {
    ItemKeys(items[..|items| - 1], items[|items| - 1].0);
  }

  /** Written in any order, the index file decodes to the index. */
  lemma IndexRoundTrip(items: seq<(Key, IndexEntry)>, index: Index)
    requires Iterates(items, index) && WfIndex(index)
    ensures DecodeIndex(IndexFileBytes(items)) == Ok(index)
  {
    hide IndexFileBytes, ReadIndexEntry, WfIndex, FromItems, WfItems;
    WfItemsOf(items);
    ScanIndexFilePasses(IndexFileBytes(items), items);
  }

  // ---------------------------------------------------------------------------
  // Iterating a map whose order is not known

  /** `items` lists the entries of `m` visited so far; the keys in `todo` are still to come. */
  ghost predicate Iterated<V>(items: seq<(Key, V)>, m: map<Key, V>, todo: set<Key>) {
    todo <= m.Keys && Iterates(items, m - todo)
  }

  lemma IteratedNone<V>(m: map<Key, V>)
    ensures Iterated([], m, m.Keys)
  {
    assert m - m.Keys == map[];
  }

  lemma IteratedStep<V>(items: seq<(Key, V)>, m: map<Key, V>, todo: set<Key>, k: Key)
    requires Iterated(items, m, todo) && k in todo
    ensures Iterated(items + [(k, m[k])], m, todo - {k})
  {
    var more := items + [(k, m[k])];
    ItemKeys(items, k);
    assert more[..|items|] == items;
    assert (m - todo)[k := m[k]] == m - (todo - {k});
  }

  lemma IteratedAll<V>(items: seq<(Key, V)>, m: map<Key, V>)
    requires Iterated(items, m, {})
    ensures Iterates(items, m)
  {
    assert m - {} == m;
  }
}
