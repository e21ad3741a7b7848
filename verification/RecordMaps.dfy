/**
 The index over the records of a file: which record an entry names, when an index is
 sound, and what appending a record or killing one does to the map a reader sees.
 */
module RecordMaps {
  import opened Bytes
  import opened Dtypes
  import opened Format
  import opened FileImage

  /** The last live record of `k` other than record `skip`, or -1. */
  function LastLive(rs: seq<Rec>, k: Key, skip: int): (i: int)
    ensures -1 <= i < |rs|
    ensures i >= 0 ==> rs[i].Holds(k) && i != skip
    ensures forall j :: i < j < |rs| && j != skip ==> !rs[j].Holds(k)
  {
    if rs == [] then -1
    else
      var n := |rs| - 1;
      if rs[n].Holds(k) && n != skip then n else LastLive(rs[..n], k, skip)
  }

  lemma LastLiveIs(rs: seq<Rec>, k: Key, skip: int, i: int)
    requires -1 <= i < |rs|
    requires i >= 0 ==> rs[i].Holds(k) && i != skip
    requires forall j :: i < j < |rs| && j != skip ==> !rs[j].Holds(k)
    ensures LastLive(rs, k, skip) == i
  {
  }

  function ValueAt(rs: seq<Rec>, i: int): Option<Field>
    requires i < |rs|
    requires i >= 0 ==> rs[i].Live?
  {
    if i < 0 then None else Some(rs[i].field)
  }

  lemma {:induction false} DbMapAt(rs: seq<Rec>, k: Key)
    ensures Lookup(DbMap(rs), k) == ValueAt(rs, LastLive(rs, k, -1))
    decreases |rs|
  {
    if rs != [] { DbMapAt(rs[..|rs| - 1], k); }
  }

  // ---------------------------------------------------------------------------
  // Offsets

  lemma {:induction false} SizePrefix(rs: seq<Rec>, i: nat, j: nat)
    requires i < j <= |rs|
    ensures TotalSize(rs[..i]) + rs[i].Size() <= TotalSize(rs[..j])
    decreases j
  {
    assert rs[..j][..j - 1] == rs[..j - 1];
    if i < j - 1 { SizePrefix(rs, i, j - 1); }
  }

  /** The record that starts at `offset`, or -1. */
  function Position(rs: seq<Rec>, offset: nat): (i: int)
    ensures -1 <= i < |rs|
    ensures i >= 0 ==> Offset(rs, i) == offset
  {
    if rs == [] then -1
    else
      var n := |rs| - 1;
      if HEADER_SIZE + TotalSize(rs[..n]) == offset then n
      else
        var i := Position(rs[..n], offset);
        assert i >= 0 ==> rs[..n][..i] == rs[..i];
        i
  }

  lemma {:induction false} PositionFound(rs: seq<Rec>, i: nat)
    requires i < |rs|
    ensures Position(rs, Offset(rs, i)) == i
    decreases |rs|
  {
    var n := |rs| - 1;
    if i < n {
      assert rs[..n][..i] == rs[..i];
      PositionFound(rs[..n], i);
      SizePrefix(rs, i, n);
    }
  }

  lemma OffsetAppend(rs: seq<Rec>, r: Rec, i: nat)
    requires i <= |rs|
    ensures Offset(rs + [r], i) == Offset(rs, i)
  {
    assert (rs + [r])[..i] == rs[..i];
  }

  lemma {:induction false} SizeUpdate(rs: seq<Rec>, i: nat, r: Rec, j: nat)
    requires i < |rs| && r.Size() == rs[i].Size() && j <= |rs|
    ensures TotalSize(rs[i := r][..j]) == TotalSize(rs[..j])
    decreases j
  {
    if j > 0 {
      assert rs[i := r][..j][..j - 1] == rs[i := r][..j - 1];
      assert rs[..j][..j - 1] == rs[..j - 1];
      SizeUpdate(rs, i, r, j - 1);
    }
  }

  lemma {:induction false} IndexOfAt(rs: seq<Rec>, k: Key)
    ensures
      var i := LastLive(rs, k, -1);
      Lookup(IndexOf(rs), k) == if i < 0 then None else Some(rs[i].Entry(Offset(rs, i)))
    decreases |rs|
  {
    hide FieldBytes;
    if rs != [] {
      var n := |rs| - 1;
      IndexOfAt(rs[..n], k);
      var i := LastLive(rs[..n], k, -1);
      if i >= 0 { assert rs[..n][..i] == rs[..i]; }
    }
  }

  // ---------------------------------------------------------------------------
  // Index soundness

  /** The entry names a whole record, with exactly its lengths, that is live under `k` or dead. */
  predicate Names(rs: seq<Rec>, k: Key, e: IndexEntry) {
    var i := Position(rs, e.offset);
    && i >= 0
    && e == rs[i].Entry(e.offset)
    && e.keyLen == |k|
    && (rs[i].Live? ==> rs[i].key == k)
  }

  predicate Sound(rs: seq<Rec>, index: Index) {
    forall k :: k in index ==> Names(rs, k, index[k])
  }

  lemma NamesAppend(rs: seq<Rec>, r: Rec, k: Key, e: IndexEntry)
    requires Names(rs, k, e)
    ensures Names(rs + [r], k, e)
    ensures Position(rs + [r], e.offset) == Position(rs, e.offset)
  {
    hide FieldBytes, TotalSize;
    var i := Position(rs, e.offset);
    OffsetAppend(rs, r, i);
    PositionFound(rs + [r], i);
  }

  lemma NamesNew(rs: seq<Rec>, k: Key, f: Field)
    ensures Names(rs + [Live(k, f)], k, Live(k, f).Entry(Offset(rs, |rs|)))
  {
    hide FieldBytes, TotalSize;
    OffsetAppend(rs, Live(k, f), |rs|);
    PositionFound(rs + [Live(k, f)], |rs|);
  }

  lemma PositionDead(rs: seq<Rec>, i: nat, j: nat)
    requires i < |rs| && j < |rs|
    ensures Offset(rs[i := rs[i].Dead()], j) == Offset(rs, j)
    ensures Position(rs[i := rs[i].Dead()], Offset(rs, j)) == j
  {
    hide FieldBytes, TotalSize;
    SizeUpdate(rs, i, rs[i].Dead(), j);
    PositionFound(rs[i := rs[i].Dead()], j);
  }

  lemma NamesDead(rs: seq<Rec>, i: nat, k: Key, e: IndexEntry)
    requires i < |rs| && Names(rs, k, e)
    ensures Names(rs[i := rs[i].Dead()], k, e)
    ensures Position(rs[i := rs[i].Dead()], e.offset) == Position(rs, e.offset)
  {
    hide FieldBytes, TotalSize;
    PositionDead(rs, i, Position(rs, e.offset));
  }

  lemma SoundAppend(rs: seq<Rec>, r: Rec, index: Index)
    requires Sound(rs, index)
    ensures Sound(rs + [r], index)
  {
    hide Names;
    forall k | k in index
      ensures Names(rs + [r], k, index[k])
    {
      NamesAppend(rs, r, k, index[k]);
    }
  }

  lemma SoundDead(rs: seq<Rec>, i: nat, index: Index)
    requires i < |rs| && Sound(rs, index)
    ensures Sound(rs[i := rs[i].Dead()], index)
  {
    hide Names;
    forall k | k in index
      ensures Names(rs[i := rs[i].Dead()], k, index[k])
    {
      NamesDead(rs, i, k, index[k]);
    }
  }

  /** The index a scan builds is sound. */
  lemma ScanSound(rs: seq<Rec>)
    ensures Sound(rs, IndexOf(rs))
  {
    hide FieldBytes, TotalSize, IndexOf;
    forall k | k in IndexOf(rs)
      ensures Names(rs, k, IndexOf(rs)[k])
    {
      IndexOfAt(rs, k);
      PositionFound(rs, LastLive(rs, k, -1));
    }
  }

  // ---------------------------------------------------------------------------
  // What deleting through the index leaves behind

  /** The record a tombstone written through the index would kill, or -1. */
  function Target(rs: seq<Rec>, index: Index, k: Key): (i: int)
    ensures -1 <= i < |rs|
  {
    if k in index then Position(rs, index[k].offset) else -1
  }

  /** The value a reader would still find for `k` once the record the index names is dead. */
  function Leftover(rs: seq<Rec>, index: Index, k: Key): Option<Field> {
    ValueAt(rs, LastLive(rs, k, Target(rs, index, k)))
  }

  /** The only live record of `k`, if there is one at all, is the one its index entry names. */
  predicate OnlyIndexed(rs: seq<Rec>, index: Index, k: Key) {
    forall i :: 0 <= i < |rs| && rs[i].Holds(k) ==> k in index && Offset(rs, i) == index[k].offset
  }

  lemma LeftoverNone(rs: seq<Rec>, index: Index, k: Key)
    ensures Leftover(rs, index, k) == None <==> OnlyIndexed(rs, index, k)
  {
    hide TotalSize;
    var t := Target(rs, index, k);
    var l := LastLive(rs, k, t);
    if l >= 0 {
      if k in index && Offset(rs, l) == index[k].offset { PositionFound(rs, l); }
    }
  }

  /** Appending a record of another key leaves the leftovers of `k` alone. */
  lemma LeftoverAppend(rs: seq<Rec>, r: Rec, index: Index, k: Key)
    requires !r.Holds(k) && Sound(rs, index)
    ensures Leftover(rs + [r], index, k) == Leftover(rs, index, k)
  {
    hide TotalSize, Names;
    if k in index { NamesAppend(rs, r, k, index[k]); }
    LastLiveIs(rs + [r], k, Target(rs, index, k), LastLive(rs, k, Target(rs, index, k)));
  }

  /** So does killing a record that is not a live record of `k`. */
  lemma LeftoverDead(rs: seq<Rec>, i: nat, index: Index, k: Key)
    requires i < |rs| && Sound(rs, index)
    requires !rs[i].Holds(k) || i == Target(rs, index, k)
    ensures Leftover(rs[i := rs[i].Dead()], index, k) == Leftover(rs, index, k)
  {
    hide TotalSize, Names, FieldBytes;
    if k in index { NamesDead(rs, i, k, index[k]); }
    LastLiveIs(rs[i := rs[i].Dead()], k, Target(rs, index, k), LastLive(rs, k, Target(rs, index, k)));
  }

  /** Killing the record the index names for `k` makes a reader see exactly the leftover of `k`. */
  lemma DeadShows(rs: seq<Rec>, index: Index, k: Key)
    requires Sound(rs, index) && k in index
    ensures
      var i := Position(rs, index[k].offset);
      i >= 0 && Lookup(DbMap(rs[i := rs[i].Dead()]), k) == Leftover(rs, index, k)
  {
    hide TotalSize, FieldBytes, DbMap;
    var i := Position(rs, index[k].offset);
    assert Names(rs, k, index[k]);
    var rs' := rs[i := rs[i].Dead()];
    DbMapAt(rs', k);
    LastLiveIs(rs', k, -1, LastLive(rs, k, i));
  }

  /** Killing a record that is not a live record of `k` leaves what a reader sees for `k`. */
  lemma DeadElsewhere(rs: seq<Rec>, i: nat, k: Key)
    requires i < |rs| && !rs[i].Holds(k)
    ensures Lookup(DbMap(rs[i := rs[i].Dead()]), k) == Lookup(DbMap(rs), k)
  {
    hide TotalSize, FieldBytes, DbMap;
    var rs' := rs[i := rs[i].Dead()];
    DbMapAt(rs', k);
    DbMapAt(rs, k);
    LastLiveIs(rs', k, -1, LastLive(rs, k, -1));
  }

  /** Without an entry in the index, the leftover of `k` is what a reader sees now. */
  lemma NoEntryShows(rs: seq<Rec>, index: Index, k: Key)
    requires k !in index
    ensures Lookup(DbMap(rs), k) == Leftover(rs, index, k)
  {
    hide TotalSize, DbMap;
    DbMapAt(rs, k);
  }

  lemma DbMapAppend(rs: seq<Rec>, k: Key, f: Field)
    ensures DbMap(rs + [Live(k, f)]) == DbMap(rs)[k := f]
  {
    assert (rs + [Live(k, f)])[..|rs|] == rs;
  }

  /** A live record with an empty key shows in the decoded map, and only then is the key there. */
  lemma EmptyKeyShows(rs: seq<Rec>)
    ensures NoEmptyKey(rs) <==> Lookup(DbMap(rs), []) == None
  {
    hide DbMap;
    DbMapAt(rs, []);
  }
}
