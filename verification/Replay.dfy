/**
 What a log means: replaying it over a map, and the net effect to which flush
 compresses it (src/db/db.rs:98-103 and 184-191).
 */
module Replay {
  import opened Bytes
  import opened Dtypes
  import opened Format

  type Fields = map<Key, Field>

  function ApplyEntry(e: WalEntry, m: Fields): Fields {
    match e
    case Set(k, f) => m[k := f]
    case Delete(k) => m - {k}
  }

  function ReplayLog(log: seq<WalEntry>, m: Fields): Fields {
    if log == [] then m else ApplyEntry(log[|log| - 1], ReplayLog(log[..|log| - 1], m))
  }

  /** Each key's last operation. */
  function Net(log: seq<WalEntry>): map<Key, WalEntry> {
    if log == [] then map[]
    else
      var e := log[|log| - 1];
      Net(log[..|log| - 1])[e.key := e]
  }

  /** What an operation leaves at its own key. */
  function Effect(e: WalEntry): Option<Field> {
    if e.Set? then Some(e.field) else None
  }

  lemma {:induction false} NetKeys(log: seq<WalEntry>)
    ensures forall k :: k in Net(log) ==> Net(log)[k].key == k && Net(log)[k] in log
  {
    if log != [] {
      NetKeys(log[..|log| - 1]);
    }
  }

  /** A logged key ends as its last operation left it; every other key is untouched. */
  lemma {:induction false} ReplayAt(log: seq<WalEntry>, m: Fields, k: Key)
    ensures Lookup(ReplayLog(log, m), k) == if k in Net(log) then Effect(Net(log)[k]) else Lookup(m, k)
  {
    if log != [] {
      ReplayAt(log[..|log| - 1], m, k);
    }
  }

  /** Replaying over maps that differ only on logged keys gives the same map. */
  lemma ReplayForgets(log: seq<WalEntry>, a: Fields, b: Fields)
    requires forall k :: k !in Net(log) ==> Lookup(a, k) == Lookup(b, k)
    ensures ReplayLog(log, a) == ReplayLog(log, b)
  {
    hide ReplayLog, Net, Lookup, Effect;
    forall k
      ensures Lookup(ReplayLog(log, a), k) == Lookup(ReplayLog(log, b), k)
    {
      ReplayAt(log, a, k);
      ReplayAt(log, b, k);
    }
    MapsEqual(ReplayLog(log, a), ReplayLog(log, b));
  }

  /** Replaying a log again changes nothing. */
  lemma ReplayTwice(log: seq<WalEntry>, m: Fields)
    ensures ReplayLog(log, ReplayLog(log, m)) == ReplayLog(log, m)
  {
    hide ReplayLog, Net, Lookup, Effect;
    forall k | k !in Net(log)
      ensures Lookup(ReplayLog(log, m), k) == Lookup(m, k)
    {
      ReplayAt(log, m, k);
    }
    ReplayForgets(log, ReplayLog(log, m), m);
  }

  lemma ReplayAppend(log: seq<WalEntry>, e: WalEntry, m: Fields)
    ensures ReplayLog(log + [e], m) == ApplyEntry(e, ReplayLog(log, m))
    ensures Net(log + [e]) == Net(log)[e.key := e]
  {
    assert (log + [e])[..|log|] == log;
  }

  /** The deduplicated operations, taken in the given order of their keys. */
  function Schedule(net: map<Key, WalEntry>, order: seq<Key>): seq<WalEntry>
    requires forall k :: k in order ==> k in net
  {
    seq(|order|, i requires 0 <= i < |order| => net[order[i]])
  }

  lemma {:induction false} ScheduleNet(net: map<Key, WalEntry>, order: seq<Key>)
    requires forall k :: k in order ==> k in net
    requires forall k :: k in net ==> net[k].key == k
    ensures forall k :: k in Net(Schedule(net, order)) <==> k in order
    ensures forall k :: k in order ==> Net(Schedule(net, order))[k] == net[k]
    decreases |order|
  {
    if order == [] {
    } else {
      var init, k := order[..|order| - 1], order[|order| - 1];
      ScheduleNet(net, init);
      assert Schedule(net, order)[..|order| - 1] == Schedule(net, init);
      assert order == init + [k];
    }
  }

  /**
   Last operation wins: applying only the net operations, in any order that covers
   them all, gives the same map as replaying the whole log.
   */
  lemma NetInAnyOrder(log: seq<WalEntry>, order: seq<Key>, m: Fields)
    requires forall k :: k in order <==> k in Net(log)
    ensures ReplayLog(Schedule(Net(log), order), m) == ReplayLog(log, m)
  {
    hide ReplayLog, Net, Lookup, Effect, Schedule;
    NetKeys(log);
    var short := Schedule(Net(log), order);
    ScheduleNet(Net(log), order);
    forall k
      ensures Lookup(ReplayLog(short, m), k) == Lookup(ReplayLog(log, m), k)
    {
      ReplayAt(short, m, k);
      ReplayAt(log, m, k);
    }
    MapsEqual(ReplayLog(short, m), ReplayLog(log, m));
  }
}
