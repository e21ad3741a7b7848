/**
 Server tasks setting and deleting at the same time (src/db/db.rs:157-175). Each call
 appends to the log under the log's lock and later updates `fields` under its own lock;
 between the two any other task may run, or the process may die.
 */
module Concurrency {
  import opened Bytes
  import opened Dtypes
  import opened Format
  import opened LogFile
  import opened Replay
  import opened RecordMaps
  import opened Engine
  import opened EngineSteps
  import opened FileImage
  import Recovery

  type Task = nat

  datatype Event = Append(t: Task, e: WalEntry) | Update(t: Task)

  /** `inflight` holds the operations that are logged and not yet in `fields`. */
  datatype Shared = Shared(fields: Fields, log: seq<WalEntry>, inflight: map<Task, WalEntry>)

  function Step(s: Shared, ev: Event): Shared {
    match ev
    case Append(t, e) => Shared(s.fields, s.log + [e], s.inflight[t := e])
    case Update(t) =>
      if t !in s.inflight then s
      else Shared(ApplyEntry(s.inflight[t], s.fields), s.log, s.inflight - {t})
  }

  /** A task logs when it has nothing in flight and updates when it has. */
  predicate CanStep(s: Shared, ev: Event) {
    match ev
    case Append(t, _) => t !in s.inflight
    case Update(t) => t in s.inflight
  }

  function Run(base: Fields, evs: seq<Event>): Shared {
    if evs == [] then Shared(base, [], map[]) else Step(Run(base, evs[..|evs| - 1]), evs[|evs| - 1])
  }

  /** Any interleaving of tasks. */
  predicate Interleaving(base: Fields, evs: seq<Event>) {
    evs != [] ==>
      var init := evs[..|evs| - 1];
      Interleaving(base, init) && CanStep(Run(base, init), evs[|evs| - 1])
  }

  lemma NoEvents(base: Fields)
    ensures Run(base, []) == Shared(base, [], map[]) && Interleaving(base, [])
  {
  }

  lemma RunStep(base: Fields, evs: seq<Event>, ev: Event)
    ensures Run(base, evs + [ev]) == Step(Run(base, evs), ev)
    ensures Interleaving(base, evs + [ev]) <==> Interleaving(base, evs) && CanStep(Run(base, evs), ev)
  {
    hide Step, CanStep;
    assert (evs + [ev])[..|evs|] == evs;
  }

  // ---------------------------------------------------------------------------
  // Logged before visible

  /** What a reader sees for `k` was there at the start or is the effect of a logged operation. */
  ghost predicate Explained(base: Fields, s: Shared, k: Key) {
    || Lookup(s.fields, k) == Lookup(base, k)
    || exists i :: 0 <= i < |s.log| && s.log[i].key == k && Lookup(s.fields, k) == Effect(s.log[i])
  }

  ghost predicate AllExplained(base: Fields, s: Shared) {
    && (forall k :: Explained(base, s, k))
    && (forall t :: t in s.inflight ==> s.inflight[t] in s.log)
  }

  /** In every interleaving every visible change was logged first, and so is all that is in flight. */
  lemma {:induction false} VisibleWasLogged(base: Fields, evs: seq<Event>)
    requires Interleaving(base, evs)
    ensures AllExplained(base, Run(base, evs))
    decreases |evs|
  {
    hide AllExplained;
    if evs == [] {
      assert AllExplained(base, Shared(base, [], map[])) by { StartExplained(base); }
    } else {
      var init, ev := evs[..|evs| - 1], evs[|evs| - 1];
      VisibleWasLogged(base, init);
      match ev
      case Append(t, e) => LoggedGrows(base, Run(base, init), t, e);
      case Update(t) => LoggedShows(base, Run(base, init), t);
    }
  }

  lemma StartExplained(base: Fields)
    ensures AllExplained(base, Shared(base, [], map[]))
  {
  }

  lemma LoggedGrows(base: Fields, s: Shared, t: Task, e: WalEntry)
    requires AllExplained(base, s)
    ensures AllExplained(base, Step(s, Append(t, e)))
  {
    hide Effect, Lookup;
    var s' := Step(s, Append(t, e));
    forall k
      ensures Explained(base, s', k)
    {
      assert Explained(base, s, k);
      if Lookup(s.fields, k) != Lookup(base, k) {
        var i :| 0 <= i < |s.log| && s.log[i].key == k && Lookup(s.fields, k) == Effect(s.log[i]);
        assert s'.log[i] == s.log[i];
      }
    }
    assert s'.log[|s.log|] == e;
  }

  lemma LoggedShows(base: Fields, s: Shared, t: Task)
    requires AllExplained(base, s) && t in s.inflight
    ensures AllExplained(base, Step(s, Update(t)))
  {
    var s', e := Step(s, Update(t)), s.inflight[t];
    var j :| 0 <= j < |s.log| && s.log[j] == e;
    forall k
      ensures Explained(base, s', k)
    {
      assert Explained(base, s, k);
      if k == e.key {
        assert Lookup(s'.fields, k) == Effect(s'.log[j]);
      } else {
        assert Lookup(s'.fields, k) == Lookup(s.fields, k);
      }
    }
  }

  // ---------------------------------------------------------------------------
  // Nothing is visible before its update

  /** The operation task `t` has logged and not finished: read off the events alone. */
  function Pending(evs: seq<Event>, t: Task): Option<WalEntry> {
    if evs == [] then None
    else
      var ev := evs[|evs| - 1];
      if ev.t != t then Pending(evs[..|evs| - 1], t) else if ev.Append? then Some(ev.e) else None
  }

  /** The operations logged, in the order of their appends. */
  function Appended(evs: seq<Event>): seq<WalEntry> {
    if evs == [] then []
    else
      var done := Appended(evs[..|evs| - 1]);
      match evs[|evs| - 1]
      case Append(_, e) => done + [e]
      case Update(_) => done
  }

  /** The operations whose update has happened, in the order of these updates. */
  function Finished(evs: seq<Event>): seq<WalEntry> {
    if evs == [] then []
    else
      var init := evs[..|evs| - 1];
      match evs[|evs| - 1]
      case Append(_, _) => Finished(init)
      case Update(t) => if Pending(init, t).Some? then Finished(init) + [Pending(init, t).value] else Finished(init)
  }

  /**
   `fields` changes at updates only: at every moment it is the base map with the finished
   operations applied in the order of their updates. The log holds all appended ones, and
   in flight is, for each task, what it has appended and not finished.
   */
  lemma {:induction false} FieldsAreFinished(base: Fields, evs: seq<Event>)
    ensures Run(base, evs).fields == ReplayLog(Finished(evs), base)
    ensures Run(base, evs).log == Appended(evs)
    ensures forall t :: Lookup(Run(base, evs).inflight, t) == Pending(evs, t)
    decreases |evs|
  {
    hide ReplayLog, ApplyEntry;
    if evs == [] {
      ReplayNothing(base);
    } else {
      var init := evs[..|evs| - 1];
      FieldsAreFinished(base, init);
      match evs[|evs| - 1]
      case Append(_, _) =>
      case Update(t) =>
        assert Lookup(Run(base, init).inflight, t) == Pending(init, t);
        if Pending(init, t).Some? { ReplayAppend(Finished(init), Pending(init, t).value, base); }
    }
  }

  lemma ReplayNothing(m: Fields)
    ensures ReplayLog([], m) == m
  {
  }

  /** The legal interleavings, read off the events: each task appends and updates in turn. */
  lemma {:induction false} TakingTurns(base: Fields, evs: seq<Event>)
    ensures Interleaving(base, evs) <==>
              forall i :: 0 <= i < |evs| ==> (evs[i].Append? <==> Pending(evs[..i], evs[i].t) == None)
    decreases |evs|
  {
    hide Run;
    if evs != [] {
      var init, last := evs[..|evs| - 1], evs[|evs| - 1];
      TakingTurns(base, init);
      FieldsAreFinished(base, init);
      assert Lookup(Run(base, init).inflight, last.t) == Pending(init, last.t);
      forall i | 0 <= i < |init|
        ensures init[..i] == evs[..i]
      {
      }
    }
  }

  /** A key none of whose operations has finished shows what it showed at the start, whatever is logged. */
  lemma LoggedIsNotVisible(base: Fields, evs: seq<Event>, k: Key)
    requires forall i :: 0 <= i < |Finished(evs)| ==> Finished(evs)[i].key != k
    ensures Lookup(Run(base, evs).fields, k) == Lookup(base, k)
  {
    hide Run, Finished, ReplayLog, Effect;
    FieldsAreFinished(base, evs);
    ReplayAt(Finished(evs), base, k);
    NetKeys(Finished(evs));
  }

  // ---------------------------------------------------------------------------
  // Agreement of log and fields

  predicate Agrees(base: Fields, s: Shared) {
    s.fields == ReplayLog(s.log, base)
  }

  /** Every operation in flight is what its key replays to, and every other key agrees already. */
  ghost predicate InStep(base: Fields, s: Shared) {
    && (forall t :: t in s.inflight ==> Effect(s.inflight[t]) == Lookup(ReplayLog(s.log, base), s.inflight[t].key))
    && (forall k :: Untouched(s, k) ==> Lookup(s.fields, k) == Lookup(ReplayLog(s.log, base), k))
  }

  predicate Untouched(s: Shared, k: Key) {
    forall t :: t in s.inflight ==> s.inflight[t].key != k
  }

  /** What the operations in flight on the key of `e` leave there is what `e` leaves there. */
  predicate SameEffect(s: Shared, e: WalEntry) {
    forall t :: t in s.inflight && s.inflight[t].key == e.key ==> Effect(s.inflight[t]) == Effect(e)
  }

  /** The exact guard of an append. */
  lemma AppendInStep(base: Fields, s: Shared, t: Task, e: WalEntry)
    requires InStep(base, s) && t !in s.inflight
    ensures InStep(base, Step(s, Append(t, e))) <==> SameEffect(s, e)
  {
    hide ReplayLog, Effect;
    ReplayAppend(s.log, e, base);
    var s' := Step(s, Append(t, e));
    var m, m' := ReplayLog(s.log, base), ReplayLog(s'.log, base);
    assert forall k :: k != e.key ==> Lookup(m', k) == Lookup(m, k);
    EffectShows(e, m);
    assert s'.inflight[t] == e;
    forall u | u in s.inflight
      ensures s'.inflight[u] == s.inflight[u]
    {
    }
    forall k | Untouched(s', k)
      ensures Lookup(s'.fields, k) == Lookup(m', k)
    {
      assert s'.inflight[t].key != k;
      assert Untouched(s, k);
    }
    if InStep(base, s') {
      forall u | u in s.inflight && s.inflight[u].key == e.key
        ensures Effect(s.inflight[u]) == Effect(e)
      {
        assert Effect(s'.inflight[u]) == Lookup(m', s'.inflight[u].key);
      }
    }
  }

  lemma EffectShows(e: WalEntry, m: Fields)
    ensures Lookup(ApplyEntry(e, m), e.key) == Effect(e)
  {
  }

  lemma UpdateInStep(base: Fields, s: Shared, t: Task)
    requires InStep(base, s) && t in s.inflight
    ensures InStep(base, Step(s, Update(t)))
  {
    hide ReplayLog, Effect;
    var e, s' := s.inflight[t], Step(s, Update(t));
    EffectShows(e, s.fields);
    forall k | Untouched(s', k)
      ensures Lookup(s'.fields, k) == Lookup(ReplayLog(s.log, base), k)
    {
      if k != e.key {
        assert Lookup(s'.fields, k) == Lookup(s.fields, k);
        forall u | u in s.inflight
          ensures s.inflight[u].key != k
        {
          if u != t { assert s'.inflight[u] == s.inflight[u]; }
        }
      }
    }
  }

  lemma StartInStep(base: Fields)
    ensures InStep(base, Shared(base, [], map[]))
  {
  }

  lemma SettledAgrees(base: Fields, s: Shared)
    requires InStep(base, s) && s.inflight == map[]
    ensures Agrees(base, s)
  {
    hide ReplayLog, Lookup;
    forall k
      ensures Lookup(s.fields, k) == Lookup(ReplayLog(s.log, base), k)
    {
      assert Untouched(s, k);
    }
    MapsEqual(s.fields, ReplayLog(s.log, base));
  }

  // ---------------------------------------------------------------------------
  // Letting the operations in flight finish

  function Updates(order: seq<Task>): seq<Event> {
    seq(|order|, i requires 0 <= i < |order| => Update(order[i]))
  }

  /** From here on the tasks only finish, in this order, until nothing is in flight. */
  predicate Completes(base: Fields, evs: seq<Event>, order: seq<Task>) {
    Interleaving(base, evs + Updates(order)) && Run(base, evs + Updates(order)).inflight == map[]
  }

  /** However the tasks finish, memory ends up with the replayed log. */
  ghost predicate CompletionsAgree(base: Fields, evs: seq<Event>) {
    forall order :: Completes(base, evs, order) ==> Agrees(base, Run(base, evs + Updates(order)))
  }

  lemma UpdatesLast(evs: seq<Event>, order: seq<Task>)
    requires order != []
    ensures evs + Updates(order) == (evs + Updates(order[..|order| - 1])) + [Update(order[|order| - 1])]
  {
  }

  lemma UpdatesNone(evs: seq<Event>)
    ensures evs + Updates([]) == evs
  {
  }

  lemma {:induction false} FinishingKeeps(base: Fields, evs: seq<Event>, order: seq<Task>)
    requires InStep(base, Run(base, evs)) && Interleaving(base, evs + Updates(order))
    ensures InStep(base, Run(base, evs + Updates(order)))
    decreases |order|
  {
    hide InStep, Run, Interleaving, Updates;
    if order == [] {
      UpdatesNone(evs);
    } else {
      var init, t := order[..|order| - 1], order[|order| - 1];
      UpdatesLast(evs, order);
      RunStep(base, evs + Updates(init), Update(t));
      FinishingKeeps(base, evs, init);
      UpdateInStep(base, Run(base, evs + Updates(init)), t);
    }
  }

  /** Tasks with operations in flight can finish in any order, and touch only their own keys. */
  lemma {:induction false} FinishingRuns(base: Fields, evs: seq<Event>, order: seq<Task>)
    requires Interleaving(base, evs) && Distinct(order)
    requires forall t :: t in order ==> t in Run(base, evs).inflight
    ensures
      var s, s' := Run(base, evs), Run(base, evs + Updates(order));
      && Interleaving(base, evs + Updates(order))
      && s'.log == s.log
      && s'.inflight == s.inflight - (set t | t in order)
      && forall k :: Untouched(s, k) ==> Lookup(s'.fields, k) == Lookup(s.fields, k)
    decreases |order|
  {
    hide Run, Interleaving, Updates, Lookup, Untouched, Step, CanStep;
    if order == [] {
      UpdatesNone(evs);
      assert (set t | t in order) == {};
    } else {
      var init, t := order[..|order| - 1], order[|order| - 1];
      assert order == init + [t] && t !in init;
      assert (set u | u in order) == (set u | u in init) + {t};
      UpdatesLast(evs, order);
      FinishingRuns(base, evs, init);
      RunStep(base, evs + Updates(init), Update(t));
      FinishOne(Run(base, evs), Run(base, evs + Updates(init)), (set u | u in init), t);
    }
  }

  lemma FinishOne(s: Shared, mid: Shared, done: set<Task>, t: Task)
    requires t in s.inflight && t !in done && mid.inflight == s.inflight - done
    ensures CanStep(mid, Update(t))
    ensures
      var s' := Step(mid, Update(t));
      && s'.log == mid.log
      && s'.inflight == s.inflight - (done + {t})
      && forall k :: Untouched(s, k) ==> Lookup(s'.fields, k) == Lookup(mid.fields, k)
  {
    assert mid.inflight[t] == s.inflight[t];
  }

  lemma {:induction false} SomeOrder(tasks: set<Task>) returns (order: seq<Task>)
    ensures Distinct(order) && (set t | t in order) == tasks
    decreases tasks
  {
    if tasks == {} {
      order := [];
      assert (set t | t in order) == {};
    } else {
      var t :| t in tasks;
      var init := SomeOrder(tasks - {t});
      assert t !in init by { assert t !in (set u | u in init); }
      order := init + [t];
      assert (set u | u in order) == (set u | u in init) + {t};
      assert (tasks - {t}) + {t} == tasks;
    }
  }

  /** If some operation in flight is not what its key replays to, let it finish last. */
  lemma LastOneDisagrees(base: Fields, evs: seq<Event>, t: Task) returns (order: seq<Task>)
    requires Interleaving(base, evs) && t in Run(base, evs).inflight
    requires
      var s := Run(base, evs);
      Effect(s.inflight[t]) != Lookup(ReplayLog(s.log, base), s.inflight[t].key)
    ensures Completes(base, evs, order) && !Agrees(base, Run(base, evs + Updates(order)))
  {
    hide Run, Interleaving, Updates, ReplayLog, Effect;
    var s := Run(base, evs);
    var init := SomeOrder(s.inflight.Keys - {t});
    order := init + [t];
    assert order[..|order| - 1] == init;
    assert t !in init by { assert t !in (set u | u in init); }
    ghost var others := set u | u in init;
    assert others == s.inflight.Keys - {t};
    assert forall u :: u in init ==> u in others;
    assert s.inflight - others - {t} == map[];
    UpdatesLast(evs, order);
    FinishingRuns(base, evs, init);
    RunStep(base, evs + Updates(init), Update(t));
    EffectShows(s.inflight[t], Run(base, evs + Updates(init)).fields);
  }

  /** If an untouched key disagrees, it still does when all have finished. */
  lemma UntouchedDisagrees(base: Fields, evs: seq<Event>, k: Key) returns (order: seq<Task>)
    requires Interleaving(base, evs) && Untouched(Run(base, evs), k)
    requires Lookup(Run(base, evs).fields, k) != Lookup(ReplayLog(Run(base, evs).log, base), k)
    ensures Completes(base, evs, order) && !Agrees(base, Run(base, evs + Updates(order)))
  {
    hide Run, Interleaving, Updates, ReplayLog, Lookup;
    var s := Run(base, evs);
    order := SomeOrder(s.inflight.Keys);
    ghost var all := set u | u in order;
    assert forall u :: u in order ==> u in all;
    assert s.inflight - all == map[];
    FinishingRuns(base, evs, order);
  }

  /**
   At any moment of any interleaving: memory is bound to agree with the replayed log, in
   whatever order the operations in flight finish, if and only if each of them leaves at its
   key what the log replays to there, and every key without one agrees already.
   */
  lemma AgreesExactly(base: Fields, evs: seq<Event>)
    requires Interleaving(base, evs)
    ensures CompletionsAgree(base, evs) <==> InStep(base, Run(base, evs))
  {
    hide Run, Interleaving, Updates, ReplayLog, Lookup, Effect, Agrees;
    var s := Run(base, evs);
    if InStep(base, s) {
      forall order | Completes(base, evs, order)
        ensures Agrees(base, Run(base, evs + Updates(order)))
      {
        FinishingKeeps(base, evs, order);
        SettledAgrees(base, Run(base, evs + Updates(order)));
      }
    } else if t :| t in s.inflight && Effect(s.inflight[t]) != Lookup(ReplayLog(s.log, base), s.inflight[t].key) {
      var order := LastOneDisagrees(base, evs, t);
    } else {
      var k :| Untouched(s, k) && Lookup(s.fields, k) != Lookup(ReplayLog(s.log, base), k);
      var order := UntouchedDisagrees(base, evs, k);
    }
  }

  /** Every append of the run finds only operations with its own effect in flight on its key. */
  predicate Compatible(base: Fields, evs: seq<Event>) {
    evs != [] ==>
      var init, ev := evs[..|evs| - 1], evs[|evs| - 1];
      && Compatible(base, init)
      && (ev.Append? ==> SameEffect(Run(base, init), ev.e))
  }

  lemma {:induction false} AlwaysInStep(base: Fields, evs: seq<Event>)
    requires Interleaving(base, evs) && Compatible(base, evs)
    ensures InStep(base, Run(base, evs))
    decreases |evs|
  {
    hide InStep, SameEffect;
    if evs == [] {
      StartInStep(base);
    } else {
      var init, ev := evs[..|evs| - 1], evs[|evs| - 1];
      AlwaysInStep(base, init);
      match ev
      case Append(t, e) => AppendInStep(base, Run(base, init), t, e);
      case Update(t) => UpdateInStep(base, Run(base, init), t);
    }
  }

  /**
   If no two operations in flight on one key differ in effect - if they never share a key,
   say - then whenever nothing is in flight `fields` is the log replayed over the map the
   server started from: memory and log agree.
   */
  lemma QuiescentAgrees(base: Fields, evs: seq<Event>)
    requires Interleaving(base, evs) && Compatible(base, evs)
    requires Run(base, evs).inflight == map[]
    ensures Run(base, evs).fields == ReplayLog(Run(base, evs).log, base)
  {
    hide ReplayLog, Run, Interleaving, Compatible, InStep;
    AlwaysInStep(base, evs);
    SettledAgrees(base, Run(base, evs));
  }

  /**
   And no weaker discipline will do: a run is safe at every one of its moments if and only
   if each append, when it was made, met no operation of another effect on its key in flight.
   */
  lemma {:induction false} SafeExactly(base: Fields, evs: seq<Event>)
    requires Interleaving(base, evs)
    ensures (forall n :: 0 <= n <= |evs| ==> CompletionsAgree(base, evs[..n])) <==> Compatible(base, evs)
    decreases |evs|
  {
    hide InStep, SameEffect, CompletionsAgree, Step;
    AgreesExactly(base, evs);
    assert evs[..|evs|] == evs;
    if evs == [] {
      assert InStep(base, Run(base, evs)) by { StartInStep(base); }
    } else {
      var init, ev := evs[..|evs| - 1], evs[|evs| - 1];
      SafeExactly(base, init);
      AgreesExactly(base, init);
      forall n | 0 <= n <= |init|
        ensures evs[..n] == init[..n]
      {
      }
      assert init[..|init|] == init;
      if InStep(base, Run(base, init)) {
        match ev
        case Append(t, e) => AppendInStep(base, Run(base, init), t, e);
        case Update(t) => UpdateInStep(base, Run(base, init), t);
      }
      if Compatible(base, init) { AlwaysInStep(base, init); }
    }
  }

  /** Two tasks setting one key can reach `fields` in the other order than the log. */
  lemma SameKeyCanDisagree(base: Fields, k: Key, a: Field, b: Field)
    requires a != b
    ensures
      var evs := [Append(0, Set(k, a)), Append(1, Set(k, b)), Update(1), Update(0)];
      && Interleaving(base, evs) && Run(base, evs).inflight == map[]
      && Lookup(Run(base, evs).fields, k) == Some(a)
      && Lookup(ReplayLog(Run(base, evs).log, base), k) == Some(b)
  {
    hide Run, Interleaving, ReplayLog;
    var e, f := Set(k, a), Set(k, b);
    var A, B, U, V := Append(0, e), Append(1, f), Update(1), Update(0);
    NoEvents(base);
    RunStep(base, [], A);
    assert [] + [A] == [A] && [] + [e] == [e];
    RunStep(base, [A], B);
    assert [A] + [B] == [A, B];
    RunStep(base, [A, B], U);
    assert [A, B] + [U] == [A, B, U];
    RunStep(base, [A, B, U], V);
    assert [A, B, U] + [V] == [A, B, U, V];
    ReplayAppend([e], f, base);
    assert [e] + [f] == [e, f];
  }

  // ---------------------------------------------------------------------------
  // The log file underneath

  /** The files while the tasks run: an append reaches the log file, an update only memory. */
  function FilesAfter(d: Disk, evs: seq<Event>): Disk {
    if evs == [] then d
    else
      var left := FilesAfter(d, evs[..|evs| - 1]);
      match evs[|evs| - 1]
      case Append(_, e) => left.(wal := left.wal + EntryBytes(e))
      case Update(_) => left
  }

  predicate WfEvents(lib: Lib, evs: seq<Event>) {
    forall i :: 0 <= i < |evs| && evs[i].Append? ==> WfEntry(lib, evs[i].e)
  }

  /** The idle engine with these files, whatever its `fields` show. */
  function Running(s: State, d: Disk, log: seq<WalEntry>): State {
    State(Memory(s.mem.fields, s.mem.index, s.mem.log + log), d, Idle)
  }

  lemma RunningLogs(lib: Lib, s: State, d: Disk, log: seq<WalEntry>, e: WalEntry)
    requires Inv(lib, Running(s, d, log)) && WfEntry(lib, e)
    ensures
      var d' := d.(wal := d.wal + EntryBytes(e));
      && Inv(lib, Running(s, d', log + [e]))
      && Durable(lib, d') == ApplyEntry(e, Durable(lib, d))
  {
    hide DiskOk, Durable, WfEntry, EntryBytes, LogOf, Sound, Records, ApplyEntry;
    LogInv(lib, Running(s, d, log), e);
    assert (s.mem.log + log) + [e] == s.mem.log + (log + [e]);
  }

  lemma {:induction false} FilesFollow(lib: Lib, s: State, evs: seq<Event>)
    requires Inv(lib, s) && s.phase.Idle? && WfEvents(lib, evs)
    ensures
      var left, log := FilesAfter(s.disk, evs), Run(s.mem.fields, evs).log;
      && Inv(lib, Running(s, left, log))
      && left.db == s.disk.db && left.idx == s.disk.idx
      && Durable(lib, left) == ReplayLog(log, Durable(lib, s.disk))
    decreases |evs|
  {
    hide Inv, Durable, WfEntry, EntryBytes, ApplyEntry;
    if evs == [] {
      assert s.mem.log + [] == s.mem.log;
      assert Running(s, s.disk, []) == s;
    } else {
      var init, ev := evs[..|evs| - 1], evs[|evs| - 1];
      FilesFollow(lib, s, init);
      match ev
      case Append(t, e) =>
        RunningLogs(lib, s, FilesAfter(s.disk, init), Run(s.mem.fields, init).log, e);
        ReplayAppend(Run(s.mem.fields, init).log, e, Durable(lib, s.disk));
      case Update(t) =>
    }
  }

  /**
   A crash at any moment of any interleaving: the files open as they would have before the
   tasks ran, and then to the log of the run replayed over the map the tasks started from.
   */
  lemma CrashDuringTasks(lib: Lib, s: State, evs: seq<Event>, name: Bytes)
    requires Inv(lib, s) && s.phase.Idle? && Synced(lib, s) && WfEvents(lib, evs)
    ensures
      var left := FilesAfter(s.disk, evs);
      var r := OpenDb(lib, name, left);
      && (r.Ok? <==> |name| <= 64 && Opens(lib, s.disk))
      && (r.Ok? ==> r.value.0.fields == ReplayLog(Run(s.mem.fields, evs).log, s.mem.fields))
      && (!r.Ok? ==> r == Err(if |name| > 64 then DbNameTooLong else InvalidIndexEntry))
  {
    hide OpenDb, Durable, DiskOk, FilesAfter, Run, WfEvents, ReplayLog, MemOk;
    FilesFollow(lib, s, evs);
    assert s != START;
    OpenRecovers(lib, name, FilesAfter(s.disk, evs));
  }

  /** With nothing in flight and compatible appends, what reopens is what memory showed. */
  lemma QuietCrash(lib: Lib, s: State, evs: seq<Event>, name: Bytes)
    requires Inv(lib, s) && s.phase.Idle? && Synced(lib, s) && WfEvents(lib, evs) && |name| <= NAME_LEN
    requires Interleaving(s.mem.fields, evs) && Compatible(s.mem.fields, evs)
    requires Run(s.mem.fields, evs).inflight == map[] && Opens(lib, s.disk)
    ensures
      var r := OpenDb(lib, name, FilesAfter(s.disk, evs));
      r.Ok? && r.value.0.fields == Run(s.mem.fields, evs).fields
  {
    hide OpenDb, Inv, Synced, Opens, FilesAfter, Run, WfEvents, ReplayLog, Interleaving, Compatible;
    CrashDuringTasks(lib, s, evs, name);
    QuiescentAgrees(s.mem.fields, evs);
  }

  // ---------------------------------------------------------------------------
  // One task is the engine

  /** The engine step an event is. */
  function ActOf(ev: Event): Action {
    match ev
    case Append(_, e) => Log(e)
    case Update(_) => Apply
  }

  function ActsOf(evs: seq<Event>): seq<Action> {
    seq(|evs|, i requires 0 <= i < |evs| => ActOf(evs[i]))
  }

  /**
   A single task, cut off anywhere, is the engine: the same fields, the same log in memory
   and on disk, and between append and update the engine is about to apply what is pending.
   */
  lemma {:induction false} SingleTask(lib: Lib, s: State, t: Task, evs: seq<Event>)
    requires s.phase.Idle? && forall i :: 0 <= i < |evs| ==> evs[i].t == t
    requires Interleaving(s.mem.fields, evs)
    ensures
      var r := Run(s.mem.fields, evs);
      Exec(lib, s, ActsOf(evs))
      == State(Memory(r.fields, s.mem.index, s.mem.log + r.log), FilesAfter(s.disk, evs),
               if Pending(evs, t).Some? then Applying(Pending(evs, t).value) else Idle)
    ensures WfEvents(lib, evs) ==> Legal(lib, s, ActsOf(evs))
    decreases |evs|
  {
    hide EntryBytes, ApplyEntry, WfEntry;
    if evs == [] {
      assert s.mem.log + [] == s.mem.log;
    } else {
      var init, ev := evs[..|evs| - 1], evs[|evs| - 1];
      SingleTask(lib, s, t, init);
      FieldsAreFinished(s.mem.fields, init);
      assert Lookup(Run(s.mem.fields, init).inflight, t) == Pending(init, t);
      assert ActsOf(evs) == ActsOf(init) + [ActOf(ev)];
      Recovery.LegalPrefix(lib, s, ActsOf(init), ActOf(ev));
      TaskStep(lib, s, Run(s.mem.fields, init), FilesAfter(s.disk, init), ev);
    }
  }

  lemma TaskStep(lib: Lib, s: State, r: Shared, d: Disk, ev: Event)
    requires CanStep(r, ev)
    ensures
      var now := State(Memory(r.fields, s.mem.index, s.mem.log + r.log), d,
                       if ev.t in r.inflight then Applying(r.inflight[ev.t]) else Idle);
      var r' := Step(r, ev);
      && Next(lib, now, ActOf(ev))
         == State(Memory(r'.fields, s.mem.index, s.mem.log + r'.log),
                  if ev.Append? then d.(wal := d.wal + EntryBytes(ev.e)) else d,
                  if ev.Append? then Applying(ev.e) else Idle)
      && (ev.Append? ==> (Enabled(lib, now, ActOf(ev)) <==> WfEntry(lib, ev.e)))
      && (ev.Update? ==> Enabled(lib, now, ActOf(ev)))
  {
    hide EntryBytes, ApplyEntry, WfEntry;
    if ev.Append? { assert (s.mem.log + r.log) + [ev.e] == s.mem.log + (r.log + [ev.e]); }
  }
}
