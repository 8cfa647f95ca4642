/** What every run of the store keeps, when it agrees with a last-write-wins map, and what a reopen
    recovers. */
module LsmRefinement {
  import opened Bytes
  import opened Results
  import opened Tables
  import opened Lsm

  // ---------- Every step keeps the invariant ----------

  lemma LogKeeps(s: Store, r: Record)
    requires Inv(s) && r.version.seqNo == |s.log| + 1 && r.key != []
    ensures Inv(s.(log := s.log + [r]))
  {
  }

  // A new top layer that is logged and holds, for its keys, nothing older than the rest.
  lemma TopKeeps(s: Store, m: Layer)
    requires Inv(s) && LayerLogged(s.log, m)
    requires forall i :: 0 <= i < |Stack(s)| - 1 ==> NotNewer(Stack(s)[i], m)
    ensures Inv(s.(mem := m))
  {
    var s' := s.(mem := m);
    var n := |Stack(s)| - 1;
    assert forall i :: 0 <= i < n ==> Stack(s')[i] == Stack(s)[i];
    forall i | 0 <= i <= n ensures LayerLogged(s.log, Stack(s')[i]) {
      if i < n { assert LayerLogged(s.log, Stack(s)[i]); }
    }
    forall i, j | 0 <= i < j <= n ensures NotNewer(Stack(s')[i], Stack(s')[j]) {
      if j < n { assert NotNewer(Stack(s)[i], Stack(s)[j]); }
    }
  }

  lemma PutKeeps(s: Store, k: bytes, v: Version)
    requires Inv(s) && 1 <= v.seqNo == |s.log| && s.log[v.seqNo - 1] == Record(k, v)
    ensures Inv(s.(mem := s.mem[k := v]))
  {
    var n := |Stack(s)| - 1;
    forall i | 0 <= i < n ensures NotNewer(Stack(s)[i], s.mem[k := v]) {
      assert NotNewer(Stack(s)[i], Stack(s)[n]);
      assert LayerLogged(s.log, Stack(s)[i]);
    }
    assert LayerLogged(s.log, Stack(s)[n]);
    TopKeeps(s, s.mem[k := v]);
  }

  lemma RotateKeeps(s: Store)
    requires Inv(s)
    ensures Inv(Rotated(s))
  {
    var s' := Rotated(s);
    assert Stack(s') == Stack(s) + [map[]];
    forall i | 0 <= i < |Stack(s')| ensures LayerLogged(s.log, Stack(s')[i]) {
      if i < |Stack(s)| { assert LayerLogged(s.log, Stack(s)[i]); }
    }
    forall i, j | 0 <= i < j < |Stack(s')| ensures NotNewer(Stack(s')[i], Stack(s')[j]) {
      if j < |Stack(s)| { assert NotNewer(Stack(s)[i], Stack(s)[j]); }
    }
  }

  lemma L0IsOrdered(s: Store)
    requires Inv(s)
    ensures AllLogged(s.log, s.l0) && Ordered(s.l0) && AllLogged(s.log, s.l1) && Ordered(s.l1)
  {
    var n := |s.l1|;
    forall i | 0 <= i < |s.l0| ensures LayerLogged(s.log, s.l0[i]) {
      assert LayerLogged(s.log, Stack(s)[n + i]);
    }
    forall i, j | 0 <= i < j < |s.l0| ensures NotNewer(s.l0[i], s.l0[j]) {
      assert NotNewer(Stack(s)[n + i], Stack(s)[n + j]);
    }
    forall i | 0 <= i < |s.l1| ensures LayerLogged(s.log, s.l1[i]) {
      assert LayerLogged(s.log, Stack(s)[i]);
    }
    forall i, j | 0 <= i < j < |s.l1| ensures NotNewer(s.l1[i], s.l1[j]) {
      assert NotNewer(Stack(s)[i], Stack(s)[j]);
    }
  }

  function Live(s: Store): Layer {
    DropTombstones(MergeAll(s.l0))
  }

  // Every version that survives compaction comes from an L0 table.
  lemma LiveComesFromL0(s: Store, k: bytes) returns (i: nat)
    requires Inv(s) && k in Live(s)
    ensures i < |s.l0| && k in s.l0[i] && Live(s)[k] == s.l0[i][k]
    ensures LayerLogged(s.log, s.l0[i])
    ensures forall j :: 0 <= j < |s.l1| ==> NotNewer(s.l1[j], s.l0[i])
    ensures NotNewer(s.l0[i], s.mem)
  {
    L0IsOrdered(s);
    MergeIsFind(s.log, s.l0, k);
    i := FoundAt(s.l0, k);
    L0IsBetween(s, i);
  }

  // An L0 table lies above L1 and below the memtable.
  lemma L0IsBetween(s: Store, i: nat)
    requires Ordered(Stack(s)) && i < |s.l0|
    ensures forall j :: 0 <= j < |s.l1| ==> NotNewer(s.l1[j], s.l0[i])
    ensures NotNewer(s.l0[i], s.mem)
  {
    var stack, n := Stack(s), |s.l1|;
    assert stack[n + i] == s.l0[i] && stack[|stack| - 1] == s.mem;
    forall j | 0 <= j < n ensures NotNewer(s.l1[j], s.l0[i]) {
      assert NotNewer(stack[j], stack[n + i]);
    }
  }

  lemma CompactKeeps(s: Store)
    requires Inv(s)
    ensures Inv(MaybeCompact(s))
  {
    var live := Live(s);
    forall k | k in live
      ensures 1 <= live[k].seqNo <= |s.log| && s.log[live[k].seqNo - 1] == Record(k, live[k])
      ensures forall j :: 0 <= j < |s.l1| && k in s.l1[j] ==> s.l1[j][k].seqNo <= live[k].seqNo
      ensures k in s.mem ==> live[k].seqNo <= s.mem[k].seqNo
    {
      var i := LiveComesFromL0(s, k);
      forall j | 0 <= j < |s.l1| && k in s.l1[j] ensures s.l1[j][k].seqNo <= live[k].seqNo {
        assert NotNewer(s.l1[j], s.l0[i]);
      }
    }
    CompactedIsOrdered(s, live);
  }

  lemma CompactedIsOrdered(s: Store, live: Layer)
    requires Inv(s) && LayerLogged(s.log, live) && NoTombstones(live)
    requires forall j :: 0 <= j < |s.l1| ==> NotNewer(s.l1[j], live)
    requires NotNewer(live, s.mem)
    ensures Inv(s.(l0 := [], l1 := s.l1 + [live]))
  {
    var s' := s.(l0 := [], l1 := s.l1 + [live]);
    var n, stack, stack' := |s.l1|, Stack(s), Stack(s');
    assert |stack'| == n + 2 && stack'[n] == live && stack'[n + 1] == s.mem == stack[|stack| - 1];
    assert forall i :: 0 <= i < n ==> stack'[i] == s.l1[i] == stack[i];
    forall i | 0 <= i < |stack'| ensures LayerLogged(s.log, stack'[i]) {
      if i < n { assert LayerLogged(s.log, stack[i]); }
      if i == n + 1 { assert LayerLogged(s.log, stack[|stack| - 1]); }
    }
    forall i, j | 0 <= i < j < |stack'| ensures NotNewer(stack'[i], stack'[j]) {
      if j < n { assert NotNewer(stack[i], stack[j]); }
      if i < n && j == n + 1 { assert NotNewer(stack[i], stack[|stack| - 1]); }
    }
  }

  // ---------- Replay ----------

  // The last log record of a key, if any.
  function LastIn(log: seq<Record>, k: bytes): Option<Version> {
    if log == [] then None
    else if log[|log| - 1].key == k then Some(log[|log| - 1].version)
    else LastIn(log[..|log| - 1], k)
  }

  lemma {:induction false} ReplayedIsLast(log: seq<Record>, k: bytes)
    ensures LastIn(log, k) == if k in Replayed(log) then Some(Replayed(log)[k]) else None
  {
    if log != [] { ReplayedIsLast(log[..|log| - 1], k); }
  }

  // In a numbered log the last record of a key is its largest.
  lemma {:induction false} LastIsLargest(log: seq<Record>, k: bytes, i: nat)
    requires Numbered(log) && i < |log| && log[i].key == k
    ensures LastIn(log, k).Some? && i + 1 <= LastIn(log, k).value.seqNo <= |log|
    ensures log[LastIn(log, k).value.seqNo - 1] == Record(k, LastIn(log, k).value)
  {
    var n := |log| - 1;
    if log[n].key != k { LastIsLargest(log[..n], k, i); }
  }

  lemma ReplayedIsLogged(log: seq<Record>)
    requires Numbered(log)
    ensures LayerLogged(log, Replayed(log))
  {
  }

  lemma {:induction false} LastOccurs(log: seq<Record>, k: bytes) returns (i: nat)
    requires LastIn(log, k).Some?
    ensures i < |log| && log[i].key == k
  {
    i := |log| - 1;
    if log[i].key != k { i := LastOccurs(log[..i], k); }
  }

  // A logged layer holds nothing newer than the replayed log.
  lemma ReplayedIsNewest(log: seq<Record>, m: Layer)
    requires Numbered(log) && LayerLogged(log, m)
    ensures NotNewer(m, Replayed(log)) && forall k :: k in m ==> k in Replayed(log)
  {
    forall k | k in m ensures k in Replayed(log) && m[k].seqNo <= Replayed(log)[k].seqNo {
      LastIsLargest(log, k, m[k].seqNo - 1);
      ReplayedIsLast(log, k);
    }
  }

  lemma ReopenKeeps(s: Store)
    requires Inv(s)
    ensures Inv(Apply(s, Reopen))
  {
    ReplayedIsLogged(s.log);
    forall i | 0 <= i < |Stack(s)| - 1 ensures NotNewer(Stack(s)[i], Replayed(s.log)) {
      assert LayerLogged(s.log, Stack(s)[i]);
      ReplayedIsNewest(s.log, Stack(s)[i]);
    }
    TopKeeps(s, Replayed(s.log));
  }

  lemma FlushKeeps(s: Store)
    requires Inv(s)
    ensures Inv(FlushMem(s))
  {
    RotateKeeps(s);
    CompactKeeps(Rotated(s));
  }

  lemma StepKeeps(s: Store, e: Event)
    requires Inv(s)
    ensures Inv(Apply(s, e))
  {
    match e
    case Write(key, value, tombstone, outcome) =>
      if key != [] && !outcome.Refused? {
        var r := NextRecord(s, key, value, tombstone);
        var logged := s.(log := s.log + [r]);
        LogKeeps(s, r);
        if outcome.Applied? { PutKeeps(logged, key, r.version); }
      }
    case Flush => FlushKeeps(s);
    case FlushOnly => RotateKeeps(s);
    case FlushLost => TopKeeps(s, map[]);
    case Compact => CompactKeeps(s);
    case Reopen => ReopenKeeps(s);
  }

  lemma {:induction false} RunKeeps(events: seq<Event>)
    ensures Inv(Run(events))
  {
    if events != [] {
      RunKeeps(events[..|events| - 1]);
      StepKeeps(Run(events[..|events| - 1]), events[|events| - 1]);
    }
  }

  // ---------- Newest layer wins is max-seq wins ----------

  /** In every reachable state the version a read finds carries the largest sequence number any layer
      holds for the key. */
  lemma ReadsFindMaxSeq(events: seq<Event>, k: bytes, j: nat)
    requires j < |Stack(Run(events))| && k in Stack(Run(events))[j]
    ensures Newest(Run(events), k).Some?
    ensures Newest(Run(events), k).value.seqNo >= Stack(Run(events))[j][k].seqNo
  {
    var s := Run(events);
    RunKeeps(events);
    NewestIsFind(s, k);
    NewestIsMaxSeq(Stack(s), k, j);
  }

  // ---------- Compaction, key by key ----------

  ghost predicate Compacts(s: Store) {
    |s.l0| >= COMPACTION_TRIGGER && Live(s) != map[]
  }

  // The newest version above L1 is an L0 tombstone, which compaction drops, and L1 has the key.
  ghost predicate Resurrects(s: Store, k: bytes) {
    && Compacts(s)
    && k !in s.mem
    && Find(s.l0, k).Some? && Find(s.l0, k).value.tombstone
    && Find(s.l1, k).Some?
  }

  lemma L1FindsLive(s: Store, k: bytes)
    requires Inv(s) && Find(s.l1, k).Some?
    ensures !Find(s.l1, k).value.tombstone
  {
    var i := FoundAt(s.l1, k);
  }

  /** Compaction changes what a read returns for exactly the keys whose deletion it forgets: there the
      newest L1 version comes back. */
  lemma CompactionStep(s: Store, k: bytes)
    requires Inv(s)
    ensures Get(MaybeCompact(s), k) == Get(s, k) <==> !Resurrects(s, k)
    ensures Resurrects(s, k) ==> Get(s, k) == None && Newest(MaybeCompact(s), k) == Find(s.l1, k)
    ensures !Compacts(s) ==> MaybeCompact(s) == s
  {
    L0IsOrdered(s);
    MergeIsFind(s.log, s.l0, k);
    if Compacts(s) {
      var live := Live(s);
      var s' := MaybeCompact(s);
      FindConcat(s.l1, [live], k);
      if Find(s.l1, k).Some? { L1FindsLive(s, k); }
    }
  }

  lemma RotateReads(s: Store, k: bytes)
    ensures Newest(Rotated(s), k) == Newest(s, k)
  {
  }

  // ---------- Agreement with a last-write-wins map ----------

  // The store, the map of the applied writes, and the keys whose last applied write it has forgotten: a
  // deletion dropped by compaction, or a write lost with a memtable that could not be flushed.
  datatype Tracked = Tracked(store: Store, applied: map<bytes, bytes>, forgotten: set<bytes>)

  function Lookup(m: map<bytes, bytes>, k: bytes): Option<bytes> {
    if k in m then Some(m[k]) else None
  }

  function Values(m: Layer): map<bytes, bytes> {
    map k | k in m && !m[k].tombstone :: m[k].value
  }

  function KeysOf(ts: seq<Layer>): set<bytes> {
    if ts == [] then {} else KeysOf(ts[..|ts| - 1]) + ts[|ts| - 1].Keys
  }

  lemma {:induction false} FoundIsAKey(ts: seq<Layer>, k: bytes)
    ensures Find(ts, k).Some? <==> k in KeysOf(ts)
  {
    if ts != [] { FoundIsAKey(ts[..|ts| - 1], k); }
  }

  ghost function Compacted(x: Tracked): Tracked {
    var back := set k | k in KeysOf(x.store.l1) && Resurrects(x.store, k);
    Tracked(MaybeCompact(x.store), x.applied,
            x.forgotten - back + set k | k in back && View(Find(x.store.l1, k)) != Lookup(x.applied, k))
  }

  ghost function Flushed(x: Tracked): Tracked {
    if x.store.mem == map[] then x
    else Compacted(x.(store := Rotated(x.store)))
  }

  // The keys of the memtable that the tables show differently.
  ghost function Hidden(s: Store): set<bytes> {
    set k | k in s.mem && Get(s.(mem := map[]), k) != Get(s, k)
  }

  ghost function Dropped(x: Tracked): Tracked {
    Tracked(x.store.(mem := map[]), x.applied, x.forgotten + Hidden(x.store))
  }

  ghost function Track(x: Tracked, e: Event): Tracked {
    match e
    case Write(key, value, tombstone, outcome) =>
      if key == [] || outcome.Refused? then x
      else if outcome.LoggedOnly? then x.(store := Apply(x.store, e))
      else
        Tracked(Apply(x.store, e), if tombstone then x.applied - {key} else x.applied[key := value],
                x.forgotten - {key})
    case Flush => Flushed(x)
    case FlushOnly => x.(store := Apply(x.store, e))
    case FlushLost => Dropped(x)
    case Compact => Compacted(x)
    case Reopen => Tracked(Apply(x.store, e), Values(Replayed(x.store.log)), {})
  }

  ghost function TrackRun(events: seq<Event>): Tracked {
    if events == [] then Tracked(EMPTY, map[], {}) else Track(TrackRun(events[..|events| - 1]), events[|events| - 1])
  }

  ghost predicate Agrees(x: Tracked, k: bytes) {
    && (Get(x.store, k) == Lookup(x.applied, k) <==> k !in x.forgotten)
    && (k in x.store.mem ==> k !in x.forgotten)
  }

  ghost predicate TrackedInv(x: Tracked) {
    Inv(x.store) && forall k :: Agrees(x, k)
  }

  lemma CompactedKeeps(x: Tracked)
    requires TrackedInv(x)
    ensures TrackedInv(Compacted(x))
  {
    CompactKeeps(x.store);
    forall k ensures Agrees(Compacted(x), k) {
      assert Agrees(x, k);
      CompactionStep(x.store, k);
      FoundIsAKey(x.store.l1, k);
      if Resurrects(x.store, k) { L1FindsLive(x.store, k); }
    }
  }

  lemma FlushedKeeps(x: Tracked)
    requires TrackedInv(x)
    ensures TrackedInv(Flushed(x))
  {
    var s := x.store;
    var rotated := x.(store := Rotated(s));
    RotateKeeps(s);
    forall k ensures Agrees(rotated, k) {
      assert Agrees(x, k);
      RotateReads(s, k);
    }
    CompactedKeeps(rotated);
  }

  lemma PutAgrees(x: Tracked, e: Event, k: bytes)
    requires e.Write? && e.key != [] && e.outcome == Applied && Agrees(x, k)
    ensures Agrees(Track(x, e), k)
  {
  }

  lemma ReopenAgrees(x: Tracked, k: bytes)
    requires Inv(x.store)
    ensures Agrees(Track(x, Reopen), k)
  {
    var s := x.store;
    if k !in Replayed(s.log) {
      var i := FoundAt(Stack(s), k);
      NewestIsFind(s, k);
      forall j | 0 <= j < |Stack(s)| - 1 ensures k !in Stack(s)[j] {
        assert LayerLogged(s.log, Stack(s)[j]);
        ReplayedIsNewest(s.log, Stack(s)[j]);
      }
      NothingFound(s.l0, k, Stack(s), |s.l1|);
      NothingFound(s.l1, k, Stack(s), 0);
    }
  }

  lemma NothingFound(ts: seq<Layer>, k: bytes, stack: seq<Layer>, at: nat)
    requires at + |ts| < |stack| && stack[at..at + |ts|] == ts
    requires forall j :: 0 <= j < |stack| - 1 ==> k !in stack[j]
    ensures Find(ts, k).None?
  {
  }

  lemma TrackKeeps(x: Tracked, e: Event)
    requires TrackedInv(x)
    ensures TrackedInv(Track(x, e)) && Track(x, e).store == Apply(x.store, e)
  {
    StepKeeps(x.store, e);
    match e
    case Write(key, _, _, outcome) =>
      if key != [] && outcome.Applied? {
        forall k ensures Agrees(Track(x, e), k) { PutAgrees(x, e, k); }
      } else if key != [] && outcome.LoggedOnly? {
        forall k ensures Agrees(Track(x, e), k) { assert Agrees(x, k); }
      }
    case Flush => FlushedKeeps(x);
    case FlushOnly => forall k ensures Agrees(Track(x, e), k) { assert Agrees(x, k); RotateReads(x.store, k); }
    case FlushLost => forall k ensures Agrees(Track(x, e), k) { assert Agrees(x, k); }
    case Compact => CompactedKeeps(x);
    case Reopen => forall k ensures Agrees(Track(x, e), k) { ReopenAgrees(x, k); }
  }

  /** After every run, a read agrees with the last applied write of the key if and only if the store has
      not forgotten it since: no compaction dropped its deletion and no failed flush lost it. */
  lemma {:induction false} EngineRefinesMap(events: seq<Event>, k: bytes)
    ensures TrackRun(events).store == Run(events)
    ensures Get(Run(events), k) == Lookup(TrackRun(events).applied, k) <==> k !in TrackRun(events).forgotten
    ensures TrackedInv(TrackRun(events))
  {
    if events != [] {
      var n := |events| - 1;
      EngineRefinesMap(events[..n], k);
      TrackKeeps(TrackRun(events[..n]), events[n]);
    }
    assert Agrees(TrackRun(events), k);
  }

  // ---------- What is forgotten, by the steps of the run ----------

  // Step i compacts, and thereby drops the key's deletion over a version in L1.
  ghost predicate RevivesAt(events: seq<Event>, i: nat, k: bytes)
    requires i < |events|
  {
    var s := Run(events[..i]);
    match events[i]
    case Compact => Resurrects(s, k)
    case Flush => s.mem != map[] && Resurrects(Rotated(s), k)
    case _ => false
  }

  // The step applies a write of the key, or replays the log.
  predicate Restates(e: Event, k: bytes) {
    e.Reopen? || (e.Write? && e.key == k != [] && e.outcome.Applied?)
  }

  // Some compaction since the last applied write of the key has dropped its deletion.
  ghost predicate Revived(events: seq<Event>, k: bytes) {
    exists i :: 0 <= i < |events| && RevivesLast(events, i, k)
  }

  ghost predicate RevivesLast(events: seq<Event>, i: nat, k: bytes)
    requires i < |events|
  {
    RevivesAt(events, i, k) && forall j :: i < j < |events| ==> !Restates(events[j], k)
  }

  lemma RevivesInPrefix(events: seq<Event>, n: nat, i: nat, k: bytes)
    requires i < n < |events|
    ensures RevivesAt(events, i, k) <==> RevivesAt(events[..n], i, k)
  {
    assert events[..n][..i] == events[..i];
  }

  lemma RevivesLastSnoc(events: seq<Event>, n: nat, i: nat, k: bytes)
    requires |events| == n + 1 && i < n
    ensures RevivesLast(events, i, k) <==> RevivesLast(events[..n], i, k) && !Restates(events[n], k)
  {
    RevivesInPrefix(events, n, i, k);
  }

  lemma RevivedSnoc(events: seq<Event>, n: nat, k: bytes)
    requires |events| == n + 1
    ensures Revived(events, k) <==> RevivesAt(events, n, k) || (Revived(events[..n], k) && !Restates(events[n], k))
  {
    forall i | 0 <= i < n
      ensures RevivesLast(events, i, k) <==> RevivesLast(events[..n], i, k) && !Restates(events[n], k)
    {
      RevivesLastSnoc(events, n, i, k);
    }
    RevivedAtEnd(events, n, k);
  }

  lemma RevivedAtEnd(events: seq<Event>, n: nat, k: bytes)
    requires |events| == n + 1
    ensures RevivesLast(events, n, k) <==> RevivesAt(events, n, k)
  {
  }

  // A forgotten key was deleted and reads as a value.
  ghost predicate ReadsAgain(x: Tracked, k: bytes) {
    k in x.forgotten ==> Lookup(x.applied, k) == None && Get(x.store, k).Some?
  }

  lemma CompactionRevives(x: Tracked, k: bytes)
    requires TrackedInv(x) && ReadsAgain(x, k)
    ensures k in Compacted(x).forgotten <==> k in x.forgotten || Resurrects(x.store, k)
    ensures ReadsAgain(Compacted(x), k)
  {
    assert Agrees(x, k);
    CompactionStep(x.store, k);
    FoundIsAKey(x.store.l1, k);
    if Resurrects(x.store, k) { L1FindsLive(x.store, k); }
  }

  lemma FlushRevives(x: Tracked, k: bytes)
    requires TrackedInv(x) && ReadsAgain(x, k) && x.store.mem != map[]
    ensures k in Flushed(x).forgotten <==> k in x.forgotten || Resurrects(Rotated(x.store), k)
    ensures ReadsAgain(Flushed(x), k)
  {
    var rotated := x.(store := Rotated(x.store));
    RotateKeeps(x.store);
    forall j ensures Agrees(rotated, j) {
      assert Agrees(x, j);
      RotateReads(x.store, j);
    }
    RotateReads(x.store, k);
    CompactionRevives(rotated, k);
  }

  lemma StepRevives(x: Tracked, e: Event, k: bytes)
    requires TrackedInv(x) && ReadsAgain(x, k) && !e.FlushLost?
    ensures k in Track(x, e).forgotten <==>
              || (e.Compact? && Resurrects(x.store, k))
              || (e.Flush? && x.store.mem != map[] && Resurrects(Rotated(x.store), k))
              || (k in x.forgotten && !Restates(e, k))
    ensures ReadsAgain(Track(x, e), k)
  {
    assert Agrees(x, k);
    match e
    case Write(_, _, _, _) =>
    case Flush => if x.store.mem != map[] { FlushRevives(x, k); }
    case FlushOnly => RotateReads(x.store, k);
    case Compact => CompactionRevives(x, k);
    case Reopen =>
  }

  /** In a run without lost flushes a key is forgotten if and only if some compaction since its last
      applied write, or since the last reopen, dropped its deletion while L1 still held it. */
  lemma {:induction false} ForgottenIsRevived(events: seq<Event>, k: bytes)
    requires forall i :: 0 <= i < |events| ==> !events[i].FlushLost?
    ensures k in TrackRun(events).forgotten <==> Revived(events, k)
    ensures ReadsAgain(TrackRun(events), k)
  {
    if events != [] {
      var n := |events| - 1;
      ForgottenIsRevived(events[..n], k);
      EngineRefinesMap(events[..n], k);
      StepRevives(TrackRun(events[..n]), events[n], k);
      RevivedSnoc(events, n, k);
    }
  }

  // ---------- Live values stay ----------

  // What flushing and compacting do to a key that reads as a value: nothing.
  lemma LiveSurvivesFlush(s: Store, k: bytes)
    requires Inv(s) && Get(s, k).Some?
    ensures Get(MaybeCompact(s), k) == Get(s, k) && Get(FlushMem(s), k) == Get(s, k)
  {
    CompactionStep(s, k);
    RotateKeeps(s);
    RotateReads(s, k);
    CompactionStep(Rotated(s), k);
  }

  /** An applied Set is read back at once, also after the flush that it may trigger. */
  lemma AppliedSetIsVisible(s: Store, key: bytes, value: bytes)
    requires Inv(s) && key != []
    ensures var put := Apply(s, Write(key, value, false, Applied));
            Get(put, key) == Some(value) && Get(Apply(put, Flush), key) == Some(value)
  {
    StepKeeps(s, Write(key, value, false, Applied));
    LiveSurvivesFlush(Apply(s, Write(key, value, false, Applied)), key);
  }

  // A write of another key leaves a live key as it is.
  lemma OtherWriteKeeps(s: Store, e: Event, k: bytes)
    requires Inv(s) && e.Write? && e.key != k && Get(s, k).Some?
    ensures Get(Apply(s, e), k) == Get(s, k)
  {
  }

  // ---------- Recovery ----------

  /** A reopen makes every read return the last log record of the key, whatever the tables hold. */
  lemma RecoveryReadsLog(s: Store, k: bytes)
    requires LastIn(s.log, k).Some?
    ensures Newest(Apply(s, Reopen), k) == LastIn(s.log, k)
  {
    ReplayedIsLast(s.log, k);
  }

  /** From any state that satisfies the invariant, a reopen makes every key read as its last log record,
      and a key never logged absent. */
  lemma RecoveredReads(s: Store, k: bytes)
    requires Inv(s)
    ensures Get(Apply(s, Reopen), k) == View(LastIn(s.log, k))
  {
    ReopenAgrees(Tracked(s, map[], {}), k);
    ReplayedIsLast(s.log, k);
  }

  /** After any run and a reopen every key reads as its last log record, and a key never logged is
      absent. */
  lemma RecoveryIsTheLog(events: seq<Event>, k: bytes)
    ensures Get(Run(events + [Reopen]), k) == View(LastIn(Run(events).log, k))
    ensures Run(events + [Reopen]).log == Run(events).log
  {
    var run := events + [Reopen];
    assert run[..|run| - 1] == events;
    RunKeeps(events);
    RecoveredReads(Run(events), k);
  }

  /** A key that only the memtable holds reads as absent after a flush that loses the memtable, and reads
      as before once the log is replayed. */
  lemma LostUntilReopen(s: Store, k: bytes)
    requires Inv(s) && k in s.mem && Find(s.l0, k).None? && Find(s.l1, k).None?
    requires LastIn(s.log, k) == Some(s.mem[k])
    ensures Get(Apply(s, FlushLost), k) == None
    ensures Get(Apply(Apply(s, FlushLost), Reopen), k) == Get(s, k)
  {
    RecoveryReadsLog(Apply(s, FlushLost), k);
  }

  /** A write that fails for lack of a quorum is invisible until a reopen, and current after it. */
  lemma UnacknowledgedWrite(s: Store, key: bytes, value: bytes, tombstone: bool, k: bytes)
    requires Inv(s) && key != []
    ensures var s' := Apply(s, Write(key, value, tombstone, LoggedOnly));
            && Newest(s', k) == Newest(s, k)
            && Get(Apply(s', Reopen), key) == (if tombstone then None else Some(value))
            && (k != key ==> Get(Apply(s', Reopen), k) == Get(Apply(s, Reopen), k))
  {
  }

  /** Every new record carries a larger number than anything the log or a layer holds. */
  lemma NewWritesAreLarger(events: seq<Event>, key: bytes, value: bytes, tombstone: bool, j: nat, k: bytes)
    requires j < |Stack(Run(events))| && k in Stack(Run(events))[j]
    ensures NextRecord(Run(events), key, value, tombstone).version.seqNo > Stack(Run(events))[j][k].seqNo
    ensures forall r :: r in Run(events).log ==>
              r.version.seqNo < NextRecord(Run(events), key, value, tombstone).version.seqNo
  {
    RunKeeps(events);
    assert LayerLogged(Run(events).log, Stack(Run(events))[j]);
  }
}
