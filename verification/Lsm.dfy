/** The store as a state machine over its layers (src/storage_engine.cpp, src/compaction.cpp): the
    log, the memtable, the L0 tables and the L1 tables, with the invariant every step keeps. */
module Lsm {
  import opened Bytes
  import opened Results
  import opened Tables

  // Tables stand in creation order, oldest first.
  datatype Store = Store(log: seq<Record>, mem: Layer, l0: seq<Layer>, l1: seq<Layer>)

  const EMPTY: Store := Store([], map[], [], [])
  const COMPACTION_TRIGGER: nat := 4

  // How a write ends: refused before it is logged, logged but short of its quorum, or applied.
  datatype Outcome = Refused | LoggedOnly | Applied

  // A flush may stop after the new table is installed, when the compaction it triggers fails, or lose
  // the drained memtable, when the table cannot be written.
  datatype Event =
    | Write(key: bytes, value: bytes, tombstone: bool, outcome: Outcome)
    | Flush
    | FlushOnly
    | FlushLost
    | Compact
    | Reopen

  // ---------- Reading ----------

  // Newest table first; the first one that has the key answers.
  function Find(stack: seq<Layer>, k: bytes): Option<Version> {
    if stack == [] then None
    else if k in stack[|stack| - 1] then Some(stack[|stack| - 1][k])
    else Find(stack[..|stack| - 1], k)
  }

  // All layers, oldest first.
  function Stack(s: Store): seq<Layer> {
    s.l1 + s.l0 + [s.mem]
  }

  function Newest(s: Store, k: bytes): Option<Version> {
    if k in s.mem then Some(s.mem[k])
    else
      match Find(s.l0, k)
      case Some(v) => Some(v)
      case None => Find(s.l1, k)
  }

  // What a read returns for the version it finds.
  function View(v: Option<Version>): Option<bytes> {
    match v
    case None => None
    case Some(v) => if v.tombstone then None else Some(v.value)
  }

  function Get(s: Store, k: bytes): Option<bytes> {
    View(Newest(s, k))
  }

  // ---------- Steps ----------

  function NextRecord(s: Store, key: bytes, value: bytes, tombstone: bool): Record {
    Record(key, Version(if tombstone then [] else value, |s.log| + 1, tombstone))
  }

  // The largest sequence number per key, the left one on ties.
  function MergeLayer(a: Layer, b: Layer): Layer {
    map k | k in a.Keys + b.Keys :: if k in a && (k in b ==> b[k].seqNo <= a[k].seqNo) then a[k] else b[k]
  }

  function MergeAll(ts: seq<Layer>): Layer {
    if ts == [] then map[] else MergeLayer(MergeAll(ts[..|ts| - 1]), ts[|ts| - 1])
  }

  function DropTombstones(m: Layer): Layer {
    map k | k in m && !m[k].tombstone :: m[k]
  }

  // Four or more L0 tables become one L1 table; if nothing but tombstones is left, no table is
  // written and every layer stays.
  function MaybeCompact(s: Store): Store {
    var live := DropTombstones(MergeAll(s.l0));
    if |s.l0| < COMPACTION_TRIGGER || live == map[] then s
    else s.(l0 := [], l1 := s.l1 + [live])
  }

  // The memtable becomes the newest L0 table.
  function Rotated(s: Store): Store {
    s.(mem := map[], l0 := s.l0 + [s.mem])
  }

  function FlushMem(s: Store): Store {
    if s.mem == map[] then s
    else MaybeCompact(Rotated(s))
  }

  // Replaying the log: later records overwrite earlier ones.
  function Replayed(log: seq<Record>): Layer {
    if log == [] then map[] else Replayed(log[..|log| - 1])[log[|log| - 1].key := log[|log| - 1].version]
  }

  function Apply(s: Store, e: Event): Store {
    match e
    case Write(key, value, tombstone, outcome) =>
      if key == [] || outcome.Refused? then s
      else
        var r := NextRecord(s, key, value, tombstone);
        var logged := s.(log := s.log + [r]);
        if outcome.LoggedOnly? then logged else logged.(mem := s.mem[key := r.version])
    case Flush => FlushMem(s)
    case FlushOnly => if s.mem == map[] then s else Rotated(s)
    case FlushLost => s.(mem := map[])
    case Compact => MaybeCompact(s)
    case Reopen => s.(mem := Replayed(s.log))
  }

  function Run(events: seq<Event>): Store {
    if events == [] then EMPTY else Apply(Run(events[..|events| - 1]), events[|events| - 1])
  }

  lemma RunSnoc(events: seq<Event>, e: Event)
    ensures Run(events + [e]) == Apply(Run(events), e)
  {
  }

  // ---------- The invariant ----------

  ghost predicate Numbered(log: seq<Record>) {
    forall i :: 0 <= i < |log| ==> log[i].version.seqNo == i + 1 && log[i].key != []
  }

  ghost predicate LayerLogged(log: seq<Record>, m: Layer) {
    forall k :: k in m ==> 1 <= m[k].seqNo <= |log| && log[m[k].seqNo - 1] == Record(k, m[k])
  }

  ghost predicate AllLogged(log: seq<Record>, stack: seq<Layer>) {
    forall i :: 0 <= i < |stack| ==> LayerLogged(log, stack[i])
  }

  // Where two layers hold the same key, the newer one holds the later version, or the same.
  predicate NotNewer(older: Layer, newer: Layer) {
    forall k :: k in older && k in newer ==> older[k].seqNo <= newer[k].seqNo
  }

  ghost predicate Ordered(stack: seq<Layer>) {
    forall i, j :: 0 <= i < j < |stack| ==> NotNewer(stack[i], stack[j])
  }

  predicate NoTombstones(m: Layer) {
    forall k :: k in m ==> !m[k].tombstone
  }

  ghost predicate Inv(s: Store) {
    && Numbered(s.log)
    && AllLogged(s.log, Stack(s))
    && Ordered(Stack(s))
    && forall i :: 0 <= i < |s.l1| ==> NoTombstones(s.l1[i])
  }

  // ---------- Finding in a stack ----------

  lemma {:induction false} FindConcat(a: seq<Layer>, b: seq<Layer>, k: bytes)
    ensures Find(a + b, k) == if Find(b, k).Some? then Find(b, k) else Find(a, k)
    decreases |b|
  {
    if b == [] {
      assert a + b == a;
    } else {
      var n := |b| - 1;
      assert (a + b)[..|a + b| - 1] == a + b[..n];
      FindConcat(a, b[..n], k);
    }
  }

  lemma NewestIsFind(s: Store, k: bytes)
    ensures Newest(s, k) == Find(Stack(s), k)
  {
    FindConcat(s.l1 + s.l0, [s.mem], k);
    FindConcat(s.l1, s.l0, k);
    assert [s.mem][..0] == [];
  }

  // The layer the found version comes from: no later layer has the key.
  lemma {:induction false} FoundAt(stack: seq<Layer>, k: bytes) returns (i: int)
    ensures Find(stack, k).Some? ==>
      && 0 <= i < |stack| && k in stack[i] && Find(stack, k) == Some(stack[i][k])
      && forall j :: i < j < |stack| ==> k !in stack[j]
    ensures Find(stack, k).None? ==> forall j :: 0 <= j < |stack| ==> k !in stack[j]
  {
    i := |stack| - 1;
    if stack != [] && k !in stack[i] {
      i := FoundAt(stack[..i], k);
    }
  }

  /** The first layer, newest first, that holds a key holds its largest sequence number. */
  lemma NewestIsMaxSeq(stack: seq<Layer>, k: bytes, j: nat)
    requires Ordered(stack) && j < |stack| && k in stack[j]
    ensures Find(stack, k).Some? && Find(stack, k).value.seqNo >= stack[j][k].seqNo
  {
  }

  // ---------- Merging by sequence number ----------

  // In a logged stack the sequence number determines the version.
  lemma SameSeqSameVersion(log: seq<Record>, a: Layer, b: Layer, k: bytes)
    requires LayerLogged(log, a) && LayerLogged(log, b) && k in a && k in b && a[k].seqNo == b[k].seqNo
    ensures a[k] == b[k]
  {
  }

  lemma {:induction false} MergedIsLogged(log: seq<Record>, ts: seq<Layer>)
    requires AllLogged(log, ts)
    ensures LayerLogged(log, MergeAll(ts))
  {
    if ts != [] { MergedIsLogged(log, ts[..|ts| - 1]); }
  }

  /** Merging ordered tables by sequence number finds what looking from the newest on finds. */
  lemma {:induction false} MergeIsFind(log: seq<Record>, ts: seq<Layer>, k: bytes)
    requires AllLogged(log, ts) && Ordered(ts)
    ensures k in MergeAll(ts) <==> Find(ts, k).Some?
    ensures k in MergeAll(ts) ==> Find(ts, k) == Some(MergeAll(ts)[k])
  {
    if ts != [] {
      var n := |ts| - 1;
      MergeIsFind(log, ts[..n], k);
      if k in ts[n] && k in MergeAll(ts[..n]) {
        var i := FoundAt(ts[..n], k);
        assert NotNewer(ts[i], ts[n]);
        if ts[i][k].seqNo == ts[n][k].seqNo { SameSeqSameVersion(log, ts[i], ts[n], k); }
      }
    }
  }
}
