/** Prefix scans over all layers (src/storage_engine.cpp): the seq-merging scan, with each table cut
    at twice the limit, against the first live keys that reads return. */
module LsmScan {
  import opened Bytes
  import opened Results
  import opened Tables
  import opened Lsm
  import opened LsmRefinement

  const DEFAULT_LIMIT: nat := 100

  function EffectiveLimit(limit: nat): nat {
    if limit == 0 then DEFAULT_LIMIT else limit
  }

  // ---------- What the code computes ----------

  ghost function MatchingTable(m: Layer, prefix: bytes): Table {
    Matching(TableOf(m), prefix)
  }

  // The layer of the first n matching records of a table.
  ghost function Cut(m: Layer, prefix: bytes, n: nat): Layer {
    ToLayer(Take(MatchingTable(m, prefix), n))
  }

  ghost function Cuts(ts: seq<Layer>, prefix: bytes, n: nat): (cuts: seq<Layer>)
    ensures |cuts| == |ts|
  {
    seq(|ts|, i requires 0 <= i < |ts| => Cut(ts[i], prefix, n))
  }

  // Merges layers into m, newest one first.
  ghost function MergeDown(m: Layer, ts: seq<Layer>): Layer
    decreases |ts|
  {
    if ts == [] then m else MergeDown(MergeLayer(m, ts[|ts| - 1]), ts[..|ts| - 1])
  }

  // The memtable is not cut, the tables are.
  ghost function ScanMerged(s: Store, prefix: bytes, n: nat): Layer {
    MergeDown(MergeDown(ToLayer(MatchingTable(s.mem, prefix)), Cuts(s.l0, prefix, n)), Cuts(s.l1, prefix, n))
  }

  // Keys with their values.
  type Pairs = seq<(bytes, bytes)>

  function LiveOf(r: Record): Pairs {
    if r.version.tombstone then [] else [(r.key, r.version.value)]
  }

  function LivePairs(t: Table): Pairs {
    if t == [] then [] else LiveOf(t[0]) + LivePairs(t[1..])
  }

  ghost function ScanResult(s: Store, prefix: bytes, limit: nat): Pairs {
    Take(LivePairs(TableOf(ScanMerged(s, prefix, 2 * EffectiveLimit(limit)))), EffectiveLimit(limit))
  }

  // ---------- What a scan should return ----------

  ghost function Current(s: Store, prefix: bytes): Layer {
    map k | k in KeysOf(Stack(s)) && HasPrefix(k, prefix) && Newest(s, k).Some? :: Newest(s, k).value
  }

  // Every matching key with the version a read finds, in key order.
  ghost function CurrentTable(s: Store, prefix: bytes): Table {
    TableOf(Current(s, prefix))
  }

  ghost function ExactScan(s: Store, prefix: bytes, limit: nat): Pairs {
    Take(LivePairs(CurrentTable(s, prefix)), EffectiveLimit(limit))
  }

  lemma {:induction false} LivePairsHold(t: Table, k: bytes, v: bytes)
    ensures (k, v) in LivePairs(t) <==> exists r :: r in t && r.key == k && r.version.value == v && !r.version.tombstone
  {
    if t != [] {
      LivePairsHold(t[1..], k, v);
      assert forall r :: r in t <==> r == t[0] || r in t[1..];
    }
  }

  ghost predicate Ascending(a: Pairs) {
    forall i, j :: 0 <= i < j < |a| ==> Less(a[i].0, a[j].0)
  }

  lemma {:induction false} LivePairsAscend(t: Table)
    requires Sorted(t)
    ensures Ascending(LivePairs(t))
  {
    if t != [] {
      var rest := LivePairs(t[1..]);
      LivePairsAscend(t[1..]);
      forall j | 0 <= j < |rest| ensures Less(t[0].key, rest[j].0) {
        LivePairsHold(t[1..], rest[j].0, rest[j].1);
        assert rest[j] in rest;
      }
    }
  }

  /** The pairs an exact scan takes its first entries from are those that reads return for the keys
      with the prefix, in ascending key order. */
  lemma ExactScanIsReads(s: Store, prefix: bytes, k: bytes, v: bytes)
    ensures (k, v) in LivePairs(CurrentTable(s, prefix)) <==> HasPrefix(k, prefix) && Get(s, k) == Some(v)
    ensures Ascending(LivePairs(CurrentTable(s, prefix)))
  {
    var t := CurrentTable(s, prefix);
    LivePairsHold(t, k, v);
    LivePairsAscend(t);
    NewestIsFind(s, k);
    FoundIsAKey(Stack(s), k);
    if HasPrefix(k, prefix) && Get(s, k) == Some(v) {
      TableRecords(t, Record(k, Newest(s, k).value));
    }
    if r :| r in t && r.key == k && r.version.value == v && !r.version.tombstone {
      TableRecords(t, r);
    }
  }

  // The matching keys that read as a value.
  ghost function LiveKeys(s: Store, prefix: bytes): set<bytes> {
    set k | k in KeysOf(Stack(s)) && HasPrefix(k, prefix) && Get(s, k).Some?
  }

  lemma LiveKeysAreAll(s: Store, prefix: bytes, k: bytes)
    ensures k in LiveKeys(s, prefix) <==> HasPrefix(k, prefix) && Get(s, k).Some?
  {
    NewestIsFind(s, k);
    FoundIsAKey(Stack(s), k);
  }

  function PairKeys(pairs: Pairs): set<bytes> {
    set i | 0 <= i < |pairs| :: pairs[i].0
  }

  lemma {:induction false} AscendingKeys(pairs: Pairs)
    requires Ascending(pairs)
    ensures |PairKeys(pairs)| == |pairs|
  {
    if pairs != [] {
      var n := |pairs| - 1;
      AscendingKeys(pairs[..n]);
      if pairs[n].0 in PairKeys(pairs[..n]) {
        var i :| 0 <= i < n && pairs[i].0 == pairs[n].0;
        LessIrreflexive(pairs[i].0);
      }
      assert PairKeys(pairs) == PairKeys(pairs[..n]) + {pairs[n].0};
    }
  }

  lemma LivePairKeys(s: Store, prefix: bytes)
    ensures Ascending(LivePairs(CurrentTable(s, prefix)))
    ensures PairKeys(LivePairs(CurrentTable(s, prefix))) == LiveKeys(s, prefix)
  {
    var pairs := LivePairs(CurrentTable(s, prefix));
    ExactScanIsReads(s, prefix, [], []);
    forall k ensures k in PairKeys(pairs) <==> k in LiveKeys(s, prefix) {
      LiveKeysAreAll(s, prefix, k);
      if i :| 0 <= i < |pairs| && pairs[i].0 == k {
        assert (k, pairs[i].1) in pairs;
        ExactScanIsReads(s, prefix, k, pairs[i].1);
      }
      if k in LiveKeys(s, prefix) {
        ExactScanIsReads(s, prefix, k, Get(s, k).value);
      }
    }
  }

  /** One key comes in front of another in the order of unsigned bytes. */
  ghost predicate Ahead(a: bytes, b: bytes) {
    exists i: nat :: Precedes(a, b, i)
  }

  // The first n of ascending pairs, told by positions.
  lemma FirstPairs(pairs: Pairs, n: nat, k: bytes)
    requires Ascending(pairs)
    ensures |Take(pairs, n)| == (if n < |pairs| then n else |pairs|)
    ensures forall i, j :: 0 <= i < j < |Take(pairs, n)| ==> Ahead(Take(pairs, n)[i].0, Take(pairs, n)[j].0)
    ensures k in PairKeys(pairs) && k !in PairKeys(Take(pairs, n)) ==>
              |Take(pairs, n)| == n && forall i :: 0 <= i < n ==> Ahead(Take(pairs, n)[i].0, k)
  {
    var r := Take(pairs, n);
    forall i, j | 0 <= i < j < |r| ensures Ahead(r[i].0, r[j].0) {
      LessByPosition(r[i].0, r[j].0);
    }
    if k in PairKeys(pairs) && k !in PairKeys(r) {
      var j :| 0 <= j < |pairs| && pairs[j].0 == k;
      assert j >= |r|;
      forall i | 0 <= i < |r| ensures Ahead(r[i].0, k) { LessByPosition(r[i].0, k); }
    }
  }

  /** The exact scan has as many pairs as there are matching keys with a value, or the limit if that is less,
      a limit of zero standing for 100. Its keys ascend byte by byte, and a matching key that is left out
      comes behind all of them. */
  lemma ExactScanIsFirst(s: Store, prefix: bytes, limit: nat, k: bytes)
    ensures var r, live := ExactScan(s, prefix, limit), LiveKeys(s, prefix);
            var n := if limit == 0 then 100 else limit;
            && |r| == (if n < |live| then n else |live|)
            && (forall i :: 0 <= i < |r| ==> HasPrefix(r[i].0, prefix) && Get(s, r[i].0) == Some(r[i].1))
            && (forall i, j :: 0 <= i < j < |r| ==> Ahead(r[i].0, r[j].0))
            && (k in live && k !in PairKeys(r) ==> |r| == n && forall i :: 0 <= i < n ==> Ahead(r[i].0, k))
  {
    var pairs := LivePairs(CurrentTable(s, prefix));
    var n := if limit == 0 then 100 else limit;
    var r := Take(pairs, n);
    LivePairKeys(s, prefix);
    AscendingKeys(pairs);
    FirstPairs(pairs, n, k);
    forall i | 0 <= i < |r| ensures HasPrefix(r[i].0, prefix) && Get(s, r[i].0) == Some(r[i].1) {
      assert (r[i].0, r[i].1) in pairs;
      ExactScanIsReads(s, prefix, r[i].0, r[i].1);
    }
  }

  function DeadCount(t: Table): nat {
    if t == [] then 0 else (if t[0].version.tombstone then 1 else 0) + DeadCount(t[1..])
  }

  // ---------- Sorted tables ----------

  lemma {:induction false} MatchingRecords(t: Table, prefix: bytes)
    ensures forall r :: r in Matching(t, prefix) <==> r in t && HasPrefix(r.key, prefix)
  {
    if t != [] {
      MatchingRecords(t[1..], prefix);
      assert forall r :: r in t <==> r == t[0] || r in t[1..];
    }
  }

  lemma {:induction false} MatchingIsSorted(t: Table, prefix: bytes)
    requires Sorted(t)
    ensures Sorted(Matching(t, prefix))
  {
    if t != [] {
      var u := Matching(t[1..], prefix);
      MatchingIsSorted(t[1..], prefix);
      MatchingRecords(t[1..], prefix);
      forall i | 0 <= i < |u| ensures Less(t[0].key, u[i].key) {
        assert u[i] in u;
      }
    }
  }

  // A record of the layer's table is a version in the layer.
  lemma TableRecords(t: Table, r: Record)
    requires Sorted(t)
    ensures r in t <==> r.key in ToLayer(t) && ToLayer(t)[r.key] == r.version
  {
    SortedHolds(t);
    if r.key in ToLayer(t) && ToLayer(t)[r.key] == r.version {
      var i :| 0 <= i < |t| && t[i].key == r.key;
      assert t[i] == r;
    }
  }

  ghost predicate HasKey(t: Table, k: bytes) {
    exists y :: 0 <= y < |t| && t[y].key == k
  }

  ghost predicate KeysWithin(u: Table, t: Table) {
    forall x :: 0 <= x < |u| ==> HasKey(t, u[x].key)
  }

  /** A key of a sorted table stands no later than in a sorted table with more keys. */
  lemma {:induction false} IndexIsMonotone(a: Table, b: Table, j: nat, i: nat)
    requires Sorted(a) && Sorted(b) && j < |a| && i < |b| && a[j].key == b[i].key
    requires KeysWithin(a, b)
    ensures j <= i
    decreases j
  {
    if j > 0 {
      assert HasKey(b, a[j - 1].key);
      var y :| 0 <= y < |b| && b[y].key == a[j - 1].key;
      LessIrreflexive(b[i].key);
      if y > i { LessAsymmetric(b[i].key, b[y].key); }
      IndexIsMonotone(a, b, j - 1, y);
    }
  }

  // ---------- Merging is looking through the cut layers ----------

  // The layers with each table cut, oldest first.
  ghost function CutStack(s: Store, prefix: bytes, n: nat): (stack: seq<Layer>)
    ensures |stack| == |Stack(s)|
  {
    Cuts(s.l1, prefix, n) + Cuts(s.l0, prefix, n) + [ToLayer(MatchingTable(s.mem, prefix))]
  }

  // c holds matching versions of m only.
  ghost predicate Within(c: Layer, m: Layer, prefix: bytes) {
    forall k :: k in c ==> HasPrefix(k, prefix) && k in m && c[k] == m[k]
  }

  lemma CutIsWithin(m: Layer, prefix: bytes, n: nat)
    ensures Within(Cut(m, prefix, n), m, prefix)
  {
    var t := TableOf(m);
    var u := Matching(t, prefix);
    MatchingIsSorted(t, prefix);
    MatchingRecords(t, prefix);
    var c := Take(u, n);
    SortedHolds(c);
    forall k | k in ToLayer(c) ensures HasPrefix(k, prefix) && k in m && ToLayer(c)[k] == m[k] {
      var i :| 0 <= i < |c| && c[i].key == k;
      assert c[i] == u[i] && u[i] in u;
      TableRecords(t, c[i]);
    }
  }

  lemma WholeIsWithin(m: Layer, prefix: bytes)
    ensures Within(ToLayer(MatchingTable(m, prefix)), m, prefix)
  {
    var n := |MatchingTable(m, prefix)|;
    assert Take(MatchingTable(m, prefix), n) == MatchingTable(m, prefix);
    CutIsWithin(m, prefix, n);
  }

  lemma CutStackIsWithin(s: Store, prefix: bytes, n: nat, i: nat)
    requires i < |Stack(s)|
    ensures Within(CutStack(s, prefix, n)[i], Stack(s)[i], prefix)
    ensures i < |Stack(s)| - 1 ==> CutStack(s, prefix, n)[i] == Cut(Stack(s)[i], prefix, n)
  {
    CutIsWithin(Stack(s)[i], prefix, n);
    WholeIsWithin(s.mem, prefix);
  }

  lemma CutStackIsOrdered(s: Store, prefix: bytes, n: nat)
    requires Ordered(Stack(s))
    ensures Ordered(CutStack(s, prefix, n))
  {
    var stack, cut := Stack(s), CutStack(s, prefix, n);
    forall i, j | 0 <= i < j < |cut| ensures NotNewer(cut[i], cut[j]) {
      CutStackIsWithin(s, prefix, n, i);
      CutStackIsWithin(s, prefix, n, j);
      assert NotNewer(stack[i], stack[j]);
    }
  }

  lemma {:induction false} MergeDownConcat(m: Layer, a: seq<Layer>, b: seq<Layer>)
    ensures MergeDown(m, a + b) == MergeDown(MergeDown(m, b), a)
    decreases |b|
  {
    if b == [] {
      assert a + b == a;
    } else {
      var last := |b| - 1;
      assert (a + b)[..|a + b| - 1] == a + b[..last];
      MergeDownConcat(MergeLayer(m, b[last]), a, b[..last]);
    }
  }

  lemma MergeDownStep(m: Layer, ts: seq<Layer>, i: nat)
    requires i < |ts|
    ensures MergeDown(m, ts[..i + 1]) == MergeDown(MergeLayer(m, ts[i]), ts[..i])
  {
    assert ts[..i + 1][..i] == ts[..i];
  }

  // Merging the two topmost layers of an ordered stack leaves it ordered and finds the same.
  lemma TopMerged(rest: seq<Layer>, top: Layer, m: Layer, k: bytes)
    requires Ordered(rest + [top] + [m])
    ensures Ordered(rest + [MergeLayer(m, top)])
    ensures Find(rest + [MergeLayer(m, top)], k) == Find(rest + [top] + [m], k)
  {
    var n, before, merged := |rest|, rest + [top] + [m], rest + [MergeLayer(m, top)];
    assert before[n] == top && before[n + 1] == m && NotNewer(before[n], before[n + 1]);
    forall i, j | 0 <= i < j < |merged| ensures NotNewer(merged[i], merged[j]) {
      assert before[i] == rest[i] == merged[i];
      assert NotNewer(before[i], before[n]) && NotNewer(before[i], before[n + 1]);
      if j < n { assert NotNewer(before[i], before[j]); }
    }
    FindTop(rest, MergeLayer(m, top), k);
    FindTop(rest + [top], m, k);
    FindTop(rest, top, k);
  }

  lemma FindTop(rest: seq<Layer>, top: Layer, k: bytes)
    ensures Find(rest + [top], k) == if k in top then Some(top[k]) else Find(rest, k)
  {
    assert (rest + [top])[..|rest|] == rest;
  }

  /** Merging an ordered stack by sequence number finds what looking from the top on finds. */
  lemma {:induction false} MergeDownIsFind(m: Layer, ts: seq<Layer>, k: bytes)
    requires Ordered(ts + [m])
    ensures Find(ts + [m], k) == if k in MergeDown(m, ts) then Some(MergeDown(m, ts)[k]) else None
    decreases |ts|
  {
    if ts == [] {
      FindTop([], m, k);
    } else {
      var rest, top := ts[..|ts| - 1], ts[|ts| - 1];
      assert ts == rest + [top];
      TopMerged(rest, top, m, k);
      MergeDownIsFind(MergeLayer(m, top), rest, k);
    }
  }

  /** What the scan merges is what a read would find if every table held only its first n matches. */
  lemma ScanMergedIsFind(s: Store, prefix: bytes, n: nat, k: bytes)
    requires Ordered(Stack(s))
    ensures Find(CutStack(s, prefix, n), k)
         == if k in ScanMerged(s, prefix, n) then Some(ScanMerged(s, prefix, n)[k]) else None
  {
    var mem := ToLayer(MatchingTable(s.mem, prefix));
    CutStackIsOrdered(s, prefix, n);
    MergeDownConcat(mem, Cuts(s.l1, prefix, n), Cuts(s.l0, prefix, n));
    MergeDownIsFind(mem, Cuts(s.l1, prefix, n) + Cuts(s.l0, prefix, n), k);
  }

  // Layer p holds the newest version of the key, and it is not cut off there.
  ghost predicate KeepsNewest(s: Store, prefix: bytes, n: nat, p: nat, k: bytes)
    requires p < |Stack(s)|
  {
    k in CutStack(s, prefix, n)[p] && Newest(s, k) == Some(CutStack(s, prefix, n)[p][k])
  }

  /** The merge has the newest version of a key if and only if some layer that holds this version keeps
      it: the memtable always does, a table if the key is among its first n matches. */
  lemma MergeHasNewest(s: Store, prefix: bytes, n: nat, k: bytes)
    requires Inv(s) && Newest(s, k).Some?
    ensures (k in ScanMerged(s, prefix, n) && Newest(s, k) == Some(ScanMerged(s, prefix, n)[k])) <==>
              exists p :: 0 <= p < |Stack(s)| && KeepsNewest(s, prefix, n, p, k)
  {
    var cut, stack := CutStack(s, prefix, n), Stack(s);
    ScanMergedIsFind(s, prefix, n, k);
    var i := FoundAt(cut, k);
    if p :| 0 <= p < |stack| && KeepsNewest(s, prefix, n, p, k) {
      NothingNewerIsKept(s, prefix, n, p, i, k);
    } else if Find(cut, k).Some? && Find(cut, k) == Newest(s, k) {
      assert KeepsNewest(s, prefix, n, i, k);
    }
  }

  lemma NothingNewerIsKept(s: Store, prefix: bytes, n: nat, p: nat, i: nat, k: bytes)
    requires Inv(s) && p < |Stack(s)| && KeepsNewest(s, prefix, n, p, k)
    requires i < |Stack(s)| && k in CutStack(s, prefix, n)[i] && p <= i
    ensures KeepsNewest(s, prefix, n, i, k)
  {
    var cp, ci := CutStack(s, prefix, n)[p], CutStack(s, prefix, n)[i];
    assert k in Stack(s)[p] && cp[k] == Stack(s)[p][k] by { CutStackIsWithin(s, prefix, n, p); }
    assert k in Stack(s)[i] && ci[k] == Stack(s)[i][k] by { CutStackIsWithin(s, prefix, n, i); }
    NewestIsFind(s, k);
    NewestAbove(s.log, Stack(s), p, i, k);
  }

  // No layer above the one with the newest version holds another one.
  lemma NewestAbove(log: seq<Record>, stack: seq<Layer>, p: nat, i: nat, k: bytes)
    requires AllLogged(log, stack) && Ordered(stack) && p <= i < |stack| && k in stack[p] && k in stack[i]
    requires Find(stack, k) == Some(stack[p][k])
    ensures stack[i][k] == stack[p][k]
  {
    NewestIsMaxSeq(stack, k, i);
    if p < i { assert NotNewer(stack[p], stack[i]); }
    assert LayerLogged(log, stack[p]) && LayerLogged(log, stack[i]);
    SameSeqSameVersion(log, stack[p], stack[i], k);
  }

  // ---------- Early keys are never cut ----------

  lemma {:induction false} StackKeys(ts: seq<Layer>, i: nat, k: bytes)
    requires i < |ts| && k in ts[i]
    ensures k in KeysOf(ts)
  {
    if i < |ts| - 1 { StackKeys(ts[..|ts| - 1], i, k); }
  }

  // A key of a layer is current: some version of it is found.
  lemma LayerKeyIsCurrent(s: Store, prefix: bytes, p: nat, k: bytes)
    requires p < |Stack(s)| && k in Stack(s)[p] && HasPrefix(k, prefix)
    ensures k in Current(s, prefix)
    ensures HasKey(CurrentTable(s, prefix), k)
  {
    StackKeys(Stack(s), p, k);
    NewestIsFind(s, k);
    var i := FoundAt(Stack(s), k);
    SortedHolds(CurrentTable(s, prefix));
  }

  /** A key among the first n current ones is among the first n matching ones of every layer that has
      it. */
  lemma EarlyKeySurvives(s: Store, prefix: bytes, n: nat, i: nat, p: nat)
    requires i < n && i < |CurrentTable(s, prefix)| && p < |Stack(s)|
    requires CurrentTable(s, prefix)[i].key in Stack(s)[p]
    ensures var k := CurrentTable(s, prefix)[i].key;
            && k in Cut(Stack(s)[p], prefix, n)
            && Cut(Stack(s)[p], prefix, n)[k] == Stack(s)[p][k]
  {
    var t, m := CurrentTable(s, prefix), Stack(s)[p];
    var k, a := t[i].key, MatchingTable(m, prefix);
    CurrentKeyMatches(s, prefix, i);
    MatchingIsSorted(TableOf(m), prefix);
    MatchingRecords(TableOf(m), prefix);
    forall x | 0 <= x < |a| ensures HasKey(t, a[x].key) {
      assert a[x] in a;
      TableRecords(TableOf(m), a[x]);
      LayerKeyIsCurrent(s, prefix, p, a[x].key);
    }
    var r := Record(k, m[k]);
    TableRecords(TableOf(m), r);
    assert r in a;
    var j :| 0 <= j < |a| && a[j] == r;
    IndexIsMonotone(a, t, j, i);
    var c := Take(a, n);
    assert c[j] == r;
    SortedHolds(c);
  }

  lemma CurrentKeyMatches(s: Store, prefix: bytes, i: nat)
    requires i < |CurrentTable(s, prefix)|
    ensures var r := CurrentTable(s, prefix)[i]; HasPrefix(r.key, prefix) && Newest(s, r.key) == Some(r.version)
  {
    var t := CurrentTable(s, prefix);
    assert t[i] in t;
    TableRecords(t, t[i]);
  }

  lemma WholeLayerMatches(m: Layer, prefix: bytes, k: bytes)
    requires k in m && HasPrefix(k, prefix)
    ensures k in ToLayer(MatchingTable(m, prefix)) && ToLayer(MatchingTable(m, prefix))[k] == m[k]
  {
    var t := TableOf(m);
    var r := Record(k, m[k]);
    TableRecords(t, r);
    MatchingIsSorted(t, prefix);
    MatchingRecords(t, prefix);
    TableRecords(Matching(t, prefix), r);
  }

  /** So the merge has the newest version of each of the first n current keys. */
  lemma MergeHasEarlyKeys(s: Store, prefix: bytes, n: nat, i: nat)
    requires Inv(s) && i < n && i < |CurrentTable(s, prefix)|
    ensures var r := CurrentTable(s, prefix)[i];
            r.key in ScanMerged(s, prefix, n) && ScanMerged(s, prefix, n)[r.key] == r.version
  {
    var r := CurrentTable(s, prefix)[i];
    CurrentKeyMatches(s, prefix, i);
    NewestIsFind(s, r.key);
    var p := FoundAt(Stack(s), r.key);
    EarlyKeySurvives(s, prefix, n, i, p);
    CutStackIsWithin(s, prefix, n, p);
    WholeLayerMatches(Stack(s)[p], prefix, r.key);
    assert KeepsNewest(s, prefix, n, p, r.key);
    MergeHasNewest(s, prefix, n, r.key);
  }

  // ---------- Comparing the two tables ----------

  // Records at the same place.
  ghost predicate SameUpTo(t: Table, u: Table, n: nat) {
    n <= |t| && n <= |u| && forall i :: 0 <= i < n ==> u[i] == t[i]
  }

  /** If every early record of t is in u, and u has no keys that t has not, they start alike. */
  lemma {:induction false} EarlyRecordsAgree(t: Table, u: Table, n: nat)
    requires Sorted(t) && Sorted(u) && n <= |t|
    requires forall i :: 0 <= i < n ==> t[i] in u
    requires KeysWithin(u, t)
    ensures SameUpTo(t, u, n)
  {
    if n > 0 {
      EarlyRecordsAgree(t, u, n - 1);
      assert t[n - 1] in u;
      NextRecordAgrees(t, u, n - 1);
    }
  }

  lemma NextRecordAgrees(t: Table, u: Table, n: nat)
    requires Sorted(t) && Sorted(u) && KeysWithin(u, t) && SameUpTo(t, u, n)
    requires n < |t| && t[n] in u
    ensures SameUpTo(t, u, n + 1)
  {
    var j := PlaceIn(u, t[n]);
    IndexIsMonotone(u, t, j, n);
    NoEarlierCopy(t, u, n, j);
  }

  lemma PlaceIn(u: Table, r: Record) returns (j: nat)
    requires r in u
    ensures j < |u| && u[j] == r
  {
    j :| 0 <= j < |u| && u[j] == r;
  }

  lemma NoEarlierCopy(t: Table, u: Table, n: nat, j: nat)
    requires Sorted(t) && n < |t| && SameUpTo(t, u, n) && j < |u| && u[j] == t[n] && j <= n
    ensures j == n
  {
    if j < n {
      assert t[j].key == t[n].key;
      LessIrreflexive(t[n].key);
    }
  }

  lemma NoMoreKeys(t: Table, u: Table)
    requires Sorted(t) && Sorted(u) && KeysWithin(u, t)
    ensures |u| <= |t|
  {
    if u != [] {
      assert HasKey(t, u[|u| - 1].key);
      var y :| 0 <= y < |t| && t[y].key == u[|u| - 1].key;
      IndexIsMonotone(u, t, |u| - 1, y);
    }
  }

  lemma MergedKeysAreCurrent(s: Store, prefix: bytes, n: nat)
    requires Inv(s)
    ensures KeysWithin(TableOf(ScanMerged(s, prefix, n)), CurrentTable(s, prefix))
  {
    var t, u := CurrentTable(s, prefix), TableOf(ScanMerged(s, prefix, n));
    forall x | 0 <= x < |u| ensures HasKey(t, u[x].key) {
      assert u[x] in u;
      TableRecords(u, u[x]);
      ScanMergedIsFind(s, prefix, n, u[x].key);
      var p := FoundAt(CutStack(s, prefix, n), u[x].key);
      CutStackIsWithin(s, prefix, n, p);
      LayerKeyIsCurrent(s, prefix, p, u[x].key);
    }
  }

  /** The merged table starts with the first n current records, and is all of them if there are no
      more than n. */
  lemma MergedTableStartsAlike(s: Store, prefix: bytes, n: nat)
    requires Inv(s)
    ensures var t, u := CurrentTable(s, prefix), TableOf(ScanMerged(s, prefix, n));
            if |t| <= n then u == t else SameUpTo(t, u, n)
  {
    var t, u := CurrentTable(s, prefix), TableOf(ScanMerged(s, prefix, n));
    var m := if n <= |t| then n else |t|;
    forall i | 0 <= i < m ensures t[i] in u {
      MergeHasEarlyKeys(s, prefix, n, i);
      TableRecords(u, t[i]);
    }
    MergedKeysAreCurrent(s, prefix, n);
    EarlyRecordsAgree(t, u, m);
    NoMoreKeys(t, u);
  }

  // ---------- Exactness ----------

  lemma LiveCons(r: Record, t: Table)
    ensures LivePairs([r] + t) == LiveOf(r) + LivePairs(t)
  {
  }

  lemma {:induction false} LiveConcat(a: Table, b: Table)
    ensures LivePairs(a + b) == LivePairs(a) + LivePairs(b)
  {
    if a == [] {
      assert a + b == b;
    } else {
      LiveConcat(a[1..], b);
      LiveCons(a[0], a[1..] + b);
      LiveCons(a[0], a[1..]);
      assert a + b == [a[0]] + (a[1..] + b) && a == [a[0]] + a[1..];
      Associate(LiveOf(a[0]), LivePairs(a[1..]), LivePairs(b));
    }
  }

  lemma {:induction false} LiveAndDead(t: Table)
    ensures |LivePairs(t)| + DeadCount(t) == |t|
  {
    if t != [] { LiveAndDead(t[1..]); }
  }

  lemma {:induction false} DeadConcat(a: Table, b: Table)
    ensures DeadCount(a + b) == DeadCount(a) + DeadCount(b)
  {
    if a == [] {
      assert a + b == b;
    } else {
      DeadConcat(a[1..], b);
      assert (a + b)[1..] == a[1..] + b;
    }
  }

  // All current keys fit, or enough live ones come early.
  ghost predicate Dense(t: Table, limit: nat) {
    |t| <= 2 * limit || |LivePairs(t[..2 * limit])| >= limit
  }

  lemma FewDeadIsDense(t: Table, limit: nat)
    requires DeadCount(t) <= limit
    ensures Dense(t, limit)
  {
    if |t| > 2 * limit {
      var a, b := t[..2 * limit], t[2 * limit..];
      assert t == a + b;
      DeadConcat(a, b);
      LiveAndDead(a);
    }
  }

  lemma TakeOfAlike(t: Table, u: Table, limit: nat)
    requires |t| > 2 * limit && SameUpTo(t, u, 2 * limit) && |LivePairs(t[..2 * limit])| >= limit
    ensures Take(LivePairs(t), limit) == Take(LivePairs(u), limit)
  {
    var n := 2 * limit;
    assert t == t[..n] + t[n..] && u == u[..n] + u[n..] && t[..n] == u[..n];
    LiveConcat(t[..n], t[n..]);
    LiveConcat(u[..n], u[n..]);
  }

  /** A scan returns exactly the first `limit` live keys with the values reads return, whenever the
      matching keys are dense enough for the cut. */
  lemma ScanIsExact(s: Store, prefix: bytes, limit: nat)
    requires Inv(s) && Dense(CurrentTable(s, prefix), EffectiveLimit(limit))
    ensures ScanResult(s, prefix, limit) == ExactScan(s, prefix, limit)
  {
    var n := EffectiveLimit(limit);
    var t, u := CurrentTable(s, prefix), TableOf(ScanMerged(s, prefix, 2 * n));
    MergedTableStartsAlike(s, prefix, 2 * n);
    if |t| > 2 * n { TakeOfAlike(t, u, n); }
  }

  /** In particular when at most `limit` matching keys have a tombstone as their newest version. */
  lemma ScanIsExactWithFewTombstones(events: seq<Event>, prefix: bytes, limit: nat)
    requires DeadCount(CurrentTable(Run(events), prefix)) <= EffectiveLimit(limit)
    ensures ScanResult(Run(events), prefix, limit) == ExactScan(Run(events), prefix, limit)
  {
    RunKeeps(events);
    FewDeadIsDense(CurrentTable(Run(events), prefix), EffectiveLimit(limit));
    ScanIsExact(Run(events), prefix, limit);
  }

  // ---------- Exactly when a scan is exact ----------

  // The number of pairs whose key is below k.
  function Below(a: Pairs, k: bytes): nat {
    if a == [] then 0 else (if Less(a[0].0, k) then 1 else 0) + Below(a[1..], k)
  }

  lemma {:induction false} NoneBelow(a: Pairs, k: bytes)
    requires Ascending(a) && (a != [] ==> !Less(a[0].0, k))
    ensures Below(a, k) == 0
  {
    if |a| > 1 {
      if Less(a[1].0, k) { LessTransitive(a[0].0, a[1].0, k); }
      NoneBelow(a[1..], k);
    }
  }

  // Two ascending lists have the same pairs at each key that fewer than n pairs of the first precede.
  ghost predicate SamePairs(a: Pairs, b: Pairs, n: nat) {
    forall k, v :: Below(a, k) < n ==> ((k, v) in a <==> (k, v) in b)
  }

  lemma SameHeads(a: Pairs, b: Pairs, n: nat)
    requires Ascending(a) && Ascending(b) && a != [] && n > 0 && SamePairs(a, b, n)
    ensures b != [] && b[0] == a[0]
  {
    LessIrreflexive(a[0].0);
    NoneBelow(a, a[0].0);
    assert (a[0].0, a[0].1) in a;
    var j :| 0 <= j < |b| && b[j] == a[0];
    if j > 0 {
      LessAsymmetric(b[0].0, a[0].0);
      NoneBelow(a, b[0].0);
    }
  }

  // Membership in the tails is membership in the lists, past the common head.
  lemma PastHead(a: Pairs, k: bytes, v: bytes)
    requires Ascending(a) && a != []
    ensures (k, v) in a[1..] <==> (k, v) in a && Less(a[0].0, k)
  {
    LessIrreflexive(a[0].0);
  }

  lemma SamePairsOfTails(a: Pairs, b: Pairs, n: nat)
    requires Ascending(a) && Ascending(b) && a != [] && b != [] && a[0] == b[0] && n > 0
    ensures SamePairs(a, b, n) <==> SamePairs(a[1..], b[1..], n - 1)
  {
    forall k, v
      ensures (Below(a, k) < n ==> ((k, v) in a <==> (k, v) in b))
         <==> (Below(a[1..], k) < n - 1 ==> ((k, v) in a[1..] <==> (k, v) in b[1..]))
    {
      PastHead(a, k, v);
      PastHead(b, k, v);
      if !Less(a[0].0, k) {
        NoneBelow(a, k);
        OnlyHead(a, k, v);
        OnlyHead(b, k, v);
      }
    }
  }

  lemma OnlyHead(a: Pairs, k: bytes, v: bytes)
    requires Ascending(a) && a != [] && !Less(a[0].0, k)
    ensures (k, v) in a <==> (k, v) == a[0]
  {
  }

  lemma {:induction false} TakeIsSame(a: Pairs, b: Pairs, n: nat)
    requires Ascending(a) && Ascending(b)
    ensures Take(a, n) == Take(b, n) <==> SamePairs(a, b, n)
    decreases n
  {
    if n > 0 {
      if a == [] {
        if b != [] { assert (b[0].0, b[0].1) in b; }
      } else if b == [] || a[0] != b[0] {
        if SamePairs(a, b, n) { SameHeads(a, b, n); }
        assert Take(a, n)[0] == a[0];
      } else {
        SamePairsOfTails(a, b, n);
        TakeIsSame(a[1..], b[1..], n - 1);
        TakeCons(a, n);
        TakeCons(b, n);
      }
    }
  }

  lemma TakeCons(a: Pairs, n: nat)
    requires a != [] && n > 0
    ensures Take(a, n) == [a[0]] + Take(a[1..], n - 1)
  {
  }

  // The pairs a scan takes its first entries from are what the cut layers show.
  lemma ScannedPairs(s: Store, prefix: bytes, n: nat, k: bytes, v: bytes)
    requires Inv(s)
    ensures (k, v) in LivePairs(TableOf(ScanMerged(s, prefix, n))) <==> View(Find(CutStack(s, prefix, n), k)) == Some(v)
  {
    var m := ScanMerged(s, prefix, n);
    var u := TableOf(m);
    LivePairsHold(u, k, v);
    ScanMergedIsFind(s, prefix, n, k);
    if k in m { TableRecords(u, Record(k, m[k])); }
    if r :| r in u && r.key == k && r.version.value == v && !r.version.tombstone { TableRecords(u, r); }
  }

  lemma CutStackMatches(s: Store, prefix: bytes, n: nat, k: bytes)
    requires Find(CutStack(s, prefix, n), k).Some?
    ensures HasPrefix(k, prefix)
  {
    var i := FoundAt(CutStack(s, prefix, n), k);
    CutStackIsWithin(s, prefix, n, i);
  }

  // Fewer than n live keys with the prefix come before k, so the first n may include it.
  ghost predicate InReach(s: Store, prefix: bytes, n: nat, k: bytes) {
    HasPrefix(k, prefix) && Below(LivePairs(CurrentTable(s, prefix)), k) < n
  }

  // The layers show the key as a read does, even with each table cut.
  ghost predicate ShownAlike(s: Store, prefix: bytes, n: nat, k: bytes) {
    View(Find(CutStack(s, prefix, n), k)) == Get(s, k)
  }

  // The topmost layer that keeps the key within its cut.
  ghost predicate TopKept(s: Store, prefix: bytes, n: nat, i: nat, k: bytes)
    requires i < |Stack(s)|
  {
    k in CutStack(s, prefix, n)[i] && forall j :: i < j < |Stack(s)| ==> k !in CutStack(s, prefix, n)[j]
  }

  /** Said by positions, a key is shown alike if and only if it has no version at all, some layer with its
      newest version keeps it, its newest version is a deletion and no layer keeps it or the topmost one
      that does keeps a deletion, or the topmost one that keeps it keeps the same value. */
  lemma ShownAlikeByPlace(s: Store, prefix: bytes, n: nat, k: bytes)
    requires Inv(s)
    ensures ShownAlike(s, prefix, n, k) <==>
              || Newest(s, k).None?
              || (exists p :: 0 <= p < |Stack(s)| && KeepsNewest(s, prefix, n, p, k))
              || (&& Newest(s, k).value.tombstone
                  && forall i :: 0 <= i < |Stack(s)| && TopKept(s, prefix, n, i, k) ==>
                       CutStack(s, prefix, n)[i][k].tombstone)
              || (exists i :: && 0 <= i < |Stack(s)| && TopKept(s, prefix, n, i, k)
                              && View(Some(CutStack(s, prefix, n)[i][k])) == View(Newest(s, k)))
  {
    var cut := CutStack(s, prefix, n);
    var i := FoundAt(cut, k);
    if Find(cut, k).Some? { assert TopKept(s, prefix, n, i, k); }
    if Newest(s, k).None? {
      NothingIsShown(s, prefix, n, k);
    } else {
      MergeHasNewest(s, prefix, n, k);
      ScanMergedIsFind(s, prefix, n, k);
    }
  }

  lemma NothingIsShown(s: Store, prefix: bytes, n: nat, k: bytes)
    requires Newest(s, k).None?
    ensures Find(CutStack(s, prefix, n), k).None?
  {
    NewestIsFind(s, k);
    var i := FoundAt(CutStack(s, prefix, n), k);
    if Find(CutStack(s, prefix, n), k).Some? {
      CutStackIsWithin(s, prefix, n, i);
      var j := FoundAt(Stack(s), k);
    }
  }

  /** A scan is exact if and only if every key in its reach is shown alike by the layers once each table
      is cut at twice the limit. */
  lemma ScanIsExactIff(s: Store, prefix: bytes, limit: nat)
    requires Inv(s)
    ensures var n := EffectiveLimit(limit);
            ScanResult(s, prefix, limit) == ExactScan(s, prefix, limit) <==>
              forall k :: InReach(s, prefix, n, k) ==> ShownAlike(s, prefix, 2 * n, k)
  {
    var n := EffectiveLimit(limit);
    var t, u := CurrentTable(s, prefix), TableOf(ScanMerged(s, prefix, 2 * n));
    var a, b := LivePairs(t), LivePairs(u);
    LivePairsAscend(t);
    LivePairsAscend(u);
    TakeIsSame(a, b, n);
    if SamePairs(a, b, n) {
      forall k | InReach(s, prefix, n, k) ensures ShownAlike(s, prefix, 2 * n, k) {
        SameViews(s, prefix, n, k);
      }
    }
    if forall k :: InReach(s, prefix, n, k) ==> ShownAlike(s, prefix, 2 * n, k) {
      forall k, v | Below(a, k) < n ensures (k, v) in a <==> (k, v) in b {
        ExactScanIsReads(s, prefix, k, v);
        ScannedPairs(s, prefix, 2 * n, k, v);
        if HasPrefix(k, prefix) { assert InReach(s, prefix, n, k); }
        if (k, v) in b { CutStackMatches(s, prefix, 2 * n, k); }
      }
    }
  }

  lemma SameViews(s: Store, prefix: bytes, n: nat, k: bytes)
    requires Inv(s) && InReach(s, prefix, n, k)
    requires SamePairs(LivePairs(CurrentTable(s, prefix)), LivePairs(TableOf(ScanMerged(s, prefix, 2 * n))), n)
    ensures ShownAlike(s, prefix, 2 * n, k)
  {
    var found, read := View(Find(CutStack(s, prefix, 2 * n), k)), Get(s, k);
    if found.Some? {
      ExactScanIsReads(s, prefix, k, found.value);
      ScannedPairs(s, prefix, 2 * n, k, found.value);
    }
    if read.Some? {
      ExactScanIsReads(s, prefix, k, read.value);
      ScannedPairs(s, prefix, 2 * n, k, read.value);
    }
  }

  /** On a store that holds a single L0 table, the scan is exact if and only if the cut leaves enough
      live keys or no live key lies behind it. */
  lemma SingleTableScan(s: Store, prefix: bytes, limit: nat)
    requires Inv(s) && s.mem == map[] && |s.l0| == 1 && s.l1 == []
    requires |CurrentTable(s, prefix)| > 2 * EffectiveLimit(limit)
    ensures var t, n := CurrentTable(s, prefix), EffectiveLimit(limit);
            ScanResult(s, prefix, limit) == ExactScan(s, prefix, limit) <==>
              |LivePairs(t[..2 * n])| >= n || LivePairs(t[2 * n..]) == []
  {
    var n := EffectiveLimit(limit);
    var t := CurrentTable(s, prefix);
    SingleTableMerge(s, prefix, 2 * n);
    TakeOfStart(t, n);
  }

  lemma TakeOfStart(t: Table, n: nat)
    requires 2 * n < |t|
    ensures Take(LivePairs(t[..2 * n]), n) == Take(LivePairs(t), n) <==>
              |LivePairs(t[..2 * n])| >= n || LivePairs(t[2 * n..]) == []
  {
    assert t == t[..2 * n] + t[2 * n..];
    LiveConcat(t[..2 * n], t[2 * n..]);
    TakeOfConcat(LivePairs(t[..2 * n]), LivePairs(t[2 * n..]), n);
  }

  lemma TakeOfConcat<T>(a: seq<T>, b: seq<T>, n: nat)
    ensures Take(a, n) == Take(a + b, n) <==> |a| >= n || b == []
  {
  }

  lemma SingleTableMerge(s: Store, prefix: bytes, n: nat)
    requires Inv(s) && s.mem == map[] && |s.l0| == 1 && s.l1 == [] && n < |CurrentTable(s, prefix)|
    ensures TableOf(ScanMerged(s, prefix, n)) == CurrentTable(s, prefix)[..n]
  {
    var t, u := CurrentTable(s, prefix), TableOf(ScanMerged(s, prefix, n));
    assert SameUpTo(t, u, n) by { MergedTableStartsAlike(s, prefix, n); }
    assert |u| <= n by {
      MergedIsCut(s, prefix, n);
      CutIsShort(s.l0[0], prefix, n);
    }
  }

  lemma CutIsShort(m: Layer, prefix: bytes, n: nat)
    ensures |TableOf(Cut(m, prefix, n))| <= n
  {
    MatchingIsSorted(TableOf(m), prefix);
    SortedIsUnique(TableOf(Cut(m, prefix, n)), Take(MatchingTable(m, prefix), n));
  }

  lemma MergedIsCut(s: Store, prefix: bytes, n: nat)
    requires s.mem == map[] && |s.l0| == 1 && s.l1 == []
    ensures ScanMerged(s, prefix, n) == Cut(s.l0[0], prefix, n)
  {
    var c, cuts := Cut(s.l0[0], prefix, n), Cuts(s.l0, prefix, n);
    NothingMatches(prefix);
    assert cuts == [c] && cuts[..0] == [];
    assert MergeDown(map[], cuts) == MergeDown(MergeLayer(map[], c), []);
    assert MergeLayer(map[], c) == c;
  }

  lemma NothingMatches(prefix: bytes)
    ensures ToLayer(MatchingTable(map[], prefix)) == map[]
  {
    SortedHolds(TableOf(map[]));
    assert TableOf(map[]) == [];
  }
}
