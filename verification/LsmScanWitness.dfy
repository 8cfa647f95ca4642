/** Runs of the store after which a prefix scan misses a live key, and returns a deleted one. */
module LsmScanWitness {
  import opened Bytes
  import opened Folding
  import opened Results
  import opened Tables
  import opened Lsm
  import opened LsmScan
  import opened LsmWitness

  function Del(k: byte): Event {
    Write([k], [], true, Applied)
  }

  function Gone(seqNo: nat): Version {
    Version([], seqNo, true)
  }

  // ---------- Tables of up to three keys ----------

  function Three(a: Version, b: Version, c: Version): Layer {
    map[[1] := a, [2] := b, [3] := c]
  }

  lemma TableIs(t: Table, m: Layer)
    requires Sorted(t) && forall r :: r in t <==> r.key in m && m[r.key] == r.version
    ensures TableOf(m) == t
  {
    LayerOfPermutation(t, m);
    SortedIsUnique(TableOf(m), t);
  }

  lemma TableOfThree(a: Version, b: Version, c: Version)
    ensures TableOf(Three(a, b, c)) == [Record([1], a), Record([2], b), Record([3], c)]
  {
    assert Less([1], [2]) && Less([2], [3]) && Less([1], [3]);
    TableIs([Record([1], a), Record([2], b), Record([3], c)], Three(a, b, c));
  }

  lemma TableOfTwo(a: Version, b: Version)
    ensures TableOf(map[[1] := a, [2] := b]) == [Record([1], a), Record([2], b)]
  {
    assert Less([1], [2]);
    TableIs([Record([1], a), Record([2], b)], map[[1] := a, [2] := b]);
  }

  lemma TableOfOne(c: Version)
    ensures TableOf(map[[3] := c]) == [Record([3], c)]
  {
    TableIs([Record([3], c)], map[[3] := c]);
  }

  // The first two of the matches of the empty prefix.
  lemma CutAtTwo(t: Table, m: Layer, front: Table, m': Layer)
    requires TableOf(m) == t && TableOf(m') == front && front == Take(t, 2)
    ensures Cut(m, [], 2) == m'
  {
    MatchingSlice(t, [], 0, |t|);
    assert t[0..|t|] == t;
  }

  lemma CutOfThree(a: Version, b: Version, c: Version)
    ensures Cut(Three(a, b, c), [], 2) == map[[1] := a, [2] := b]
  {
    TableOfThree(a, b, c);
    TableOfTwo(a, b);
    CutAtTwo([Record([1], a), Record([2], b), Record([3], c)], Three(a, b, c), [Record([1], a), Record([2], b)],
             map[[1] := a, [2] := b]);
  }

  lemma CutOfOne(c: Version)
    ensures Cut(map[[3] := c], [], 2) == map[[3] := c]
  {
    TableOfOne(c);
    CutAtTwo([Record([3], c)], map[[3] := c], [Record([3], c)], map[[3] := c]);
  }

  // ---------- Three writes flushed into one table ----------

  lemma Buffered(s: Store, k: byte)
    ensures var gone := Gone(|s.log| + 1);
            Apply(s, Del(k)) == Store(s.log + [Record([k], gone)], s.mem[[k] := gone], s.l0, s.l1)
  {
  }

  lemma ThirdKey(m: Layer, a: Version, b: Version, c: Version)
    requires m == map[]
    ensures m[[1] := a][[2] := b][[3] := c] == Three(a, b, c)
  {
  }

  lemma RunFour(events: seq<Event>, a: Event, b: Event, c: Event, d: Event)
    ensures Run(events + [a, b, c, d]) == Apply(Apply(Apply(Apply(Run(events), a), b), c), d)
  {
    assert events + [a, b, c, d] == (events + [a, b]) + [c, d];
    RunTwo(events, a, b);
    RunTwo(events + [a, b], c, d);
  }

  lemma BufferedThenFlushed(s: Store, last: Event, n: nat, l1: seq<Layer>, c: Version)
    requires Settled(s, n, [], l1) && AppliedWrite(last) && last.key == [3]
    requires c == Version(if last.tombstone then [] else last.value, n + 3, last.tombstone)
    ensures Settled(Apply(Apply(Apply(Apply(s, Del(1)), Del(2)), last), Flush), n + 3,
                    [Three(Gone(n + 1), Gone(n + 2), c)], l1)
  {
    Buffered(s, 1);
    var s1 := Apply(s, Del(1));
    Buffered(s1, 2);
    var s2 := Apply(s1, Del(2));
    var m := s2.mem[[3] := c];
    assert m == Three(Gone(n + 1), Gone(n + 2), c) by { ThirdKey(s.mem, Gone(n + 1), Gone(n + 2), c); }
    FlushedStep(s2, last, m);
    assert [] + [m] == [m];
  }

  // Two deletions wait in the memtable until a third write flushes it.
  lemma ThreeInOne(events: seq<Event>, last: Event, events': seq<Event>, n: nat, l1: seq<Layer>, c: Version)
    requires Reaches(events, n, [], l1) && AppliedWrite(last) && last.key == [3]
    requires events' == events + [Del(1), Del(2), last, Flush]
    requires c == Version(if last.tombstone then [] else last.value, n + 3, last.tombstone)
    ensures Reaches(events', n + 3, [Three(Gone(n + 1), Gone(n + 2), c)], l1)
  {
    assert Settled(Run(events), n, [], l1) by { assert Unfold(0); }
    RunFour(events, Del(1), Del(2), last, Flush);
    BufferedThenFlushed(Run(events), last, n, l1, c);
  }

  // ---------- A live key is missed ----------

  function MissingRun(): seq<Event> {
    [Del(1), Del(2), Put(3, 30), Flush]
  }

  lemma ScanOfThree(s: Store, c: Version, a: Version, b: Version)
    requires s.mem == map[] && s.l0 == [Three(a, b, c)] && s.l1 == [] && a.tombstone && b.tombstone
    ensures ScanResult(s, [], 1) == []
  {
    MergedIsCut(s, [], 2);
    CutOfThree(a, b, c);
    TableOfTwo(a, b);
    var ra, rb := Record([1], a), Record([2], b);
    assert [ra, rb][1..] == [rb] && [rb][1..] == [];
    assert LivePairs([rb]) == [] && LivePairs([ra, rb]) == [];
  }

  /** After two deletions and a Set flushed into one table, a scan with limit one returns nothing,
      though the Set reads. */
  lemma ScanMissesKey(events: seq<Event>)
    requires events == MissingRun()
    ensures Get(Run(events), [3]) == Some([30]) && ScanResult(Run(events), [], 1) == []
  {
    assert events == [] + MissingRun();
    NothingReached();
    ThreeInOne([], Put(3, 30), events, 0, [], Version([30], 3, false));
    assert Unfold(0);
    ScanOfThree(Run(events), Version([30], 3, false), Gone(1), Gone(2));
  }

  // ---------- A deleted key is returned ----------

  // Four flushed writes of one key are compacted into L1; then it is deleted with two others.
  function StaleRun(): seq<Event> {
    [Put(3, 30), Flush, Put(3, 31), Flush, Put(3, 32), Flush, Put(3, 33), Flush] + [Del(1), Del(2), Del(3), Flush]
  }

  // A table with a later version of the only key takes its place.
  lemma MergeOfLater(ts: seq<Layer>, a: Version, b: Version)
    requires MergeAll(ts) == map[[3] := a] && a.seqNo < b.seqNo
    ensures MergeAll(ts + [map[[3] := b]]) == map[[3] := b]
  {
    var later: Layer := map[[3] := b];
    assert (ts + [later])[..|ts|] == ts;
    assert MergeLayer(map[[3] := a], later) == later;
  }

  lemma MergeOfRewrites(a: Version, b: Version, c: Version, d: Version)
    requires a.seqNo < b.seqNo < c.seqNo < d.seqNo
    ensures MergeAll([map[[3] := a], map[[3] := b], map[[3] := c]] + [map[[3] := d]]) == map[[3] := d]
  {
    var la: Layer, lb: Layer, lc: Layer := map[[3] := a], map[[3] := b], map[[3] := c];
    assert [la][..0] == [] && MergeLayer(map[], la) == la;
    MergeOfLater([la], a, b);
    assert [la] + [lb] == [la, lb];
    MergeOfLater([la, lb], b, c);
    assert [la, lb] + [lc] == [la, lb, lc];
    MergeOfLater([la, lb, lc], c, d);
  }

  lemma LiveOfRewrites(l0: seq<Layer>, live: Layer)
    requires l0 == [WrittenLayer(Put(3, 30), 1), WrittenLayer(Put(3, 31), 2), WrittenLayer(Put(3, 32), 3)]
    requires live == map[[3] := Version([33], 4, false)]
    ensures live == DropTombstones(MergeAll(l0 + [WrittenLayer(Put(3, 33), 4)])) && live != map[]
  {
    MergeOfRewrites(Version([30], 1, false), Version([31], 2, false), Version([32], 3, false), Version([33], 4, false));
    assert [3] in live && DropTombstones(live) == live;
  }

  // A fourth write is compacted with the three tables into the first L1 table.
  lemma FirstCompaction(three: seq<Event>, e: Event, four: seq<Event>, l0: seq<Layer>, live: Layer)
    requires Reaches(three, 3, l0, []) && AppliedWrite(e) && |l0| == 3 && four == three + [e, Flush]
    requires live == DropTombstones(MergeAll(l0 + [WrittenLayer(e, 4)])) && live != map[]
    ensures Reaches(four, 4, [], [live])
  {
    WriteCompacts(three, e, four, 3, l0, [], live);
    assert [] + [live] == [live];
  }

  lemma ThreeRewrites(three: seq<Event>) returns (l0: seq<Layer>)
    requires three == [Put(3, 30), Flush, Put(3, 31), Flush, Put(3, 32), Flush]
    ensures |l0| == 3 && Reaches(three, 3, l0, [])
    ensures DropTombstones(MergeAll(l0 + [WrittenLayer(Put(3, 33), 4)])) == map[[3] := Version([33], 4, false)]
  {
    l0 := [WrittenLayer(Put(3, 30), 1), WrittenLayer(Put(3, 31), 2), WrittenLayer(Put(3, 32), 3)];
    assert three == [] + [Put(3, 30), Flush, Put(3, 31), Flush, Put(3, 32), Flush];
    NothingReached();
    ThreeWrites([], Put(3, 30), Put(3, 31), Put(3, 32), three, 0, []);
    LiveOfRewrites(l0, map[[3] := Version([33], 4, false)]);
  }

  lemma Rewrites(first: seq<Event>)
    requires first == [Put(3, 30), Flush, Put(3, 31), Flush, Put(3, 32), Flush, Put(3, 33), Flush]
    ensures Reaches(first, 4, [], [map[[3] := Version([33], 4, false)]])
  {
    var three := first[..6];
    var l0 := ThreeRewrites(three);
    var live: Layer := map[[3] := Version([33], 4, false)];
    assert first == three + [Put(3, 33), Flush] && [3] in live;
    FirstCompaction(three, Put(3, 33), first, l0, live);
  }

  lemma CutsOfOne(m: Layer, n: nat)
    ensures Cuts([m], [], n) == [Cut(m, [], n)]
  {
  }

  // One table in each level and nothing above them.
  lemma MergeOfTwoLevels(s: Store, n: nat, upper: Layer, lower: Layer)
    requires s.mem == map[] && Cuts(s.l0, [], n) == [upper] && Cuts(s.l1, [], n) == [lower]
    ensures ScanMerged(s, [], n) == MergeLayer(upper, lower)
  {
    var none := ToLayer(MatchingTable(s.mem, []));
    assert none == map[] by { NothingMatches([]); }
    MergeDownOne(none, upper);
    assert MergeLayer(none, upper) == upper;
    MergeDownOne(upper, lower);
  }

  lemma MergeDownOne(m: Layer, t: Layer)
    ensures MergeDown(m, [t]) == MergeLayer(m, t)
  {
    assert [t][..0] == [];
  }

  lemma JoinThree(a: Version, b: Version, d: Version)
    ensures MergeLayer(map[[1] := a, [2] := b], map[[3] := d]) == Three(a, b, d)
  {
  }

  lemma ScanOverStale(s: Store, a: Version, b: Version, c: Version, d: Version)
    requires s.mem == map[] && s.l0 == [Three(a, b, c)] && s.l1 == [map[[3] := d]]
    requires a.tombstone && b.tombstone && !d.tombstone
    ensures ScanResult(s, [], 1) == [([3], d.value)]
  {
    CutOfThree(a, b, c);
    CutOfOne(d);
    JoinThree(a, b, d);
    CutsOfOne(Three(a, b, c), 2);
    CutsOfOne(map[[3] := d], 2);
    MergeOfTwoLevels(s, 2, map[[1] := a, [2] := b], map[[3] := d]);
    TableOfThree(a, b, d);
    LiveOfThree(a, b, d);
    ScanTakes(s, Three(a, b, d), [([3], d.value)]);
  }

  lemma ScanTakes(s: Store, m: Layer, pairs: seq<(bytes, bytes)>)
    requires ScanMerged(s, [], 2) == m && LivePairs(TableOf(m)) == pairs
    ensures ScanResult(s, [], 1) == Take(pairs, 1)
  {
  }

  lemma LiveOfThree(a: Version, b: Version, d: Version)
    requires a.tombstone && b.tombstone && !d.tombstone
    ensures LivePairs([Record([1], a), Record([2], b), Record([3], d)]) == [([3], d.value)]
  {
    var ra, rb, rd := Record([1], a), Record([2], b), Record([3], d);
    assert [ra, rb, rd][1..] == [rb, rd] && [rb, rd][1..] == [rd] && [rd][1..] == [];
    assert LivePairs([rd]) == [([3], d.value)] && LivePairs([rb, rd]) == [([3], d.value)];
  }

  /** After a key in L1 is deleted along with two smaller ones, a scan with limit one returns it. */
  lemma ScanReturnsDeletedKey(events: seq<Event>)
    requires events == StaleRun()
    ensures Get(Run(events), [3]) == None && ScanResult(Run(events), [], 1) == [([3], [33])]
  {
    var first := events[..8];
    assert first == [Put(3, 30), Flush, Put(3, 31), Flush, Put(3, 32), Flush, Put(3, 33), Flush];
    assert events == first + [Del(1), Del(2), Del(3), Flush];
    Rewrites(first);
    var stale := Version([33], 4, false);
    ThreeInOne(first, Del(3), events, 4, [map[[3] := stale]], Gone(7));
    assert Unfold(0);
    ScanOverStale(Run(events), Gone(5), Gone(6), Gone(7), stale);
  }
}
