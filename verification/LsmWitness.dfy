/** A run of the store on which compaction forgets a deletion. */
module LsmWitness {
  import opened Bytes
  import opened Folding
  import opened Results
  import opened Tables
  import opened Lsm
  import opened LsmRefinement

  function Put(k: byte, v: byte): Event {
    Write([k], [v], false, Applied)
  }

  // Four flushed writes fill L1; a flushed deletion and three more writes are compacted on top of it.
  function ForgettingRun(): seq<Event> {
    [Put(1, 10), Flush, Put(2, 20), Flush, Put(3, 30), Flush, Put(4, 40), Flush] +
    [Write([1], [], true, Applied), Flush, Put(2, 21), Flush, Put(3, 31), Flush, Put(4, 41), Flush]
  }

  predicate AppliedWrite(e: Event) {
    e.Write? && e.key != [] && e.outcome == Applied
  }

  function WrittenLayer(e: Event, seqNo: nat): Layer
    requires e.Write?
  {
    map[e.key := Version(if e.tombstone then [] else e.value, seqNo, e.tombstone)]
  }

  // The state has an empty memtable and the given tables.
  predicate Settled(s: Store, n: nat, l0: seq<Layer>, l1: seq<Layer>) {
    |s.log| == n && s.mem == map[] && s.l0 == l0 && s.l1 == l1
  }

  // The run leads to such a state.
  ghost predicate Reaches(events: seq<Event>, n: nat, l0: seq<Layer>, l1: seq<Layer>) {
    forall u: nat :: Unfold(u) ==> Settled(Run(events), n, l0, l1)
  }

  // A flushed write of a store whose L0 has room adds a table; the fourth table is compacted with the
  // others, unless only tombstones are left.
  lemma FlushedStep(s: Store, e: Event, m: Layer)
    requires AppliedWrite(e) && m == s.mem[e.key := NextRecord(s, e.key, e.value, e.tombstone).version]
    ensures var s' := Apply(Apply(s, e), Flush);
            && s'.log == s.log + [NextRecord(s, e.key, e.value, e.tombstone)] && s'.mem == map[]
            && (|s.l0| < 3 ==> s'.l0 == s.l0 + [m] && s'.l1 == s.l1)
            && (|s.l0| == 3 && DropTombstones(MergeAll(s.l0 + [m])) != map[] ==>
                  s'.l0 == [] && s'.l1 == s.l1 + [DropTombstones(MergeAll(s.l0 + [m]))])
  {
    assert e.key in m && Apply(s, e).mem == m;
  }

  lemma RunTwo(events: seq<Event>, a: Event, b: Event)
    ensures Run(events + [a, b]) == Apply(Apply(Run(events), a), b)
  {
    assert events + [a, b] == (events + [a]) + [b];
    RunSnoc(events, a);
    RunSnoc(events + [a], b);
  }

  lemma SettledLayer(s: Store, e: Event)
    requires e.Write? && s.mem == map[]
    ensures s.mem[e.key := NextRecord(s, e.key, e.value, e.tombstone).version] == WrittenLayer(e, |s.log| + 1)
  {
  }

  lemma WriteAddsTable(events: seq<Event>, e: Event, events': seq<Event>, n: nat, l0: seq<Layer>, l1: seq<Layer>)
    requires Reaches(events, n, l0, l1) && AppliedWrite(e) && |l0| < 3 && events' == events + [e, Flush]
    ensures Reaches(events', n + 1, l0 + [WrittenLayer(e, n + 1)], l1)
  {
    assert Unfold(0);
    RunTwo(events, e, Flush);
    SettledLayer(Run(events), e);
    FlushedStep(Run(events), e, WrittenLayer(e, n + 1));
  }

  lemma WriteCompacts(events: seq<Event>, e: Event, events': seq<Event>, n: nat, l0: seq<Layer>, l1: seq<Layer>,
                      live: Layer)
    requires Reaches(events, n, l0, l1) && AppliedWrite(e) && |l0| == 3 && events' == events + [e, Flush]
    requires live == DropTombstones(MergeAll(l0 + [WrittenLayer(e, n + 1)])) && live != map[]
    ensures Reaches(events', n + 1, [], l1 + [live])
  {
    assert Unfold(0);
    RunTwo(events, e, Flush);
    SettledLayer(Run(events), e);
    FlushedStep(Run(events), e, WrittenLayer(e, n + 1));
  }

  lemma {:induction false} MergedAlone(ts: seq<Layer>, k: bytes, i: nat)
    requires i < |ts| && k in ts[i] && forall j :: 0 <= j < |ts| && j != i ==> k !in ts[j]
    ensures k in MergeAll(ts) && MergeAll(ts)[k] == ts[i][k]
  {
    var n := |ts| - 1;
    if i < n { MergedAlone(ts[..n], k, i); } else { MergedNot(ts[..n], k); }
  }

  lemma {:induction false} MergedNot(ts: seq<Layer>, k: bytes)
    requires forall j :: 0 <= j < |ts| ==> k !in ts[j]
    ensures k !in MergeAll(ts)
  {
    if ts != [] { MergedNot(ts[..|ts| - 1], k); }
  }

  lemma ThreeWrites(events: seq<Event>, a: Event, b: Event, c: Event, events': seq<Event>, n: nat, l1: seq<Layer>)
    requires Reaches(events, n, [], l1) && AppliedWrite(a) && AppliedWrite(b) && AppliedWrite(c)
    requires events' == events + [a, Flush, b, Flush, c, Flush]
    ensures Reaches(events', n + 3, [WrittenLayer(a, n + 1), WrittenLayer(b, n + 2), WrittenLayer(c, n + 3)], l1)
  {
    var es1, es2 := events + [a, Flush], events + [a, Flush, b, Flush];
    WriteAddsTable(events, a, es1, n, [], l1);
    assert [] + [WrittenLayer(a, n + 1)] == [WrittenLayer(a, n + 1)];
    WriteAddsTable(es1, b, es2, n + 1, [WrittenLayer(a, n + 1)], l1);
    WriteAddsTable(es2, c, events', n + 2, [WrittenLayer(a, n + 1), WrittenLayer(b, n + 2)], l1);
  }

  // The compacted table keeps the first key unless it was deleted, and keeps the last one.
  lemma MergeOfFour(a: Event, b: Event, c: Event, d: Event, n: nat)
    requires AppliedWrite(a) && AppliedWrite(b) && AppliedWrite(c) && AppliedWrite(d) && !d.tombstone
    requires a.key !in {b.key, c.key, d.key} && d.key !in {b.key, c.key}
    ensures var live := DropTombstones(MergeAll([WrittenLayer(a, n + 1), WrittenLayer(b, n + 2), WrittenLayer(c, n + 3)]
                                                + [WrittenLayer(d, n + 4)]));
            && d.key in live
            && (a.tombstone ==> a.key !in live)
            && (!a.tombstone ==> a.key in live && live[a.key] == Version(a.value, n + 1, false))
  {
    var l0 := [WrittenLayer(a, n + 1), WrittenLayer(b, n + 2), WrittenLayer(c, n + 3)] + [WrittenLayer(d, n + 4)];
    MergedAlone(l0, a.key, 0);
    MergedAlone(l0, d.key, 3);
  }

  // Four flushed writes of different keys, the last one not a deletion, become one L1 table.
  lemma FourWrites(events: seq<Event>, a: Event, b: Event, c: Event, d: Event, n: nat, l1: seq<Layer>)
    returns (live: Layer)
    requires Reaches(events, n, [], l1)
    requires AppliedWrite(a) && AppliedWrite(b) && AppliedWrite(c) && AppliedWrite(d) && !d.tombstone
    requires a.key !in {b.key, c.key, d.key} && d.key !in {b.key, c.key}
    ensures Reaches(events + [a, Flush, b, Flush, c, Flush, d, Flush], n + 4, [], l1 + [live])
    ensures a.tombstone ==> a.key !in live
    ensures !a.tombstone ==> a.key in live && live[a.key] == Version(a.value, n + 1, false)
  {
    var l0 := [WrittenLayer(a, n + 1), WrittenLayer(b, n + 2), WrittenLayer(c, n + 3)];
    var three := events + [a, Flush, b, Flush, c, Flush];
    ThreeWrites(events, a, b, c, three, n, l1);
    MergeOfFour(a, b, c, d, n);
    live := DropTombstones(MergeAll(l0 + [WrittenLayer(d, n + 4)]));
    var four := events + [a, Flush, b, Flush, c, Flush, d, Flush];
    WriteCompacts(three, d, four, n + 3, l0, l1, live);
  }

  lemma DeletedStaysOut(events: seq<Event>, e: Event, events': seq<Event>, k: bytes)
    requires AppliedWrite(e) && events' == events + [e, Flush]
    requires if e.key == k then e.tombstone else k !in TrackRun(events).applied
    ensures k !in TrackRun(events').applied
  {
    var once := events + [e];
    assert once[..|events|] == events && events'[..|once|] == once;
  }

  lemma DeletionHolds(first: seq<Event>, gone: Event, all: seq<Event>)
    requires gone == Write([1], [], true, Applied)
    requires all == first + [gone, Flush, Put(2, 21), Flush, Put(3, 31), Flush, Put(4, 41), Flush]
    ensures [1] !in TrackRun(all).applied
  {
    var es1, es2 := first + [gone, Flush], first + [gone, Flush, Put(2, 21), Flush];
    var es3 := es2 + [Put(3, 31), Flush];
    DeletedStaysOut(first, gone, es1, [1]);
    DeletedStaysOut(es1, Put(2, 21), es2, [1]);
    DeletedStaysOut(es2, Put(3, 31), es3, [1]);
    DeletedStaysOut(es3, Put(4, 41), all, [1]);
  }

  // With nothing above them, the newer of two L1 tables leaves the key to the older one.
  lemma OldTableAnswers(s: Store, a: Layer, b: Layer)
    requires s.mem == map[] && s.l0 == [] && s.l1 == [a] + [b]
    requires [1] in a && a[[1]] == Version([10], 1, false) && [1] !in b
    ensures Get(s, [1]) == Some([10])
  {
    FindConcat([a], [b], [1]);
    assert [a][..0] == [] && [b][..0] == [];
  }

  lemma NothingReached()
    ensures Reaches([], 0, [], [])
  {
  }

  lemma FirstTable(first: seq<Event>) returns (a: Layer)
    requires first == [Put(1, 10), Flush, Put(2, 20), Flush, Put(3, 30), Flush, Put(4, 40), Flush]
    ensures Reaches(first, 4, [], [a]) && [1] in a && a[[1]] == Version([10], 1, false)
  {
    NothingReached();
    a := FourWrites([], Put(1, 10), Put(2, 20), Put(3, 30), Put(4, 40), 0, []);
    assert [] + first == first && [] + [a] == [a];
  }

  lemma SecondTable(first: seq<Event>, a: Layer, all: seq<Event>) returns (b: Layer)
    requires Reaches(first, 4, [], [a])
    requires all == first + [Write([1], [], true, Applied), Flush,
                             Put(2, 21), Flush, Put(3, 31), Flush, Put(4, 41), Flush]
    ensures Reaches(all, 8, [], [a] + [b]) && [1] !in b
  {
    b := FourWrites(first, Write([1], [], true, Applied), Put(2, 21), Put(3, 31), Put(4, 41), 4, [a]);
  }

  /** On this run the deleted key reads as its old value again: the store and the map disagree. */
  lemma DeletionComesBack(events: seq<Event>)
    requires events == ForgettingRun()
    ensures Get(Run(events), [1]) == Some([10])
    ensures Lookup(TrackRun(events).applied, [1]) == None
  {
    var first, later := events[..8], events[8..];
    assert first == [Put(1, 10), Flush, Put(2, 20), Flush, Put(3, 30), Flush, Put(4, 40), Flush];
    assert later == [Write([1], [], true, Applied), Flush, Put(2, 21), Flush, Put(3, 31), Flush, Put(4, 41), Flush];
    assert events == first + later;
    var a := FirstTable(first);
    var b := SecondTable(first, a, events);
    assert Unfold(0);
    OldTableAnswers(Run(events), a, b);
    DeletionHolds(first, Write([1], [], true, Applied), events);
  }
}
