/** The storage engine as an object over its log, memtable and table readers
    (src/storage_engine.cpp), refining the state machine of `Lsm` step by step.

    Clock readings, nonces, the peers' answers and whether a file can be written are inputs. */
module StorageEngine {
  import opened Bytes
  import opened Folding
  import opened Results
  import opened Crypto
  import opened Bloom
  import opened Tables
  import opened Sstable
  import opened SstBuilder
  import opened TableFiles
  import opened Compaction
  import opened MemTable
  import opened WalFormat
  import opened Wal
  import opened Replication
  import opened Lsm
  import opened LsmRefinement
  import opened LsmScan

  datatype Options = Options(enableReplication: bool, quorumSize: nat)

  // What the surroundings contribute to one operation.
  datatype Surroundings = Surroundings(
    timestamp: nat, nonceSeed: nat, network: Network,
    flushSeeds: nat -> nat, compactSeeds: nat -> nat, flushFault: WriteFault, compactFault: WriteFault)

  // The files of a closed engine.
  datatype Disk = Disk(wal: bytes, l0: seq<bytes>, l1: seq<bytes>)

  // ---------- From log records to the store's log ----------

  ghost predicate IsWrite(rec: WalRecord) {
    rec.key != [] && (rec.op == OP_SET || (rec.op == OP_DELETE && rec.value == []))
  }

  ghost function ToRecord(rec: WalRecord): Record {
    Record(rec.key, Version(rec.value, rec.seqNo, rec.op == OP_DELETE))
  }

  ghost function ToLog(h: seq<LogEntry>): (log: seq<Record>)
    ensures |log| == |h|
  {
    seq(|h|, i requires 0 <= i < |h| => ToRecord(h[i].rec))
  }

  ghost predicate AllWrites(h: seq<LogEntry>) {
    forall i :: 0 <= i < |h| ==> IsWrite(h[i].rec)
  }

  // Everything the log accepted fits a table.
  lemma LoggedFits(cipher: Cipher, h: seq<LogEntry>, m: Layer)
    requires AllWritten(cipher, h) && LayerLogged(ToLog(h), m)
    ensures LayerFits(m)
  {
    forall k | k in m ensures SstFormat.RecordFits(Record(k, m[k])) {
      var e := h[m[k].seqNo - 1];
      WrittenFits(cipher, h, m[k].seqNo - 1);
      assert ToLog(h)[m[k].seqNo - 1] == Record(k, m[k]);
    }
  }

  lemma WrittenFits(cipher: Cipher, h: seq<LogEntry>, i: nat)
    requires AllWritten(cipher, h) && i < |h|
    ensures SstFormat.RecordFits(ToRecord(h[i].rec))
  {
    assert h[i] in h && Written(cipher, h[i]);
  }

  // ---------- The store's invariant, folded ----------

  ghost predicate Kept(s: Store) {
    forall u: nat :: Unfold(u) ==> Inv(s)
  }

  lemma KeptIs(s: Store)
    ensures Kept(s) <==> Inv(s)
  {
    assert Unfold(0);
  }

  lemma DrainStays(s: Store)
    requires Kept(s)
    ensures Kept(s.(mem := map[])) && Kept(Rotated(s))
  {
    KeptIs(s);
    TopKeeps(s, map[]);
    RotateKeeps(s);
  }

  lemma CompactStays(s: Store)
    requires Kept(s)
    ensures Kept(Lsm.MaybeCompact(s))
  {
    KeptIs(s);
    CompactKeeps(s);
  }

  lemma LogStays(s: Store, r: Record)
    requires Kept(s) && r.version.seqNo == |s.log| + 1 && r.key != []
    ensures Kept(s.(log := s.log + [r]))
  {
    KeptIs(s);
    LogKeeps(s, r);
  }

  lemma PutStays(s: Store, k: bytes, v: Version)
    requires Kept(s) && 1 <= v.seqNo == |s.log| && s.log[v.seqNo - 1] == Record(k, v)
    ensures Kept(s.(mem := s.mem[k := v]))
  {
    KeptIs(s);
    PutKeeps(s, k, v);
  }

  lemma ScanIsExactWhen(s: Store, prefix: bytes, limit: nat)
    requires Kept(s)
    ensures var n := EffectiveLimit(limit);
            ScanResult(s, prefix, limit) == ExactScan(s, prefix, limit) <==>
              forall k :: InReach(s, prefix, n, k) ==> ShownAlike(s, prefix, 2 * n, k)
    ensures Dense(CurrentTable(s, prefix), EffectiveLimit(limit)) ==>
              ScanResult(s, prefix, limit) == ExactScan(s, prefix, limit)
  {
    KeptIs(s);
    ScanIsExactIff(s, prefix, limit);
    if Dense(CurrentTable(s, prefix), EffectiveLimit(limit)) { ScanIsExact(s, prefix, limit); }
  }

  lemma RunStays(es: seq<Event>)
    ensures Kept(Run(es))
  {
    RunKeeps(es);
  }

  // ---------- What flushes and compactions do in given surroundings ----------

  // The table of a layer can be encoded, is small enough, and its file can be written.
  ghost predicate CanWrite(cipher: Cipher, m: Layer, seeds: nat -> nat, fault: WriteFault) {
    Writable(cipher, TableOf(m), seeds, fault)
  }

  // There are tables to compact, but no live version is left or the output cannot be written.
  ghost predicate CompactFails(cipher: Cipher, s: Store, env: Surroundings) {
    && |s.l0| >= COMPACTION_TRIGGER
    && (Live(s) == map[] || !CanWrite(cipher, Live(s), env.compactSeeds, env.compactFault))
  }

  // There are records to flush, but their table cannot be written.
  ghost predicate FlushLoses(cipher: Cipher, s: Store, env: Surroundings) {
    s.mem != map[] && !CanWrite(cipher, s.mem, env.flushSeeds, env.flushFault)
  }

  // The output of a compaction, or of a flush, is begun but not finished.
  ghost predicate CompactLeaves(cipher: Cipher, s: Store, env: Surroundings) {
    CompactFails(cipher, s, env) && Live(s) != map[] && !env.compactFault.NoFile?
  }

  ghost predicate FlushLeaves(cipher: Cipher, s: Store, env: Surroundings) {
    FlushLoses(cipher, s, env) && !env.flushFault.NoFile?
  }

  // The compaction behind a flush leaves its output unfinished.
  ghost predicate FlushCompactLeaves(cipher: Cipher, s: Store, env: Surroundings) {
    s.mem != map[] && !FlushLoses(cipher, s, env) && CompactLeaves(cipher, Rotated(s), env)
  }

  // One more file is left behind, or none.
  ghost predicate Grown(before: seq<bytes>, after: seq<bytes>, grows: bool) {
    before <= after && |after| == |before| + if grows then 1 else 0
  }

  // The step of the state machine that a flush makes; it reports an error unless this is `Flush`.
  ghost function FlushEvent(cipher: Cipher, s: Store, env: Surroundings): Event {
    if FlushLoses(cipher, s, env) then FlushLost
    else if s.mem != map[] && CompactFails(cipher, Rotated(s), env) then FlushOnly
    else Flush
  }

  // The steps of a write, given whether the log accepts it and the quorum is reached.
  ghost function WriteSteps(key: bytes, value: bytes, tombstone: bool, accepted: bool, quorum: bool): seq<Event> {
    if key == [] || !accepted then []
    else if !quorum then [Write(key, value, tombstone, LoggedOnly)]
    else [Write(key, value, tombstone, Applied)]
  }

  // A Set that brings the memtable to its budget also flushes.
  ghost function SetSteps(cipher: Cipher, s: Store, key: bytes, value: bytes, env: Surroundings,
                          accepted: bool, quorum: bool, budget: nat): seq<Event> {
    var steps := WriteSteps(key, value, false, accepted, quorum);
    if key == [] || !accepted || !quorum || TotalBytes(PutIn(s, key, value, false).mem) < budget then steps
    else steps + [FlushEvent(cipher, PutIn(s, key, value, false), env)]
  }

  // The store after a Set.
  ghost function AfterSet(cipher: Cipher, s: Store, key: bytes, value: bytes, env: Surroundings,
                          accepted: bool, quorum: bool, budget: nat): Store {
    var put := PutIn(s, key, value, false);
    if !accepted then s
    else if !quorum then Logged(s, key, value, false)
    else if TotalBytes(put.mem) < budget then put
    else Apply(put, FlushEvent(cipher, put, env))
  }

  lemma SetReaches(cipher: Cipher, trace: seq<Event>, s: Store, key: bytes, value: bytes, env: Surroundings,
                   accepted: bool, quorum: bool, budget: nat)
    requires s == Run(trace) && key != []
    ensures var steps := SetSteps(cipher, s, key, value, env, accepted, quorum, budget);
            var put := PutIn(s, key, value, false);
            && AfterSet(cipher, s, key, value, env, accepted, quorum, budget) == Run(trace + steps)
            && (|steps| > 1 <==> accepted && quorum && TotalBytes(put.mem) >= budget)
            && (accepted && quorum ==>
                  ((|steps| > 1 ==> steps[1] == Flush) <==>
                   (TotalBytes(put.mem) >= budget ==> FlushEvent(cipher, put, env) == Flush)))
  {
    RunSteps(trace, SetSteps(cipher, s, key, value, env, accepted, quorum, budget));
  }

  ghost function AfterDelete(s: Store, key: bytes, accepted: bool, quorum: bool): Store {
    if !accepted then s else if !quorum then Logged(s, key, [], true) else PutIn(s, key, [], true)
  }

  lemma DeleteReaches(trace: seq<Event>, s: Store, key: bytes, accepted: bool, quorum: bool)
    requires s == Run(trace) && key != []
    ensures AfterDelete(s, key, accepted, quorum) == Run(trace + WriteSteps(key, [], true, accepted, quorum))
  {
    RunSteps(trace, WriteSteps(key, [], true, accepted, quorum));
  }

  class Engine {
    const cipher: Cipher
    const hash: Hash
    const options: Options
    const wal: Wal
    const memtable: MemTable
    var l0: seq<Reader>
    var l1: seq<Reader>
    // Unfinished files that failed builds left in the directories of the two levels.
    var left0: seq<bytes>
    var left1: seq<bytes>
    var isOpen: bool
    // The layers that the readers hold, and the steps of the state machine made so far.
    ghost var layers0: seq<Layer>
    ghost var layers1: seq<Layer>
    ghost var trace: seq<Event>

    ghost function Abs(): Store
      reads this, wal, memtable
    {
      Store(ToLog(wal.history), memtable.table, layers0, layers1)
    }

    // Log and tables are intact, the files left behind are no tables, and the layers satisfy the store's
    // invariant.
    ghost predicate Loaded()
      reads this, wal, wal.base, memtable
    {
      && wal.crypto == cipher && wal.Valid() && AllWrites(wal.history)
      && memtable.Valid()
      && HoldAll(cipher, hash, l0, layers0) && HoldAll(cipher, hash, l1, layers1)
      && NoneOpens(left0) && NoneOpens(left1)
      && Kept(Abs())
    }

    ghost predicate Sound()
      reads this, wal, wal.base, memtable
    {
      Loaded() && isOpen && wal.isOpen
    }

    // The store of an open engine is the one that the state machine reaches.
    ghost predicate Valid()
      reads this, wal, wal.base, memtable
    {
      Sound() && Abs() == Run(trace)
    }

    constructor (cipher: Cipher, hash: Hash, options: Options, walCapacity: nat, budget: nat)
      ensures this.cipher == cipher && this.hash == hash && this.options == options && !isOpen
      ensures l0 == l1 == [] && layers0 == layers1 == [] && left0 == left1 == [] && trace == []
      ensures fresh(wal) && fresh(memtable)
      ensures wal.crypto == cipher && wal.capacity == walCapacity && !wal.isOpen
      ensures memtable.Valid() && memtable.table == map[] && memtable.budget == budget
    {
      this.cipher, this.hash, this.options := cipher, hash, options;
      wal := new Wal(cipher, walCapacity);
      memtable := new MemTable(budget);
      l0, l1, left0, left1, isOpen := [], [], [], [], false;
      layers0, layers1, trace := [], [], [];
    }

    // ---------- Reading ----------

    // The loop over a level's tables, newest first.
    method FindInTables(tables: seq<Reader>, key: bytes, ghost layers: seq<Layer>) returns (v: Option<Version>)
      requires HoldAll(cipher, hash, tables, layers)
      ensures v == Find(layers, key)
    {
      var i := |tables|;
      assert layers[..i] == layers;
      while i > 0
        invariant 0 <= i <= |tables| && Find(layers, key) == Find(layers[..i], key)
      {
        i := i - 1;
        v := TableFiles.Lookup(cipher, hash, tables[i], key, layers[i]);
        assert layers[..i + 1][..i] == layers[..i];
        if v.Some? {
          return;
        }
      }
      v := None;
    }

    // What a read returns for a value, or for none.
    static ghost function Answer(value: Option<bytes>): Result<bytes> {
      match value case Some(v) => Ok(v) case None => Err(NotFound)
    }

    /** A read returns the newest version over all layers, or says that there is none or it is a
        deletion. It agrees with the last applied write of the key if and only if the store has not
        forgotten that write. */
    method Get(key: bytes) returns (r: Result<bytes>)
      requires isOpen ==> Valid()
      ensures !isOpen ==> r == Err(IoError)
      ensures isOpen && key == [] ==> r == Err(InvalidArgument)
      ensures isOpen && key != [] ==> r == Answer(Lsm.Get(Abs(), key)) && (r.Err? ==> r.code == NotFound)
      ensures isOpen && key != [] ==>
        (r == Answer(LsmRefinement.Lookup(TrackRun(trace).applied, key)) <==> key !in TrackRun(trace).forgotten)
    {
      if !isOpen {
        return Err(IoError);
      }
      if key == [] {
        return Err(InvalidArgument);
      }
      EngineRefinesMap(trace, key);
      var v := Option<Version>.None;
      var mem := memtable.Get(key);
      if mem.Ok? {
        v := Some(mem.value);
      } else {
        v := FindInTables(l0, key, layers0);
        if v.None? {
          v := FindInTables(l1, key, layers1);
        }
      }
      if v.None? || v.value.tombstone {
        return Err(NotFound);
      }
      r := Ok(v.value.value);
    }

    method MergeScan(m: Layer, table: Reader, prefix: bytes, limit: nat, ghost layer: Layer) returns (merged: Layer)
      requires Holds(cipher, hash, table, layer)
      ensures merged == MergeLayer(m, Cut(layer, prefix, limit))
    {
      var t := ScanTable(cipher, hash, table, prefix, limit, layer);
      merged := MergeRecords(m, t);
    }

    // Merges a level's scans into what has been merged so far, newest table first.
    method MergeScans(m: Layer, tables: seq<Reader>, prefix: bytes, limit: nat, ghost layers: seq<Layer>)
      returns (merged: Layer)
      requires HoldAll(cipher, hash, tables, layers)
      ensures merged == MergeDown(m, Cuts(layers, prefix, limit))
    {
      merged := m;
      var i := |tables|;
      ghost var cuts := Cuts(layers, prefix, limit);
      assert cuts[..i] == cuts;
      while i > 0
        invariant 0 <= i <= |tables|
        invariant MergeDown(m, cuts) == MergeDown(merged, cuts[..i])
      {
        i := i - 1;
        MergeDownStep(merged, cuts, i);
        merged := MergeScan(merged, tables[i], prefix, limit, layers[i]);
      }
    }

    /** A scan returns what merging the cut scans of all layers by sequence number gives. That is exact if and
        only if the cut layers show each key in its reach as a read does; in particular if the matching keys
        are dense enough. */
    method ScanPrefix(prefix: bytes, limit: nat) returns (r: Result<seq<(bytes, bytes)>>)
      requires isOpen ==> Valid()
      ensures r == if isOpen then Ok(ScanResult(Abs(), prefix, limit)) else Err(IoError)
      ensures isOpen ==>
        var n := EffectiveLimit(limit);
        (r == Ok(ExactScan(Abs(), prefix, limit)) <==>
           forall k :: InReach(Abs(), prefix, n, k) ==> ShownAlike(Abs(), prefix, 2 * n, k))
      ensures isOpen && Dense(CurrentTable(Abs(), prefix), EffectiveLimit(limit)) ==>
        r == Ok(ExactScan(Abs(), prefix, limit))
    {
      if !isOpen {
        return Err(IoError);
      }
      var count := EffectiveLimit(limit);
      var snapshot := memtable.SnapshotSorted(true);
      DrainedRecords(snapshot, memtable.table);
      var matching := Matching(snapshot, prefix);
      MatchingIsSorted(snapshot, prefix);
      var merged := MergeRecords(map[], matching);
      assert merged == ToLayer(MatchingTable(memtable.table, prefix));
      merged := MergeScans(merged, l0, prefix, 2 * count, layers0);
      merged := MergeScans(merged, l1, prefix, 2 * count, layers1);
      var t := SortLayer(merged);
      SortedIsUnique(t, TableOf(merged));
      ScanIsExactWhen(Abs(), prefix, limit);
      var out := CollectLive(t, count);
      r := Ok(out);
    }

    // ---------- Flush and compaction ----------

    // Writes and opens the table that replaces the L0 tables.
    method CompactTables(env: Surroundings) returns (out: Result<Reader>, left: seq<bytes>)
      requires Loaded() && |l0| >= COMPACTION_TRIGGER
      ensures out.Err? <==> CompactFails(cipher, Abs(), env)
      ensures out.Ok? ==> Live(Abs()) != map[] && Holds(cipher, hash, out.value, Live(Abs()))
      ensures NoneOpens(left) && |left| == if CompactLeaves(cipher, Abs(), env) then 1 else 0
    {
      MergedFits(cipher, wal.base[..], wal.history, wal.writeOffset, Abs());
      out, left := CompactLevel0ToLevel1(cipher, hash, l0, env.compactSeeds, env.compactFault, layers0);
    }

    // With four or more L0 tables, replaces them by one L1 table.
    method CompactLevels(env: Surroundings) returns (r: Result<()>)
      requires Loaded()
      modifies this`l0, this`l1, this`left1, this`layers0, this`layers1
      ensures Loaded()
      ensures r.Err? <==> CompactFails(cipher, old(Abs()), env)
      ensures Abs() == if r.Ok? then Lsm.MaybeCompact(old(Abs())) else old(Abs())
      ensures Grown(old(left1), left1, CompactLeaves(cipher, old(Abs()), env))
    {
      if |l0| < COMPACTION_TRIGGER {
        return Ok(());
      }
      var out, left := CompactTables(env);
      if out.Err? {
        left1 := left1 + left;
        return Err(out.code);
      }
      ghost var live := Live(Abs());
      CompactStays(Abs());
      HoldAllSnoc(cipher, hash, l1, layers1, out.value, live);
      l1, layers1 := l1 + [out.value], layers1 + [live];
      l0, layers0 := [], [];
      r := Ok(());
    }

    /** Compacts, whether or not the engine is open. It fails, and leaves every layer as it was, if and only
        if the merge leaves only tombstones or the table cannot be written; an output that was begun stays
        behind. */
    method MaybeCompact(env: Surroundings) returns (r: Result<()>)
      requires |l0| >= COMPACTION_TRIGGER ==> Loaded()
      modifies this`l0, this`l1, this`left1, this`layers0, this`layers1, this`trace
      ensures |old(l0)| < COMPACTION_TRIGGER ==> r == Ok(()) && Abs() == old(Abs()) && left1 == old(left1)
      ensures old(Loaded()) ==>
        && Loaded()
        && (r.Err? <==> CompactFails(cipher, old(Abs()), env))
        && Abs() == (if r.Ok? then Lsm.MaybeCompact(old(Abs())) else old(Abs()))
        && Grown(old(left1), left1, CompactLeaves(cipher, old(Abs()), env))
      ensures trace == if r.Ok? then old(trace) + [Compact] else old(trace)
      ensures old(isOpen) && old(Valid()) ==> Valid()
    {
      r := Ok(());
      if |l0| >= COMPACTION_TRIGGER {
        r := CompactLevels(env);
      }
      RunSnoc(trace, Compact);
      if r.Ok? {
        trace := trace + [Compact];
      }
    }

    // Drains the memtable into a new L0 table, unless there is nothing to drain.
    method Drain(env: Surroundings) returns (r: Result<bool>)
      requires Sound()
      modifies this`l0, this`left0, this`layers0, memtable
      ensures Sound()
      ensures r.Err? <==> FlushLoses(cipher, old(Abs()), env)
      ensures old(Abs()).mem == map[] ==> r == Ok(false) && Abs() == old(Abs())
      ensures old(Abs()).mem != map[] && r.Ok? ==> r.value
      ensures old(Abs()).mem != map[] ==> Abs() == if r.Ok? then Rotated(old(Abs())) else old(Abs()).(mem := map[])
      ensures Grown(old(left0), left0, FlushLeaves(cipher, old(Abs()), env))
    {
      ghost var s := Abs();
      MemtableFits(cipher, wal.base[..], wal.history, wal.writeOffset, s);
      DrainStays(s);
      var records := memtable.DrainSorted(true);
      DrainedRecords(records, s.mem);
      if records == [] {
        return Ok(false);
      }
      FittingNumbers(records);
      var table, left := BuildTable(cipher, hash, records, env.flushSeeds, env.flushFault);
      if table.Err? {
        left0 := left0 + left;
        return Err(table.code);
      }
      HoldAllSnoc(cipher, hash, l0, layers0, table.value, s.mem);
      l0, layers0 := l0 + [table.value], layers0 + [s.mem];
      r := Ok(true);
    }

    method DrainAndCompact(env: Surroundings) returns (r: Result<()>)
      requires Sound()
      modifies this`l0, this`l1, this`left0, this`left1, this`layers0, this`layers1, memtable
      ensures Sound()
      ensures Abs() == Apply(old(Abs()), FlushEvent(cipher, old(Abs()), env))
      ensures r.Ok? <==> FlushEvent(cipher, old(Abs()), env) == Flush
      ensures Grown(old(left0), left0, FlushLeaves(cipher, old(Abs()), env))
      ensures Grown(old(left1), left1, FlushCompactLeaves(cipher, old(Abs()), env))
    {
      var drained := Drain(env);
      if drained.Err? {
        return Err(drained.code);
      }
      if !drained.value {
        return Ok(());
      }
      r := CompactLevels(env);
    }

    /** Moves the memtable into a new L0 table and compacts. If the table cannot be written the drained
        records are gone from the layers; if only the compaction fails they are in the new table. A file
        that was begun but not finished stays in the directory of its level. */
    method FlushMemTable(env: Surroundings) returns (r: Result<()>)
      requires isOpen ==> Valid()
      modifies this`l0, this`l1, this`left0, this`left1, this`layers0, this`layers1, this`trace, memtable
      ensures !isOpen ==> r == Err(IoError) && unchanged(this) && unchanged(memtable)
      ensures isOpen ==>
        && Valid()
        && trace == old(trace) + [FlushEvent(cipher, old(Abs()), env)]
        && (r.Ok? <==> FlushEvent(cipher, old(Abs()), env) == Flush)
        && Grown(old(left0), left0, FlushLeaves(cipher, old(Abs()), env))
        && Grown(old(left1), left1, FlushCompactLeaves(cipher, old(Abs()), env))
      ensures isOpen && FlushLoses(cipher, old(Abs()), env) ==> r.Err? && Abs() == old(Abs()).(mem := map[])
    {
      if !isOpen {
        return Err(IoError);
      }
      ghost var e := FlushEvent(cipher, Abs(), env);
      r := DrainAndCompact(env);
      RunSnoc(trace, e);
      trace := trace + [e];
    }

    // ---------- Writing ----------

    // The leader has its quorum, or needs none.
    ghost predicate HasQuorum(net: Network) {
      options.enableReplication && options.quorumSize > 1 ==> 1 + |Ackers(net)| >= options.quorumSize
    }

    ghost predicate WalAccepts(op: byte, key: bytes, value: bytes, env: Surroundings)
      reads wal
    {
      wal.Accepts(op, key, value, env.timestamp, env.nonceSeed, wal.lastSeq, wal.writeOffset)
    }

    // Logging and replicating, as Set and Delete both start.
    method LogAndReplicate(op: byte, key: bytes, value: bytes, env: Surroundings)
      returns (r: Result<nat>, ghost logged: bool)
      requires Sound() && env.timestamp < UINT64_SIZE
      requires key != [] && (op == OP_SET || (op == OP_DELETE && value == []))
      modifies wal, wal.base
      ensures Sound() && wal.base == old(wal.base)
      ensures logged == old(WalAccepts(op, key, value, env))
      ensures r.Ok? <==> logged && HasQuorum(env.network)
      ensures Abs() == if logged then Logged(old(Abs()), key, value, op == OP_DELETE) else old(Abs())
      ensures r.Ok? ==> r.value == |old(Abs()).log| + 1
      ensures logged && r.Err? ==> r.code == NoQuorum
    {
      ghost var s := Abs();
      ghost var h := wal.history;
      var appended := wal.Append(op, key, value, env.timestamp, env.nonceSeed);
      logged := appended.Ok?;
      if appended.Err? {
        return Err(appended.code), logged;
      }
      LoggedStore(s, h, wal.history[|h|], key, value, op == OP_DELETE);
      assert wal.history == h + [wal.history[|h|]];
      if options.enableReplication && options.quorumSize > 1 {
        var replicated := ReplicateToQuorum(env.network, options.quorumSize);
        if replicated.Err? {
          return Err(replicated.code), logged;
        }
      }
      r := Ok(appended.value);
    }

    // Applies the write that was logged last, and flushes when the memtable reaches its budget.
    method PutAndFlush(key: bytes, value: bytes, seqNo: nat, env: Surroundings) returns (r: Result<()>)
      requires Sound() && key != [] && 1 <= seqNo == |Abs().log|
      requires Abs().log[seqNo - 1] == Record(key, Version(value, seqNo, false))
      modifies this`l0, this`l1, this`left0, this`left1, this`layers0, this`layers1, memtable
      ensures Sound()
      ensures var put := old(Abs()).(mem := old(Abs()).mem[key := Version(value, seqNo, false)]);
              var full := TotalBytes(put.mem) >= memtable.budget;
              && Abs() == (if full then Apply(put, FlushEvent(cipher, put, env)) else put)
              && (r.Ok? <==> (full ==> FlushEvent(cipher, put, env) == Flush))
              && Grown(old(left0), left0, full && FlushLeaves(cipher, put, env))
              && Grown(old(left1), left1, full && FlushCompactLeaves(cipher, put, env))
    {
      PutStays(Abs(), key, Version(value, seqNo, false));
      var put := memtable.Set(key, value, seqNo);
      var over := memtable.OverBudget();
      r := Ok(());
      if over {
        r := DrainAndCompact(env);
      }
    }

    /** Set makes exactly the steps of a write and, at the budget, a flush. It succeeds if and only if the
        log takes it, the quorum is reached and the flush, if any, goes through. */
    method Set(key: bytes, value: bytes, env: Surroundings) returns (r: Result<nat>)
      requires (isOpen ==> Valid()) && env.timestamp < UINT64_SIZE
      modifies this`l0, this`l1, this`left0, this`left1, this`layers0, this`layers1, this`trace, wal, wal.base, memtable
      ensures !isOpen ==> r == Err(IoError)
      ensures wal.base == old(wal.base)
      ensures isOpen && key == [] ==> r == Err(InvalidArgument)
      ensures isOpen ==>
        var accepted, quorum := old(WalAccepts(OP_SET, key, value, env)), HasQuorum(env.network);
        var steps := SetSteps(cipher, old(Abs()), key, value, env, accepted, quorum, memtable.budget);
        && Valid()
        && trace == old(trace) + steps
        && (r.Ok? <==> key != [] && accepted && quorum && (|steps| > 1 ==> steps[1] == Flush))
        && (key != [] && accepted && !quorum ==> r == Err(NoQuorum))
        && (r.Ok? ==> r.value == |old(Abs()).log| + 1)
        && var put := PutIn(old(Abs()), key, value, false);
        && Grown(old(left0), left0, |steps| > 1 && FlushLeaves(cipher, put, env))
        && Grown(old(left1), left1, |steps| > 1 && FlushCompactLeaves(cipher, put, env))
    {
      if !isOpen {
        return Err(IoError);
      }
      if key == [] {
        assert trace + [] == trace;
        return Err(InvalidArgument);
      }
      ghost var s, accepted, quorum := Abs(), WalAccepts(OP_SET, key, value, env), HasQuorum(env.network);
      ghost var steps := SetSteps(cipher, s, key, value, env, accepted, quorum, memtable.budget);
      SetReaches(cipher, trace, s, key, value, env, accepted, quorum, memtable.budget);
      r := LogPutAndFlush(key, value, env);
      assert Abs() == Run(trace + steps);
      trace := trace + steps;
    }

    method LogPutAndFlush(key: bytes, value: bytes, env: Surroundings) returns (r: Result<nat>)
      requires Sound() && env.timestamp < UINT64_SIZE && key != []
      modifies this`l0, this`l1, this`left0, this`left1, this`layers0, this`layers1, wal, wal.base, memtable
      ensures var accepted, quorum := old(WalAccepts(OP_SET, key, value, env)), HasQuorum(env.network);
              var put := PutIn(old(Abs()), key, value, false);
              var full := TotalBytes(put.mem) >= memtable.budget;
              && Sound() && wal.base == old(wal.base)
              && Abs() == AfterSet(cipher, old(Abs()), key, value, env, accepted, quorum, memtable.budget)
              && (r.Ok? <==> accepted && quorum && (full ==> FlushEvent(cipher, put, env) == Flush))
              && (accepted && !quorum ==> r == Err(NoQuorum))
              && (r.Ok? ==> r.value == |old(Abs()).log| + 1)
              && Grown(old(left0), left0, accepted && quorum && full && FlushLeaves(cipher, put, env))
              && Grown(old(left1), left1, accepted && quorum && full && FlushCompactLeaves(cipher, put, env))
    {
      ghost var s := Abs();
      ghost var logged: bool;
      r, logged := LogAndReplicate(OP_SET, key, value, env);
      if r.Err? {
        return;
      }
      var done := PutAndFlush(key, value, r.value, env);
      if done.Err? {
        r := Err(done.code);
      }
    }

    /** Delete makes exactly the step of a write of a tombstone; it never flushes. */
    method Delete(key: bytes, env: Surroundings) returns (r: Result<nat>)
      requires (isOpen ==> Valid()) && env.timestamp < UINT64_SIZE
      modifies this`trace, wal, wal.base, memtable
      ensures !isOpen ==> r == Err(IoError)
      ensures wal.base == old(wal.base)
      ensures isOpen && key == [] ==> r == Err(InvalidArgument)
      ensures isOpen ==>
        var accepted, quorum := old(WalAccepts(OP_DELETE, key, [], env)), HasQuorum(env.network);
        && Valid()
        && trace == old(trace) + WriteSteps(key, [], true, accepted, quorum)
        && (r.Ok? <==> key != [] && accepted && quorum)
        && (key != [] && accepted && !quorum ==> r == Err(NoQuorum))
        && (r.Ok? ==> r.value == |old(Abs()).log| + 1)
    {
      if !isOpen {
        return Err(IoError);
      }
      if key == [] {
        assert trace + [] == trace;
        return Err(InvalidArgument);
      }
      r := LogAndBury(key, env);
      ghost var accepted, quorum := old(WalAccepts(OP_DELETE, key, [], env)), HasQuorum(env.network);
      DeleteReaches(trace, old(Abs()), key, accepted, quorum);
      trace := trace + WriteSteps(key, [], true, accepted, quorum);
    }

    method LogAndBury(key: bytes, env: Surroundings) returns (r: Result<nat>)
      requires Sound() && env.timestamp < UINT64_SIZE && key != []
      modifies wal, wal.base, memtable
      ensures var accepted, quorum := old(WalAccepts(OP_DELETE, key, [], env)), HasQuorum(env.network);
              && Sound() && wal.base == old(wal.base)
              && Abs() == AfterDelete(old(Abs()), key, accepted, quorum)
              && (r.Ok? <==> accepted && quorum)
              && (accepted && !quorum ==> r == Err(NoQuorum))
              && (r.Ok? ==> r.value == |old(Abs()).log| + 1)
    {
      ghost var s := Abs();
      ghost var logged: bool;
      r, logged := LogAndReplicate(OP_DELETE, key, [], env);
      if r.Err? {
        return;
      }
      PutStays(Abs(), key, Version([], r.value, true));
      r := memtable.Delete(key, r.value);
    }

    // ---------- Opening ----------

    // Applies the log's records to the memtable in order.
    method ReplayWal(ghost found: seq<WalRecord>) returns (r: Result<()>)
      requires wal.isOpen && wal.base.Length == wal.capacity && wal.writeOffset <= wal.capacity && memtable.Valid()
      modifies memtable
      ensures memtable.Valid()
      ensures Finds(wal.crypto, wal.base[..], found, wal.writeOffset) ==>
        && r == (if AllKeyed(found) then Ok(()) else Err(InvalidArgument))
        && (r.Ok? ==> memtable.table == ReplayInto(old(memtable.table), found))
    {
      var records, status := wal.Replay(true, found, wal.writeOffset);
      if status.Err? {
        return Err(status.code);
      }
      r := ApplyRecords(records);
    }

    method ApplyRecords(records: seq<WalRecord>) returns (r: Result<()>)
      requires memtable.Valid()
      modifies memtable
      ensures memtable.Valid()
      ensures r == if AllKeyed(records) then Ok(()) else Err(InvalidArgument)
      ensures r.Ok? ==> memtable.table == ReplayInto(old(memtable.table), records)
    {
      for i := 0 to |records|
        invariant memtable.Valid() && AllKeyed(records[..i])
        invariant memtable.table == ReplayInto(old(memtable.table), records[..i])
      {
        var rec := records[i];
        ReplaySnoc(old(memtable.table), records, i);
        var applied := Result<nat>.Ok(0);
        if rec.op == OP_SET {
          applied := memtable.Set(rec.key, rec.value, rec.seqNo);
        } else if rec.op == OP_DELETE {
          applied := memtable.Delete(rec.key, rec.seqNo);
        }
        if applied.Err? {
          return Err(applied.code);
        }
      }
      assert records[..|records|] == records;
      r := Ok(());
    }

    /** Opening a closed engine succeeds if and only if all table files open and every write found in the
        log has a key. On the files of a store it brings the store back with its memtable replayed from
        the log. Opening an open engine changes nothing. */
    method Open(disk: Disk, ghost h: seq<LogEntry>, ghost es: seq<Event>)
      returns (r: Result<()>, ghost found: seq<WalRecord>)
      requires wal.crypto == cipher && memtable.Valid()
      requires wal.isOpen ==> wal.base.Length == wal.capacity && wal.writeOffset <= wal.capacity
      modifies this`l0, this`l1, this`left0, this`left1, this`layers0, this`layers1, this`isOpen, this`trace
      modifies wal, memtable
      ensures old(isOpen) ==> r == Ok(()) && unchanged(this) && unchanged(wal) && unchanged(memtable)
      ensures !old(isOpen) ==> (isOpen <==> r.Ok?)
      ensures !old(isOpen) && !old(wal.isOpen) ==>
        && fresh(wal.base) && Finds(cipher, MapFile(disk.wal, wal.capacity), found, wal.writeOffset)
        && (r.Ok? <==> AllOpen(disk.l0) && AllOpen(disk.l1) && AllKeyed(found))
        && (!(AllOpen(disk.l0) && AllOpen(disk.l1)) ==> r == Err(Corruption))
      ensures !old(isOpen) && !old(wal.isOpen) && old(memtable.table) == map[] &&
              Stores(cipher, hash, wal.capacity, disk, h, es) ==>
        && r == Ok(()) && Valid() && trace == es + [Reopen] && left0 == left1 == []
        && wal.history == h && wal.lastSeq == |h|
        && ReadsLog(Abs(), Run(es).log)
    {
      found := [];
      if isOpen {
        return Ok(()), found;
      }
      ghost var s := Run(es);
      ghost var good := !wal.isOpen && memtable.table == map[] && Stores(cipher, hash, wal.capacity, disk, h, es);
      if good {
        RecoveredStore(es, h);
      }
      found := wal.Open(disk.wal, h);
      r := LoadTables(disk, s);
      if r.Err? {
        return;
      }
      r := ReplayWal(found);
      left0, left1 := [], [];
      isOpen, trace := r.Ok?, es + [Reopen];
      if good {
        assert wal.Valid();
        assert Abs() == Run(trace);
      }
    }

    /** Opening the files of both levels succeeds if and only if each of them opens. */
    method LoadTables(disk: Disk, ghost s: Store) returns (r: Result<()>)
      modifies this`l0, this`l1, this`layers0, this`layers1
      ensures r == if AllOpen(disk.l0) && AllOpen(disk.l1) then Ok(()) else Err(Corruption)
      ensures r.Ok? ==> OpenedFrom(l0, disk.l0) && OpenedFrom(l1, disk.l1)
      ensures FilesHold(cipher, hash, disk.l0, s.l0) && FilesHold(cipher, hash, disk.l1, s.l1) ==>
        && r == Ok(()) && layers0 == s.l0 && layers1 == s.l1
        && HoldAll(cipher, hash, l0, layers0) && HoldAll(cipher, hash, l1, layers1)
    {
      if FilesHold(cipher, hash, disk.l0, s.l0) && FilesHold(cipher, hash, disk.l1, s.l1) {
        HeldFilesOpen(cipher, hash, disk.l0, s.l0);
        HeldFilesOpen(cipher, hash, disk.l1, s.l1);
      }
      var tables0 := OpenFiles(disk.l0);
      if tables0.Err? {
        return Err(tables0.code);
      }
      var tables1 := OpenFiles(disk.l1);
      if tables1.Err? {
        return Err(tables1.code);
      }
      l0, layers0, l1, layers1 := tables0.value, s.l0, tables1.value, s.l1;
      r := Ok(());
    }
  }

  // The files hold the store that some run reaches: its log as a complete, recoverable image, and its
  // tables.
  ghost predicate Stores(cipher: Cipher, hash: Hash, capacity: nat, disk: Disk, h: seq<LogEntry>, es: seq<Event>) {
    && Lawful(cipher) && capacity < UINT64_SIZE
    && IsImage(cipher, MapFile(disk.wal, capacity), h) && AllRecoverable(h) && AllWrites(h)
    && Run(es).log == ToLog(h)
    && FilesHold(cipher, hash, disk.l0, Run(es).l0) && FilesHold(cipher, hash, disk.l1, Run(es).l1)
  }

  // Every key reads as its last log record.
  ghost predicate ReadsLog(s: Store, log: seq<Record>) {
    forall k :: Lsm.Get(s, k) == View(LastIn(log, k))
  }

  lemma RecoveredReadsLog(es: seq<Event>)
    ensures ReadsLog(Run(es + [Reopen]), Run(es).log)
  {
    RunSnoc(es, Reopen);
    RunKeeps(es);
    forall k ensures Lsm.Get(Run(es + [Reopen]), k) == View(LastIn(Run(es).log, k)) {
      RecoveredReads(Run(es), k);
    }
  }

  lemma RecoveredStore(es: seq<Event>, h: seq<LogEntry>)
    requires Run(es).log == ToLog(h) && AllWrites(h)
    ensures Run(es + [Reopen]) == Store(ToLog(h), ReplayInto(map[], Records(h)), Run(es).l0, Run(es).l1)
    ensures Kept(Run(es + [Reopen])) && ReadsLog(Run(es + [Reopen]), Run(es).log) && AllKeyed(Records(h))
  {
    RunSnoc(es, Reopen);
    RunStays(es + [Reopen]);
    RecoveredReadsLog(es);
    ReplayIsReplayed(h);
  }

  /** With replication on, a write needs the leader and its acknowledging peers to make up the quorum. */
  lemma QuorumIsReached(e: Engine, net: Network)
    ensures e.HasQuorum(net) <==> (e.options.enableReplication ==> 1 + |Ackers(net)| >= e.options.quorumSize)
  {
  }

  // ---------- Replaying log records into a memtable ----------

  /** An operation byte of 0 sets, 1 deletes, and a record with any other is skipped. */
  lemma ReplayByOperation(m: Layer, rec: WalRecord)
    ensures rec.op == 0 ==> ReplayOne(m, rec) == m[rec.key := Version(rec.value, rec.seqNo, false)]
    ensures rec.op == 1 ==> ReplayOne(m, rec) == m[rec.key := Version([], rec.seqNo, true)]
    ensures rec.op > 1 ==> ReplayOne(m, rec) == m
  {
  }

  function ReplayOne(m: Layer, rec: WalRecord): Layer {
    if rec.op == OP_SET then m[rec.key := Version(rec.value, rec.seqNo, false)]
    else if rec.op == OP_DELETE then m[rec.key := Version([], rec.seqNo, true)]
    else m
  }

  function ReplayInto(m: Layer, records: seq<WalRecord>): Layer
    decreases |records|
  {
    if records == [] then m else ReplayOne(ReplayInto(m, records[..|records| - 1]), records[|records| - 1])
  }

  predicate Keyed(rec: WalRecord) {
    rec.op == OP_SET || rec.op == OP_DELETE ==> rec.key != []
  }

  predicate AllKeyed(records: seq<WalRecord>) {
    forall i :: 0 <= i < |records| ==> Keyed(records[i])
  }

  lemma ReplaySnoc(m: Layer, records: seq<WalRecord>, i: nat)
    requires i < |records|
    ensures ReplayInto(m, records[..i + 1]) == ReplayOne(ReplayInto(m, records[..i]), records[i])
    ensures AllKeyed(records[..i + 1]) <==> AllKeyed(records[..i]) && Keyed(records[i])
  {
    assert records[..i + 1][..i] == records[..i];
  }

  // Replaying the records of a log of writes is replaying the store's log.
  lemma {:induction false} ReplayIsReplayed(h: seq<LogEntry>)
    requires AllWrites(h)
    ensures ReplayInto(map[], Records(h)) == Replayed(ToLog(h)) && AllKeyed(Records(h))
  {
    if h != [] {
      var n := |h| - 1;
      ReplayIsReplayed(h[..n]);
      assert Records(h)[..n] == Records(h[..n]) && ToLog(h)[..n] == ToLog(h[..n]);
      assert IsWrite(h[n].rec);
    }
  }

  ghost function Logged(s: Store, key: bytes, value: bytes, tombstone: bool): Store {
    s.(log := s.log + [NextRecord(s, key, value, tombstone)])
  }

  ghost function PutIn(s: Store, key: bytes, value: bytes, tombstone: bool): Store {
    Logged(s, key, value, tombstone).(mem := s.mem[key := NextRecord(s, key, value, tombstone).version])
  }

  // At most two further steps.
  lemma RunSteps(trace: seq<Event>, steps: seq<Event>)
    requires |steps| <= 2
    ensures Run(trace + steps)
         == if steps == [] then Run(trace)
            else if |steps| == 1 then Apply(Run(trace), steps[0])
            else Apply(Apply(Run(trace), steps[0]), steps[1])
  {
    if steps == [] {
      assert trace + steps == trace;
    } else if |steps| == 1 {
      assert trace + steps == trace + [steps[0]];
      RunSnoc(trace, steps[0]);
    } else {
      var once := trace + [steps[0]];
      assert trace + steps == once + [steps[1]];
      RunSnoc(trace, steps[0]);
      RunSnoc(once, steps[1]);
    }
  }

  lemma LoggedStore(s: Store, h: seq<LogEntry>, e: LogEntry, key: bytes, value: bytes, tombstone: bool)
    requires s.log == ToLog(h) && AllWrites(h) && Kept(s) && key != []
    requires e.rec.key == key && e.rec.value == value && e.rec.seqNo == |h| + 1
    requires if tombstone then e.rec.op == OP_DELETE && value == [] else e.rec.op == OP_SET
    ensures ToLog(h + [e]) == Logged(s, key, value, tombstone).log
    ensures AllWrites(h + [e]) && Kept(Logged(s, key, value, tombstone))
  {
    LogStays(s, NextRecord(s, key, value, tombstone));
  }

  // Skips tombstones and stops at the limit.
  method CollectLive(t: Table, limit: nat) returns (out: seq<(bytes, bytes)>)
    requires limit > 0
    ensures out == Take(LivePairs(t), limit)
  {
    out := [];
    assert t[..0] == [];
    for i := 0 to |t|
      invariant out == LivePairs(t[..i]) && |out| < limit
    {
      assert t[..i + 1] == t[..i] + [t[i]] && t == t[..i + 1] + t[i + 1..];
      LiveConcat(t[..i], [t[i]]);
      LiveCons(t[i], []);
      LiveConcat(t[..i + 1], t[i + 1..]);
      if t[i].version.tombstone {
        continue;
      }
      out := out + [(t[i].key, t[i].version.value)];
      if |out| >= limit {
        return;
      }
    }
    assert t[..|t|] == t;
  }

  lemma MergedFits(cipher: Cipher, base: bytes, h: seq<LogEntry>, offset: nat, s: Store)
    requires LogIs(cipher, base, h, offset) && s.log == ToLog(h) && Kept(s)
    ensures LayerFits(MergeAll(s.l0))
  {
    LogIsImage(cipher, base, h, offset);
    KeptIs(s);
    L0IsOrdered(s);
    MergedIsLogged(s.log, s.l0);
    LoggedFits(cipher, h, MergeAll(s.l0));
  }

  lemma MemtableFits(cipher: Cipher, base: bytes, h: seq<LogEntry>, offset: nat, s: Store)
    requires LogIs(cipher, base, h, offset) && s.log == ToLog(h) && Kept(s)
    ensures LayerFits(s.mem)
  {
    LogIsImage(cipher, base, h, offset);
    KeptIs(s);
    assert LayerLogged(s.log, Stack(s)[|Stack(s)| - 1]);
    LoggedFits(cipher, h, s.mem);
  }

  lemma DrainedRecords(records: Table, m: Layer)
    requires Sorted(records) && ToLayer(records) == Visible(m, true)
    ensures ToLayer(records) == m && records == TableOf(m)
    ensures records == [] <==> m == map[]
  {
    assert Visible(m, true) == m;
    SortedHolds(records);
    SortedIsUnique(records, TableOf(m));
    if records != [] { assert records[0].key in m; }
  }

  // ---------- Closing and opening again ----------

  function FilesOf(readers: seq<Reader>): seq<bytes> {
    seq(|readers|, i requires 0 <= i < |readers| => readers[i].file)
  }

  /** The tables of an engine whose log is recoverable hold its store, on any engine's directories that
      contain them and nothing else. */
  lemma ClosedEngineIsStored(e: Engine)
    requires e.Valid() && AllRecoverable(e.wal.history)
    ensures Stores(e.cipher, e.hash, e.wal.capacity, Disk(e.wal.base[..], FilesOf(e.l0), FilesOf(e.l1)),
                   e.wal.history, e.trace)
  {
    FilesHoldLayers(e.cipher, e.hash, e.l0, e.layers0);
    FilesHoldLayers(e.cipher, e.hash, e.l1, e.layers1);
    LogIsImage(e.cipher, e.wal.base[..], e.wal.history, e.wal.writeOffset);
    assert MapFile(e.wal.base[..], e.wal.capacity) == e.wal.base[..];
  }

  lemma FilesHoldLayers(cipher: Cipher, hash: Hash, readers: seq<Reader>, layers: seq<Layer>)
    requires HoldAll(cipher, hash, readers, layers)
    ensures FilesHold(cipher, hash, FilesOf(readers), layers)
  {
  }

  // A directory, in the order of its file names: the tables in the order they were created, and the files
  // that were left behind wherever their names put them.
  ghost predicate IsDirectory(files: seq<bytes>, tables: seq<bytes>, left: seq<bytes>) {
    multiset(files) == multiset(tables) + multiset(left) && (left == [] ==> files == tables)
  }

  lemma LeftoverBlocks(files: seq<bytes>, tables: seq<bytes>, left: seq<bytes>)
    requires IsDirectory(files, tables, left) && NoneOpens(left) && left != []
    ensures !AllOpen(files)
  {
    assert left[0] in multiset(left);
    assert left[0] in multiset(files);
    var i :| 0 <= i < |files| && files[i] == left[0];
  }

  // Some of the files left behind may have been removed by hand.
  ghost predicate Among(some: seq<bytes>, left: seq<bytes>) {
    forall f :: f in some ==> f in left
  }

  lemma AmongNoneOpens(some: seq<bytes>, left: seq<bytes>)
    requires Among(some, left) && NoneOpens(left)
    ensures NoneOpens(some)
  {
    forall i | 0 <= i < |some| ensures !Opens(some[i]) {
      assert some[i] in left;
    }
  }

  /** Opening a new engine on the directories of another fails if an unfinished file of a failed build is left
      in them. If none is, and the log is recoverable, it succeeds and every key reads as its last log record. */
  method Restart(e: Engine, disk: Disk, ghost rest0: seq<bytes>, ghost rest1: seq<bytes>)
    returns (r: Result<()>, e': Engine)
    requires e.Valid() && Among(rest0, e.left0) && Among(rest1, e.left1)
    requires disk.wal == e.wal.base[..]
    requires IsDirectory(disk.l0, FilesOf(e.l0), rest0) && IsDirectory(disk.l1, FilesOf(e.l1), rest1)
    ensures fresh(e') && (r.Ok? <==> e'.isOpen)
    ensures rest0 != [] || rest1 != [] ==> r == Err(Corruption)
    ensures rest0 == [] && rest1 == [] && AllRecoverable(e.wal.history) ==>
              r == Ok(()) && e'.Valid() && e'.trace == e.trace + [Reopen] && ReadsLog(e'.Abs(), e.Abs().log)
  {
    e' := new Engine(e.cipher, e.hash, e.options, e.wal.capacity, e.memtable.budget);
    if rest0 == [] && rest1 == [] && AllRecoverable(e.wal.history) {
      ClosedEngineIsStored(e);
    }
    AmongNoneOpens(rest0, e.left0);
    AmongNoneOpens(rest1, e.left1);
    if rest0 != [] { LeftoverBlocks(disk.l0, FilesOf(e.l0), rest0); }
    if rest1 != [] { LeftoverBlocks(disk.l1, FilesOf(e.l1), rest1); }
    ghost var found: seq<WalRecord>;
    r, found := e'.Open(disk, e.wal.history, e.trace);
  }

  // An empty directory holds the empty store.
  lemma NothingIsStored(cipher: Cipher, hash: Hash, capacity: nat)
    requires Lawful(cipher) && capacity < UINT64_SIZE
    ensures Stores(cipher, hash, capacity, Disk([], [], []), [], [])
  {
  }

  /** Opening on an empty directory gives an engine without any keys. */
  method Start(cipher: Cipher, hash: Hash, options: Options, walCapacity: nat, budget: nat) returns (e: Engine)
    requires Lawful(cipher) && walCapacity < UINT64_SIZE
    ensures fresh(e) && fresh(e.wal) && fresh(e.wal.base) && fresh(e.memtable) && e.cipher == cipher
    ensures e.options == options && e.wal.capacity == walCapacity && e.memtable.budget == budget
    ensures e.Valid() && e.trace == [Reopen] && e.Abs() == EMPTY && e.left0 == e.left1 == []
  {
    NothingIsStored(cipher, hash, walCapacity);
    e := new Engine(cipher, hash, options, walCapacity, budget);
    var r, _ := e.Open(Disk([], [], []), [], []);
    assert [] + [Reopen] == [Reopen];
    RunSnoc([], Reopen);
  }
}
