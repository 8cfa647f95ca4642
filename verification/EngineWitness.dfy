/** Two runs of the engine after which its directory cannot be opened again: a flush and a compaction
    whose encryption fails leave an unfinished file behind (src/storage_engine.cpp, src/sstable.cpp). */
module EngineWitness {
  import opened Bytes
  import opened Results
  import opened Crypto
  import opened Bloom
  import opened Tables
  import opened SstBuilder
  import opened WalFormat
  import opened Wal
  import opened Replication
  import opened Lsm
  import opened LsmRefinement
  import opened StorageEngine

  // The fallback cipher, except that encryption fails when it draws 0.
  function FailingCipher(key: bytes): Cipher
    requires |key| == KEY_BYTES
  {
    Cipher((plain: bytes, seed: nat) => if seed == 0 then None else FallbackCipher(key).encrypt(plain, seed),
           FallbackCipher(key).decrypt)
  }

  lemma FailingIsLawful(key: bytes)
    requires |key| == KEY_BYTES
    ensures Lawful(FailingCipher(key))
  {
    FallbackIsLawful(key);
    forall plain, seed | FailingCipher(key).encrypt(plain, seed).Some?
      ensures Seals(FailingCipher(key), plain, FailingCipher(key).encrypt(plain, seed).value)
    {
      assert Seals(FallbackCipher(key), plain, FallbackCipher(key).encrypt(plain, seed).value);
    }
  }

  // A single node; the table of a flush, or of a compaction, is encrypted with these seeds.
  function Calm(flushSeed: nat, compactSeed: nat): Surroundings {
    Surroundings(0, 1, Network(false, [], 0), (i: nat) => flushSeed, (i: nat) => compactSeed, Fine, Fine)
  }

  const ALONE := Options(false, 1)
  const KEY: bytes := [1]
  const VALUE: bytes := [2]
  const LOG_BYTES: nat := 1000

  // A table that has any record cannot be written if every encryption fails.
  lemma NothingIsWritten(key: bytes, m: Layer, seeds: nat -> nat)
    requires |key| == KEY_BYTES && m != map[] && seeds(0) == 0
    ensures !CanWrite(FailingCipher(key), m, seeds, Fine)
  {
    var t := TableOf(m);
    assert t != [];
    assert !Encodes(FailingCipher(key), t[0], 0);
  }

  // A table of one small record can be written if its encryption succeeds.
  lemma OneRecordIsWritten(key: bytes, v: Version, seeds: nat -> nat)
    requires |key| == KEY_BYTES && |v.value| == 1 && v.seqNo < UINT64_SIZE && seeds(0) == 1
    ensures CanWrite(FailingCipher(key), map[KEY := v], seeds, Fine)
  {
    var m := map[KEY := v];
    var t := [Record(KEY, v)];
    assert t[..0] == [] && t[1..] == [];
    assert ToLayer(t) == m by { MergeSnoc(map[], [], t[0]); }
    SortedIsUnique(t, TableOf(m));
  }

  // ---------- The log has room ----------

  const FRAME_BYTES: nat := WalFormat.HEADER_BYTES + 2

  lemma FrameIsSmall(cipher: Cipher, e: LogEntry)
    requires Written(cipher, e) && |e.rec.key| + |e.rec.value| == 2
    ensures |e.frame| == FRAME_BYTES
  {
    var blob :| Sealed(cipher, e.rec, blob) && e.frame == Frame(e.rec, blob);
    FrameLength(e.rec, blob);
  }

  lemma {:induction false} ImageOfSmall(h: seq<LogEntry>)
    requires forall i :: 0 <= i < |h| ==> |h[i].frame| == FRAME_BYTES
    ensures |Image(h)| == |h| * FRAME_BYTES
  {
    if h != [] {
      ImageOfSmall(h[1..]);
    }
  }

  // ---------- The store after each write ----------

  ghost function Layers(n: nat): seq<Layer> {
    seq(n, i requires 0 <= i < n => map[KEY := Version(VALUE, i + 1, false)])
  }

  // Each of n writes was flushed into a table of its own.
  ghost predicate Flushed(s: Store, n: nat) {
    && |s.log| == n && s.mem == map[] && s.l0 == Layers(n) && s.l1 == []
    && forall i :: 0 <= i < n ==> s.log[i] == Record(KEY, Version(VALUE, i + 1, false))
  }

  lemma LogIsSmall(e: Engine, n: nat)
    requires e.Valid() && Flushed(e.Abs(), n)
    ensures e.wal.writeOffset == n * FRAME_BYTES
  {
    var h := e.wal.history;
    LogIsImage(e.cipher, e.wal.base[..], h, e.wal.writeOffset);
    forall i | 0 <= i < |h| ensures |h[i].frame| == FRAME_BYTES {
      assert ToLog(h)[i] == ToRecord(h[i].rec);
      assert e.Abs().log[i] == Record(KEY, Version(VALUE, i + 1, false));
      assert h[i] in h;
      FrameIsSmall(e.cipher, h[i]);
    }
    ImageOfSmall(h);
  }

  lemma SmallIsAccepted(w: Wal, last: nat, offset: nat, key: bytes)
    requires |key| == KEY_BYTES && w.crypto == FailingCipher(key) && offset + FRAME_BYTES <= w.capacity
    ensures w.Accepts(OP_SET, KEY, VALUE, 0, 1, last, offset)
  {
    FailingIsLawful(key);
    FrameLength(WalRecord(OP_SET, NextSeq(last), 0, KEY, VALUE), w.crypto.encrypt(KEY + VALUE, 1).value);
  }

  lemma LogHasRoom(e: Engine, n: nat, env: Surroundings, key: bytes)
    requires e.Valid() && Flushed(e.Abs(), n) && n < 4 && e.wal.capacity == LOG_BYTES
    requires |key| == KEY_BYTES && e.cipher == FailingCipher(key) && env.timestamp == 0 && env.nonceSeed == 1
    ensures e.WalAccepts(OP_SET, KEY, VALUE, env)
  {
    LogIsSmall(e, n);
    SmallIsAccepted(e.wal, e.wal.lastSeq, e.wal.writeOffset, key);
  }

  lemma PutInFlushed(s: Store, n: nat)
    requires Flushed(s, n)
    ensures var p := PutIn(s, KEY, VALUE, false);
            && p.mem == map[KEY := Version(VALUE, n + 1, false)] != map[]
            && Flushed(Rotated(p), n + 1)
  {
    assert KEY in PutIn(s, KEY, VALUE, false).mem;
  }

  // ---------- One write, and what its flush does ----------

  // An engine alone in its cluster whose memtable is flushed by every write.
  ghost predicate IsSmall(e: Engine, key: bytes, n: nat)
    reads e, e.wal, e.wal.base, e.memtable
  {
    && |key| == KEY_BYTES && e.cipher == FailingCipher(key) && e.options == ALONE
    && e.wal.capacity == LOG_BYTES && e.memtable.budget == 0
    && e.Valid() && Flushed(e.Abs(), n)
  }

  // The write is logged, applied and flushed.
  method WriteOnce(e: Engine, key: bytes, ghost n: nat, env: Surroundings) returns (r: Result<nat>)
    requires IsSmall(e, key, n) && n < 4 && env.timestamp == 0 && env.nonceSeed == 1
    modifies e`l0, e`l1, e`left0, e`left1, e`layers0, e`layers1, e`trace, e.wal, e.wal.base, e.memtable
    ensures e.wal.base == old(e.wal.base) && e.Valid()
    ensures var put := PutIn(old(e.Abs()), KEY, VALUE, false);
            && e.Abs() == Apply(put, FlushEvent(e.cipher, put, env))
            && (r.Ok? <==> FlushEvent(e.cipher, put, env) == Flush)
            && Grown(old(e.left0), e.left0, FlushLeaves(e.cipher, put, env))
            && Grown(old(e.left1), e.left1, FlushCompactLeaves(e.cipher, put, env))
  {
    LogHasRoom(e, n, env, key);
    SetReaches(e.cipher, e.trace, e.Abs(), KEY, VALUE, env, true, true, 0);
    r := e.Set(KEY, VALUE, env);
  }

  // With fewer than four tables a flush that can write its table does only that.
  lemma FlushOfFew(cipher: Cipher, p: Store, env: Surroundings)
    requires p.mem != map[] && |p.l0| < 3 && CanWrite(cipher, p.mem, env.flushSeeds, env.flushFault)
    ensures FlushEvent(cipher, p, env) == Flush && Apply(p, Flush) == Rotated(p)
    ensures !FlushLeaves(cipher, p, env) && !FlushCompactLeaves(cipher, p, env)
  {
  }

  lemma QuietFlush(key: bytes, s: Store, n: nat, env: Surroundings)
    requires |key| == KEY_BYTES && Flushed(s, n) && n < 3 && env == Calm(1, 1)
    ensures var put := PutIn(s, KEY, VALUE, false);
            && FlushEvent(FailingCipher(key), put, env) == Flush && Flushed(Apply(put, Flush), n + 1)
            && !FlushLeaves(FailingCipher(key), put, env) && !FlushCompactLeaves(FailingCipher(key), put, env)
  {
    var put := PutIn(s, KEY, VALUE, false);
    PutInFlushed(s, n);
    assert CanWrite(FailingCipher(key), put.mem, env.flushSeeds, env.flushFault) by {
      OneRecordIsWritten(key, Version(VALUE, n + 1, false), env.flushSeeds);
    }
    FlushOfFew(FailingCipher(key), put, env);
  }

  method FillOne(e: Engine, key: bytes, ghost n: nat)
    requires IsSmall(e, key, n) && n < 3
    modifies e`l0, e`l1, e`left0, e`left1, e`layers0, e`layers1, e`trace, e.wal, e.wal.base, e.memtable
    ensures e.wal.base == old(e.wal.base) && IsSmall(e, key, n + 1)
    ensures e.left0 == old(e.left0) && e.left1 == old(e.left1)
  {
    QuietFlush(key, e.Abs(), n, Calm(1, 1));
    var _ := WriteOnce(e, key, n, Calm(1, 1));
  }

  // ---------- The two runs ----------

  // Opening the directories as they are.
  method OpenAgain(e: Engine) returns (r: Result<()>)
    requires e.Valid()
    ensures e.left0 != [] || e.left1 != [] ==> r == Err(Corruption)
  {
    var disk := Disk(e.wal.base[..], FilesOf(e.l0) + e.left0, FilesOf(e.l1) + e.left1);
    var e';
    r, e' := Restart(e, disk, e.left0, e.left1);
  }

  /** A write whose flush cannot encrypt its record: it fails and reads as absent, although it is logged, and
      the directory does not open any more. */
  method FailedFlushBlocksOpen(key: bytes, hash: Hash)
    returns (written: Result<nat>, read: Result<bytes>, again: Result<()>)
    requires |key| == KEY_BYTES
    ensures written.Err? && read == Err(NotFound) && again == Err(Corruption)
  {
    FailingIsLawful(key);
    var e := Start(FailingCipher(key), hash, ALONE, LOG_BYTES, 0);
    PutInFlushed(EMPTY, 0);
    NothingIsWritten(key, PutIn(EMPTY, KEY, VALUE, false).mem, Calm(0, 0).flushSeeds);
    written := WriteOnce(e, key, 0, Calm(0, 0));
    read := e.Get(KEY);
    again := OpenAgain(e);
  }

  // A merge of tables without tombstones has the keys of each of them.
  lemma {:induction false} MergeOfLive(ts: seq<Layer>)
    requires ts != [] && forall i :: 0 <= i < |ts| ==> KEY in ts[i] && !ts[i][KEY].tombstone
    ensures KEY in MergeAll(ts) && !MergeAll(ts)[KEY].tombstone
  {
    if |ts| > 1 {
      MergeOfLive(ts[..|ts| - 1]);
    }
  }

  lemma FourthFlush(key: bytes, s: Store, env: Surroundings)
    requires |key| == KEY_BYTES && Flushed(s, 3) && env == Calm(1, 0)
    ensures var put := PutIn(s, KEY, VALUE, false);
            && FlushEvent(FailingCipher(key), put, env) == FlushOnly
            && FlushCompactLeaves(FailingCipher(key), put, env)
  {
    var put := PutIn(s, KEY, VALUE, false);
    PutInFlushed(s, 3);
    assert CanWrite(FailingCipher(key), put.mem, env.flushSeeds, env.flushFault) by {
      OneRecordIsWritten(key, Version(VALUE, 4, false), env.flushSeeds);
    }
    MergeOfLive(Rotated(put).l0);
    assert KEY in Live(Rotated(put));
    NothingIsWritten(key, Live(Rotated(put)), env.compactSeeds);
  }

  method ThreeTables(key: bytes, hash: Hash) returns (e: Engine)
    requires |key| == KEY_BYTES
    ensures fresh(e) && fresh(e.wal) && fresh(e.wal.base) && fresh(e.memtable)
    ensures IsSmall(e, key, 3) && e.left0 == e.left1 == []
  {
    FailingIsLawful(key);
    e := Start(FailingCipher(key), hash, ALONE, LOG_BYTES, 0);
    FillOne(e, key, 0);
    FillOne(e, key, 1);
    FillOne(e, key, 2);
  }

  /** Four writes, each flushed; the compaction behind the last cannot encrypt its records. The write fails
      although it is read, and the directory does not open any more. */
  method FailedCompactionBlocksOpen(key: bytes, hash: Hash)
    returns (written: Result<nat>, read: Result<bytes>, again: Result<()>)
    requires |key| == KEY_BYTES
    ensures written.Err? && read == Ok(VALUE) && again == Err(Corruption)
  {
    var e := ThreeTables(key, hash);
    FourthFlush(key, e.Abs(), Calm(1, 0));
    PutInFlushed(e.Abs(), 3);
    written := WriteOnce(e, key, 3, Calm(1, 0));
    read := e.Get(KEY);
    again := OpenAgain(e);
  }
}
