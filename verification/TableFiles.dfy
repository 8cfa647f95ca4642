/** Table readers as the engine uses them: each stands for the layer its file holds. */
module TableFiles {
  import opened Bytes
  import opened Folding
  import opened Results
  import opened Crypto
  import opened Bloom
  import opened Tables
  import opened SstFormat
  import opened Sstable
  import opened SstBuilder
  import opened Leftovers
  import opened LsmScan

  // The file opens, again and again, as an intact table holding exactly the layer.
  ghost predicate IsTableOf(cipher: Cipher, hash: Hash, r: Reader, m: Layer) {
    && Intact(cipher, hash, r)
    && OpenSpec(r.file) == Some(r)
    && ToLayer(Contents(cipher, hash, r)) == m
  }

  ghost predicate Holds(cipher: Cipher, hash: Hash, r: Reader, m: Layer) {
    forall n: nat :: Unfold(n) ==> IsTableOf(cipher, hash, r, m)
  }

  lemma HoldsIs(cipher: Cipher, hash: Hash, r: Reader, m: Layer)
    ensures Holds(cipher, hash, r, m) <==> IsTableOf(cipher, hash, r, m)
  {
    assert Unfold(0);
  }

  // Readers and the layers they hold, in the same order.
  ghost predicate HoldAll(cipher: Cipher, hash: Hash, readers: seq<Reader>, layers: seq<Layer>) {
    |readers| == |layers| && forall i :: 0 <= i < |readers| ==> Holds(cipher, hash, readers[i], layers[i])
  }

  lemma HoldAllSnoc(cipher: Cipher, hash: Hash, readers: seq<Reader>, layers: seq<Layer>, r: Reader, m: Layer)
    requires HoldAll(cipher, hash, readers, layers) && Holds(cipher, hash, r, m)
    ensures HoldAll(cipher, hash, readers + [r], layers + [m])
  {
  }

  // ---------- Reading ----------

  method Lookup(cipher: Cipher, hash: Hash, r: Reader, key: bytes, ghost m: Layer) returns (v: Option<Version>)
    requires Holds(cipher, hash, r, m)
    ensures v == if key in m then Some(m[key]) else None
  {
    HoldsIs(cipher, hash, r, m);
    var res := Sstable.Get(cipher, hash, r, key);
    v := if res.Ok? then Some(res.value.version) else None;
  }

  method ReadAll(cipher: Cipher, ghost hash: Hash, r: Reader, ghost m: Layer) returns (t: Table)
    requires Holds(cipher, hash, r, m)
    ensures Sorted(t) && ToLayer(t) == m
  {
    HoldsIs(cipher, hash, r, m);
    t := AllRecords(cipher, hash, r);
  }

  method ScanTable(cipher: Cipher, ghost hash: Hash, r: Reader, prefix: bytes, limit: nat, ghost m: Layer)
    returns (t: Table)
    requires Holds(cipher, hash, r, m)
    ensures Sorted(t) && ToLayer(t) == Cut(m, prefix, limit)
  {
    HoldsIs(cipher, hash, r, m);
    ghost var lo: nat, hi: nat;
    t, lo, hi := ScanPrefix(cipher, hash, r, prefix, limit);
    CutOfTable(Contents(cipher, hash, r), m, prefix, limit);
  }

  lemma CutOfTable(t: Table, m: Layer, prefix: bytes, limit: nat)
    requires Sorted(t) && ToLayer(t) == m
    ensures var cut := Take(Matching(t, prefix), limit); Sorted(cut) && ToLayer(cut) == Cut(m, prefix, limit)
  {
    SortedIsUnique(t, TableOf(m));
    MatchingIsSorted(t, prefix);
  }

  // ---------- Building ----------

  ghost predicate LayerFits(m: Layer) {
    forall k :: k in m ==> RecordFits(Record(k, m[k]))
  }

  method AddAll(builder: SstableBuilder, t: Table)
    requires builder.records == []
    modifies builder
    ensures builder.records == t
  {
    for i := 0 to |t|
      invariant builder.records == t[..i]
    {
      builder.Add(t[i].key, t[i].version.value, t[i].version.seqNo, t[i].version.tombstone);
    }
    assert t[..|t|] == t;
  }

  /** Builds and opens the table of some records, if and only if there are any and it is writable. A file
      that was opened but not finished is left behind, and never opens. */
  method BuildTable(cipher: Cipher, hash: Hash, t: Table, seeds: nat -> nat, fault: WriteFault)
    returns (r: Result<Reader>, left: seq<bytes>)
    requires Lawful(cipher) && Sorted(t) && forall i :: 0 <= i < |t| ==> t[i].version.seqNo < UINT64_SIZE
    ensures r.Ok? <==> t != [] && Writable(cipher, t, seeds, fault)
    ensures r.Ok? ==> Holds(cipher, hash, r.value, ToLayer(t))
    ensures t == [] ==> r == Err(InvalidArgument)
    ensures r.Err? && t != [] ==> r.code == IoError || FailsWith(cipher, t, seeds, r.code)
    ensures |left| == if r.Ok? || t == [] || fault.NoFile? then 0 else 1
    ensures NoneOpens(left)
  {
    var builder := new SstableBuilder(cipher, hash);
    AddAll(builder, t);
    SortedIsUnique(t, TableOf(ToLayer(t)));
    var done, file, stream := builder.Build(seeds, fault);
    if done.Err? {
      if file.None? {
        return Err(done.code), [];
      }
      LeftoverNeverOpens(|t|, stream, fault, file.value);
      NeverOpens(file.value);
      return Err(done.code), [file.value];
    }
    r := Open(file.value);
    left := [];
    RepresentsHolds(cipher, hash, file.value, ToLayer(t));
  }

  lemma NeverOpens(file: bytes)
    requires OpenSpec(file).None?
    ensures !Opens(file)
  {
    assert Unfold(0);
  }

  // Files that are no tables.
  ghost predicate NoneOpens(files: seq<bytes>) {
    forall i :: 0 <= i < |files| ==> !Opens(files[i])
  }

  lemma FittingNumbers(t: Table)
    requires Sorted(t) && LayerFits(ToLayer(t))
    ensures forall i :: 0 <= i < |t| ==> t[i].version.seqNo < UINT64_SIZE
  {
    SortedHolds(t);
    forall i | 0 <= i < |t| ensures t[i].version.seqNo < UINT64_SIZE {
      assert RecordFits(Record(t[i].key, ToLayer(t)[t[i].key]));
    }
  }

  lemma RepresentsHolds(cipher: Cipher, hash: Hash, file: bytes, m: Layer)
    requires Represents(cipher, hash, file, m)
    ensures Holds(cipher, hash, OpenSpec(file).value, m)
  {
  }

  // ---------- Opening files again ----------

  ghost predicate FileHolds(cipher: Cipher, hash: Hash, file: bytes, m: Layer) {
    forall n: nat :: Unfold(n) ==> OpenSpec(file).Some? && Holds(cipher, hash, OpenSpec(file).value, m)
  }

  ghost predicate FilesHold(cipher: Cipher, hash: Hash, files: seq<bytes>, layers: seq<Layer>) {
    |files| == |layers| && forall i :: 0 <= i < |files| ==> FileHolds(cipher, hash, files[i], layers[i])
  }

  ghost predicate Opens(file: bytes) {
    forall n: nat :: Unfold(n) ==> OpenSpec(file).Some?
  }

  ghost predicate OpensAs(file: bytes, r: Reader) {
    forall n: nat :: Unfold(n) ==> OpenSpec(file) == Some(r)
  }

  method OpenFile(file: bytes) returns (r: Result<Reader>)
    ensures r.Ok? <==> Opens(file)
    ensures r.Ok? ==> OpensAs(file, r.value)
    ensures r.Err? ==> r.code == Corruption
  {
    r := Open(file);
    assert Unfold(0);
  }

  // The readers are what the files open as.
  ghost predicate OpenedFrom(readers: seq<Reader>, files: seq<bytes>) {
    |readers| == |files| && forall i :: 0 <= i < |files| ==> OpensAs(files[i], readers[i])
  }

  ghost predicate AllOpen(files: seq<bytes>) {
    forall i :: 0 <= i < |files| ==> Opens(files[i])
  }

  /** Opening the files of a level succeeds if and only if each of them opens, and gives their readers in
      order. */
  method OpenFiles(files: seq<bytes>) returns (r: Result<seq<Reader>>)
    ensures r.Ok? <==> AllOpen(files)
    ensures r.Ok? ==> OpenedFrom(r.value, files)
    ensures r.Err? ==> r.code == Corruption
  {
    var readers: seq<Reader> := [];
    for i := 0 to |files|
      invariant OpenedFrom(readers, files[..i])
    {
      var reader := OpenFile(files[i]);
      if reader.Err? {
        return Err(reader.code);
      }
      OpenedSnoc(readers, files, i, reader.value);
      readers := readers + [reader.value];
    }
    assert files[..|files|] == files;
    OpenedIsOpen(readers, files);
    r := Ok(readers);
  }

  lemma OpenedSnoc(readers: seq<Reader>, files: seq<bytes>, i: nat, r: Reader)
    requires i < |files| && OpenedFrom(readers, files[..i]) && OpensAs(files[i], r)
    ensures OpenedFrom(readers + [r], files[..i + 1])
  {
    forall j | 0 <= j <= i ensures OpensAs(files[..i + 1][j], (readers + [r])[j]) {
      if j < i { assert OpensAs(files[..i][j], readers[j]); }
    }
  }

  lemma OpenedIsOpen(readers: seq<Reader>, files: seq<bytes>)
    requires OpenedFrom(readers, files)
    ensures AllOpen(files)
  {
    forall i | 0 <= i < |files| ensures Opens(files[i]) {
      assert OpensAs(files[i], readers[i]);
    }
  }

  /** Files that hold layers open, as readers that hold them. */
  lemma HeldFilesOpen(cipher: Cipher, hash: Hash, files: seq<bytes>, layers: seq<Layer>)
    requires FilesHold(cipher, hash, files, layers)
    ensures AllOpen(files)
    ensures forall readers :: OpenedFrom(readers, files) ==> HoldAll(cipher, hash, readers, layers)
  {
    assert Unfold(0);
    forall i | 0 <= i < |files| ensures Opens(files[i]) {
      assert FileHolds(cipher, hash, files[i], layers[i]);
    }
    forall readers | OpenedFrom(readers, files) ensures HoldAll(cipher, hash, readers, layers) {
      forall i | 0 <= i < |readers| ensures Holds(cipher, hash, readers[i], layers[i]) {
        assert FileHolds(cipher, hash, files[i], layers[i]) && OpensAs(files[i], readers[i]);
      }
    }
  }
}
