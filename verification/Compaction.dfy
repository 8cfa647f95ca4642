/** Compaction of all L0 tables into one L1 table (src/compaction.cpp). */
module Compaction {
  import opened Bytes
  import opened Results
  import opened Crypto
  import opened Bloom
  import opened Tables
  import opened Sstable
  import opened SstBuilder
  import opened TableFiles
  import opened Lsm

  // Merging a sorted table record by record is merging its layer.
  lemma {:induction false} MergeTable(m: Layer, t: Table)
    requires Sorted(t)
    ensures Merge(m, t) == MergeLayer(m, ToLayer(t))
    decreases |t|
  {
    if t == [] {
      assert MergeLayer(m, map[]) == m;
    } else {
      var n := |t| - 1;
      var init, r := t[..n], t[n];
      MergeTable(m, init);
      LastIsNew(t);
      MergeOne(m, ToLayer(init), r);
    }
  }

  lemma MergeOne(m: Layer, c: Layer, r: Record)
    requires r.key !in c
    ensures Merge1(MergeLayer(m, c), r) == MergeLayer(m, Merge1(c, r))
  {
  }

  lemma LastIsNew(t: Table)
    requires Sorted(t) && t != []
    ensures t[|t| - 1].key !in ToLayer(t[..|t| - 1])
  {
    var n := |t| - 1;
    SortedHolds(t[..n]);
    LessIrreflexive(t[n].key);
  }

  // The loop that keeps the record with the larger sequence number, shared by compaction and scans.
  method MergeRecords(m: Layer, records: Table) returns (m': Layer)
    requires Sorted(records)
    ensures m' == MergeLayer(m, ToLayer(records))
  {
    m' := m;
    for i := 0 to |records|
      invariant m' == Merge(m, records[..i])
    {
      MergeSnoc(m, records[..i], records[i]);
      assert records[..i + 1] == records[..i] + [records[i]];
      if records[i].key !in m' || records[i].version.seqNo > m'[records[i].key].seqNo {
        m' := m'[records[i].key := records[i].version];
      }
    }
    assert records[..|records|] == records;
    MergeTable(m, records);
  }

  lemma MergeAllSnoc(layers: seq<Layer>, i: nat)
    requires i < |layers|
    ensures MergeAll(layers[..i + 1]) == MergeLayer(MergeAll(layers[..i]), layers[i])
  {
    assert layers[..i + 1][..i] == layers[..i];
  }

  /** The latest version per key over all L0 tables. */
  method LatestByKey(cipher: Cipher, ghost hash: Hash, l0: seq<Reader>, ghost layers: seq<Layer>)
    returns (latest: Layer)
    requires HoldAll(cipher, hash, l0, layers)
    ensures latest == MergeAll(layers)
  {
    latest := map[];
    for i := 0 to |l0|
      invariant latest == MergeAll(layers[..i])
    {
      var records := ReadAll(cipher, hash, l0[i], layers[i]);
      latest := MergeRecords(latest, records);
      MergeAllSnoc(layers, i);
    }
    assert layers[..|l0|] == layers;
  }

  /** Compacting keeps the newest live version per key. It yields a table if and only if there are
      tables, a live version is left and the output can be written. When none is left no file is written,
      and opening the output path fails; an output that was begun but not finished is left behind. */
  method CompactLevel0ToLevel1(cipher: Cipher, hash: Hash, l0: seq<Reader>, seeds: nat -> nat, fault: WriteFault,
                               ghost layers: seq<Layer>)
    returns (r: Result<Reader>, left: seq<bytes>)
    requires Lawful(cipher) && HoldAll(cipher, hash, l0, layers) && LayerFits(MergeAll(layers))
    ensures var live := DropTombstones(MergeAll(layers));
            && (r.Ok? <==> l0 != [] && live != map[] && Writable(cipher, TableOf(live), seeds, fault))
            && (r.Ok? ==> Holds(cipher, hash, r.value, live))
            && (l0 == [] ==> r == Err(InvalidArgument))
            && (l0 != [] && live == map[] ==> r == Err(IoError))
            && (r.Err? && l0 != [] ==> r.code == IoError || FailsWith(cipher, TableOf(live), seeds, r.code))
            && (|left| == if r.Ok? || l0 == [] || live == map[] || fault.NoFile? then 0 else 1)
    ensures NoneOpens(left)
  {
    left := [];
    if l0 == [] {
      return Err(InvalidArgument), left;
    }
    var latest := LatestByKey(cipher, hash, l0, layers);
    var live := DropTombstones(latest);
    var t := SortLayer(live);
    SortedIsUnique(t, TableOf(live));
    SortedHolds(t);
    if t == [] {
      // There is no output file to open.
      return Err(IoError), left;
    }
    assert t[0].key in live;
    FittingNumbers(t);
    r, left := BuildTable(cipher, hash, t, seeds, fault);
  }
}
