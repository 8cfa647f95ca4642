/** Reading a table file (`SstableReader`, src/sstable.cpp): opening it, lookups, prefix scans, and reading
    it whole. */
module Sstable {
  import opened Bytes
  import opened Results
  import opened Crypto
  import opened Tables
  import opened Bloom
  import opened SstFormat

  // An opened table: its file and what Open read from it.
  datatype Reader = Reader(file: bytes, keyCount: nat, index: seq<IndexEntry>, bloom: Filter)

  ghost function OpenSpec(file: bytes): Option<Reader> {
    match ReadHeader(file)
    case None => None
    case Some(h) =>
      match (ReadIndexAt(file, h.indexOffset), ReadFilterAt(file, h.bloomOffset))
      case (Some(index), Some(bloom)) => Some(Reader(file, h.keyCount, index, bloom))
      case _ => None
  }

  /** A file with another magic or another version does not open. */
  lemma ForeignFileIsRefused(file: bytes)
    requires |file| < 10 || file[..8] != [0x56, 0x4B, 0x53, 0x53, 0x54, 0x42, 0x4C, 0x31] || file[8..10] != [1, 0]
    ensures OpenSpec(file).None?
  {
    if |file| >= HEADER_BYTES {
      assert file[8..][..2] == file[8..10];
      LeUnique(file[8..10]);
      assert Le(1, 2) == [1, 0];
    }
  }

  /** Reading the header, the index entries one by one and the filter. */
  method Open(file: bytes) returns (r: Result<Reader>)
    ensures r.Ok? <==> OpenSpec(file).Some?
    ensures r.Ok? ==> r.value == OpenSpec(file).value
    ensures r.Err? ==> r.code == Corruption
  {
    var header := ReadHeader(file);
    if header.None? {
      return Err(Corruption);
    }
    var at := header.value.indexOffset;
    if at + 8 > |file| {
      return Err(Corruption);
    }
    var index := ReadIndexEntries(file[at + 8..], LeValue(file[at..at + 8]));
    if index.None? {
      return Err(Corruption);
    }
    var bloom := ReadFilterAt(file, header.value.bloomOffset);
    if bloom.None? {
      return Err(Corruption);
    }
    r := Ok(Reader(file, header.value.keyCount, index.value, bloom.value));
  }

  method ReadIndexEntries(bytes: bytes, count: nat) returns (r: Option<seq<IndexEntry>>)
    ensures r.None? <==> ReadEntries(bytes, count).None?
    ensures r.Some? ==> r.value == ReadEntries(bytes, count).value.0
  {
    var index: seq<IndexEntry> := [];
    var p := bytes;
    PrependNothing(ReadEntries(bytes, count));
    for i := 0 to count
      invariant |index| == i
      invariant ReadEntries(bytes, count) == Prepend(index, ReadEntries(p, count - i))
    {
      var e := ReadEntry(p);
      if e.None? {
        return None;
      }
      PrependSnoc(index, e.value.0, ReadEntries(e.value.1, count - i - 1));
      index := index + [e.value.0];
      p := e.value.1;
    }
    r := Some(index);
  }

  lemma PrependNothing(r: Option<(seq<IndexEntry>, bytes)>)
    ensures Prepend([], r) == r
  {
    if r.Some? {
      assert [] + r.value.0 == r.value.0;
    }
  }

  ghost function Prepend(es: seq<IndexEntry>, r: Option<(seq<IndexEntry>, bytes)>): Option<(seq<IndexEntry>, bytes)> {
    match r
    case None => None
    case Some((more, rest)) => Some((es + more, rest))
  }

  lemma PrependSnoc(es: seq<IndexEntry>, e: IndexEntry, r: Option<(seq<IndexEntry>, bytes)>)
    ensures Prepend(es, Prepend([e], r)) == Prepend(es + [e], r)
  {
    if r.Some? {
      assert es + ([e] + r.value.0) == es + [e] + r.value.0;
    }
  }

  // ---------- An intact table ----------

  ghost predicate IndexSorted(index: seq<IndexEntry>) {
    forall i, j :: 0 <= i < j < |index| ==> Less(index[i].key, index[j].key)
  }

  // Every index entry leads to a record of its key, the keys ascend, and the filter covers them.
  ghost predicate Intact(cipher: Cipher, hash: Hash, r: Reader) {
    && InBounds(r.bloom)
    && (forall i :: 0 <= i < |r.index| ==> EntryIntact(cipher, hash, r, r.index[i]))
    && IndexSorted(r.index)
  }

  ghost predicate EntryIntact(cipher: Cipher, hash: Hash, r: Reader, e: IndexEntry)
    requires InBounds(r.bloom)
  {
    && Covers(hash, r.bloom, e.key)
    && ReadRecordAt(cipher, r.file, e.offset).Ok?
    && ReadRecordAt(cipher, r.file, e.offset).value.key == e.key
  }

  // The records of an intact table, in key order.
  ghost function Contents(cipher: Cipher, hash: Hash, r: Reader): (t: Table)
    requires Intact(cipher, hash, r)
    ensures Sorted(t) && |t| == |r.index|
    ensures forall i :: 0 <= i < |t| ==> t[i].key == r.index[i].key
    ensures forall i :: 0 <= i < |t| ==> ReadRecordAt(cipher, r.file, r.index[i].offset) == Ok(t[i])
  {
    seq(|r.index|, i requires 0 <= i < |r.index| =>
          assert EntryIntact(cipher, hash, r, r.index[i]); ReadRecordAt(cipher, r.file, r.index[i].offset).value)
  }

  method LowerBound(index: seq<IndexEntry>, key: bytes) returns (lo: nat)
    requires IndexSorted(index)
    ensures lo <= |index|
    ensures forall i :: 0 <= i < lo ==> Less(index[i].key, key)
    ensures forall i :: lo <= i < |index| ==> !Less(index[i].key, key)
  {
    lo := 0;
    var hi := |index|;
    while lo < hi
      invariant lo <= hi <= |index|
      invariant forall i :: 0 <= i < lo ==> Less(index[i].key, key)
      invariant forall i :: hi <= i < |index| ==> !Less(index[i].key, key)
    {
      var mid := (lo + hi) / 2;
      if Less(index[mid].key, key) {
        forall i | 0 <= i < mid ensures Less(index[i].key, key) {
          LessTransitive(index[i].key, index[mid].key, key);
        }
        lo := mid + 1;
      } else {
        forall i | mid < i < |index| ensures !Less(index[i].key, key) {
          if Less(index[i].key, key) { LessTransitive(index[mid].key, index[i].key, key); }
        }
        hi := mid;
      }
    }
  }

  /** A key the filter excludes or the index lacks is not found; otherwise the record at the key's offset
      is read, whether or not that succeeds. On an intact table this is a lookup in its layer. */
  method Get(cipher: Cipher, hash: Hash, r: Reader, key: bytes) returns (res: Result<Record>)
    requires InBounds(r.bloom) && IndexSorted(r.index)
    ensures !Covers(hash, r.bloom, key) || (forall i :: 0 <= i < |r.index| ==> r.index[i].key != key) ==>
              res == Err(NotFound)
    ensures forall i :: 0 <= i < |r.index| && r.index[i].key == key && Covers(hash, r.bloom, key) ==>
              res == ReadRecordAt(cipher, r.file, r.index[i].offset)
    ensures Intact(cipher, hash, r) && key in ToLayer(Contents(cipher, hash, r)) ==>
              res == Ok(Record(key, ToLayer(Contents(cipher, hash, r))[key]))
    ensures Intact(cipher, hash, r) && key !in ToLayer(Contents(cipher, hash, r)) ==> res == Err(NotFound)
  {
    res := SearchAndRead(cipher, hash, r, key);
    if Intact(cipher, hash, r) {
      FoundInLayer(cipher, hash, r, key, res);
    }
  }

  method SearchAndRead(cipher: Cipher, hash: Hash, r: Reader, key: bytes) returns (res: Result<Record>)
    requires InBounds(r.bloom) && IndexSorted(r.index)
    ensures !Covers(hash, r.bloom, key) || (forall i :: 0 <= i < |r.index| ==> r.index[i].key != key) ==>
              res == Err(NotFound)
    ensures forall i :: 0 <= i < |r.index| && r.index[i].key == key && Covers(hash, r.bloom, key) ==>
              res == ReadRecordAt(cipher, r.file, r.index[i].offset)
  {
    LessIrreflexive(key);
    var maybe := MightContain(hash, r.bloom, key);
    if !maybe {
      return Err(NotFound);
    }
    var lo := LowerBound(r.index, key);
    assert forall i :: 0 <= i < |r.index| && r.index[i].key == key ==> i == lo by {
      forall i | 0 <= i < |r.index| && r.index[i].key == key ensures i == lo {
        assert lo <= i;
        var first := r.index[lo];
      }
    }
    if lo == |r.index| || r.index[lo].key != key {
      return Err(NotFound);
    }
    res := ReadRecordAt(cipher, r.file, r.index[lo].offset);
  }

  lemma FoundInLayer(cipher: Cipher, hash: Hash, r: Reader, key: bytes, res: Result<Record>)
    requires Intact(cipher, hash, r)
    requires (forall i :: 0 <= i < |r.index| ==> r.index[i].key != key) ==> res == Err(NotFound)
    requires forall i :: 0 <= i < |r.index| && r.index[i].key == key && Covers(hash, r.bloom, key) ==>
               res == ReadRecordAt(cipher, r.file, r.index[i].offset)
    ensures var m := ToLayer(Contents(cipher, hash, r));
            res == if key in m then Ok(Record(key, m[key])) else Err(NotFound)
  {
    var t := Contents(cipher, hash, r);
    SortedHolds(t);
    if key in ToLayer(t) {
      var i :| 0 <= i < |t| && t[i].key == key;
      assert EntryIntact(cipher, hash, r, r.index[i]);
    }
  }

  type RecordReader = nat -> Result<Record>

  function ReaderOf(cipher: Cipher, file: bytes): RecordReader {
    (offset: nat) => ReadRecordAt(cipher, file, offset)
  }

  // The records that index entries lead to, without those that cannot be read.
  function Readable(read: RecordReader, entries: seq<IndexEntry>): Table {
    if entries == [] then []
    else
      match read(entries[0].offset)
      case Ok(rec) => [rec] + Readable(read, entries[1..])
      case Err(_) => Readable(read, entries[1..])
  }

  lemma {:induction false} ReadableConcat(read: RecordReader, a: seq<IndexEntry>, b: seq<IndexEntry>)
    ensures Readable(read, a + b) == Readable(read, a) + Readable(read, b)
  {
    if a == [] {
      assert a + b == b;
    } else {
      ReadableConcat(read, a[1..], b);
      assert (a + b)[1..] == a[1..] + b && (a + b)[0] == a[0];
      if read(a[0].offset).Ok? {
        Associate([read(a[0].offset).value], Readable(read, a[1..]), Readable(read, b));
      }
    }
  }

  lemma ReadableSnoc(read: RecordReader, index: seq<IndexEntry>, lo: nat, i: nat)
    requires lo <= i < |index|
    ensures Readable(read, index[lo..i + 1])
         == Readable(read, index[lo..i]) + match read(index[i].offset) case Ok(rec) => [rec] case Err(_) => []
  {
    var last := [index[i]];
    assert index[lo..i + 1] == index[lo..i] + last && last[1..] == [];
    ReadableConcat(read, index[lo..i], last);
    assert Readable(read, last[1..]) == [];
  }

  // Every entry of the index reads as the record at its place in the table.
  ghost predicate Reads(read: RecordReader, index: seq<IndexEntry>, t: Table) {
    && |t| == |index|
    && forall i :: 0 <= i < |t| ==> read(index[i].offset) == Ok(t[i]) && t[i].key == index[i].key
  }

  lemma {:induction false} AllReadable(read: RecordReader, index: seq<IndexEntry>, t: Table)
    requires Reads(read, index, t)
    ensures Readable(read, index) == t
  {
    if index != [] { AllReadable(read, index[1..], t[1..]); }
  }

  // The matching entries of a sorted index are those from lo up to hi.
  ghost predicate MatchesAt(index: seq<IndexEntry>, prefix: bytes, lo: nat, hi: nat) {
    && lo <= hi <= |index|
    && forall i :: 0 <= i < |index| ==> (HasPrefix(index[i].key, prefix) <==> lo <= i < hi)
  }

  ghost function KeyTable(index: seq<IndexEntry>): Table {
    seq(|index|, i requires 0 <= i < |index| => Record(index[i].key, Version([], 0, false)))
  }

  lemma RangeMatches(index: seq<IndexEntry>, prefix: bytes, lo: nat, hi: nat)
    requires IndexSorted(index) && IsPrefixRange(KeyTable(index), prefix, lo, hi)
    ensures MatchesAt(index, prefix, lo, hi)
  {
    var t := KeyTable(index);
    forall i | 0 <= i < |index| ensures HasPrefix(index[i].key, prefix) <==> lo <= i < hi {
      assert t[i].key == index[i].key;
      if i < lo || hi <= i { OutsideRange(t, prefix, lo, hi, i); }
    }
  }

  // The first place from i on, if any, whose key lacks the prefix.
  ghost function FirstMiss(index: seq<IndexEntry>, prefix: bytes, i: nat): (hi: nat)
    requires i <= |index|
    ensures i <= hi <= |index| && (forall j :: i <= j < hi ==> HasPrefix(index[j].key, prefix))
    ensures hi < |index| ==> !HasPrefix(index[hi].key, prefix)
    decreases |index| - i
  {
    if i == |index| || !HasPrefix(index[i].key, prefix) then i else FirstMiss(index, prefix, i + 1)
  }

  // The scan loop from the lower bound on, over any way of reading records.
  method ScanFrom(read: RecordReader, index: seq<IndexEntry>, lo: nat, prefix: bytes, limit: nat)
    returns (out: Table)
    requires lo <= |index|
    ensures out == Take(Readable(read, index[lo..FirstMiss(index, prefix, lo)]), limit)
  {
    out := [];
    var i := lo;
    while i < |index| && |out| < limit
      invariant lo <= i <= |index| && |out| <= limit
      invariant out == Readable(read, index[lo..i])
      invariant FirstMiss(index, prefix, i) == FirstMiss(index, prefix, lo)
    {
      if !HasPrefix(index[i].key, prefix) {
        break;
      }
      ReadableSnoc(read, index, lo, i);
      var rec := read(index[i].offset);
      if rec.Ok? {
        out := out + [rec.value];
      }
      i := i + 1;
    }
    ghost var hi := FirstMiss(index, prefix, i);
    assert index[lo..hi] == index[lo..i] + index[i..hi];
    ReadableConcat(read, index[lo..i], index[i..hi]);
    assert hi == i ==> index[i..hi] == [];
  }

  /** A prefix scan returns the first `limit` records that can be read among the matching ones, which lie
      next to each other. On an intact table those are the first `limit` matches. */
  method ScanPrefix(cipher: Cipher, ghost hash: Hash, r: Reader, prefix: bytes, limit: nat)
    returns (out: Table, ghost lo: nat, ghost hi: nat)
    requires IndexSorted(r.index)
    ensures MatchesAt(r.index, prefix, lo, hi)
    ensures out == Take(Readable(ReaderOf(cipher, r.file), r.index[lo..hi]), limit)
    ensures Intact(cipher, hash, r) ==> out == Take(Matching(Contents(cipher, hash, r), prefix), limit)
  {
    var at := LowerBound(r.index, prefix);
    lo := at;
    hi := FirstMiss(r.index, prefix, at);
    out := ScanFrom(ReaderOf(cipher, r.file), r.index, at, prefix, limit);
    RangeMatches(r.index, prefix, lo, hi);
    if Intact(cipher, hash, r) {
      IntactRange(cipher, hash, r, prefix, lo, hi);
    }
  }

  lemma IntactRange(cipher: Cipher, hash: Hash, r: Reader, prefix: bytes, lo: nat, hi: nat)
    requires Intact(cipher, hash, r) && MatchesAt(r.index, prefix, lo, hi)
    ensures Readable(ReaderOf(cipher, r.file), r.index[lo..hi]) == Matching(Contents(cipher, hash, r), prefix)
  {
    var t := Contents(cipher, hash, r);
    MatchingSlice(t, prefix, lo, hi);
    AllReadable(ReaderOf(cipher, r.file), r.index[lo..hi], t[lo..hi]);
  }

  method AllFrom(read: RecordReader, index: seq<IndexEntry>) returns (out: Table)
    ensures out == Readable(read, index)
  {
    out := [];
    for i := 0 to |index|
      invariant out == Readable(read, index[0..i])
    {
      ReadableSnoc(read, index, 0, i);
      var rec := read(index[i].offset);
      if rec.Ok? {
        out := out + [rec.value];
      }
    }
    assert index[0..|index|] == index;
  }

  /** All records that can be read, in index order; on an intact table, its contents. */
  method AllRecords(cipher: Cipher, ghost hash: Hash, r: Reader) returns (out: Table)
    ensures out == Readable(ReaderOf(cipher, r.file), r.index)
    ensures Intact(cipher, hash, r) ==> out == Contents(cipher, hash, r)
  {
    out := AllFrom(ReaderOf(cipher, r.file), r.index);
    if Intact(cipher, hash, r) {
      AllReadable(ReaderOf(cipher, r.file), r.index, Contents(cipher, hash, r));
    }
  }
}
