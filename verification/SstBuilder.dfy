/** `SstableBuilder` (src/sstable.cpp), and the refinement of "latest record per key" by the file it
    writes. */
module SstBuilder {
  import opened Bytes
  import opened Folding
  import opened Results
  import opened Crc
  import opened Crypto
  import opened Tables
  import opened Bloom
  import opened SstFormat
  import opened Sstable

  const FOOTER_MAGIC: bytes := [0x56, 0x4B, 0x46, 0x54, 0x52, 0x30, 0x30, 0x31]
  const BLOOM_HASHES: nat := 7

  // The file is opened as an intact table that holds exactly the layer.
  ghost predicate Represents(cipher: Cipher, hash: Hash, file: bytes, m: Layer) {
    && OpenSpec(file).Some?
    && Intact(cipher, hash, OpenSpec(file).value)
    && ToLayer(Contents(cipher, hash, OpenSpec(file).value)) == m
    && OpenSpec(file).value.keyCount == |m|
  }

  // How writing a file goes wrong: not at all, the file cannot be opened, or writing stops after some bytes.
  // The final header is written last, in one piece.
  datatype WriteFault = Fine | NoFile | StopsAt(count: nat)

  // A file has fewer than 2^64 bytes.
  function Room(fault: WriteFault): nat {
    if fault.StopsAt? && fault.count < UINT64_SIZE then fault.count else UINT64_SIZE - 1
  }

  // The header before the offsets are known.
  function Placeholder(keyCount: nat): (header: bytes)
    ensures |header| == HEADER_BYTES
  {
    HeaderBytes(Header(keyCount, 0, 0, 0))
  }

  // The table's records can be encoded, and its file is small enough and can be written.
  ghost predicate Writable(cipher: Cipher, t: Table, seeds: nat -> nat, fault: WriteFault) {
    fault.Fine? && AllEncode(cipher, t, seeds) && FileSize(t) < UINT64_SIZE
  }

  // The records written so far lie in the file at the offsets of the index.
  ghost predicate Laid(cipher: Cipher, out: bytes, t: Table, index: seq<IndexEntry>) {
    && |index| == |t|
    && forall i :: 0 <= i < |t| ==> LaidAt(cipher, out, t[i], index[i])
  }

  ghost predicate LaidAt(cipher: Cipher, out: bytes, r: Record, e: IndexEntry) {
    && RecordFits(r) && e.key == r.key && HEADER_BYTES <= e.offset
    && exists chunk :: IsChunk(cipher, r, chunk) && ChunkAt(out, e.offset, chunk)
  }

  // Appending, and overwriting the header, leaves the records where they are.
  lemma ChunkStays(out: bytes, header: bytes, more: bytes, offset: nat, chunk: bytes)
    requires ChunkAt(out, offset, chunk) && |header| == HEADER_BYTES <= offset
    ensures HEADER_BYTES <= |out| && ChunkAt(out + more, offset, chunk)
    ensures ChunkAt(header + out[HEADER_BYTES..], offset, chunk)
  {
    var end := offset + |chunk|;
    assert (out + more)[offset..end] == out[offset..end];
    assert (header + out[HEADER_BYTES..])[offset..end] == out[offset..end];
  }

  lemma LaidStays(cipher: Cipher, out: bytes, header: bytes, more: bytes, t: Table, index: seq<IndexEntry>)
    requires Laid(cipher, out, t, index) && |header| == HEADER_BYTES <= |out|
    ensures Laid(cipher, out + more, t, index)
    ensures Laid(cipher, header + out[HEADER_BYTES..], t, index)
  {
    forall i | 0 <= i < |t|
      ensures LaidAt(cipher, out + more, t[i], index[i])
      ensures LaidAt(cipher, header + out[HEADER_BYTES..], t[i], index[i])
    {
      assert LaidAt(cipher, out, t[i], index[i]);
      var chunk :| IsChunk(cipher, t[i], chunk) && ChunkAt(out, index[i].offset, chunk);
      ChunkStays(out, header, more, index[i].offset, chunk);
    }
  }

  // ---------- Sizes ----------

  function RecordsSize(t: Table): nat {
    if t == [] then 0
    else RecordsSize(t[..|t| - 1]) + RECORD_HEADER_BYTES + |t[|t| - 1].key| + |t[|t| - 1].version.value|
  }

  function IndexSize(t: Table): nat {
    if t == [] then 0 else 10 + |t[0].key| + IndexSize(t[1..])
  }

  function BloomBits(n: nat): nat {
    if 10 * n > 64 then 10 * n else 64
  }

  // Header, records, index, filter and footer.
  function FileSize(t: Table): nat {
    HEADER_BYTES + RecordsSize(t) + (8 + IndexSize(t)) + (20 + (BloomBits(|t|) + 7) / 8) + 28
  }

  lemma {:induction false} EntriesSize(index: seq<IndexEntry>, t: Table)
    requires |index| == |t| && forall i :: 0 <= i < |t| ==> index[i].key == t[i].key
    ensures |EntriesBytes(index)| == IndexSize(t)
  {
    if t != [] { EntriesSize(index[1..], t[1..]); }
  }

  method SerializeRecord(ghost cipher: Cipher, r: Record, blob: Blob) returns (out: bytes)
    requires Seals(cipher, r.version.value, blob)
    ensures out == RecordBytes(r, blob)
    ensures |out| == RECORD_HEADER_BYTES + |r.key| + |r.version.value|
  {
    var f1 := WriteLe(|r.key|, 2);
    var f2 := WriteLe(|r.version.value|, 4);
    var f3 := WriteLe(r.version.seqNo, 8);
    var f4: bytes := [if r.version.tombstone then 1 else 0];
    var f5 := WriteLe(|blob.ciphertext|, 4);
    out := f1 + (f2 + (f3 + (f4 + (f5 + (blob.nonce + (blob.tag + (r.key + blob.ciphertext)))))));
  }

  // The record's sizes fit their fields and its value is encrypted.
  predicate Encodes(cipher: Cipher, r: Record, seed: nat) {
    RecordFits(r) && cipher.encrypt(r.version.value, seed).Some?
  }

  function FailureOf(r: Record): Code {
    if RecordFits(r) then CryptoError else InvalidArgument
  }

  predicate AllEncode(cipher: Cipher, t: Table, seeds: nat -> nat) {
    forall i :: 0 <= i < |t| ==> Encodes(cipher, t[i], seeds(i))
  }

  // The first record that cannot be encoded decides the code.
  ghost predicate FailsWith(cipher: Cipher, t: Table, seeds: nat -> nat, code: Code) {
    exists i :: 0 <= i < |t| && !Encodes(cipher, t[i], seeds(i)) && code == FailureOf(t[i]) &&
      forall j :: 0 <= j < i ==> Encodes(cipher, t[j], seeds(j))
  }

  ghost predicate EncodesTo(cipher: Cipher, t: Table, seeds: nat -> nat, n: nat) {
    n <= |t| && forall u: nat :: Unfold(u) ==> forall i :: 0 <= i < n ==> Encodes(cipher, t[i], seeds(i))
  }

  lemma EncodesNext(cipher: Cipher, t: Table, seeds: nat -> nat, n: nat)
    requires EncodesTo(cipher, t, seeds, n) && n < |t|
    ensures Encodes(cipher, t[n], seeds(n)) ==> EncodesTo(cipher, t, seeds, n + 1)
    ensures !Encodes(cipher, t[n], seeds(n)) ==>
              !AllEncode(cipher, t, seeds) && FailsWith(cipher, t, seeds, FailureOf(t[n]))
  {
    assert Unfold(0);
  }

  lemma EncodesAll(cipher: Cipher, t: Table, seeds: nat -> nat)
    requires EncodesTo(cipher, t, seeds, |t|)
    ensures AllEncode(cipher, t, seeds)
  {
    assert Unfold(0);
  }

  // The bytes of a record that can be encoded.
  function ChunkOf(cipher: Cipher, r: Record, seed: nat): bytes
    requires Encodes(cipher, r, seed)
  {
    RecordBytes(r, cipher.encrypt(r.version.value, seed).value)
  }

  // The bytes of the records in front of the first one that cannot be encoded.
  ghost function EncodedBytes(cipher: Cipher, t: Table, seeds: nat -> nat): bytes {
    if t == [] then []
    else
      var n := |t| - 1;
      EncodedBytes(cipher, t[..n], seeds) +
      (if AllEncode(cipher, t, seeds) then ChunkOf(cipher, t[n], seeds(n)) else [])
  }

  lemma EncodedGrows(cipher: Cipher, t: Table, seeds: nat -> nat, i: nat)
    requires i < |t| && EncodesTo(cipher, t, seeds, i) && Encodes(cipher, t[i], seeds(i))
    ensures EncodedBytes(cipher, t[..i + 1], seeds)
         == EncodedBytes(cipher, t[..i], seeds) + ChunkOf(cipher, t[i], seeds(i))
  {
    assert Unfold(0);
    assert t[..i + 1][..i] == t[..i] && AllEncode(cipher, t[..i + 1], seeds);
  }

  lemma EncodedSkips(cipher: Cipher, t: Table, seeds: nat -> nat)
    requires t != [] && !AllEncode(cipher, t, seeds)
    ensures EncodedBytes(cipher, t, seeds) == EncodedBytes(cipher, t[..|t| - 1], seeds)
  {
  }

  lemma {:induction false} EncodedStops(cipher: Cipher, t: Table, seeds: nat -> nat, i: nat)
    requires i < |t| && !Encodes(cipher, t[i], seeds(i))
    ensures EncodedBytes(cipher, t, seeds) == EncodedBytes(cipher, t[..i], seeds)
    decreases |t|
  {
    var n := |t| - 1;
    EncodedSkips(cipher, t, seeds);
    if i < n {
      EncodedStops(cipher, t[..n], seeds, i);
      assert t[..n][..i] == t[..i];
    }
  }

  method EncodeRecord(cipher: Cipher, r: Record, seed: nat) returns (chunk: Result<bytes>)
    requires Lawful(cipher) && r.version.seqNo < UINT64_SIZE
    ensures chunk.Ok? <==> Encodes(cipher, r, seed)
    ensures chunk.Ok? ==> IsChunk(cipher, r, chunk.value) && chunk.value == ChunkOf(cipher, r, seed)
    ensures chunk.Ok? ==> |chunk.value| == RECORD_HEADER_BYTES + |r.key| + |r.version.value|
    ensures chunk.Err? ==> chunk.code == FailureOf(r)
    ensures chunk == Err(InvalidArgument) <==> |r.key| > 65535 || |r.version.value| > 4294967295
    ensures chunk == Err(CryptoError) ==> cipher.encrypt(r.version.value, seed).None?
  {
    if |r.key| >= UINT16_SIZE || |r.version.value| >= UINT32_SIZE {
      return Err(InvalidArgument);
    }
    var blob := cipher.encrypt(r.version.value, seed);
    if blob.None? {
      return Err(CryptoError);
    }
    var out := SerializeRecord(cipher, r, blob.value);
    chunk := Ok(out);
  }

  // The loop that writes the records behind the header placeholder and collects the index. What was
  // written stays when a record cannot be encoded.
  method WriteRecords(cipher: Cipher, header: bytes, t: Table, seeds: nat -> nat)
    returns (r: Result<seq<IndexEntry>>, out: bytes)
    requires Lawful(cipher) && |header| == HEADER_BYTES
    requires forall i :: 0 <= i < |t| ==> t[i].version.seqNo < UINT64_SIZE
    ensures out == header + EncodedBytes(cipher, t, seeds)
    ensures r.Ok? ==> Laid(cipher, out, t, r.value) && |out| == HEADER_BYTES + RecordsSize(t)
    ensures r.Ok? <==> AllEncode(cipher, t, seeds)
    ensures r.Err? ==> FailsWith(cipher, t, seeds, r.code)
  {
    out := header;
    var index: seq<IndexEntry> := [];
    for i := 0 to |t|
      invariant out == header + EncodedBytes(cipher, t[..i], seeds) && Laid(cipher, out, t[..i], index)
      invariant |out| == HEADER_BYTES + RecordsSize(t[..i])
      invariant EncodesTo(cipher, t, seeds, i)
    {
      EncodesNext(cipher, t, seeds, i);
      var chunk := EncodeRecord(cipher, t[i], seeds(i));
      if chunk.Err? {
        EncodedStops(cipher, t, seeds, i);
        return Err(chunk.code), out;
      }
      TakeSnoc(t, i);
      EncodedGrows(cipher, t, seeds, i);
      LaidGrows(cipher, out, t[..i], index, t[i], chunk.value);
      Associate(header, EncodedBytes(cipher, t[..i], seeds), chunk.value);
      index := index + [IndexEntry(t[i].key, |out|)];
      out := out + chunk.value;
    }
    assert t[..|t|] == t;
    EncodesAll(cipher, t, seeds);
    r := Ok(index);
  }

  // Appending a record's bytes lays the record down behind the others.
  lemma LaidGrows(cipher: Cipher, out: bytes, t: Table, index: seq<IndexEntry>, r: Record, chunk: bytes)
    requires Laid(cipher, out, t, index) && HEADER_BYTES <= |out|
    requires RecordFits(r) && IsChunk(cipher, r, chunk)
    requires |chunk| == RECORD_HEADER_BYTES + |r.key| + |r.version.value|
    ensures Laid(cipher, out + chunk, t + [r], index + [IndexEntry(r.key, |out|)])
    ensures RecordsSize(t + [r]) == RecordsSize(t) + |chunk|
  {
  }

  lemma LaidEntriesFit(cipher: Cipher, out: bytes, t: Table, index: seq<IndexEntry>)
    requires Laid(cipher, out, t, index) && |out| < UINT64_SIZE
    ensures forall i :: 0 <= i < |index| ==> EntryFits(index[i])
  {
  }

  /** Ten bits for each key, 64 at least, and seven hashes. */
  lemma FilterSize(n: nat)
    ensures BloomBits(n) == (if n > 6 then 10 * n else 64) && BLOOM_HASHES == 7
  {
  }

  method FillFilter(hash: Hash, index: seq<IndexEntry>) returns (f: Filter)
    ensures WellSized(f) && f.hashCount == BLOOM_HASHES
    ensures f.bitCount == BloomBits(|index|)
    ensures forall i :: 0 <= i < |index| ==> Covers(hash, f, index[i].key)
  {
    var bloom := new BloomFilter(hash, BloomBits(|index|), BLOOM_HASHES);
    for i := 0 to |index|
      invariant bloom.Valid() && fresh(bloom) && fresh(bloom.bits)
      invariant forall j :: 0 <= j < i ==> index[j].key in bloom.added
    {
      bloom.Add(index[i].key);
    }
    f := Filter(bloom.bitCount, bloom.hashCount, bloom.bits[..]);
  }

  // The file Build writes: records, index, filter and footer behind the final header.
  ghost predicate Assembled(file: bytes, index: seq<IndexEntry>, bloom: Filter, keyCount: nat, h: Header) {
    && |file| < UINT64_SIZE
    && HeaderBytes(h) <= file
    && h.keyCount == keyCount && h.footerOffset <= |file|
    && ChunkAt(file, h.indexOffset, IndexBytes(index))
    && ChunkAt(file, h.bloomOffset, FilterBytes(bloom))
  }

  lemma AssembledOpens(file: bytes, index: seq<IndexEntry>, bloom: Filter, keyCount: nat, h: Header)
    requires Assembled(file, index, bloom, keyCount, h)
    requires keyCount < UINT64_SIZE && |index| < UINT64_SIZE
    requires bloom.bitCount < UINT64_SIZE && bloom.hashCount < UINT32_SIZE
    requires forall i :: 0 <= i < |index| ==> EntryFits(index[i])
    ensures OpenSpec(file) == Some(Reader(file, keyCount, index, bloom))
  {
    var tail := file[HEADER_BYTES..];
    assert file == HeaderBytes(h) + tail;
    HeaderRoundTrip(h, tail);
    IndexRoundTrip(index, file, h.indexOffset);
    assert |bloom.bits| <= |FilterBytes(bloom)|;
    FilterRoundTrip(bloom, file, h.bloomOffset);
  }

  lemma LaidIsIntact(cipher: Cipher, hash: Hash, r: Reader, t: Table)
    requires Sorted(t) && Laid(cipher, r.file, t, r.index) && WellSized(r.bloom)
    requires forall i :: 0 <= i < |r.index| ==> Covers(hash, r.bloom, r.index[i].key)
    ensures Intact(cipher, hash, r) && Contents(cipher, hash, r) == t
  {
    forall i | 0 <= i < |t|
      ensures EntryIntact(cipher, hash, r, r.index[i])
      ensures ReadRecordAt(cipher, r.file, r.index[i].offset) == Ok(t[i])
    {
      assert LaidAt(cipher, r.file, t[i], r.index[i]);
      var chunk :| IsChunk(cipher, t[i], chunk) && ChunkAt(r.file, r.index[i].offset, chunk);
      RecordRoundTrip(cipher, t[i], chunk, r.file, r.index[i].offset);
    }
  }

  class SstableBuilder {
    const cipher: Cipher
    const hash: Hash
    var records: seq<Record>

    constructor (cipher: Cipher, hash: Hash)
      ensures this.cipher == cipher && this.hash == hash && records == []
    {
      this.cipher, this.hash, records := cipher, hash, [];
    }

    method Add(key: bytes, value: bytes, seqNo: nat, tombstone: bool)
      modifies this
      ensures records == old(records) + [Record(key, Version(value, seqNo, tombstone))]
    {
      records := records + [Record(key, Version(value, seqNo, tombstone))];
    }

    // Keeps the latest version of duplicate keys.
    method Latest() returns (latest: Layer)
      ensures latest == Merge(map[], records)
    {
      latest := map[];
      for i := 0 to |records|
        invariant latest == Merge(map[], records[..i])
      {
        MergeSnoc(map[], records[..i], records[i]);
        assert records[..i + 1] == records[..i] + [records[i]];
        if records[i].key !in latest || records[i].version.seqNo > latest[records[i].key].seqNo {
          latest := latest[records[i].key := records[i].version];
        }
      }
      assert records[..|records|] == records;
    }

    /** Building succeeds if and only if there are records, the latest version of each key fits and
        encrypts, and the file can be written. It then opens as the table of those versions. Otherwise, as
        soon as the file was opened, what was written stays in it: the placeholder of the header and, as
        far as the writes went, the records in front of the first that cannot be encoded, or everything
        but the final header. */
    method Build(seeds: nat -> nat, fault: WriteFault) returns (r: Result<()>, file: Option<bytes>, ghost stream: bytes)
      requires Lawful(cipher)
      requires forall i :: 0 <= i < |records| ==> records[i].version.seqNo < UINT64_SIZE
      ensures var t := TableOf(Merge(map[], records));
              && (records == [] ==> r == Err(InvalidArgument))
              && (r.Ok? <==> records != [] && Writable(cipher, t, seeds, fault))
              && (r.Err? && records != [] ==> r.code == IoError || FailsWith(cipher, t, seeds, r.code))
              && (file.None? <==> records == [] || fault.NoFile?)
      ensures r.Ok? ==> Represents(cipher, hash, file.value, Merge(map[], records))
      ensures r.Ok? ==> |file.value| == FileSize(TableOf(Merge(map[], records)))
      ensures r.Err? && file.Some? ==>
        var t := TableOf(Merge(map[], records));
        && file.value == Take(stream, Room(fault)) && Placeholder(|t|) <= stream
        && (AllEncode(cipher, t, seeds) ==> |stream| == FileSize(t))
        && (!AllEncode(cipher, t, seeds) ==> stream == Placeholder(|t|) + EncodedBytes(cipher, t, seeds))
        && (!AllEncode(cipher, t, seeds) && |stream| <= Room(fault) ==> FailsWith(cipher, t, seeds, r.code))
    {
      stream := [];
      if records == [] {
        return Err(InvalidArgument), None, stream;
      }
      if fault.NoFile? {
        return Err(IoError), None, stream;
      }
      var latest := Latest();
      var t := SortLayer(latest);
      TableComesFromRecords(records, t);
      forall i | 0 <= i < |t| ensures t[i].version.seqNo < UINT64_SIZE {
        assert t[i] in records;
      }
      SortedIsUnique(t, TableOf(latest));
      r, file, stream := WriteFile(cipher, hash, t, seeds, fault);
    }
  }

  // Writes the file of a table.
  method WriteFile(cipher: Cipher, hash: Hash, t: Table, seeds: nat -> nat, fault: WriteFault)
    returns (r: Result<()>, file: Option<bytes>, ghost stream: bytes)
    requires Lawful(cipher) && Sorted(t) && !fault.NoFile?
    requires forall i :: 0 <= i < |t| ==> t[i].version.seqNo < UINT64_SIZE
    ensures file.Some? && (r.Ok? <==> Writable(cipher, t, seeds, fault))
    ensures r.Err? ==> r.code == IoError || FailsWith(cipher, t, seeds, r.code)
    ensures r.Ok? ==> Represents(cipher, hash, file.value, ToLayer(t)) && |file.value| == FileSize(t)
    ensures r.Err? ==>
      && file.value == Take(stream, Room(fault)) && Placeholder(|t|) <= stream
      && (AllEncode(cipher, t, seeds) ==> |stream| == FileSize(t))
      && (!AllEncode(cipher, t, seeds) ==> stream == Placeholder(|t|) + EncodedBytes(cipher, t, seeds))
      && (!AllEncode(cipher, t, seeds) && |stream| <= Room(fault) ==> FailsWith(cipher, t, seeds, r.code))
  {
    var written, out := WriteRecords(cipher, Placeholder(|t|), t, seeds);
    if written.Err? {
      return Err(written.code), Some(Take(out, Room(fault))), out;
    }
    var index := written.value;
    var bloom := FillFilter(hash, index);
    var whole, finished := Finish(out, index, bloom, |t|);
    AssembleSize(cipher, out, index, bloom, t);
    if fault.StopsAt? || |whole| >= UINT64_SIZE {
      return Err(IoError), Some(Take(whole, Room(fault))), whole;
    }
    FinishedIsTable(cipher, hash, out, index, bloom, t, finished);
    r, file, stream := Ok(()), Some(finished), whole;
  }

  lemma FinishedIsTable(cipher: Cipher, hash: Hash, out: bytes, index: seq<IndexEntry>, bloom: Filter, t: Table,
                        file: bytes)
    requires HEADER_BYTES <= |out| && Sorted(t) && Laid(cipher, out, t, index) && FileSize(t) < UINT64_SIZE
    requires |out| == HEADER_BYTES + RecordsSize(t) && bloom.bitCount == BloomBits(|index|)
    requires WellSized(bloom) && bloom.hashCount == BLOOM_HASHES
    requires forall i :: 0 <= i < |index| ==> Covers(hash, bloom, index[i].key)
    requires file == Assemble(out, index, bloom, |t|)
    ensures Represents(cipher, hash, file, ToLayer(t))
  {
    var r := Reader(file, |t|, index, bloom);
    assert OpenSpec(file) == Some(r) by { FinishedOpens(cipher, out, index, bloom, t, r); }
    assert Laid(cipher, file, t, index) by { AssembleLays(cipher, out, index, bloom, t); }
    LaidRepresents(cipher, hash, r, t);
  }

  lemma FinishedOpens(cipher: Cipher, out: bytes, index: seq<IndexEntry>, bloom: Filter, t: Table, r: Reader)
    requires HEADER_BYTES <= |out| && Laid(cipher, out, t, index) && FileSize(t) < UINT64_SIZE
    requires |out| == HEADER_BYTES + RecordsSize(t) && bloom.bitCount == BloomBits(|index|)
    requires WellSized(bloom) && bloom.hashCount == BLOOM_HASHES
    requires r == Reader(Assemble(out, index, bloom, |t|), |t|, index, bloom)
    ensures OpenSpec(r.file) == Some(r)
  {
    AssembleSize(cipher, out, index, bloom, t);
    AssembleLength(out, index, bloom, |t|);
    assert forall i :: 0 <= i < |index| ==> EntryFits(index[i]) by { LaidEntriesFit(cipher, out, t, index); }
    AssembleOpens(out, index, bloom);
  }

  lemma LaidRepresents(cipher: Cipher, hash: Hash, r: Reader, t: Table)
    requires Sorted(t) && Laid(cipher, r.file, t, r.index) && WellSized(r.bloom) && r.keyCount == |t|
    requires OpenSpec(r.file) == Some(r)
    requires forall i :: 0 <= i < |r.index| ==> Covers(hash, r.bloom, r.index[i].key)
    ensures Represents(cipher, hash, r.file, ToLayer(t))
  {
    LaidIsIntact(cipher, hash, r, t);
    KeysOfSorted(t);
  }

  /** End to end: looking a key up in the file built from some records finds the added record of the key
      with the largest sequence number, the first one on ties, and fails for exactly the keys that were
      never added. */
  method ReadBack(cipher: Cipher, hash: Hash, file: bytes, key: bytes, ghost records: seq<Record>)
    returns (r: Result<Record>, ghost i: int)
    requires Represents(cipher, hash, file, Merge(map[], records))
    ensures r.Ok? <==> exists j :: 0 <= j < |records| && records[j].key == key
    ensures r.Ok? ==> 0 <= i < |records| && records[i] == r.value && r.value.key == key && Wins(records, i)
    ensures r.Err? ==> r.code == NotFound
  {
    i := MergeFindsWinner(records, key);
    var reader := Open(file);
    r := Get(cipher, hash, reader.value, key);
  }

  function Footer(indexOffset: nat, bloomOffset: nat): bytes {
    var crcBytes := Le(indexOffset, 8) + Le(bloomOffset, 8);
    crcBytes + Le(Checksum(crcBytes), 4) + FOOTER_MAGIC
  }

  // The loop that writes the index.
  method WriteIndex(index: seq<IndexEntry>) returns (out: bytes)
    ensures out == IndexBytes(index)
  {
    out := WriteLe(|index|, 8);
    assert index[0..] == index;
    for i := 0 to |index|
      invariant out + EntriesBytes(index[i..]) == IndexBytes(index)
    {
      var keyLen := WriteLe(|index[i].key|, 2);
      var offset := WriteLe(index[i].offset, 8);
      var entry := keyLen + (index[i].key + offset);
      assert index[i..][1..] == index[i + 1..];
      Associate(out, entry, EntriesBytes(index[i + 1..]));
      out := out + entry;
    }
    assert out + EntriesBytes([]) == out;
  }

  method WriteFilter(f: Filter) returns (out: bytes)
    ensures out == FilterBytes(f)
  {
    var bitCount := WriteLe(f.bitCount, 8);
    var hashCount := WriteLe(f.hashCount, 4);
    var byteLen := WriteLe(|f.bits|, 8);
    out := bitCount + (hashCount + (byteLen + f.bits));
  }

  // Appends index, filter and footer, then puts the final header in place of the placeholder.
  method Finish(records: bytes, index: seq<IndexEntry>, bloom: Filter, keyCount: nat)
    returns (whole: bytes, file: bytes)
    requires HEADER_BYTES <= |records|
    ensures whole == Sections(records, index, bloom) && file == Assemble(records, index, bloom, keyCount)
  {
    var indexBytes := WriteIndex(index);
    var withIndex := records + indexBytes;
    var filterBytes := WriteFilter(bloom);
    var withFilter := withIndex + filterBytes;
    whole := withFilter + Footer(|records|, |withIndex|);
    file := HeaderBytes(Header(keyCount, |records|, |withIndex|, |withFilter|)) + whole[HEADER_BYTES..];
  }

  // The records with everything behind them.
  function Sections(out: bytes, index: seq<IndexEntry>, bloom: Filter): bytes {
    var out1 := out + IndexBytes(index);
    out1 + FilterBytes(bloom) + Footer(|out|, |out1|)
  }

  // The header with the final offsets in place of the placeholder.
  function Assemble(out: bytes, index: seq<IndexEntry>, bloom: Filter, keyCount: nat): bytes
    requires HEADER_BYTES <= |out|
  {
    var out1 := out + IndexBytes(index);
    var out2 := out1 + FilterBytes(bloom);
    HeaderBytes(Header(keyCount, |out|, |out1|, |out2|)) + Sections(out, index, bloom)[HEADER_BYTES..]
  }

  lemma AssembleSize(cipher: Cipher, out: bytes, index: seq<IndexEntry>, bloom: Filter, t: Table)
    requires |out| == HEADER_BYTES + RecordsSize(t) && Laid(cipher, out, t, index)
    requires WellSized(bloom) && bloom.bitCount == BloomBits(|index|)
    ensures |Assemble(out, index, bloom, |t|)| == |Sections(out, index, bloom)| == FileSize(t)
  {
  }

  lemma AssembleLays(cipher: Cipher, out: bytes, index: seq<IndexEntry>, bloom: Filter, t: Table)
    requires HEADER_BYTES <= |out| && Laid(cipher, out, t, index)
    ensures Laid(cipher, Assemble(out, index, bloom, |t|), t, index)
  {
    var out1 := out + IndexBytes(index);
    var out2 := out1 + FilterBytes(bloom);
    var footer := Footer(|out|, |out1|);
    var header := HeaderBytes(Header(|t|, |out|, |out1|, |out2|));
    LaidStays(cipher, out, header, IndexBytes(index), t, index);
    LaidStays(cipher, out1, header, FilterBytes(bloom), t, index);
    LaidStays(cipher, out2, header, footer, t, index);
    LaidStays(cipher, out2 + footer, header, [], t, index);
  }

  lemma AssembleLength(out: bytes, index: seq<IndexEntry>, bloom: Filter, keyCount: nat)
    requires HEADER_BYTES <= |out|
    ensures |Assemble(out, index, bloom, keyCount)| == |out| + |IndexBytes(index)| + |FilterBytes(bloom)| + 28
  {
  }

  lemma AssembleOpens(out: bytes, index: seq<IndexEntry>, bloom: Filter)
    requires HEADER_BYTES <= |out| && |out| + |IndexBytes(index)| + |FilterBytes(bloom)| + 28 < UINT64_SIZE
    requires forall i :: 0 <= i < |index| ==> EntryFits(index[i])
    requires WellSized(bloom) && bloom.hashCount < UINT32_SIZE
    requires bloom.bitCount == BloomBits(|index|)
    ensures var file := Assemble(out, index, bloom, |index|);
            OpenSpec(file) == Some(Reader(file, |index|, index, bloom))
  {
    var out1 := out + IndexBytes(index);
    var out2 := out1 + FilterBytes(bloom);
    var h := Header(|index|, |out|, |out1|, |out2|);
    var file := Assemble(out, index, bloom, |index|);
    EntriesTakeRoom(index);
    assert Assembled(file, index, bloom, |index|, h) by {
      SectionsLie(out, IndexBytes(index), FilterBytes(bloom), Footer(|out|, |out1|), HeaderBytes(h));
    }
    AssembledOpens(file, index, bloom, |index|, h);
  }

  lemma {:induction false} EntriesTakeRoom(index: seq<IndexEntry>)
    ensures 10 * |index| <= |EntriesBytes(index)|
  {
    if index != [] { EntriesTakeRoom(index[1..]); }
  }

  // The sections behind the records stay where they were appended when the header is rewritten.
  lemma SectionsLie(out: bytes, a: bytes, b: bytes, c: bytes, header: bytes)
    requires |header| == HEADER_BYTES <= |out|
    ensures var file := header + (out + a + b + c)[HEADER_BYTES..];
            && |file| == |out| + |a| + |b| + |c| && header <= file
            && ChunkAt(file, |out|, a) && ChunkAt(file, |out| + |a|, b)
  {
    var file := header + (out + a + b + c)[HEADER_BYTES..];
    var n := |out|;
    assert file[n..n + |a|] == (out + a + b + c)[n..n + |a|] == a;
    assert file[n + |a|..n + |a| + |b|] == (out + a + b + c)[n + |a|..n + |a| + |b|] == b;
  }

  lemma TableComesFromRecords(records: seq<Record>, t: Table)
    requires Sorted(t) && ToLayer(t) == Merge(map[], records)
    ensures forall r :: r in t ==> r in records
  {
    SortedHolds(t);
    forall r | r in t ensures r in records {
      var i :| 0 <= i < |t| && t[i] == r;
      var j := MergeFindsWinner(records, r.key);
      assert records[j] == r;
    }
  }
}
