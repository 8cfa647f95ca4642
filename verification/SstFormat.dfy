/** The byte layout of a sorted-string table (src/sstable.cpp): records, index, Bloom filter and
    header, each written and read back. The header is laid out without padding, and the footer,
    which no reader looks at, is whatever follows the filter. */
module SstFormat {
  import opened Bytes
  import opened Results
  import opened Crypto
  import opened Tables
  import opened Bloom

  const HEADER_BYTES: nat := 44
  const RECORD_HEADER_BYTES: nat := 47
  const MAGIC: bytes := [0x56, 0x4B, 0x53, 0x53, 0x54, 0x42, 0x4C, 0x31]
  const VERSION: nat := 1

  // ---------- Records ----------

  function RecordBytes(r: Record, blob: Blob): bytes {
    Le(|r.key|, 2) + (Le(|r.version.value|, 4) + (Le(r.version.seqNo, 8) + ([if r.version.tombstone then 1 else 0] +
      (Le(|blob.ciphertext|, 4) + (blob.nonce + (blob.tag + (r.key + blob.ciphertext)))))))
  }

  datatype RecordHeader = RecordHeader(
    keyLen: nat, valLen: nat, seqNo: nat, tomb: byte, cipherLen: nat, nonce: bytes, tag: bytes, rest: bytes)

  function ReadRecordHeader(p: bytes): (h: RecordHeader)
    requires |p| >= RECORD_HEADER_BYTES
    ensures |h.rest| == |p| - RECORD_HEADER_BYTES
  {
    var p1 := p[2..];
    var p2 := p1[4..];
    var p3 := p2[8..];
    var p4 := p3[1..];
    var p5 := p4[4..];
    var p6 := p5[NONCE_BYTES..];
    RecordHeader(LeValue(p[..2]), LeValue(p1[..4]), LeValue(p2[..8]), p3[0], LeValue(p4[..4]),
                 p5[..NONCE_BYTES], p6[..TAG_BYTES], p6[TAG_BYTES..])
  }

  function ParseRecord(cipher: Cipher, p: bytes): Result<Record> {
    if |p| < RECORD_HEADER_BYTES then Err(Corruption)
    else
      var h := ReadRecordHeader(p);
      if |h.rest| < h.keyLen then Err(Corruption)
      else if |h.rest| < h.keyLen + h.cipherLen then Err(Corruption)
      else
        match cipher.decrypt(Blob(h.nonce, h.tag, h.rest[h.keyLen..h.keyLen + h.cipherLen]))
        case None => Err(Corruption)
        case Some(value) =>
          if |value| != h.valLen then Err(Corruption)
          else Ok(Record(h.rest[..h.keyLen], Version(value, h.seqNo, h.tomb != 0)))
  }

  // A read past the end of the file fails.
  function ReadRecordAt(cipher: Cipher, file: bytes, offset: nat): Result<Record> {
    if offset > |file| then Err(Corruption) else ParseRecord(cipher, file[offset..])
  }

  predicate RecordFits(r: Record) {
    |r.key| < UINT16_SIZE && |r.version.value| < UINT32_SIZE && r.version.seqNo < UINT64_SIZE
  }

  ghost predicate IsChunk(cipher: Cipher, r: Record, chunk: bytes) {
    exists blob :: Seals(cipher, r.version.value, blob) && chunk == RecordBytes(r, blob)
  }

  lemma HeaderOfRecord(r: Record, blob: Blob, tail: bytes)
    requires RecordFits(r) && |blob.ciphertext| == |r.version.value|
    requires |blob.nonce| == NONCE_BYTES && |blob.tag| == TAG_BYTES
    ensures |RecordBytes(r, blob)| >= RECORD_HEADER_BYTES
    ensures ReadRecordHeader(RecordBytes(r, blob) + tail)
         == RecordHeader(|r.key|, |r.version.value|, r.version.seqNo, if r.version.tombstone then 1 else 0,
                         |r.version.value|, blob.nonce, blob.tag, (r.key + blob.ciphertext) + tail)
  {
    var f7 := r.key + blob.ciphertext;
    var f6 := blob.tag + f7;
    var f5 := blob.nonce + f6;
    var f4 := Le(|blob.ciphertext|, 4) + f5;
    var tomb: bytes := [if r.version.tombstone then 1 else 0];
    var f3 := tomb + f4;
    var f2 := Le(r.version.seqNo, 8) + f3;
    var f1 := Le(|r.version.value|, 4) + f2;
    Words();
    Peel(Le(|r.key|, 2), f1, tail);
    Peel(Le(|r.version.value|, 4), f2, tail);
    Peel(Le(r.version.seqNo, 8), f3, tail);
    Peel(tomb, f4, tail);
    Peel(Le(|blob.ciphertext|, 4), f5, tail);
    Peel(blob.nonce, f6, tail);
    Peel(blob.tag, f7, tail);
  }

  lemma SealedRecordRoundTrip(cipher: Cipher, r: Record, blob: Blob, chunk: bytes, tail: bytes)
    requires RecordFits(r) && Seals(cipher, r.version.value, blob) && chunk == RecordBytes(r, blob)
    ensures ParseRecord(cipher, chunk + tail) == Ok(r)
  {
    HeaderOfRecord(r, blob, tail);
    var rest, n, m := (r.key + blob.ciphertext) + tail, |r.key|, |blob.ciphertext|;
    assert rest[..n] == r.key && rest[n..n + m] == blob.ciphertext;
    assert Blob(blob.nonce, blob.tag, blob.ciphertext) == blob;
  }

  predicate ChunkAt(file: bytes, offset: nat, chunk: bytes) {
    offset + |chunk| <= |file| && file[offset..offset + |chunk|] == chunk
  }

  /** A record written at an offset is read back from there, whatever lies around it. */
  lemma RecordRoundTrip(cipher: Cipher, r: Record, chunk: bytes, file: bytes, offset: nat)
    requires RecordFits(r) && IsChunk(cipher, r, chunk) && ChunkAt(file, offset, chunk)
    ensures ReadRecordAt(cipher, file, offset) == Ok(r)
  {
    var blob :| Seals(cipher, r.version.value, blob) && chunk == RecordBytes(r, blob);
    var tail := file[offset + |chunk|..];
    assert file[offset..] == chunk + tail;
    SealedRecordRoundTrip(cipher, r, blob, chunk, tail);
  }

  // ---------- Index ----------

  datatype IndexEntry = IndexEntry(key: bytes, offset: nat)

  predicate EntryFits(e: IndexEntry) {
    |e.key| < UINT16_SIZE && e.offset < UINT64_SIZE
  }

  function EntryBytes(e: IndexEntry): bytes {
    Le(|e.key|, 2) + (e.key + Le(e.offset, 8))
  }

  function EntriesBytes(index: seq<IndexEntry>): bytes {
    if index == [] then [] else EntryBytes(index[0]) + EntriesBytes(index[1..])
  }

  function ReadEntry(p: bytes): (r: Option<(IndexEntry, bytes)>)
    ensures r.Some? ==> |r.value.1| < |p|
  {
    if |p| < 2 then None
    else
      var keyLen := LeValue(p[..2]);
      var p1 := p[2..];
      if |p1| < keyLen + 8 then None
      else
        var p2 := p1[keyLen..];
        Some((IndexEntry(p1[..keyLen], LeValue(p2[..8])), p2[8..]))
  }

  function ReadEntries(p: bytes, n: nat): Option<(seq<IndexEntry>, bytes)>
    decreases n
  {
    if n == 0 then Some(([], p))
    else
      match ReadEntry(p)
      case None => None
      case Some((e, p1)) =>
        match ReadEntries(p1, n - 1)
        case None => None
        case Some((es, rest)) => Some(([e] + es, rest))
  }

  lemma EntryRoundTrip(e: IndexEntry, tail: bytes)
    requires EntryFits(e)
    ensures ReadEntry(EntryBytes(e) + tail) == Some((e, tail))
  {
    Words();
    Peel(Le(|e.key|, 2), e.key + Le(e.offset, 8), tail);
    Peel(e.key, Le(e.offset, 8), tail);
    assert (Le(e.offset, 8) + tail)[..8] == Le(e.offset, 8);
    assert (Le(e.offset, 8) + tail)[8..] == tail;
  }

  lemma {:induction false} EntriesRoundTrip(index: seq<IndexEntry>, tail: bytes)
    requires forall i :: 0 <= i < |index| ==> EntryFits(index[i])
    ensures ReadEntries(EntriesBytes(index) + tail, |index|) == Some((index, tail))
  {
    if index == [] {
      assert EntriesBytes(index) + tail == tail;
    } else {
      var rest := EntriesBytes(index[1..]) + tail;
      assert EntriesBytes(index) + tail == EntryBytes(index[0]) + rest;
      EntryRoundTrip(index[0], rest);
      EntriesRoundTrip(index[1..], tail);
      assert index == [index[0]] + index[1..];
    }
  }

  function IndexBytes(index: seq<IndexEntry>): bytes {
    Le(|index|, 8) + EntriesBytes(index)
  }

  function ReadIndexAt(file: bytes, offset: nat): Option<seq<IndexEntry>> {
    if offset + 8 > |file| then None
    else
      match ReadEntries(file[offset + 8..], LeValue(file[offset..offset + 8]))
      case None => None
      case Some((index, _)) => Some(index)
  }

  lemma IndexRoundTrip(index: seq<IndexEntry>, file: bytes, offset: nat)
    requires |index| < UINT64_SIZE && (forall i :: 0 <= i < |index| ==> EntryFits(index[i]))
    requires ChunkAt(file, offset, IndexBytes(index))
    ensures ReadIndexAt(file, offset) == Some(index)
  {
    var chunk := IndexBytes(index);
    var tail := file[offset + |chunk|..];
    assert file[offset..] == chunk + tail;
    Words();
    Peel(Le(|index|, 8), EntriesBytes(index), tail);
    assert file[offset..offset + 8] == (chunk + tail)[..8];
    assert file[offset + 8..] == (chunk + tail)[8..];
    EntriesRoundTrip(index, tail);
  }

  // ---------- Bloom filter ----------

  function FilterBytes(f: Filter): bytes {
    Le(f.bitCount, 8) + (Le(f.hashCount, 4) + (Le(|f.bits|, 8) + f.bits))
  }

  function ReadFilterAt(file: bytes, offset: nat): Option<Filter> {
    if offset + 20 > |file| then None
    else
      var p := file[offset..];
      var p1 := p[8..];
      var p2 := p1[4..];
      var p3 := p2[8..];
      var byteLen := LeValue(p2[..8]);
      if |p3| < byteLen then None
      else Some(Filter(LeValue(p[..8]), LeValue(p1[..4]), p3[..byteLen]))
  }

  lemma FilterRoundTrip(f: Filter, file: bytes, offset: nat)
    requires f.bitCount < UINT64_SIZE && f.hashCount < UINT32_SIZE && |f.bits| < UINT64_SIZE
    requires ChunkAt(file, offset, FilterBytes(f))
    ensures ReadFilterAt(file, offset) == Some(f)
  {
    var chunk := FilterBytes(f);
    var tail := file[offset + |chunk|..];
    assert file[offset..] == chunk + tail;
    Words();
    Peel(Le(f.bitCount, 8), Le(f.hashCount, 4) + (Le(|f.bits|, 8) + f.bits), tail);
    Peel(Le(f.hashCount, 4), Le(|f.bits|, 8) + f.bits, tail);
    Peel(Le(|f.bits|, 8), f.bits, tail);
    assert (f.bits + tail)[..|f.bits|] == f.bits;
  }

  // ---------- Header ----------

  datatype Header = Header(keyCount: nat, indexOffset: nat, bloomOffset: nat, footerOffset: nat)

  function HeaderBytes(h: Header): (s: bytes)
    ensures |s| == HEADER_BYTES
  {
    MAGIC + (Le(VERSION, 2) + (Le(0, 2) + (Le(h.keyCount, 8) + (Le(h.indexOffset, 8) +
      (Le(h.bloomOffset, 8) + Le(h.footerOffset, 8))))))
  }

  function ReadHeader(file: bytes): Option<Header> {
    if |file| < HEADER_BYTES then None
    else
      var p1 := file[8..];
      var p2 := p1[2..];
      var p3 := p2[2..];
      var p4 := p3[8..];
      var p5 := p4[8..];
      var p6 := p5[8..];
      if file[..8] != MAGIC then None
      else if LeValue(p1[..2]) != VERSION then None
      else Some(Header(LeValue(p3[..8]), LeValue(p4[..8]), LeValue(p5[..8]), LeValue(p6[..8])))
  }

  lemma HeaderRoundTrip(h: Header, tail: bytes)
    requires h.keyCount < UINT64_SIZE && h.indexOffset < UINT64_SIZE
    requires h.bloomOffset < UINT64_SIZE && h.footerOffset < UINT64_SIZE
    ensures ReadHeader(HeaderBytes(h) + tail) == Some(h)
  {
    var f6 := Le(h.footerOffset, 8);
    var f5 := Le(h.bloomOffset, 8) + f6;
    var f4 := Le(h.indexOffset, 8) + f5;
    var f3 := Le(h.keyCount, 8) + f4;
    var f2 := Le(0, 2) + f3;
    var f1 := Le(VERSION, 2) + f2;
    Words();
    Peel(MAGIC, f1, tail);
    Peel(Le(VERSION, 2), f2, tail);
    Peel(Le(0, 2), f3, tail);
    Peel(Le(h.keyCount, 8), f4, tail);
    Peel(Le(h.indexOffset, 8), f5, tail);
    Peel(Le(h.bloomOffset, 8), f6, tail);
    assert (f6 + tail)[..8] == f6;
  }
}
