/** The byte format of the write-ahead log (src/wal.cpp): serialising a record, parsing one at an
    offset, scanning to the end of the log, and what a rescan recovers. */
module WalFormat {
  import opened Bytes
  import opened Folding
  import opened Results
  import opened Crc
  import opened Crypto

  const HEADER_BYTES: nat := 59
  const MAX_CIPHER_BYTES: nat := 128 * 1024 * 1024
  const OP_SET: byte := 0
  const OP_DELETE: byte := 1

  datatype WalRecord = WalRecord(op: byte, seqNo: nat, timestamp: nat, key: bytes, value: bytes)

  datatype Parsed = Parsed(record: WalRecord, next: nat)

  // ---------- SerializeRecord ----------

  // Everything the checksum covers.
  function Body(rec: WalRecord, blob: Blob): bytes {
    Le(rec.timestamp, 8) + (Le(rec.seqNo, 8) + ([rec.op] + (Le(|rec.key|, 2) + (Le(|rec.value|, 4) +
      (Le(|blob.ciphertext|, 4) + (blob.nonce + (blob.tag + blob.ciphertext)))))))
  }

  function Frame(rec: WalRecord, blob: Blob): bytes {
    Le(Checksum(Body(rec, blob)), 4) + Body(rec, blob)
  }

  // ---------- parse_fields and ParseRecordAt ----------

  function ParseRecordAt(cipher: Cipher, base: bytes, offset: nat): (r: Result<Parsed>)
    ensures r.Ok? ==> offset + HEADER_BYTES <= r.value.next <= |base|
  {
    if offset + 4 > |base| then Err(NotFound)
    else if offset + HEADER_BYTES > |base| then Err(Corruption)
    else ParseFrame(cipher, base[offset..], offset)
  }

  datatype Header = Header(
    crc: nat, timestamp: nat, seqNo: nat, op: byte, keyLen: nat, valLen: nat, cipherLen: nat,
    nonce: bytes, tag: bytes, rest: bytes)

  // The fields are read one after the other, as the code walks over the header.
  function ReadHeader(p: bytes): (h: Header)
    requires |p| >= HEADER_BYTES
    ensures |h.rest| == |p| - HEADER_BYTES
  {
    var p1 := p[4..];
    var p2 := p1[8..];
    var p3 := p2[8..];
    var p4 := p3[1..];
    var p5 := p4[2..];
    var p6 := p5[4..];
    var p7 := p6[4..];
    var p8 := p7[NONCE_BYTES..];
    Header(LeValue(p[..4]), LeValue(p1[..8]), LeValue(p2[..8]), p3[0], LeValue(p4[..2]), LeValue(p5[..4]),
           LeValue(p6[..4]), p7[..NONCE_BYTES], p8[..TAG_BYTES], p8[TAG_BYTES..])
  }

  function ParseFrame(cipher: Cipher, p: bytes, offset: nat): (r: Result<Parsed>)
    requires |p| >= HEADER_BYTES
    ensures r.Ok? ==> offset + HEADER_BYTES <= r.value.next <= offset + |p|
  {
    var h := ReadHeader(p);
    var total := HEADER_BYTES + h.cipherLen;
    if h.crc == 0 then Err(NotFound)
    else if h.cipherLen > MAX_CIPHER_BYTES then Err(Corruption)
    else if total > |p| then Err(Corruption)
    else if Checksum(p[4..total]) != h.crc then Err(Corruption)
    else
      match cipher.decrypt(Blob(h.nonce, h.tag, h.rest[..h.cipherLen]))
      case None => Err(Corruption)
      case Some(plain) =>
        if |plain| != h.keyLen + h.valLen then Err(Corruption)
        else Ok(Parsed(WalRecord(h.op, h.seqNo, h.timestamp, plain[..h.keyLen], plain[h.keyLen..]), offset + total))
  }

  // ---------- Parsing what was serialised ----------

  // The blob seals the record's key and value, whose sizes fit their fields.
  ghost predicate Sealed(cipher: Cipher, rec: WalRecord, blob: Blob) {
    && Seals(cipher, rec.key + rec.value, blob)
    && |rec.key| < UINT16_SIZE && |rec.value| < UINT32_SIZE
    && rec.timestamp < UINT64_SIZE && rec.seqNo < UINT64_SIZE
  }

  lemma FrameLength(rec: WalRecord, blob: Blob)
    requires |blob.nonce| == NONCE_BYTES && |blob.tag| == TAG_BYTES
    ensures |Frame(rec, blob)| == HEADER_BYTES + |blob.ciphertext|
  {
  }

  // What the reader finds field by field at the front of a serialised record.
  lemma HeaderOfFrame(cipher: Cipher, rec: WalRecord, blob: Blob, tail: bytes)
    requires Sealed(cipher, rec, blob) && |blob.ciphertext| < UINT32_SIZE
    ensures |Frame(rec, blob)| >= HEADER_BYTES
    ensures ReadHeader(Frame(rec, blob) + tail)
         == Header(Checksum(Body(rec, blob)), rec.timestamp, rec.seqNo, rec.op, |rec.key|, |rec.value|,
                   |blob.ciphertext|, blob.nonce, blob.tag, blob.ciphertext + tail)
  {
    var body := Body(rec, blob);
    var f8 := blob.tag + blob.ciphertext;
    var f7 := blob.nonce + f8;
    var f6 := Le(|blob.ciphertext|, 4) + f7;
    var f5 := Le(|rec.value|, 4) + f6;
    var f4 := Le(|rec.key|, 2) + f5;
    var f3 := [rec.op] + f4;
    var f2 := Le(rec.seqNo, 8) + f3;
    assert body == Le(rec.timestamp, 8) + f2;
    FrameLength(rec, blob);
    Words();
    Peel(Le(Checksum(body), 4), body, tail);
    Peel(Le(rec.timestamp, 8), f2, tail);
    Peel(Le(rec.seqNo, 8), f3, tail);
    Peel([rec.op], f4, tail);
    Peel(Le(|rec.key|, 2), f5, tail);
    Peel(Le(|rec.value|, 4), f6, tail);
    Peel(Le(|blob.ciphertext|, 4), f7, tail);
    Peel(blob.nonce, f8, tail);
    Peel(blob.tag, blob.ciphertext, tail);
  }

  // An appended record and the bytes it was written as.
  datatype LogEntry = LogEntry(rec: WalRecord, frame: bytes)

  ghost predicate Written(cipher: Cipher, e: LogEntry) {
    exists blob :: Sealed(cipher, e.rec, blob) && e.frame == Frame(e.rec, blob)
  }

  // The ciphertext's length fits its four-byte field.
  predicate Sized(e: LogEntry) {
    |e.frame| < HEADER_BYTES + UINT32_SIZE
  }

  // A record can be read back when its stored checksum is not the end mark and it is small enough.
  predicate Recoverable(e: LogEntry) {
    && HEADER_BYTES <= |e.frame| <= HEADER_BYTES + MAX_CIPHER_BYTES
    && LeValue(e.frame[..4]) != 0
  }

  lemma SealedRoundTrip(cipher: Cipher, e: LogEntry, blob: Blob, tail: bytes, offset: nat)
    requires Sealed(cipher, e.rec, blob) && |blob.ciphertext| < UINT32_SIZE && e.frame == Frame(e.rec, blob)
    ensures |e.frame| == HEADER_BYTES + |e.rec.key| + |e.rec.value|
    ensures var r := ParseFrame(cipher, e.frame + tail, offset);
            if Recoverable(e) then r == Ok(Parsed(e.rec, offset + |e.frame|)) else r.Err?
  {
    var rec := e.rec;
    var p, body := e.frame + tail, Body(rec, blob);
    var total := HEADER_BYTES + |blob.ciphertext|;
    FrameLength(rec, blob);
    HeaderOfFrame(cipher, rec, blob, tail);
    assert e.frame[..4] == p[..4];
    assert p[4..total] == body;
    assert (blob.ciphertext + tail)[..|blob.ciphertext|] == blob.ciphertext;
    assert Blob(blob.nonce, blob.tag, blob.ciphertext) == blob;
    var plain := rec.key + rec.value;
    assert plain[..|rec.key|] == rec.key && plain[|rec.key|..] == rec.value;
  }

  /** A serialised record parses back to itself exactly when it is recoverable. */
  lemma FrameRoundTrip(cipher: Cipher, e: LogEntry, tail: bytes, offset: nat)
    requires Written(cipher, e) && Sized(e)
    ensures |e.frame| == HEADER_BYTES + |e.rec.key| + |e.rec.value|
    ensures var r := ParseFrame(cipher, e.frame + tail, offset);
            if Recoverable(e) then r == Ok(Parsed(e.rec, offset + |e.frame|)) else r.Err?
  {
    var blob :| Sealed(cipher, e.rec, blob) && e.frame == Frame(e.rec, blob);
    FrameLength(e.rec, blob);
    SealedRoundTrip(cipher, e, blob, tail, offset);
  }

  // ---------- Scanning a log ----------

  type Parser = nat -> Result<Parsed>

  ghost predicate Advances(parse: Parser, limit: nat) {
    forall offset: nat :: parse(offset).Ok? ==> offset < parse(offset).value.next <= limit
  }

  function ParserOf(cipher: Cipher, base: bytes): (parse: Parser)
    ensures Advances(parse, |base|)
  {
    (offset: nat) => ParseRecordAt(cipher, base, offset)
  }

  // The records from `offset` on, up to the first place that does not parse, and that place.
  ghost function ScanWith(parse: Parser, limit: nat, offset: nat): (r: (seq<WalRecord>, nat))
    requires Advances(parse, limit)
    ensures offset <= r.1 && (offset <= limit ==> r.1 <= limit)
    decreases limit - offset
  {
    match parse(offset)
    case Err(_) => ([], offset)
    case Ok(parsed) =>
      var (records, end) := ScanWith(parse, limit, parsed.next);
      ([parsed.record] + records, end)
  }

  ghost function Scan(cipher: Cipher, base: bytes, offset: nat): (seq<WalRecord>, nat) {
    ScanWith(ParserOf(cipher, base), |base|, offset)
  }

  // Scanning from an offset finds these records and stops at `end`.
  ghost predicate ScansTo(parse: Parser, limit: nat, offset: nat, records: seq<WalRecord>, end: nat) {
    Advances(parse, limit) && forall u: nat :: Unfold(u) ==> ScanWith(parse, limit, offset) == (records, end)
  }

  // Scanning a log from its start finds these records and stops at `end`.
  ghost predicate Finds(cipher: Cipher, base: bytes, records: seq<WalRecord>, end: nat) {
    forall u: nat :: Unfold(u) ==> Scan(cipher, base, 0) == (records, end)
  }

  lemma FindsIsScan(cipher: Cipher, base: bytes, records: seq<WalRecord>, end: nat)
    ensures Finds(cipher, base, records, end) <==> Scan(cipher, base, 0) == (records, end)
    ensures Finds(cipher, base, records, end) <==> ScansTo(ParserOf(cipher, base), |base|, 0, records, end)
  {
    assert Unfold(0);
  }

  ghost predicate AllWritten(cipher: Cipher, h: seq<LogEntry>) {
    forall e :: e in h ==> Written(cipher, e)
  }

  ghost predicate AllRecoverable(h: seq<LogEntry>) {
    forall e :: e in h ==> Recoverable(e)
  }

  ghost function Image(h: seq<LogEntry>): bytes {
    if h == [] then [] else h[0].frame + Image(h[1..])
  }

  ghost function Records(h: seq<LogEntry>): seq<WalRecord> {
    seq(|h|, i requires 0 <= i < |h| => h[i].rec)
  }

  lemma {:induction false} ImageSnoc(h: seq<LogEntry>, e: LogEntry)
    ensures Image(h + [e]) == Image(h) + e.frame
  {
    if h == [] {
      assert [e][1..] == [];
    } else {
      ImageSnoc(h[1..], e);
      assert (h + [e])[1..] == h[1..] + [e];
    }
  }

  // The number of records in front of the first one that cannot be read back.
  ghost function GoodPrefix(h: seq<LogEntry>): (n: nat)
    ensures n <= |h|
    ensures AllRecoverable(h[..n])
    ensures n < |h| ==> !Recoverable(h[n])
  {
    if h == [] || !Recoverable(h[0]) then 0
    else
      var n := 1 + GoodPrefix(h[1..]);
      assert h[..n] == [h[0]] + h[1..][..n - 1];
      n
  }

  predicate FrameAt(base: bytes, offset: nat, e: LogEntry) {
    offset + |e.frame| <= |base| && base[offset..offset + |e.frame|] == e.frame
  }

  predicate ReadsAs(parse: Parser, offset: nat, e: LogEntry) {
    if Recoverable(e) then parse(offset) == Ok(Parsed(e.rec, offset + |e.frame|)) else parse(offset).Err?
  }

  // Parsing at the offset where an entry's frame lies.
  lemma ParseEntryAt(cipher: Cipher, base: bytes, offset: nat, e: LogEntry)
    requires Written(cipher, e) && Sized(e) && FrameAt(base, offset, e)
    ensures ReadsAs(ParserOf(cipher, base), offset, e)
  {
    var tail := base[offset + |e.frame|..];
    assert base[offset..] == e.frame + tail;
    assert ParseRecordAt(cipher, base, offset) == ParseFrame(cipher, base[offset..], offset) by {
      FrameRoundTrip(cipher, e, tail, offset);
    }
    FrameRoundTrip(cipher, e, tail, offset);
  }

  // From `offset` on the parser meets the entries' frames, as long as it can read them.
  ghost predicate Meets(parse: Parser, offset: nat, h: seq<LogEntry>)
    decreases |h|
  {
    h == [] || (ReadsAs(parse, offset, h[0]) && Meets(parse, offset + |h[0].frame|, h[1..]))
  }

  // From `offset` on the bytes are the entries' frames.
  ghost predicate Lies(base: bytes, offset: nat, h: seq<LogEntry>)
    decreases |h|
  {
    h == [] || (FrameAt(base, offset, h[0]) && Lies(base, offset + |h[0].frame|, h[1..]))
  }

  lemma {:induction false} ImageLies(base: bytes, offset: nat, h: seq<LogEntry>)
    requires offset + |Image(h)| <= |base| && base[offset..offset + |Image(h)|] == Image(h)
    ensures Lies(base, offset, h)
    decreases h
  {
    if h != [] {
      var n, end := |h[0].frame|, offset + |Image(h)|;
      assert base[offset..offset + n] == base[offset..end][..n];
      assert base[offset + n..end] == base[offset..end][n..];
      ImageLies(base, offset + n, h[1..]);
    }
  }

  lemma {:induction false} LyingIsMet(parse: Parser, base: bytes, offset: nat, h: seq<LogEntry>)
    requires Lies(base, offset, h)
    requires forall e, i: nat :: e in h && FrameAt(base, i, e) ==> ReadsAs(parse, i, e)
    ensures Meets(parse, offset, h)
    decreases h
  {
    if h != [] {
      LyingIsMet(parse, base, offset + |h[0].frame|, h[1..]);
    }
  }

  lemma {:induction false} ScanOfMet(parse: Parser, limit: nat, offset: nat, h: seq<LogEntry>)
    requires Advances(parse, limit) && Meets(parse, offset, h) && parse(offset + |Image(h)|).Err?
    ensures ScanWith(parse, limit, offset) == (Records(h[..GoodPrefix(h)]), offset + |Image(h[..GoodPrefix(h)])|)
    decreases h
  {
    var g := GoodPrefix(h);
    if h == [] || !Recoverable(h[0]) {
      assert Records(h[..g]) == [];
    } else {
      ScanOfMet(parse, limit, offset + |h[0].frame|, h[1..]);
      RecordsCons(h, g);
    }
  }

  lemma WrittenEntriesRead(cipher: Cipher, base: bytes, h: seq<LogEntry>)
    requires AllWritten(cipher, h) && (forall e :: e in h ==> Sized(e))
    ensures forall e, i: nat :: e in h && FrameAt(base, i, e) ==> ReadsAs(ParserOf(cipher, base), i, e)
  {
    forall e, i: nat | e in h && FrameAt(base, i, e) ensures ReadsAs(ParserOf(cipher, base), i, e) {
      ParseEntryAt(cipher, base, i, e);
    }
  }

  lemma RecordsCons(h: seq<LogEntry>, n: nat)
    requires 0 < n <= |h|
    ensures Records(h[..n]) == [h[0].rec] + Records(h[1..][..n - 1])
    ensures |Image(h[..n])| == |h[0].frame| + |Image(h[1..][..n - 1])|
  {
    assert h[..n][1..] == h[1..][..n - 1];
  }

  /** Rescanning a log image followed by anything that does not parse recovers exactly the records
      in front of the first unrecoverable one; so all of them exactly when all are recoverable. */
  lemma RescanRecovers(cipher: Cipher, base: bytes, h: seq<LogEntry>)
    requires AllWritten(cipher, h) && (forall e :: e in h ==> Sized(e))
    requires Image(h) <= base && ParseRecordAt(cipher, base, |Image(h)|).Err?
    ensures Scan(cipher, base, 0) == (Records(h[..GoodPrefix(h)]), |Image(h[..GoodPrefix(h)])|)
    ensures Scan(cipher, base, 0) == (Records(h), |Image(h)|) <==> AllRecoverable(h)
  {
    var image, g := Image(h), GoodPrefix(h);
    assert base[0..|image|] == image;
    ImageLies(base, 0, h);
    WrittenEntriesRead(cipher, base, h);
    LyingIsMet(ParserOf(cipher, base), base, 0, h);
    ScanOfMet(ParserOf(cipher, base), |base|, 0, h);
    RecoveredCount(h);
  }

  lemma RecoveredCount(h: seq<LogEntry>)
    ensures Records(h[..GoodPrefix(h)]) == Records(h) <==> AllRecoverable(h)
    ensures AllRecoverable(h) ==> h[..GoodPrefix(h)] == h
  {
  }

  ghost predicate Zeroed(s: bytes) {
    forall i :: 0 <= i < |s| ==> s[i] == 0
  }

  // The unwritten part of a log reads as its end.
  lemma ZeroTailStops(cipher: Cipher, base: bytes, offset: nat)
    requires offset <= |base| && Zeroed(base[offset..])
    ensures ParseRecordAt(cipher, base, offset).Err?
  {
    if offset + HEADER_BYTES <= |base| {
      var p := base[offset..];
      assert LeValue(p[..4]) == 0 by { ZeroValue(p[..4]); }
    }
  }

  lemma {:induction false} ZeroValue(s: bytes)
    requires Zeroed(s)
    ensures LeValue(s) == 0
  {
    if s != [] { ZeroValue(s[1..]); }
  }

  // Bytes with a patch written over them.
  function Overwritten(s: bytes, offset: nat, patch: bytes): bytes
    requires offset + |patch| <= |s|
  {
    s[..offset] + patch + s[offset + |patch|..]
  }
}
