/** The write-ahead log as an object over its memory-mapped segment (src/wal.cpp). */
module Wal {
  import opened Bytes
  import opened Folding
  import opened Results
  import opened Crc
  import opened Crypto
  import opened WalFormat

  // The segment file, cut or zero-filled to the capacity.
  function MapFile(disk: bytes, capacity: nat): (image: bytes)
    ensures |image| == capacity
  {
    seq(capacity, i requires 0 <= i < capacity => if i < |disk| then disk[i] else 0)
  }

  function LastSeq(records: seq<WalRecord>): nat {
    if records == [] then 0 else records[|records| - 1].seqNo
  }

  // The next 64-bit sequence number.
  function NextSeq(last: nat): nat {
    (last + 1) % UINT64_SIZE
  }

  // The entry that Append writes for a record.
  function EntryOf(rec: WalRecord, blob: Blob): LogEntry {
    LogEntry(rec, Frame(rec, blob))
  }

  class Wal {
    const crypto: Cipher
    const capacity: nat
    var base: array<byte>
    var isOpen: bool
    var lastSeq: nat
    var writeOffset: nat
    // All records ever appended, with their bytes.
    ghost var history: seq<LogEntry>

    ghost predicate Valid()
      reads this, base
    {
      && Lawful(crypto)
      && base.Length == capacity < UINT64_SIZE && writeOffset <= capacity
      && LogIs(crypto, base[..], history, writeOffset)
      && lastSeq == |history|
    }

    constructor (crypto: Cipher, capacity: nat)
      ensures this.crypto == crypto && this.capacity == capacity && !isOpen && history == []
      ensures fresh(base) && base.Length == 0
    {
      this.crypto, this.capacity := crypto, capacity;
      base, isOpen, lastSeq, writeOffset, history := new byte[0], false, 0, 0, [];
    }

    /** Opening finds the end of the log by scanning. If the segment holds an image of recoverable
        records, the log is exactly as it was when the last of them was appended. Opening an open log
        changes nothing. */
    method Open(disk: bytes, ghost h: seq<LogEntry>) returns (ghost found: seq<WalRecord>)
      modifies this
      ensures isOpen
      ensures old(isOpen) ==> unchanged(this)
      ensures !old(isOpen) ==>
        && fresh(base) && base[..] == MapFile(disk, capacity) && writeOffset <= capacity && history == h
        && Finds(crypto, base[..], found, writeOffset) && lastSeq == LastSeq(found)
      ensures !old(isOpen) && Lawful(crypto) && capacity < UINT64_SIZE &&
              IsImage(crypto, MapFile(disk, capacity), h) ==>
        (AllRecoverable(h) ==> Valid() && found == Records(h))
    {
      found := [];
      if isOpen {
        return;
      }
      base := new byte[capacity](i requires 0 <= i < capacity => if i < |disk| then disk[i] else 0);
      assert base[..] == MapFile(disk, capacity);
      found := FindEndAndLastSeq();
      isOpen, history := true, h;
      if IsImage(crypto, base[..], h) && AllRecoverable(h) {
        ImageRescans(crypto, base[..], h);
        FindsIsScan(crypto, base[..], found, writeOffset);
      }
    }

    method FindEndAndLastSeq() returns (ghost found: seq<WalRecord>)
      requires base.Length == capacity
      modifies this`writeOffset, this`lastSeq
      ensures Finds(crypto, base[..], found, writeOffset) && lastSeq == LastSeq(found) && writeOffset <= capacity
      ensures lastSeq == if found == [] then 0 else found[|found| - 1].seqNo
    {
      writeOffset, lastSeq, found := FindEnd(ParserOf(crypto, base[..]), capacity);
    }

    method SerializeRecord(rec: WalRecord, blob: Blob) returns (out: bytes)
      ensures out == Frame(rec, blob)
    {
      ghost var body := Body(rec, blob);
      ghost var f9 := blob.ciphertext;
      ghost var f8 := blob.tag + f9;
      ghost var f7 := blob.nonce + f8;
      ghost var f6 := Le(|blob.ciphertext|, 4) + f7;
      ghost var f5 := Le(|rec.value|, 4) + f6;
      ghost var f4 := Le(|rec.key|, 2) + f5;
      ghost var f3 := [rec.op] + f4;
      ghost var f2 := Le(rec.seqNo, 8) + f3;
      out := AppendLe([], rec.timestamp, 8);
      assert out + f2 == body;
      out := AppendField(out, rec.seqNo, 8, f3, body);
      out := AppendBytes(out, [rec.op], f4, body);
      out := AppendField(out, |rec.key|, 2, f5, body);
      out := AppendField(out, |rec.value|, 4, f6, body);
      out := AppendField(out, |blob.ciphertext|, 4, f7, body);
      out := AppendBytes(out, blob.nonce, f8, body);
      out := AppendBytes(out, blob.tag, f9, body);
      out := out + blob.ciphertext;
      var crc := TableChecksum(out);
      var prefix := AppendLe([], crc, 4);
      out := prefix + out;
    }

    /** A successful append writes exactly one record, with the next sequence number, over the bytes at
        the write offset; a failed one changes nothing. On a log that is the image of its history, so is
        the result. */
    method Append(op: byte, key: bytes, value: bytes, timestamp: nat, nonceSeed: nat) returns (r: Result<nat>)
      requires isOpen ==> base.Length == capacity && writeOffset <= capacity
      requires timestamp < UINT64_SIZE
      modifies this, base
      ensures base == old(base) && isOpen == old(isOpen)
      ensures r.Ok? <==> old(isOpen) && Accepts(op, key, value, timestamp, nonceSeed, old(lastSeq), old(writeOffset))
      ensures r.Ok? ==>
        && crypto.encrypt(key + value, nonceSeed).Some?
        && var e := NextEntry(op, key, value, timestamp, nonceSeed, old(lastSeq));
        && r.value == lastSeq == NextSeq(old(lastSeq)) && old(writeOffset) + |e.frame| <= |old(base[..])|
        && base[..] == Overwritten(old(base[..]), old(writeOffset), e.frame)
        && writeOffset == old(writeOffset) + |e.frame|
        && history == old(history) + [e]
      ensures r.Err? ==>
        r.code == if !old(isOpen) then IoError
                  else if |key| >= UINT16_SIZE || |value| >= UINT32_SIZE then InvalidArgument
                  else if crypto.encrypt(key + value, nonceSeed).None? then CryptoError
                  else IoError
      ensures r.Err? ==> history == old(history) && base[..] == old(base[..])
      ensures r.Err? ==> lastSeq == old(lastSeq) && writeOffset == old(writeOffset)
      ensures isOpen && old(Valid()) ==> Valid()
      ensures r.Ok? && old(Valid()) ==> r.value == old(lastSeq) + 1
    {
      assert Unfold(0);
      if !isOpen {
        return Err(IoError);
      }
      if |key| >= UINT16_SIZE {
        return Err(InvalidArgument);
      }
      if |value| >= UINT32_SIZE {
        return Err(InvalidArgument);
      }
      var rec := WalRecord(op, NextSeq(lastSeq), timestamp, key, value);
      var cipherOpt := crypto.encrypt(key + value, nonceSeed);
      if cipherOpt.None? {
        return Err(CryptoError);
      }
      var encoded := SerializeRecord(rec, cipherOpt.value);
      if writeOffset + |encoded| > capacity {
        return Err(IoError);
      }
      if Valid() {
        FrameLength(rec, cipherOpt.value);
        NextSeqIsNew(crypto, history);
        AppendKeepsImage(crypto, base[..], history, rec, cipherOpt.value);
      }
      Write(base, writeOffset, encoded);
      history := history + [EntryOf(rec, cipherOpt.value)];
      writeOffset := writeOffset + |encoded|;
      lastSeq := rec.seqNo;
      r := Ok(rec.seqNo);
    }

    // The entry that an accepted append writes.
    ghost function NextEntry(op: byte, key: bytes, value: bytes, timestamp: nat, nonceSeed: nat, last: nat): LogEntry
      requires crypto.encrypt(key + value, nonceSeed).Some?
    {
      EntryOf(WalRecord(op, NextSeq(last), timestamp, key, value), crypto.encrypt(key + value, nonceSeed).value)
    }

    // The size checks, the cipher and the room left decide whether an append succeeds.
    ghost predicate Accepts(op: byte, key: bytes, value: bytes, timestamp: nat, nonceSeed: nat, last: nat, offset: nat)
    {
      forall u: nat :: Unfold(u) ==>
        && |key| < UINT16_SIZE && |value| < UINT32_SIZE
        && crypto.encrypt(key + value, nonceSeed).Some?
        && offset + |NextEntry(op, key, value, timestamp, nonceSeed, last).frame| <= capacity
    }

    /** Replay hands over, in order, the records that a scan of the written part finds. */
    method Replay(stopAtCorruption: bool, ghost found: seq<WalRecord>, ghost end: nat)
      returns (records: seq<WalRecord>, status: Result<()>)
      requires isOpen ==> base.Length == capacity && writeOffset <= capacity
      ensures !isOpen ==> status == Err(IoError) && records == []
      ensures isOpen && Finds(crypto, base[..], found, end) ==> records <= found
      ensures isOpen && Finds(crypto, base[..], found, end) && writeOffset == end ==>
        status == Ok(()) && records == found
      ensures isOpen && Valid() && AllRecoverable(history) ==> status == Ok(()) && records == Records(history)
    {
      records := [];
      if !isOpen {
        return records, Err(IoError);
      }
      if Valid() && AllRecoverable(history) {
        LogIsImage(crypto, base[..], history, writeOffset);
        ImageRescans(crypto, base[..], history);
      }
      FindsIsScan(crypto, base[..], found, end);
      records, status := ReplayWith(ParserOf(crypto, base[..]), capacity, writeOffset, stopAtCorruption);
    }
  }

  // The loop of FindEndAndLastSeq over any parser that advances.
  method FindEnd(parse: Parser, limit: nat) returns (end: nat, last: nat, ghost seen: seq<WalRecord>)
    requires Advances(parse, limit)
    ensures ScansTo(parse, limit, 0, seen, end) && last == LastSeq(seen) && end <= limit
  {
    end, last, seen := 0, 0, [];
    while end < limit
      invariant last == LastSeq(seen) && end <= limit
      invariant ScanWith(parse, limit, 0).0 == seen + ScanWith(parse, limit, end).0
      invariant ScanWith(parse, limit, 0).1 == ScanWith(parse, limit, end).1
    {
      var parsed := parse(end);
      if parsed.Err? {
        break;
      }
      seen := seen + [parsed.value.record];
      end := parsed.value.next;
      last := parsed.value.record.seqNo;
    }
    assert ScanWith(parse, limit, end) == ([], end) && seen + [] == seen;
  }

  // The loop of Replay: it stops at the end of the written part or at the first parse error.
  method ReplayWith(parse: Parser, limit: nat, end: nat, stopAtCorruption: bool)
    returns (records: seq<WalRecord>, status: Result<()>)
    requires Advances(parse, limit) && end <= limit
    ensures end == ScanWith(parse, limit, 0).1 ==> status == Ok(()) && records == ScanWith(parse, limit, 0).0
    ensures records <= ScanWith(parse, limit, 0).0
    ensures status.Err? ==> stopAtCorruption
  {
    records := [];
    var off := 0;
    while off < end
      invariant ScanWith(parse, limit, 0).0 == records + ScanWith(parse, limit, off).0
      invariant ScanWith(parse, limit, 0).1 == ScanWith(parse, limit, off).1
      decreases limit - off
    {
      var parsed := parse(off);
      if parsed.Err? {
        if parsed.code == NotFound {
          break;
        }
        if stopAtCorruption {
          return records, Err(parsed.code);
        }
        break;
      }
      records := records + [parsed.value.record];
      off := parsed.value.next;
    }
    status := Ok(());
  }

  method Write(a: array<byte>, offset: nat, data: bytes)
    requires offset + |data| <= a.Length
    modifies a
    ensures a[..] == Overwritten(old(a[..]), offset, data)
  {
    for i := 0 to |data|
      invariant a[..] == Overwritten(old(a[..]), offset, data[..i])
    {
      a[offset + i] := data[i];
      assert a[..] == Overwritten(old(a[..]), offset, data[..i + 1]);
    }
    assert data[..|data|] == data;
  }

  // Appends that make progress towards `whole`.
  method AppendBytes(out: bytes, field: bytes, ghost rest: bytes, ghost whole: bytes) returns (r: bytes)
    requires out + (field + rest) == whole
    ensures r == out + field && r + rest == whole
  {
    r := out + field;
    assert r + rest == out + (field + rest);
  }

  method AppendField(out: bytes, value: nat, width: nat, ghost rest: bytes, ghost whole: bytes) returns (r: bytes)
    requires out + (Le(value, width) + rest) == whole
    ensures r == out + Le(value, width) && r + rest == whole
  {
    r := AppendLe(out, value, width);
    assert r + rest == out + (Le(value, width) + rest);
  }

  /** The segment holds the entries' frames, then zeros; the entries carry the numbers 1, 2, 3, ... */
  ghost predicate IsImage(cipher: Cipher, base: bytes, h: seq<LogEntry>) {
    && Image(h) <= base
    && Zeroed(base[|Image(h)|..])
    && AllWritten(cipher, h)
    && forall i :: 0 <= i < |h| ==> h[i].rec.seqNo == i + 1
  }

  // The segment is the image of the entries, and the next one is to be written behind it.
  ghost predicate LogIs(cipher: Cipher, base: bytes, h: seq<LogEntry>, offset: nat) {
    forall u: nat :: Unfold(u) ==> IsImage(cipher, base, h) && offset == |Image(h)|
  }

  lemma LogIsImage(cipher: Cipher, base: bytes, h: seq<LogEntry>, offset: nat)
    ensures LogIs(cipher, base, h, offset) <==> IsImage(cipher, base, h) && offset == |Image(h)|
  {
    assert Unfold(0);
  }

  // An image of recoverable records is rescanned completely.
  lemma ImageRescans(cipher: Cipher, base: bytes, h: seq<LogEntry>)
    requires IsImage(cipher, base, h) && AllRecoverable(h)
    ensures Scan(cipher, base, 0) == (Records(h), |Image(h)|)
    ensures LastSeq(Records(h)) == |h|
  {
    ZeroTailStops(cipher, base, |Image(h)|);
    RescanRecovers(cipher, base, h);
  }

  lemma AppendKeepsImage(cipher: Cipher, base: bytes, h: seq<LogEntry>, rec: WalRecord, blob: Blob)
    requires IsImage(cipher, base, h) && |base| < UINT64_SIZE
    requires Seals(cipher, rec.key + rec.value, blob)
    requires |rec.key| < UINT16_SIZE && |rec.value| < UINT32_SIZE && rec.timestamp < UINT64_SIZE
    requires rec.seqNo == |h| + 1 && |Image(h)| + |Frame(rec, blob)| <= |base|
    ensures IsImage(cipher, Overwritten(base, |Image(h)|, Frame(rec, blob)), h + [EntryOf(rec, blob)])
    ensures |Image(h + [EntryOf(rec, blob)])| == |Image(h)| + |Frame(rec, blob)|
  {
    var e := EntryOf(rec, blob);
    ImageSnoc(h, e);
    OverwriteGrows(base, Image(h), e.frame);
    EntriesFit(cipher, h);
    FrameLength(rec, blob);
    assert Sealed(cipher, rec, blob);
    assert Written(cipher, e);
  }

  // Writing behind an image that zeros follow makes a longer image that zeros follow.
  lemma OverwriteGrows(base: bytes, image: bytes, frame: bytes)
    requires image <= base && Zeroed(base[|image|..]) && |image| + |frame| <= |base|
    ensures var base' := Overwritten(base, |image|, frame);
            image + frame <= base' && Zeroed(base'[|image| + |frame|..])
  {
  }

  // A log that fits its segment is far from the largest sequence number.
  lemma NextSeqIsNew(cipher: Cipher, h: seq<LogEntry>)
    requires AllWritten(cipher, h) && |Image(h)| + 1 < UINT64_SIZE
    ensures NextSeq(|h|) == |h| + 1
  {
    EntriesFit(cipher, h);
  }

  // Every entry takes up at least its header.
  lemma {:induction false} EntriesFit(cipher: Cipher, h: seq<LogEntry>)
    requires AllWritten(cipher, h)
    ensures |h| <= |Image(h)|
  {
    if h != [] {
      EntriesFit(cipher, h[1..]);
      assert Written(cipher, h[0]);
      var blob :| Sealed(cipher, h[0].rec, blob) && h[0].frame == Frame(h[0].rec, blob);
      FrameLength(h[0].rec, blob);
    }
  }

  // ---------- A record that is appended and lost ----------

  const LARGE_SEGMENT: nat := 256 * 1024 * 1024

  /** A one-byte key with a value of 128 MiB is accepted by a log with room for it, but makes a record
      that no rescan reads. */
  lemma LargeRecordIsLost(w: Wal, value: bytes)
    requires |value| == 134217728 && w.capacity == LARGE_SEGMENT && Lawful(w.crypto)
    requires w.crypto.encrypt([1] + value, 0).Some?
    ensures w.Accepts(OP_SET, [1], value, 0, 0, 0, 0)
    ensures var e := w.NextEntry(OP_SET, [1], value, 0, 0, 0);
            && !Recoverable(e)
            && |e.frame| <= LARGE_SEGMENT
            && Scan(w.crypto, MapFile(e.frame, LARGE_SEGMENT), 0) == ([], 0)
  {
    var blob := w.crypto.encrypt([1] + value, 0).value;
    var rec := WalRecord(OP_SET, 1, 0, [1], value);
    var e := EntryOf(rec, blob);
    FrameLength(rec, blob);
    assert e.frame == Frame(rec, blob);
    LoneRecordRescans(w.crypto, e, rec, blob, LARGE_SEGMENT);
  }

  lemma LoneRecordRescans(cipher: Cipher, e: LogEntry, rec: WalRecord, blob: Blob, capacity: nat)
    requires e == EntryOf(rec, blob) && Sealed(cipher, rec, blob) && Sized(e) && !Recoverable(e)
    requires |e.frame| <= capacity
    ensures Scan(cipher, MapFile(e.frame, capacity), 0) == ([], 0)
  {
    var base := MapFile(e.frame, capacity);
    assert Image([e]) == e.frame + Image([]) == e.frame;
    assert base[..|e.frame|] == e.frame;
    ZeroTailStops(cipher, base, |e.frame|);
    RescanRecovers(cipher, base, [e]);
    assert GoodPrefix([e]) == 0 && [e][..0] == [];
  }
}
