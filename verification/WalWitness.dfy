/** Every record has a clock reading at which it is appended and lost, and one at which it is not; and a
    log on which an old record is found again. */
module WalWitness {
  import opened Bytes
  import opened Folding
  import opened Crc
  import opened CrcInverse
  import opened Crypto
  import opened WalFormat
  import opened WalRescan
  import opened Wal

  // ---------- A clock reading for any checksum ----------

  lemma {:induction false} ZerosAddNothing(s: bytes, zeros: bytes)
    requires Zeroed(zeros)
    ensures LeValue(s + zeros) == LeValue(s)
  {
    if s == [] {
      assert s + zeros == zeros;
      ZeroValue(zeros);
    } else {
      ZerosAddNothing(s[1..], zeros);
      assert (s + zeros)[1..] == s[1..] + zeros;
    }
  }

  // A four-byte value in an eight-byte field.
  lemma ShortTimestamp(word: bytes)
    requires |word| == 4
    ensures LeValue(word) < UINT32_SIZE && Le(LeValue(word), 8) == word + [0, 0, 0, 0]
  {
    var zeros: bytes := [0, 0, 0, 0];
    WordSizes();
    LeUnique(word);
    ZerosAddNothing(word, zeros);
    LeUnique(word + zeros);
  }

  lemma BodyStarts(rec: WalRecord, blob: Blob) returns (rest: bytes)
    ensures forall t: nat :: Body(rec.(timestamp := t), blob) == Le(t, 8) + rest
  {
    rest := Body(rec, blob)[8..];
    forall t: nat ensures Body(rec.(timestamp := t), blob) == Le(t, 8) + rest {
      assert Body(rec.(timestamp := t), blob)[8..] == rest;
      assert Body(rec.(timestamp := t), blob)[..8] == Le(t, 8);
    }
  }

  /** Whatever a record holds, some clock reading gives its frame the given checksum. */
  lemma TimestampFor(rec: WalRecord, blob: Blob, target: bv32) returns (t: nat)
    ensures t < UINT32_SIZE && Crc32(Body(rec.(timestamp := t), blob)) == target
  {
    var zeros: bytes := [0, 0, 0, 0];
    var rest := BodyStarts(rec, blob);
    var word := AnyChecksum(zeros + rest, target);
    t := LeValue(word);
    ShortTimestamp(word);
    Associate(word, zeros, rest);
  }

  lemma StoredChecksum(e: LogEntry, blob: Blob, target: bv32)
    requires e.frame == Frame(e.rec, blob) && Crc32(Body(e.rec, blob)) == target
    ensures |e.frame| >= 4 && LeValue(e.frame[..4]) == target as int
  {
    Words();
    assert e.frame[..4] == Le(Checksum(Body(e.rec, blob)), 4);
  }

  // The entry for a record at a clock reading.
  function EntryAt(rec: WalRecord, blob: Blob, t: nat): LogEntry {
    EntryOf(rec.(timestamp := t), blob)
  }

  lemma EntryIsWritten(cipher: Cipher, rec: WalRecord, blob: Blob, t: nat)
    requires Sealed(cipher, rec, blob) && t < UINT64_SIZE
    ensures Written(cipher, EntryAt(rec, blob, t))
    ensures |EntryAt(rec, blob, t).frame| == WalFormat.HEADER_BYTES + |rec.key| + |rec.value|
  {
    assert Sealed(cipher, rec.(timestamp := t), blob);
    FrameLength(rec.(timestamp := t), blob);
  }

  /** Every record has a clock reading at which its frame reads as the end of the log. */
  lemma LosingTimestamp(rec: WalRecord, blob: Blob) returns (t: nat)
    ensures t < UINT32_SIZE && !Recoverable(EntryAt(rec, blob, t))
  {
    t := TimestampFor(rec, blob, 0);
    StoredChecksum(EntryAt(rec, blob, t), blob, 0);
  }

  // Every record that is not too large has one at which its frame is read back.
  lemma KeepingTimestamp(cipher: Cipher, rec: WalRecord, blob: Blob) returns (t: nat)
    requires Sealed(cipher, rec, blob) && |rec.key| + |rec.value| <= MAX_CIPHER_BYTES
    ensures t < UINT32_SIZE && Recoverable(EntryAt(rec, blob, t))
  {
    t := TimestampFor(rec, blob, 1);
    StoredChecksum(EntryAt(rec, blob, t), blob, 1);
    EntryIsWritten(cipher, rec, blob, t);
  }

  /** Every append that a log accepts is accepted at some clock reading at which the record is lost. */
  lemma AppendCanBeLost(w: Wal, op: byte, key: bytes, value: bytes, nonceSeed: nat, last: nat, offset: nat)
    returns (t: nat)
    requires w.Accepts(op, key, value, 0, nonceSeed, last, offset) && w.crypto.encrypt(key + value, nonceSeed).Some?
    ensures t < UINT32_SIZE && w.Accepts(op, key, value, t, nonceSeed, last, offset)
    ensures !Recoverable(w.NextEntry(op, key, value, t, nonceSeed, last))
  {
    var rec := WalRecord(op, NextSeq(last), 0, key, value);
    var blob := w.crypto.encrypt(key + value, nonceSeed).value;
    t := LosingTimestamp(rec, blob);
    assert w.NextEntry(op, key, value, t, nonceSeed, last) == EntryAt(rec, blob, t);
    assert |EntryAt(rec, blob, t).frame| == |w.NextEntry(op, key, value, 0, nonceSeed, last).frame|;
    AcceptsAlike(w, op, key, value, t, nonceSeed, last, offset);
  }

  lemma AcceptsAlike(w: Wal, op: byte, key: bytes, value: bytes, t: nat, nonceSeed: nat, last: nat, offset: nat)
    requires w.Accepts(op, key, value, 0, nonceSeed, last, offset) && w.crypto.encrypt(key + value, nonceSeed).Some?
    requires |w.NextEntry(op, key, value, t, nonceSeed, last).frame|
          == |w.NextEntry(op, key, value, 0, nonceSeed, last).frame|
    ensures w.Accepts(op, key, value, t, nonceSeed, last, offset)
  {
    assert Unfold(0);
  }

  // ---------- An old record is found again ----------

  lemma ImageOfTwo(h: seq<LogEntry>, a: LogEntry, b: LogEntry)
    requires h == [a, b]
    ensures Image(h) == a.frame + b.frame
  {
    assert h[1..] == [b] && [b][1..] == [];
    assert Image([b]) == b.frame + Image([]) == b.frame;
  }

  // A written entry that reads as the end of the log.
  ghost predicate Lost(cipher: Cipher, e: LogEntry) {
    forall u: nat :: Unpack(u) ==> Written(cipher, e) && Sized(e) && !Recoverable(e)
  }

  lemma TwoEntries(cipher: Cipher, base: bytes, h: seq<LogEntry>, a: LogEntry, b: LogEntry, zeros: bytes)
    requires h == [a, b] && Lost(cipher, a) && Kept(cipher, b) && base == a.frame + b.frame + zeros && Zeroed(zeros)
    ensures Damaged(cipher, base, h, 0)
  {
    assert Unpack(0);
    ImageOfTwo(h, a, b);
    assert base[|Image(h)|..] == zeros;
    ZeroTailStops(cipher, base, |Image(h)|);
  }

  lemma TwoShow(h: seq<LogEntry>, a: LogEntry, b: LogEntry, e: LogEntry)
    requires h == [a, b]
    ensures Shows(h, 0, e, [], 0, [e.rec, b.rec], |a.frame| + |b.frame|)
  {
    ImageOfTwo(h, a, b);
    assert h[..0] == [] && Records(h[1..]) == [b.rec];
  }

  lemma LosingEntry(cipher: Cipher, rec: WalRecord, blob: Blob) returns (e: LogEntry)
    requires Sealed(cipher, rec, blob) && |rec.key| + |rec.value| <= MAX_CIPHER_BYTES
    ensures Lost(cipher, e) && e.rec == rec.(timestamp := e.rec.timestamp)
    ensures |e.frame| == WalFormat.HEADER_BYTES + |rec.key| + |rec.value|
  {
    var t := LosingTimestamp(rec, blob);
    EntryIsWritten(cipher, rec, blob, t);
    e := EntryAt(rec, blob, t);
  }

  lemma KeepingEntry(cipher: Cipher, rec: WalRecord, blob: Blob) returns (e: LogEntry)
    requires Sealed(cipher, rec, blob) && |rec.key| + |rec.value| <= MAX_CIPHER_BYTES
    ensures Kept(cipher, e) && e.rec == rec.(timestamp := e.rec.timestamp)
    ensures |e.frame| == WalFormat.HEADER_BYTES + |rec.key| + |rec.value|
  {
    var t := KeepingTimestamp(cipher, rec, blob);
    EntryIsWritten(cipher, rec, blob, t);
    e := EntryAt(rec, blob, t);
  }

  /** For any three records of which the first and the third are equally long there are clock readings at
      which: a log of the first two is recovered as empty; and once the third is appended in their place,
      the second is found behind it. */
  lemma OldRecordReturns(cipher: Cipher, r1: WalRecord, b1: Blob, r2: WalRecord, b2: Blob, r3: WalRecord, b3: Blob,
                         zeros: bytes)
    returns (e1: LogEntry, e2: LogEntry, e3: LogEntry, base: bytes)
    requires Sealed(cipher, r1, b1) && Sealed(cipher, r2, b2) && Sealed(cipher, r3, b3) && Zeroed(zeros)
    requires |r1.key| + |r1.value| == |r3.key| + |r3.value| <= MAX_CIPHER_BYTES
    requires |r2.key| + |r2.value| <= MAX_CIPHER_BYTES
    ensures e1.rec == r1.(timestamp := e1.rec.timestamp) && Lost(cipher, e1)
    ensures e2.rec == r2.(timestamp := e2.rec.timestamp) && Kept(cipher, e2)
    ensures e3.rec == r3.(timestamp := e3.rec.timestamp) && Kept(cipher, e3)
    ensures base == e1.frame + e2.frame + zeros && |e3.frame| <= |base|
    ensures Finds(cipher, base, [], 0)
    ensures Finds(cipher, Overwritten(base, 0, e3.frame), [e3.rec, e2.rec], |e1.frame| + |e2.frame|)
  {
    e1 := LosingEntry(cipher, r1, b1);
    e2 := KeepingEntry(cipher, r2, b2);
    e3 := KeepingEntry(cipher, r3, b3);
    base := StaleLog(cipher, e1, e2, e3, zeros);
  }

  lemma StaleLog(cipher: Cipher, e1: LogEntry, e2: LogEntry, e3: LogEntry, zeros: bytes) returns (base: bytes)
    requires Lost(cipher, e1) && Kept(cipher, e2) && Kept(cipher, e3) && |e3.frame| == |e1.frame| && Zeroed(zeros)
    ensures base == e1.frame + e2.frame + zeros && |e3.frame| <= |base|
    ensures Finds(cipher, base, [], 0)
    ensures Finds(cipher, Overwritten(base, 0, e3.frame), [e3.rec, e2.rec], |e1.frame| + |e2.frame|)
  {
    base := e1.frame + e2.frame + zeros;
    var h := [e1, e2];
    TwoEntries(cipher, base, h, e1, e2, zeros);
    TwoShow(h, e1, e2, e3);
    StaleRecordsReturn(cipher, base, h, 0, e3, [], 0, [e3.rec, e2.rec], |e1.frame| + |e2.frame|);
  }
}
