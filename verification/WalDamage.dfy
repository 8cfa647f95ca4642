/** What a rescan of the log recovers in terms of sizes, and that it stops in front of a damaged record
    (src/wal.cpp). */
module WalDamage {
  import opened Bytes
  import opened Folding
  import opened Results
  import opened Crc
  import opened CrcDetects
  import opened Crypto
  import opened WalFormat
  import opened Wal

  // ---------- Sizes ----------

  lemma WrittenLength(cipher: Cipher, e: LogEntry)
    requires Written(cipher, e)
    ensures |e.frame| == 59 + |e.rec.key| + |e.rec.value|
  {
    var blob :| Sealed(cipher, e.rec, blob) && e.frame == Frame(e.rec, blob);
    FrameLength(e.rec, blob);
  }

  /** A record is recoverable if and only if its stored checksum is not zero and its key and value have at
      most 128 MiB together. */
  lemma RecoverableBySize(cipher: Cipher, e: LogEntry)
    requires Written(cipher, e)
    ensures Recoverable(e) <==> LeValue(e.frame[..4]) != 0 && |e.rec.key| + |e.rec.value| <= 134217728
  {
    WrittenLength(cipher, e);
  }

  /** A log takes a record if and only if its key has at most 65535 bytes and its value at most 4294967295, it
      is encrypted, and it fits into the rest of the segment. */
  lemma AcceptsBySize(w: Wal, op: byte, key: bytes, value: bytes, timestamp: nat, seed: nat, last: nat, offset: nat)
    requires Lawful(w.crypto)
    ensures w.Accepts(op, key, value, timestamp, seed, last, offset) <==>
              && |key| <= 65535 && |value| <= 4294967295 && w.crypto.encrypt(key + value, seed).Some?
              && offset + 59 + |key| + |value| <= w.capacity
  {
    assert Unfold(0);
    if w.crypto.encrypt(key + value, seed).Some? {
      FrameLength(WalRecord(op, NextSeq(last), timestamp, key, value), w.crypto.encrypt(key + value, seed).value);
    }
  }

  ghost predicate Modest(e: LogEntry) {
    |e.frame| >= 4 && LeValue(e.frame[..4]) != 0 && |e.rec.key| + |e.rec.value| <= 134217728
  }

  lemma ModestIsRecoverable(cipher: Cipher, h: seq<LogEntry>)
    requires AllWritten(cipher, h) && forall e :: e in h ==> Modest(e)
    ensures AllRecoverable(h) && forall e :: e in h ==> Sized(e)
  {
    forall e | e in h ensures Recoverable(e) && Sized(e) {
      WrittenLength(cipher, e);
    }
  }

  /** A log of records of at most 128 MiB with checksums other than zero is recovered completely. */
  lemma ModestLogIsRecovered(cipher: Cipher, base: bytes, h: seq<LogEntry>)
    requires AllWritten(cipher, h) && forall e :: e in h ==> Modest(e)
    requires Image(h) <= base && Zeroed(base[|Image(h)|..])
    ensures Scan(cipher, base, 0) == (Records(h), |Image(h)|)
  {
    ModestIsRecoverable(cipher, h);
    ZeroTailStops(cipher, base, |Image(h)|);
    RescanRecovers(cipher, base, h);
  }

  // ---------- Layout ----------

  // Nine parts behind one another.
  lemma PartsAt(a: bytes, b: bytes, c: bytes, d: bytes, e: bytes, f: bytes, g: bytes, h: bytes, i: bytes, s: bytes)
    requires |a| == 4 && |b| == |c| == 8 && |d| == 1 && |e| == 2 && |f| == |g| == 4 && |h| == 12
    requires s == a + (b + (c + (d + (e + (f + (g + (h + i)))))))
    ensures s[..4] == a && s[4..12] == b && s[12..20] == c && s[20..21] == d && s[21..23] == e
    ensures s[23..27] == f && s[27..31] == g && s[31..43] == h && s[43..] == i
  {
    assert s[4..] == b + (c + (d + (e + (f + (g + (h + i))))));
    assert s[20..] == d + (e + (f + (g + (h + i))));
    assert s[27..] == g + (h + i);
    assert s[20..21] == s[20..][..1] && s[21..23] == s[20..][1..3] && s[23..27] == s[20..][3..7];
    assert s[27..31] == s[27..][..4] && s[31..43] == s[27..][4..16] && s[43..] == s[27..][16..];
  }

  /** Where the fields of a record lie. */
  lemma FrameLayout(cipher: Cipher, rec: WalRecord, blob: Blob, s: bytes)
    requires Sealed(cipher, rec, blob) && s == Frame(rec, blob)
    ensures |s| >= 59 && s[4..12] == Le(rec.timestamp, 8) && s[12..20] == Le(rec.seqNo, 8) && s[20] == rec.op
    ensures s[21..23] == Le(|rec.key|, 2) && s[23..27] == Le(|rec.value|, 4) && s[27..31] == Le(|blob.ciphertext|, 4)
    ensures s[31..43] == blob.nonce && s[43..59] == blob.tag && s[59..] == blob.ciphertext
    ensures s[..4] == Le(Checksum(s[4..]), 4)
  {
    var sum, rest := Le(Checksum(Body(rec, blob)), 4), blob.tag + blob.ciphertext;
    FrameLength(rec, blob);
    PartsAt(sum, Le(rec.timestamp, 8), Le(rec.seqNo, 8), [rec.op], Le(|rec.key|, 2), Le(|rec.value|, 4),
            Le(|blob.ciphertext|, 4), blob.nonce, rest, s);
    assert s[20] == s[20..21][0];
    assert s[43..59] == rest[..16] && s[59..] == rest[16..];
    assert s[4..] == Body(rec, blob);
  }

  // ---------- Damage ----------

  /** Behind the stored checksum some bits have changed, all within 32 consecutive ones; the length of the
      ciphertext, in bytes 27 to 30, has not. */
  ghost predicate BitsChanged(frame: bytes, frame': bytes, p: nat) {
    && |frame'| == |frame| >= 59 && frame'[..4] == frame[..4] && frame'[27..31] == frame[27..31]
    && Burst(frame[4..], frame'[4..], p)
  }

  lemma CheckedFields(p: bytes)
    requires |p| >= HEADER_BYTES
    ensures ReadHeader(p).crc == LeValue(p[..4]) && ReadHeader(p).cipherLen == LeValue(p[27..31])
  {
    assert p[4..][8..][8..][1..][2..][4..][..4] == p[27..31];
  }

  lemma FrameFields(cipher: Cipher, e: LogEntry)
    requires Written(cipher, e) && Sized(e)
    ensures |e.frame| >= HEADER_BYTES && LeValue(e.frame[27..31]) == |e.frame| - HEADER_BYTES
    ensures LeValue(e.frame[..4]) == Checksum(e.frame[4..])
  {
    var blob :| Sealed(cipher, e.rec, blob) && e.frame == Frame(e.rec, blob);
    FrameLength(e.rec, blob);
    HeaderOfFrame(cipher, e.rec, blob, []);
    assert e.frame + [] == e.frame;
    CheckedFields(e.frame);
    assert e.frame[4..] == Body(e.rec, blob);
  }

  lemma SliceOfFront(q: bytes, front: bytes, i: nat, j: nat)
    requires front <= q && i <= j <= |front|
    ensures q[i..j] == front[i..j]
  {
  }

  // A frame whose length field is right and whose checksum is not.
  lemma MismatchIsRefused(cipher: Cipher, base: bytes, offset: nat, frame: bytes)
    requires |frame| >= HEADER_BYTES && LeValue(frame[27..31]) == |frame| - HEADER_BYTES
    requires offset + |frame| <= |base| && base[offset..offset + |frame|] == frame
    requires LeValue(frame[..4]) != Checksum(frame[4..])
    ensures ParseRecordAt(cipher, base, offset).Err?
    ensures LeValue(frame[..4]) != 0 ==> ParseRecordAt(cipher, base, offset) == Err(Corruption)
  {
    var q := base[offset..];
    assert q[..|frame|] == frame;
    SliceOfFront(q, frame, 0, 4);
    SliceOfFront(q, frame, 27, 31);
    SliceOfFront(q, frame, 4, |frame|);
    CheckedFields(q);
  }

  /** A record damaged in this way does not parse. */
  lemma DamageIsDetected(cipher: Cipher, base: bytes, offset: nat, e: LogEntry, frame: bytes, p: nat)
    requires Written(cipher, e) && Recoverable(e) && BitsChanged(e.frame, frame, p)
    requires offset + |frame| <= |base| && base[offset..offset + |frame|] == frame
    ensures ParseRecordAt(cipher, base, offset) == Err(Corruption)
  {
    FrameFields(cipher, e);
    BurstIsDetected(e.frame[4..], frame[4..], p);
    MismatchIsRefused(cipher, base, offset, frame);
  }

  lemma SameLengthField(a: bytes, b: bytes)
    requires |a| == |b| >= HEADER_BYTES && a[4..] == b[4..]
    ensures a[27..31] == b[27..31]
  {
    assert a[27..31] == a[4..][23..27] && b[27..31] == b[4..][23..27];
  }

  /** Nor does one whose stored checksum alone has changed. */
  lemma ChecksumDamageIsDetected(cipher: Cipher, base: bytes, offset: nat, e: LogEntry, frame: bytes)
    requires Written(cipher, e) && Recoverable(e)
    requires |frame| == |e.frame| && frame[4..] == e.frame[4..] && frame[..4] != e.frame[..4]
    requires offset + |frame| <= |base| && base[offset..offset + |frame|] == frame
    ensures ParseRecordAt(cipher, base, offset).Err?
  {
    FrameFields(cipher, e);
    SameLengthField(frame, e.frame);
    LeUnique(frame[..4]);
    LeUnique(e.frame[..4]);
    MismatchIsRefused(cipher, base, offset, frame);
  }

  /** A rescan finds the records in front of a damaged one, and no more, whatever follows it. */
  lemma DamagedLogEnds(cipher: Cipher, base: bytes, h: seq<LogEntry>, e: LogEntry, frame: bytes, p: nat)
    requires AllWritten(cipher, h) && AllRecoverable(h) && Written(cipher, e) && Recoverable(e)
    requires BitsChanged(e.frame, frame, p) && Image(h) + frame <= base
    ensures Scan(cipher, base, 0) == (Records(h), |Image(h)|)
  {
    var n := |Image(h)|;
    assert base[n..n + |frame|] == (Image(h) + frame)[n..] == frame;
    assert Image(h) <= base by { assert base[..n] == (Image(h) + frame)[..n]; }
    DamageIsDetected(cipher, base, n, e, frame, p);
    RescanRecovers(cipher, base, h);
  }
}
