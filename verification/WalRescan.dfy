/** What a rescan finds after a record was written over a log that had been recovered only in part:
    behind the new record lie the old bytes. */
module WalRescan {
  import opened Bytes
  import opened Folding
  import opened Crypto
  import opened WalFormat

  lemma OverwrittenParts(s: bytes, offset: nat, patch: bytes)
    requires offset + |patch| <= |s|
    ensures var s' := Overwritten(s, offset, patch);
            && |s'| == |s|
            && s'[offset..offset + |patch|] == patch
            && (forall i :: 0 <= i <= offset ==> s'[i..offset] == s[i..offset])
            && (forall i :: offset + |patch| <= i <= |s| ==> s'[i..] == s[i..])
  {
  }

  // A record that parses depends on its own bytes only.
  lemma HeaderIsLocal(p: bytes, p': bytes, n: nat)
    requires HEADER_BYTES <= n <= |p| && |p'| == |p| && p'[..n] == p[..n]
    ensures var h, h' := ReadHeader(p), ReadHeader(p');
            h'.(rest := []) == h.(rest := []) && h'.rest[..n - HEADER_BYTES] == h.rest[..n - HEADER_BYTES]
  {
    HeaderSlices(p, n);
    HeaderSlices(p', n);
  }

  lemma HeaderSlices(p: bytes, n: nat)
    requires HEADER_BYTES <= n <= |p|
    ensures var h, q := ReadHeader(p), p[..n];
            && h.(rest := [])
               == Header(LeValue(q[0..4]), LeValue(q[4..12]), LeValue(q[12..20]), q[20], LeValue(q[21..23]),
                         LeValue(q[23..27]), LeValue(q[27..31]), q[31..43], q[43..59], [])
            && h.rest[..n - HEADER_BYTES] == q[59..]
  {
    var q := p[..n];
    assert p[..4] == q[0..4] && p[4..][..8] == q[4..12] && p[4..][8..][..8] == q[12..20];
    var p3 := p[4..][8..][8..];
    assert p3 == p[20..];
    assert p3[1..][..2] == q[21..23] && p3[1..][2..][..4] == q[23..27];
    var p6 := p3[1..][2..][4..];
    assert p6 == p[27..];
    assert p6[..4] == q[27..31] && p6[4..][..NONCE_BYTES] == q[31..43];
    assert p6[4..][NONCE_BYTES..][..TAG_BYTES] == q[43..59];
    assert p6[4..][NONCE_BYTES..][TAG_BYTES..][..n - HEADER_BYTES] == q[59..];
  }

  lemma FrameIsLocal(cipher: Cipher, p: bytes, p': bytes, offset: nat)
    requires |p| >= HEADER_BYTES && |p'| == |p| && ParseFrame(cipher, p, offset).Ok?
    requires var n := ParseFrame(cipher, p, offset).value.next - offset; p'[..n] == p[..n]
    ensures ParseFrame(cipher, p', offset) == ParseFrame(cipher, p, offset)
  {
    var n := ParseFrame(cipher, p, offset).value.next - offset;
    HeaderIsLocal(p, p', n);
    assert p[4..n] == p[..n][4..] && p'[4..n] == p'[..n][4..];
  }

  // ---------- Scanning two logs that agree in part ----------

  lemma {:induction false} ScanSameEnd(parse: Parser, parse': Parser, limit: nat, offset: nat)
    requires Advances(parse, limit) && Advances(parse', limit)
    requires forall i: nat :: offset <= i ==> parse'(i) == parse(i)
    ensures ScanWith(parse', limit, offset) == ScanWith(parse, limit, offset)
    decreases limit - offset
  {
    if parse(offset).Ok? {
      ScanSameEnd(parse, parse', limit, parse(offset).value.next);
    }
  }

  // Where one scan ends, the other one goes on.
  lemma {:induction false} ScanGoesOn(parse: Parser, parse': Parser, limit: nat, offset: nat)
    requires Advances(parse, limit) && Advances(parse', limit)
    requires var end := ScanWith(parse, limit, offset).1;
             forall i: nat :: parse(i).Ok? && parse(i).value.next <= end ==> parse'(i) == parse(i)
    ensures var (records, end) := ScanWith(parse, limit, offset);
            var (more, end') := ScanWith(parse', limit, end);
            ScanWith(parse', limit, offset) == (records + more, end')
    decreases limit - offset
  {
    if parse(offset).Ok? {
      var next := parse(offset).value.next;
      assert next <= ScanWith(parse, limit, next).1;
      ScanGoesOn(parse, parse', limit, next);
      var (records, end) := ScanWith(parse, limit, next);
      Associate([parse(offset).value.record], records, ScanWith(parse', limit, end).0);
    } else {
      var more := ScanWith(parse', limit, offset).0;
      assert [] + more == more;
    }
  }

  lemma ParseBefore(cipher: Cipher, base: bytes, off: nat, frame: bytes, i: nat)
    requires off + |frame| <= |base|
    requires ParseRecordAt(cipher, base, i).Ok? && ParseRecordAt(cipher, base, i).value.next <= off
    ensures ParseRecordAt(cipher, Overwritten(base, off, frame), i) == ParseRecordAt(cipher, base, i)
  {
    var base', next := Overwritten(base, off, frame), ParseRecordAt(cipher, base, i).value.next;
    OverwrittenParts(base, off, frame);
    assert base'[i..][..next - i] == base'[i..off][..next - i] && base[i..][..next - i] == base[i..off][..next - i];
    FrameIsLocal(cipher, base[i..], base'[i..], i);
  }

  lemma ParseBehind(cipher: Cipher, base: bytes, off: nat, frame: bytes, i: nat)
    requires off + |frame| <= |base| && off + |frame| <= i
    ensures ParseRecordAt(cipher, Overwritten(base, off, frame), i) == ParseRecordAt(cipher, base, i)
  {
    OverwrittenParts(base, off, frame);
  }

  lemma OldRecordsParse(cipher: Cipher, base: bytes, off: nat, frame: bytes)
    requires off + |frame| <= |base|
    ensures var parse, parse' := ParserOf(cipher, base), ParserOf(cipher, Overwritten(base, off, frame));
            && (forall i: nat :: parse(i).Ok? && parse(i).value.next <= off ==> parse'(i) == parse(i))
            && (forall i: nat :: off + |frame| <= i ==> parse'(i) == parse(i))
  {
    forall i: nat | ParseRecordAt(cipher, base, i).Ok? && ParseRecordAt(cipher, base, i).value.next <= off
      ensures ParseRecordAt(cipher, Overwritten(base, off, frame), i) == ParseRecordAt(cipher, base, i)
    {
      ParseBefore(cipher, base, off, frame, i);
    }
    forall i: nat | off + |frame| <= i
      ensures ParseRecordAt(cipher, Overwritten(base, off, frame), i) == ParseRecordAt(cipher, base, i)
    {
      ParseBehind(cipher, base, off, frame, i);
    }
  }

  // The second log holds an entry at an offset, and is the same in front of it and behind it.
  ghost predicate Appended(parse: Parser, parse': Parser, off: nat, e: LogEntry) {
    forall u: nat :: Unfold(u) ==>
      && ReadsAs(parse', off, e)
      && (forall i: nat :: parse(i).Ok? && parse(i).value.next <= off ==> parse'(i) == parse(i))
      && (forall i: nat :: off + |e.frame| <= i ==> parse'(i) == parse(i))
  }

  lemma OverwrittenIsAppended(cipher: Cipher, base: bytes, off: nat, e: LogEntry)
    requires Written(cipher, e) && Sized(e) && off + |e.frame| <= |base|
    ensures Appended(ParserOf(cipher, base), ParserOf(cipher, Overwritten(base, off, e.frame)), off, e)
  {
    OldRecordsParse(cipher, base, off, e.frame);
    OverwrittenParts(base, off, e.frame);
    ParseEntryAt(cipher, Overwritten(base, off, e.frame), off, e);
  }

  lemma ScanOfAppended(parse: Parser, parse': Parser, limit: nat, off: nat, e: LogEntry)
    requires Advances(parse, limit) && Advances(parse', limit)
    requires ScanWith(parse, limit, 0).1 == off && Appended(parse, parse', off, e)
    ensures var records := ScanWith(parse, limit, 0).0;
            var (stale, end) := ScanWith(parse, limit, off + |e.frame|);
            ScanWith(parse', limit, 0) == if Recoverable(e) then (records + [e.rec] + stale, end) else (records, off)
  {
    assert Unfold(0);
    var records := ScanWith(parse, limit, 0).0;
    ScanGoesOn(parse, parse', limit, 0);
    ScanSameEnd(parse, parse', limit, off + |e.frame|);
    if Recoverable(e) {
      Associate(records, [e.rec], ScanWith(parse, limit, off + |e.frame|).0);
    } else {
      assert records + [] == records;
    }
  }

  lemma AppendedScansTo(parse: Parser, parse': Parser, limit: nat, off: nat, e: LogEntry,
                        records: seq<WalRecord>, stale: seq<WalRecord>, end: nat)
    requires Advances(parse', limit) && Appended(parse, parse', off, e)
    requires ScansTo(parse, limit, 0, records, off) && ScansTo(parse, limit, off + |e.frame|, stale, end)
    ensures if Recoverable(e) then ScansTo(parse', limit, 0, records + [e.rec] + stale, end)
            else ScansTo(parse', limit, 0, records, off)
  {
    assert Unfold(0);
    ScanOfAppended(parse, parse', limit, off, e);
  }

  /** A record appended where the last scan ended is found by the next scan, if it is recoverable,
      followed by whatever the bytes behind it held before. */
  lemma AppendRescans(cipher: Cipher, base: bytes, off: nat, e: LogEntry,
                      records: seq<WalRecord>, stale: seq<WalRecord>, end: nat)
    requires Written(cipher, e) && Sized(e) && off + |e.frame| <= |base|
    requires ScansTo(ParserOf(cipher, base), |base|, 0, records, off)
    requires ScansTo(ParserOf(cipher, base), |base|, off + |e.frame|, stale, end)
    ensures var parse' := ParserOf(cipher, Overwritten(base, off, e.frame));
            if Recoverable(e) then ScansTo(parse', |base|, 0, records + [e.rec] + stale, end)
            else ScansTo(parse', |base|, 0, records, off)
  {
    OverwrittenIsAppended(cipher, base, off, e);
    AppendedScansTo(ParserOf(cipher, base), ParserOf(cipher, Overwritten(base, off, e.frame)), |base|, off, e,
                    records, stale, end);
  }

  // ---------- Old records come back ----------

  lemma {:induction false} LiesBehind(base: bytes, offset: nat, h: seq<LogEntry>, n: nat)
    requires n <= |h| && Lies(base, offset, h)
    ensures Lies(base, offset + |Image(h[..n])|, h[n..])
    decreases n
  {
    if n == 0 {
      assert h[0..] == h;
    } else {
      LiesBehind(base, offset + |h[0].frame|, h[1..], n - 1);
      RecordsCons(h, n);
      assert h[1..][n - 1..] == h[n..];
    }
  }

  // The parser meets the entries behind the first n where they lie, and stops behind the last.
  lemma MeetsBehind(cipher: Cipher, base: bytes, h: seq<LogEntry>, n: nat)
    requires n <= |h| && AllWritten(cipher, h) && (forall e :: e in h ==> Sized(e)) && Image(h) <= base
    ensures Meets(ParserOf(cipher, base), |Image(h[..n])|, h[n..])
  {
    assert base[0..|Image(h)|] == Image(h);
    ImageLies(base, 0, h);
    LiesBehind(base, 0, h, n);
    WrittenEntriesRead(cipher, base, h[n..]);
    LyingIsMet(ParserOf(cipher, base), base, |Image(h[..n])|, h[n..]);
  }

  lemma {:induction false} ImageSplits(h: seq<LogEntry>, n: nat)
    requires n <= |h|
    ensures |Image(h)| == |Image(h[..n])| + |Image(h[n..])|
    decreases n
  {
    if n == 0 {
      assert h[0..] == h;
    } else {
      ImageSplits(h[1..], n - 1);
      assert h[..n][1..] == h[1..][..n - 1] && h[1..][n - 1..] == h[n..];
    }
  }

  lemma MetScansTo(parse: Parser, limit: nat, offset: nat, h: seq<LogEntry>)
    requires Advances(parse, limit) && Meets(parse, offset, h) && parse(offset + |Image(h)|).Err?
    ensures ScansTo(parse, limit, offset, Records(h[..GoodPrefix(h)]), offset + |Image(h[..GoodPrefix(h)])|)
  {
    ScanOfMet(parse, limit, offset, h);
  }

  lemma ScanOfRest(parse: Parser, limit: nat, h: seq<LogEntry>, n: nat)
    requires n <= |h| && Advances(parse, limit) && parse(|Image(h)|).Err? && AllRecoverable(h[n..])
    requires Meets(parse, |Image(h[..n])|, h[n..])
    ensures ScansTo(parse, limit, |Image(h[..n])|, Records(h[n..]), |Image(h)|)
  {
    ImageSplits(h, n);
    RecoveredCount(h[n..]);
    MetScansTo(parse, limit, |Image(h[..n])|, h[n..]);
  }

  // A written entry that a scan reads back.
  ghost predicate Kept(cipher: Cipher, e: LogEntry) {
    forall u: nat :: Unpack(u) ==> Written(cipher, e) && Sized(e) && Recoverable(e)
  }

  // The bytes start with the frames of written entries of which only entry g cannot be read back, and stop
  // parsing behind them.
  ghost predicate Damaged(cipher: Cipher, base: bytes, h: seq<LogEntry>, g: nat) {
    forall u: nat :: Unpack(u) ==>
      && AllWritten(cipher, h) && (forall x :: x in h ==> Sized(x))
      && g == GoodPrefix(h) < |h| && AllRecoverable(h[g + 1..])
      && Image(h) <= base && ParseRecordAt(cipher, base, |Image(h)|).Err?
  }

  lemma DamagedOffsets(cipher: Cipher, base: bytes, h: seq<LogEntry>, g: nat)
    requires Damaged(cipher, base, h, g)
    ensures g < |h| && |Image(h[..g])| + |h[g].frame| == |Image(h[..g + 1])| <= |base|
  {
    assert Unpack(0);
    NextOffset(h, g);
    ImageSplits(h, g + 1);
  }

  lemma DamagedFront(cipher: Cipher, base: bytes, h: seq<LogEntry>, g: nat)
    requires Damaged(cipher, base, h, g) && g < |h|
    ensures ScansTo(ParserOf(cipher, base), |base|, 0, Records(h[..g]), |Image(h[..g])|)
  {
    assert Unpack(0);
    GoodPartScans(cipher, base, h);
  }

  lemma DamagedRest(cipher: Cipher, base: bytes, h: seq<LogEntry>, g: nat)
    requires Damaged(cipher, base, h, g) && g < |h|
    ensures ScansTo(ParserOf(cipher, base), |base|, |Image(h[..g + 1])|, Records(h[g + 1..]), |Image(h)|)
  {
    assert Unpack(0);
    RestScans(cipher, base, h, g + 1);
  }

  lemma KeptIsAppended(cipher: Cipher, base: bytes, off: nat, e: LogEntry)
    requires Kept(cipher, e) && off + |e.frame| <= |base|
    ensures Appended(ParserOf(cipher, base), ParserOf(cipher, Overwritten(base, off, e.frame)), off, e)
  {
    assert Unpack(0);
    OverwrittenIsAppended(cipher, base, off, e);
  }

  lemma KeptScansTo(cipher: Cipher, parse: Parser, parse': Parser, limit: nat, off: nat, e: LogEntry,
                    records: seq<WalRecord>, stale: seq<WalRecord>, end: nat)
    requires Kept(cipher, e) && Advances(parse', limit) && Appended(parse, parse', off, e)
    requires ScansTo(parse, limit, 0, records, off) && ScansTo(parse, limit, off + |e.frame|, stale, end)
    ensures ScansTo(parse', limit, 0, records + [e.rec] + stale, end)
  {
    assert Unpack(0);
    AppendedScansTo(parse, parse', limit, off, e, records, stale, end);
  }

  // What the log shows up to the lost record, and with the new one in its place.
  ghost predicate Shows(h: seq<LogEntry>, g: nat, e: LogEntry, front: seq<WalRecord>, off: nat,
                        found: seq<WalRecord>, end: nat) {
    && g < |h| && front == Records(h[..g]) && off == |Image(h[..g])| && end == |Image(h)|
    && found == Records(h[..g]) + [e.rec] + Records(h[g + 1..])
  }

  lemma StaleScans(cipher: Cipher, base: bytes, h: seq<LogEntry>, g: nat, e: LogEntry, front: seq<WalRecord>, off: nat,
                   found: seq<WalRecord>, end: nat)
    requires Damaged(cipher, base, h, g) && Shows(h, g, e, front, off, found, end)
    requires Kept(cipher, e) && |e.frame| == |h[g].frame|
    ensures off + |e.frame| <= |base| && ScansTo(ParserOf(cipher, base), |base|, 0, front, off)
    ensures ScansTo(ParserOf(cipher, Overwritten(base, off, e.frame)), |base|, 0, found, end)
  {
    DamagedOffsets(cipher, base, h, g);
    DamagedFront(cipher, base, h, g);
    DamagedRest(cipher, base, h, g);
    KeptIsAppended(cipher, base, off, e);
    KeptScansTo(cipher, ParserOf(cipher, base), ParserOf(cipher, Overwritten(base, off, e.frame)), |base|, off, e,
                front, Records(h[g + 1..]), end);
  }

  /** If the log ends early at an unrecoverable record and the next append is as long as that record, a
      rescan finds the new record and, behind it, the old ones with larger numbers again. */
  lemma StaleRecordsReturn(cipher: Cipher, base: bytes, h: seq<LogEntry>, g: nat, e: LogEntry, front: seq<WalRecord>,
                           off: nat, found: seq<WalRecord>, end: nat)
    requires Damaged(cipher, base, h, g) && Shows(h, g, e, front, off, found, end)
    requires Kept(cipher, e) && |e.frame| == |h[g].frame|
    ensures off + |e.frame| <= |base| && Finds(cipher, base, front, off)
    ensures Finds(cipher, Overwritten(base, off, e.frame), found, end)
  {
    StaleScans(cipher, base, h, g, e, front, off, found, end);
    ScansFinds(cipher, base, |base|, front, off);
    ScansFinds(cipher, Overwritten(base, off, e.frame), |base|, found, end);
  }

  lemma ScansFinds(cipher: Cipher, base: bytes, limit: nat, records: seq<WalRecord>, end: nat)
    requires limit == |base| && ScansTo(ParserOf(cipher, base), limit, 0, records, end)
    ensures Finds(cipher, base, records, end)
  {
  }

  lemma GoodPartScans(cipher: Cipher, base: bytes, h: seq<LogEntry>)
    requires AllWritten(cipher, h) && (forall x :: x in h ==> Sized(x))
    requires Image(h) <= base && ParseRecordAt(cipher, base, |Image(h)|).Err?
    ensures var g := GoodPrefix(h); ScansTo(ParserOf(cipher, base), |base|, 0, Records(h[..g]), |Image(h[..g])|)
  {
    MeetsAll(cipher, base, h);
    MetScansTo(ParserOf(cipher, base), |base|, 0, h);
  }

  lemma MeetsAll(cipher: Cipher, base: bytes, h: seq<LogEntry>)
    requires AllWritten(cipher, h) && (forall e :: e in h ==> Sized(e)) && Image(h) <= base
    ensures Meets(ParserOf(cipher, base), 0, h)
  {
    assert base[0..|Image(h)|] == Image(h);
    ImageLies(base, 0, h);
    WrittenEntriesRead(cipher, base, h);
    LyingIsMet(ParserOf(cipher, base), base, 0, h);
  }

  lemma RestScans(cipher: Cipher, base: bytes, h: seq<LogEntry>, n: nat)
    requires n <= |h| && AllWritten(cipher, h) && (forall x :: x in h ==> Sized(x)) && AllRecoverable(h[n..])
    requires Image(h) <= base && ParseRecordAt(cipher, base, |Image(h)|).Err?
    ensures ScansTo(ParserOf(cipher, base), |base|, |Image(h[..n])|, Records(h[n..]), |Image(h)|)
  {
    MeetsBehind(cipher, base, h, n);
    ScanOfRest(ParserOf(cipher, base), |base|, h, n);
  }

  lemma NextOffset(h: seq<LogEntry>, n: nat)
    requires n < |h|
    ensures |Image(h[..n + 1])| == |Image(h[..n])| + |h[n].frame|
  {
    assert h[..n + 1] == h[..n] + [h[n]];
    ImageSnoc(h[..n], h[n]);
  }
}
