/** Command and scan-result payloads: the server's side (src/protocol.cpp) against the gateway's
    (gateway/tlv_client.py). Keys and values are byte strings; text encoding is the gateway's matter. */
module Codec {
  import opened Bytes
  import opened Folding
  import opened Results
  import opened Protocol

  const OP_PING: byte := 0x01
  const OP_SET: byte := 0x02
  const OP_GET: byte := 0x03
  const OP_DEL: byte := 0x04
  const OP_SCAN: byte := 0x05
  const DEFAULT_SCAN_LIMIT: nat := 100

  datatype Command =
    | Ping
    | Set(key: bytes, value: bytes)
    | Get(key: bytes)
    | Del(key: bytes)
    | Scan(prefix: bytes, limit: nat)

  // ---------- The server decodes ----------

  // A key behind its two-byte length, and what follows it.
  function ReadKey(p: bytes): Option<(bytes, bytes)> {
    if |p| < 2 then None
    else
      var n := LeValue(p[..2]);
      var p1 := p[2..];
      if |p1| < n then None else Some((p1[..n], p1[n..]))
  }

  function DecodeCommand(f: Frame): Option<Command> {
    var p := f.payload;
    if f.op == OP_PING then Some(Ping)
    else if f.op == OP_SET then
      match ReadKey(p)
      case None => None
      case Some((key, rest)) =>
        if |rest| < 4 || |rest| != 4 + LeValue(rest[..4]) then None else Some(Set(key, rest[4..]))
    else if f.op == OP_GET || f.op == OP_DEL then
      match ReadKey(p)
      case None => None
      case Some((key, rest)) =>
        if rest != [] then None else if f.op == OP_GET then Some(Get(key)) else Some(Del(key))
    else if f.op == OP_SCAN then
      match ReadKey(p)
      case None => None
      case Some((prefix, rest)) =>
        if |rest| < 2 then None
        else
          var limit := LeValue(rest[..2]);
          Some(Scan(prefix, if limit == 0 then DEFAULT_SCAN_LIMIT else limit))
    else None
  }

  // ---------- The gateway encodes ----------

  // `struct.pack` raises an error for lengths and limits that do not fit.
  predicate KeyFits(key: bytes) {
    |key| < UINT16_SIZE
  }

  function EncodeKeyPayload(key: bytes): bytes {
    Le(|key|, 2) + key
  }

  function EncodeSetPayload(key: bytes, value: bytes): bytes {
    EncodeKeyPayload(key) + (Le(|value|, 4) + value)
  }

  function EncodeScanPayload(prefix: bytes, limit: int): bytes {
    EncodeKeyPayload(prefix) + Le(if limit < 1 then 1 else limit, 2)
  }

  lemma ReadKeyInverts(key: bytes, rest: bytes)
    requires KeyFits(key)
    ensures ReadKey(EncodeKeyPayload(key) + rest) == Some((key, rest))
  {
    var p := EncodeKeyPayload(key) + rest;
    WordSizes();
    LeRoundTrip(|key|, 2);
    assert p[..2] == Le(|key|, 2) && p[2..] == key + rest;
    assert (key + rest)[..|key|] == key && (key + rest)[|key|..] == rest;
  }

  lemma ReadKeyIsUnique(p: bytes)
    requires ReadKey(p).Some?
    ensures var (key, rest) := ReadKey(p).value; KeyFits(key) && p == EncodeKeyPayload(key) + rest
  {
    WordSizes();
    LeUnique(p[..2]);
    var n := LeValue(p[..2]);
    assert p == p[..2] + (p[2..][..n] + p[2..][n..]);
  }

  lemma SetRoundTrip(key: bytes, value: bytes, flags: byte)
    requires KeyFits(key) && |value| < UINT32_SIZE
    ensures DecodeCommand(Frame(OP_SET, flags, EncodeSetPayload(key, value))) == Some(Set(key, value))
  {
    var body := Le(|value|, 4) + value;
    ReadKeyInverts(key, body);
    Words();
    assert body[..4] == Le(|value|, 4) && body[4..] == value;
  }

  lemma KeyRoundTrip(key: bytes, flags: byte)
    requires KeyFits(key)
    ensures DecodeCommand(Frame(OP_GET, flags, EncodeKeyPayload(key))) == Some(Get(key))
    ensures DecodeCommand(Frame(OP_DEL, flags, EncodeKeyPayload(key))) == Some(Del(key))
  {
    ReadKeyInverts(key, []);
    assert EncodeKeyPayload(key) + [] == EncodeKeyPayload(key);
  }

  lemma ScanRoundTrip(prefix: bytes, limit: int, flags: byte)
    requires KeyFits(prefix) && limit < UINT16_SIZE
    ensures DecodeCommand(Frame(OP_SCAN, flags, EncodeScanPayload(prefix, limit)))
         == Some(Scan(prefix, if limit < 1 then 1 else limit))
  {
    var n := if limit < 1 then 1 else limit;
    ReadKeyInverts(prefix, Le(n, 2));
    Words();
    assert Le(n, 2)[..2] == Le(n, 2);
  }

  /** The server decodes what the gateway encodes; the gateway raises a limit below one to one. */
  lemma CommandRoundTrip(key: bytes, value: bytes, limit: int, flags: byte)
    requires KeyFits(key) && |value| < UINT32_SIZE && limit < UINT16_SIZE
    ensures DecodeCommand(Frame(OP_SET, flags, EncodeSetPayload(key, value))) == Some(Set(key, value))
    ensures DecodeCommand(Frame(OP_GET, flags, EncodeKeyPayload(key))) == Some(Get(key))
    ensures DecodeCommand(Frame(OP_DEL, flags, EncodeKeyPayload(key))) == Some(Del(key))
    ensures DecodeCommand(Frame(OP_SCAN, flags, EncodeScanPayload(key, limit)))
         == Some(Scan(key, if limit < 1 then 1 else limit))
  {
    SetRoundTrip(key, value, flags);
    KeyRoundTrip(key, flags);
    ScanRoundTrip(key, limit, flags);
  }

  /** Every accepted SET, GET or DEL payload is the encoding of the decoded fields. A SCAN payload may
      carry bytes behind its limit, which are ignored, and a limit of zero means the default. */
  lemma CommandIsUnique(f: Frame)
    requires DecodeCommand(f).Some?
    ensures match DecodeCommand(f).value
            case Ping => f.op == OP_PING
            case Set(key, value) => f.op == OP_SET && f.payload == EncodeSetPayload(key, value)
            case Get(key) => f.op == OP_GET && f.payload == EncodeKeyPayload(key)
            case Del(key) => f.op == OP_DEL && f.payload == EncodeKeyPayload(key)
            case Scan(prefix, limit) =>
              f.op == OP_SCAN && exists raw: nat, extra: bytes :: ScanPayload(f.payload, prefix, limit, raw, extra)
  {
    if f.op != OP_PING {
      ReadKeyIsUnique(f.payload);
      var (key, rest) := ReadKey(f.payload).value;
      if f.op == OP_SET {
        LeUnique(rest[..4]);
        assert rest == rest[..4] + rest[4..];
      } else if f.op == OP_SCAN {
        LeUnique(rest[..2]);
        assert rest == rest[..2] + rest[2..];
        assert ScanPayload(f.payload, key, DecodeCommand(f).value.limit, LeValue(rest[..2]), rest[2..]);
      } else {
        assert EncodeKeyPayload(key) + [] == EncodeKeyPayload(key);
      }
    }
  }

  ghost predicate ScanPayload(p: bytes, prefix: bytes, limit: nat, raw: nat, extra: bytes) {
    && p == EncodeKeyPayload(prefix) + (Le(raw, 2) + extra)
    && limit == if raw == 0 then DEFAULT_SCAN_LIMIT else raw
  }

  // ---------- Scan results ----------

  type Pair = (bytes, bytes)

  function EncodePair(e: Pair): bytes {
    EncodeSetPayload(e.0, e.1)
  }

  function EncodePairs(es: seq<Pair>): bytes {
    if es == [] then [] else EncodePair(es[0]) + EncodePairs(es[1..])
  }

  function EncodeScanResult(es: seq<Pair>): bytes {
    Le(|es|, 2) + EncodePairs(es)
  }

  predicate PairFits(e: Pair) {
    KeyFits(e.0) && |e.1| < UINT32_SIZE
  }

  // A value behind its four-byte length, and what follows it.
  function ReadValue(p: bytes): Option<(bytes, bytes)> {
    if |p| < 4 then None
    else
      var n := LeValue(p[..4]);
      var p1 := p[4..];
      if |p1| < n then None else Some((p1[..n], p1[n..]))
  }

  function ReadPair(p: bytes): Option<(Pair, bytes)> {
    match ReadKey(p)
    case None => None
    case Some((key, p1)) =>
      match ReadValue(p1)
      case None => None
      case Some((value, rest)) => Some(((key, value), rest))
  }

  type PairReader = bytes -> Option<(Pair, bytes)>

  // n pairs from the front and what follows them, unless one is cut short.
  function ReadAll(read: PairReader, p: bytes, n: nat): Option<(seq<Pair>, bytes)>
    decreases n, p
  {
    if n == 0 then Some(([], p))
    else
      match read(p)
      case None => None
      case Some((e, p1)) => Prepend([e], ReadAll(read, p1, n - 1))
  }

  function Prepend(es: seq<Pair>, r: Option<(seq<Pair>, bytes)>): Option<(seq<Pair>, bytes)> {
    match r
    case None => None
    case Some((more, rest)) => Some((es + more, rest))
  }

  // Up to n pairs from the front, stopping at the first that is cut short.
  function Gather(read: PairReader, p: bytes, n: nat): seq<Pair>
    decreases n, p
  {
    if n == 0 then []
    else
      match read(p)
      case None => []
      case Some((e, p1)) => [e] + Gather(read, p1, n - 1)
  }

  // The server's own decoder insists on every announced pair and on nothing behind them.
  function DecodeScanResult(p: bytes): Option<seq<Pair>> {
    if |p| < 2 then None
    else
      match ReadAll(ReadPair, p[2..], LeValue(p[..2]))
      case None => None
      case Some((es, rest)) => if rest == [] then Some(es) else None
  }

  // The gateway keeps what it can read.
  function ParseScanResult(p: bytes): seq<Pair> {
    if |p| < 2 then [] else Gather(ReadPair, p[2..], LeValue(p[..2]))
  }

  lemma ReadValueInverts(value: bytes, rest: bytes)
    requires |value| < UINT32_SIZE
    ensures ReadValue((Le(|value|, 4) + value) + rest) == Some((value, rest))
  {
    Words();
    Peel(Le(|value|, 4), value, rest);
    assert (value + rest)[..|value|] == value && (value + rest)[|value|..] == rest;
  }

  lemma ReadValueIsUnique(p: bytes)
    requires ReadValue(p).Some?
    ensures var (value, rest) := ReadValue(p).value; |value| < UINT32_SIZE && p == (Le(|value|, 4) + value) + rest
  {
    WordSizes();
    LeUnique(p[..4]);
    var p1, n := p[4..], LeValue(p[..4]);
    assert p == p[..4] + p1 && p1 == p1[..n] + p1[n..];
  }

  lemma ReadPairInverts(e: Pair, rest: bytes)
    requires PairFits(e)
    ensures ReadPair(EncodePair(e) + rest) == Some((e, rest))
  {
    var value := Le(|e.1|, 4) + e.1;
    ReadKeyInverts(e.0, value + rest);
    ReadValueInverts(e.1, rest);
    Associate(EncodeKeyPayload(e.0), value, rest);
  }

  lemma ReadPairIsUnique(p: bytes)
    requires ReadPair(p).Some?
    ensures var (e, rest) := ReadPair(p).value; PairFits(e) && p == EncodePair(e) + rest
  {
    var (key, p1) := ReadKey(p).value;
    var (value, rest) := ReadValue(p1).value;
    ReadKeyIsUnique(p);
    ReadValueIsUnique(p1);
    Associate(EncodeKeyPayload(key), Le(|value|, 4) + value, rest);
  }

  // The reader undoes the encoding of the given pairs, and what it reads is so encoded.
  ghost predicate Inverts(read: PairReader, es: seq<Pair>) {
    forall e, rest :: e in es ==> read(EncodePair(e) + rest) == Some((e, rest))
  }

  ghost predicate Conserves(read: PairReader) {
    forall p :: read(p).Some? ==> p == EncodePair(read(p).value.0) + read(p).value.1
  }

  lemma {:induction false} ReadAllInverts(read: PairReader, es: seq<Pair>, p: bytes, rest: bytes)
    requires Inverts(read, es) && p == EncodePairs(es) + rest
    ensures ReadAll(read, p, |es|) == Some((es, rest))
    decreases es
  {
    if es == [] {
      assert p == rest;
    } else {
      var tail := EncodePairs(es[1..]) + rest;
      assert p == EncodePair(es[0]) + tail by { Associate(EncodePair(es[0]), EncodePairs(es[1..]), rest); }
      ReadAllInverts(read, es[1..], tail, rest);
      assert es == [es[0]] + es[1..];
    }
  }

  lemma {:induction false} ReadAllConserves(read: PairReader, p: bytes, n: nat)
    requires Conserves(read) && ReadAll(read, p, n).Some?
    ensures var (es, rest) := ReadAll(read, p, n).value; p == EncodePairs(es) + rest && |es| == n
    decreases n
  {
    if n == 0 {
      assert [] + p == p;
    } else {
      var (e, p1) := read(p).value;
      ReadAllConserves(read, p1, n - 1);
      var (more, rest) := ReadAll(read, p1, n - 1).value;
      PairsCons(e, more);
      Associate(EncodePair(e), EncodePairs(more), rest);
    }
  }

  /** Where the server's decoder reads every announced pair the gateway reads the same ones, and where it
      does not the gateway ends up with fewer than announced. */
  lemma {:induction false} GatherAgrees(read: PairReader, p: bytes, n: nat)
    ensures |Gather(read, p, n)| <= n
    ensures ReadAll(read, p, n).Some? <==> |Gather(read, p, n)| == n
    ensures ReadAll(read, p, n).Some? ==> Gather(read, p, n) == ReadAll(read, p, n).value.0
    decreases n
  {
    if n > 0 && read(p).Some? {
      GatherAgrees(read, read(p).value.1, n - 1);
    }
  }

  lemma ReadPairsInvert(es: seq<Pair>, p: bytes, rest: bytes)
    requires (forall e :: e in es ==> PairFits(e)) && p == EncodePairs(es) + rest
    ensures ReadAll(ReadPair, p, |es|) == Some((es, rest))
  {
    forall e, r | e in es ensures ReadPair(EncodePair(e) + r) == Some((e, r)) {
      ReadPairInverts(e, r);
    }
    ReadAllInverts(ReadPair, es, p, rest);
  }

  lemma ReadPairsConserve(p: bytes, n: nat)
    requires ReadAll(ReadPair, p, n).Some?
    ensures var (es, rest) := ReadAll(ReadPair, p, n).value; p == EncodePairs(es) + rest && |es| == n
  {
    forall q | ReadPair(q).Some? ensures q == EncodePair(ReadPair(q).value.0) + ReadPair(q).value.1 {
      ReadPairIsUnique(q);
    }
    ReadAllConserves(ReadPair, p, n);
  }

  lemma PairsCons(e: Pair, es: seq<Pair>)
    ensures EncodePairs([e] + es) == EncodePair(e) + EncodePairs(es)
  {
  }

  /** An encoded list decodes, on either side, if and only if its length fits the two-byte count. */
  lemma ScanResultRoundTrip(es: seq<Pair>)
    requires forall e :: e in es ==> PairFits(e)
    ensures DecodeScanResult(EncodeScanResult(es)) == Some(es) <==> |es| < UINT16_SIZE
    ensures ParseScanResult(EncodeScanResult(es)) == es <==> |es| < UINT16_SIZE
  {
    var p := EncodeScanResult(es);
    GatherAgrees(ReadPair, p[2..], LeValue(p[..2]));
    WordSizes();
    if |es| < UINT16_SIZE {
      LeRoundTrip(|es|, 2);
      assert p[..2] == Le(|es|, 2) && p[2..] == EncodePairs(es) + [];
      ReadPairsInvert(es, p[2..], []);
    } else {
      CountIsShort(p, es);
    }
  }

  // No more pairs are read than two bytes can count.
  lemma CountIsShort(p: bytes, es: seq<Pair>)
    requires |p| >= 2 && |es| >= UINT16_SIZE
    ensures DecodeScanResult(p) != Some(es) && ParseScanResult(p) != es
  {
    WordSizes();
    LeUnique(p[..2]);
    GatherAgrees(ReadPair, p[2..], LeValue(p[..2]));
  }

  /** Whatever the server's decoder accepts is the encoding of its result, and the gateway reads the
      same list from it. */
  lemma ScanResultIsUnique(p: bytes)
    requires DecodeScanResult(p).Some?
    ensures p == EncodeScanResult(DecodeScanResult(p).value)
    ensures ParseScanResult(p) == DecodeScanResult(p).value
  {
    var n := LeValue(p[..2]);
    GatherAgrees(ReadPair, p[2..], n);
    WordSizes();
    LeUnique(p[..2]);
    ReadPairsConserve(p[2..], n);
    assert p == p[..2] + p[2..];
  }

  /** A list of 65536 pairs is encoded but comes back as the empty list at the gateway, and not at all
      from the server's decoder. */
  lemma LongListIsLost(es: seq<Pair>)
    requires |es| == UINT16_SIZE && forall i :: 0 <= i < |es| ==> es[i] == ([1], [])
    ensures ParseScanResult(EncodeScanResult(es)) == []
    ensures DecodeScanResult(EncodeScanResult(es)) == None
  {
    var p := EncodeScanResult(es);
    WordSizes();
    LeRoundTrip(|es|, 2);
    assert p[..2] == Le(|es|, 2) && p[2..] == EncodePairs(es);
    assert EncodePairs(es) != [];
  }

  // ---------- The loops ----------

  method EncodeScanResultPayload(entries: seq<Pair>) returns (payload: bytes)
    ensures payload == EncodeScanResult(entries)
  {
    payload := AppendLe([], |entries|, 2);
    assert entries[0..] == entries;
    for i := 0 to |entries|
      invariant payload + EncodePairs(entries[i..]) == EncodeScanResult(entries)
    {
      assert entries[i..][1..] == entries[i + 1..];
      payload := AppendPair(payload, entries[i], EncodePairs(entries[i + 1..]));
    }
    assert payload + EncodePairs([]) == payload;
  }

  method AppendPair(out: bytes, e: Pair, ghost rest: bytes) returns (r: bytes)
    ensures r + rest == out + (EncodePair(e) + rest)
  {
    r := AppendLe(out, |e.0|, 2);
    r := r + e.0;
    r := AppendLe(r, |e.1|, 4);
    r := r + e.1;
    assert r == out + EncodePair(e);
  }

  // Reads a key, a value or a pair at an offset.
  method ReadKeyAt(payload: bytes, off: nat) returns (r: Option<(bytes, nat)>)
    requires off <= |payload|
    ensures r.None? <==> ReadKey(payload[off..]).None?
    ensures r.Some? ==>
      off < r.value.1 <= |payload| && ReadKey(payload[off..]) == Some((r.value.0, payload[r.value.1..]))
  {
    if off + 2 > |payload| {
      return None;
    }
    ghost var p := payload[off..];
    var keyLen := ReadLe(payload, off, 2);
    assert p[..2] == payload[off..off + 2] && p[2..] == payload[off + 2..];
    if off + 2 + keyLen > |payload| {
      return None;
    }
    var next := off + 2 + keyLen;
    assert p[2..][..keyLen] == payload[off + 2..next] && p[2..][keyLen..] == payload[next..];
    r := Some((payload[off + 2..next], next));
  }

  method ReadValueAt(payload: bytes, off: nat) returns (r: Option<(bytes, nat)>)
    requires off <= |payload|
    ensures r.None? <==> ReadValue(payload[off..]).None?
    ensures r.Some? ==>
      off < r.value.1 <= |payload| && ReadValue(payload[off..]) == Some((r.value.0, payload[r.value.1..]))
  {
    if off + 4 > |payload| {
      return None;
    }
    ghost var p := payload[off..];
    var valueLen := ReadLe(payload, off, 4);
    assert p[..4] == payload[off..off + 4] && p[4..] == payload[off + 4..];
    if off + 4 + valueLen > |payload| {
      return None;
    }
    var next := off + 4 + valueLen;
    assert p[4..][..valueLen] == payload[off + 4..next] && p[4..][valueLen..] == payload[next..];
    r := Some((payload[off + 4..next], next));
  }

  method ReadPairAt(payload: bytes, off: nat) returns (r: Option<(Pair, nat)>)
    requires off <= |payload|
    ensures r.None? <==> ReadPair(payload[off..]).None?
    ensures r.Some? ==>
      off < r.value.1 <= |payload| && ReadPair(payload[off..]) == Some((r.value.0, payload[r.value.1..]))
  {
    var key := ReadKeyAt(payload, off);
    if key.None? {
      return None;
    }
    var value := ReadValueAt(payload, key.value.1);
    if value.None? {
      return None;
    }
    r := Some(((key.value.0, value.value.0), value.value.1));
  }

  // The pairs read so far, and those still to come, are all that are to be read.
  ghost predicate Remaining(all: Option<(seq<Pair>, bytes)>, read: seq<Pair>, p: bytes, n: nat) {
    forall u: nat :: Unfold(u) ==> all == Prepend(read, ReadAll(ReadPair, p, n))
  }

  lemma RemainingStart(p: bytes, n: nat)
    ensures Remaining(ReadAll(ReadPair, p, n), [], p, n)
  {
    var all := ReadAll(ReadPair, p, n);
    if all.Some? { assert [] + all.value.0 == all.value.0; }
  }

  lemma RemainingStep(all: Option<(seq<Pair>, bytes)>, read: seq<Pair>, p: bytes, n: nat, e: Pair, p1: bytes)
    requires n > 0 && Remaining(all, read, p, n) && ReadPair(p) == Some((e, p1))
    ensures Remaining(all, read + [e], p1, n - 1)
  {
    assert Unfold(0);
    var more := ReadAll(ReadPair, p1, n - 1);
    if more.Some? { Associate(read, [e], more.value.0); }
  }

  lemma RemainingEnd(all: Option<(seq<Pair>, bytes)>, read: seq<Pair>, p: bytes, n: nat)
    requires Remaining(all, read, p, n) && (n == 0 || ReadPair(p).None?)
    ensures all == if n == 0 then Some((read, p)) else None
  {
    assert Unfold(0) && read + [] == read;
  }

  // The server's loop, which fails at a pair that is cut short.
  method ReadPairsLoop(payload: bytes, start: nat, count: nat) returns (r: Option<(seq<Pair>, nat)>)
    requires start <= |payload|
    ensures r.None? <==> ReadAll(ReadPair, payload[start..], count).None?
    ensures r.Some? ==>
      r.value.1 <= |payload| && ReadAll(ReadPair, payload[start..], count) == Some((r.value.0, payload[r.value.1..]))
  {
    var entries: seq<Pair>, off: nat := [], start;
    ghost var all := ReadAll(ReadPair, payload[start..], count);
    RemainingStart(payload[start..], count);
    for i := 0 to count
      invariant off <= |payload| && Remaining(all, entries, payload[off..], count - i)
    {
      var e := ReadPairAt(payload, off);
      if e.None? {
        RemainingEnd(all, entries, payload[off..], count - i);
        return None;
      }
      RemainingStep(all, entries, payload[off..], count - i, e.value.0, payload[e.value.1..]);
      entries := entries + [e.value.0];
      off := e.value.1;
    }
    RemainingEnd(all, entries, payload[off..], 0);
    r := Some((entries, off));
  }

  method DecodeScanResultPayload(payload: bytes) returns (r: Option<seq<Pair>>)
    ensures r == DecodeScanResult(payload)
  {
    if |payload| < 2 {
      return None;
    }
    var n := ReadLe(payload, 0, 2);
    assert payload[0..2] == payload[..2];
    var read := ReadPairsLoop(payload, 2, n);
    if read.None? || read.value.1 != |payload| {
      return None;
    }
    r := Some(read.value.0);
  }

  ghost predicate Gathering(all: seq<Pair>, out: seq<Pair>, p: bytes, n: nat) {
    forall u: nat :: Unfold(u) ==> all == out + Gather(ReadPair, p, n)
  }

  lemma GatheringStart(p: bytes, n: nat)
    ensures Gathering(Gather(ReadPair, p, n), [], p, n)
  {
    var all := Gather(ReadPair, p, n);
    assert [] + all == all;
  }

  lemma GatheringStep(all: seq<Pair>, out: seq<Pair>, p: bytes, n: nat, e: Pair, p1: bytes)
    requires n > 0 && Gathering(all, out, p, n) && ReadPair(p) == Some((e, p1))
    ensures Gathering(all, out + [e], p1, n - 1)
  {
    assert Unfold(0);
    Associate(out, [e], Gather(ReadPair, p1, n - 1));
  }

  lemma GatheringEnd(all: seq<Pair>, out: seq<Pair>, p: bytes, n: nat)
    requires Gathering(all, out, p, n) && (n == 0 || ReadPair(p).None?)
    ensures all == out
  {
    assert Unfold(0);
  }

  // The gateway's loop, which stops at a pair that is cut short.
  method GatherLoop(payload: bytes, start: nat, count: nat) returns (out: seq<Pair>)
    requires start <= |payload|
    ensures out == Gather(ReadPair, payload[start..], count)
  {
    out := [];
    var offset: nat := start;
    ghost var all := Gather(ReadPair, payload[start..], count);
    GatheringStart(payload[start..], count);
    for i := 0 to count
      invariant offset <= |payload| && Gathering(all, out, payload[offset..], count - i)
    {
      var e := ReadPairAt(payload, offset);
      if e.None? {
        GatheringEnd(all, out, payload[offset..], count - i);
        return;
      }
      GatheringStep(all, out, payload[offset..], count - i, e.value.0, payload[e.value.1..]);
      out := out + [e.value.0];
      offset := e.value.1;
    }
    GatheringEnd(all, out, payload[offset..], 0);
  }

  method ParseScanResultPayload(payload: bytes) returns (out: seq<Pair>)
    ensures out == ParseScanResult(payload)
  {
    if |payload| < 2 {
      return [];
    }
    var count := ReadLe(payload, 0, 2);
    assert payload[0..2] == payload[..2];
    out := GatherLoop(payload, 2, count);
  }
}
