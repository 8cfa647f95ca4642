/** Requests on their way from the gateway (gateway/cluster.py, gateway/tlv_client.py) through the connection
    buffer of the server (src/server.cpp, src/protocol.cpp). */
module Requests {
  import opened Bytes
  import opened Results
  import opened Protocol
  import opened Codec

  // What the gateway sends: the operation, no flags, the length of the payload and the payload.
  function PackFrame(op: byte, payload: bytes): bytes {
    [op, 0] + Le(|payload|, 4) + payload
  }

  function RequestBytes(c: Command): bytes {
    match c
    case Ping => PackFrame(0x01, [])
    case Set(key, value) => PackFrame(0x02, EncodeSetPayload(key, value))
    case Get(key) => PackFrame(0x03, EncodeKeyPayload(key))
    case Del(key) => PackFrame(0x04, EncodeKeyPayload(key))
    case Scan(prefix, limit) => PackFrame(0x05, EncodeScanPayload(prefix, limit))
  }

  function RequestsBytes(cs: seq<Command>): bytes {
    if cs == [] then [] else RequestBytes(cs[0]) + RequestsBytes(cs[1..])
  }

  // The sizes fit their fields and the payload has at most 4 MiB; the gateway sends no limit below one.
  predicate Sendable(c: Command) {
    match c
    case Ping => true
    case Set(key, value) => |key| < 65536 && 6 + |key| + |value| <= 4194304
    case Get(key) => |key| < 65536
    case Del(key) => |key| < 65536
    case Scan(prefix, limit) => |prefix| < 65536 && 1 <= limit < 65536
  }

  // The server encodes a frame as the gateway does.
  lemma PackIsEncode(op: byte, payload: bytes)
    ensures PackFrame(op, payload) == EncodeFrame(Frame(op, 0, payload))
  {
  }

  lemma RequestFrame(c: Command) returns (f: Frame)
    requires Sendable(c)
    ensures RequestBytes(c) == EncodeFrame(f) && |f.payload| <= MAX_PAYLOAD_BYTES && DecodeCommand(f) == Some(c)
  {
    match c
    case Ping =>
      f := Frame(0x01, 0, []);
    case Set(key, value) =>
      f := Frame(0x02, 0, EncodeSetPayload(key, value));
      SetRoundTrip(key, value, 0);
    case Get(key) =>
      f := Frame(0x03, 0, EncodeKeyPayload(key));
      KeyRoundTrip(key, 0);
    case Del(key) =>
      f := Frame(0x04, 0, EncodeKeyPayload(key));
      KeyRoundTrip(key, 0);
    case Scan(prefix, limit) =>
      f := Frame(0x05, 0, EncodeScanPayload(prefix, limit));
      ScanRoundTrip(prefix, limit, 0);
  }

  ghost predicate Decode(fs: seq<Frame>, cs: seq<Command>) {
    |fs| == |cs| && forall i :: 0 <= i < |fs| ==> DecodeCommand(fs[i]) == Some(cs[i])
  }

  lemma {:induction false} RequestFrames(cs: seq<Command>) returns (fs: seq<Frame>)
    requires forall c :: c in cs ==> Sendable(c)
    ensures RequestsBytes(cs) == EncodeFrames(fs) && Decode(fs, cs)
    ensures forall f :: f in fs ==> |f.payload| <= MAX_PAYLOAD_BYTES
  {
    fs := [];
    if cs != [] {
      var f := RequestFrame(cs[0]);
      var rest := RequestFrames(cs[1..]);
      fs := [f] + rest;
      EncodeCons(f, rest);
    }
  }

  /** Whatever the chunks in which the gateway's requests arrive, the server hands on one frame for each, in
      order, which decodes to the command that was sent, and nothing stays in the buffer. */
  lemma RequestsAreHandled(cs: seq<Command>, chunks: seq<bytes>)
    requires (forall c :: c in cs ==> Sendable(c)) && Concat(chunks) == RequestsBytes(cs)
    ensures Decode(FeedAll(START, chunks).handled, cs) && FeedAll(START, chunks).buffer == []
  {
    var fs := RequestFrames(cs);
    EncodedFramesParse(fs);
    ChunkingIsIrrelevant(Concat(chunks));
  }

  /** One request that arrives in one piece on a connection with an empty buffer. */
  method ReceiveRequest(conn: Connection, c: Command) returns (f: Frame)
    requires conn.Valid() && conn.rbuf == [] && Sendable(c)
    modifies conn
    ensures conn.Valid() && conn.rbuf == [] && DecodeCommand(f) == Some(c)
    ensures conn.fed.handled == old(conn.fed.handled) + [f]
  {
    ghost var g := RequestFrame(c);
    assert [] + RequestBytes(c) == RequestBytes(c);
    FirstAlone(g);
    var handled, ok := conn.Receive(RequestBytes(c));
    ghost var before := old(conn.fed.handled);
    assert (before + handled)[|before|..] == handled && (before + [g])[|before|..] == [g];
    f := handled[0];
  }

  // ---------- The limit ----------

  /** A frame of at most 4 MiB is handed on. */
  lemma FrameWithinLimit(handled: seq<Frame>, op: byte, payload: bytes)
    requires |payload| <= 4194304
    ensures Feed(Fed(handled, []), PackFrame(op, payload)) == Fed(handled + [Frame(op, 0, payload)], [])
  {
    PackIsEncode(op, payload);
    FirstAlone(Frame(op, 0, payload));
    assert [] + PackFrame(op, payload) == PackFrame(op, payload);
  }

  /** A header that declares more blocks the connection: nothing is handed on, now or with more bytes. */
  lemma FrameOverLimit(handled: seq<Frame>, op: byte, flags: byte, length: nat, rest: bytes, more: bytes)
    requires 4194305 <= length < UINT32_SIZE
    ensures var buf := [op, flags] + Le(length, 4) + rest;
            && Feed(Fed(handled, []), buf) == Fed(handled, buf)
            && Feed(Fed(handled, buf), more) == Fed(handled, buf + more)
  {
    var buf := [op, flags] + Le(length, 4) + rest;
    assert buf[2..6] == Le(length, 4);
    Words();
    assert [] + buf == buf;
    OversizedStays(buf, more);
  }

  // ---------- Bytes on the wire ----------

  lemma SmallWords()
    ensures Le(3, 4) == [3, 0, 0, 0] && Le(8, 4) == [8, 0, 0, 0] && Le(1, 4) == [1, 0, 0, 0] && Le(1, 2) == [1, 0]
  {
  }

  lemma PairOnTheWire(key: bytes, value: bytes)
    requires key == [0x6B] && value == [0x76]
    ensures EncodeSetPayload(key, value) == [1, 0, 0x6B, 1, 0, 0, 0, 0x76]
  {
    SmallWords();
    assert EncodeKeyPayload(key) == [1, 0, 0x6B];
    assert Le(|value|, 4) + value == [1, 0, 0, 0, 0x76];
  }

  /** The fourteen bytes of a SET of "k" to "v". */
  lemma SetOnTheWire(key: bytes, value: bytes)
    requires key == [0x6B] && value == [0x76]
    ensures RequestBytes(Set(key, value)) == [2, 0, 8, 0, 0, 0, 1, 0, 0x6B, 1, 0, 0, 0, 0x76]
  {
    SmallWords();
    PairOnTheWire(key, value);
  }

  /** The ten bytes of a scan result with that pair. */
  lemma ScanResultOnTheWire(key: bytes, value: bytes)
    requires key == [0x6B] && value == [0x76]
    ensures EncodeScanResult([(key, value)]) == [1, 0, 1, 0, 0x6B, 1, 0, 0, 0, 0x76]
  {
    SmallWords();
    PairOnTheWire(key, value);
    var pairs: seq<Pair> := [(key, value)];
    assert EncodePairs(pairs) == EncodePair(pairs[0]) + EncodePairs([]) == EncodePair(pairs[0]);
  }

  /** The nine bytes of a GET for the key "k". */
  lemma GetOnTheWire()
    ensures RequestBytes(Get([0x6B])) == [3, 0, 3, 0, 0, 0, 1, 0, 0x6B]
    ensures DecodeCommand(Frame(3, 0, [1, 0, 0x6B])) == Some(Get([0x6B]))
  {
    var key: bytes := [0x6B];
    SmallWords();
    assert EncodeKeyPayload(key) == [1, 0, 0x6B];
    KeyRoundTrip(key, 0);
  }

  /** A PING may carry anything, and no other operation is a command. */
  lemma OtherOperations(op: byte, flags: byte, payload: bytes)
    ensures DecodeCommand(Frame(1, flags, payload)) == Some(Ping)
    ensures op == 0 || op > 5 ==> DecodeCommand(Frame(op, flags, payload)) == None
  {
  }

  /** A SCAN with limit zero means 100. */
  lemma ScanWithoutLimit(prefix: bytes, flags: byte, ignored: bytes)
    requires |prefix| < 65536
    ensures DecodeCommand(Frame(5, flags, Le(|prefix|, 2) + prefix + ([0, 0] + ignored))) == Some(Scan(prefix, 100))
  {
    var rest := [0, 0] + ignored;
    ReadKeyInverts(prefix, rest);
    assert rest[..2] == [0, 0] && [0, 0][1..] == [0];
    assert LeValue([0, 0]) == 0;
  }
}
