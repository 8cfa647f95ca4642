/** TLV framing (src/protocol.cpp) and the connection buffer that feeds it (src/server.cpp). */
module Protocol {
  import opened Bytes

  const HEADER_BYTES: nat := 6
  const MAX_PAYLOAD_BYTES: nat := 4 * 1024 * 1024

  datatype Frame = Frame(op: byte, flags: byte, payload: bytes)

  function EncodeFrame(f: Frame): bytes {
    [f.op, f.flags] + Le(|f.payload|, 4) + f.payload
  }

  function EncodeFrames(fs: seq<Frame>): bytes {
    if fs == [] then [] else EncodeFrame(fs[0]) + EncodeFrames(fs[1..])
  }

  // ---------- What the front of a buffer holds ----------

  datatype Front = Partial | Oversized | Whole(frame: Frame, size: nat)

  function DeclaredLength(buf: bytes): nat
    requires |buf| >= HEADER_BYTES
  {
    LeValue(buf[2..6])
  }

  function ReadFront(buf: bytes): (r: Front)
    ensures r.Whole? ==> HEADER_BYTES <= r.size <= |buf|
  {
    if |buf| < HEADER_BYTES then Partial
    else if DeclaredLength(buf) > MAX_PAYLOAD_BYTES then Oversized
    else
      var size := HEADER_BYTES + DeclaredLength(buf);
      if |buf| < size then Partial else Whole(Frame(buf[0], buf[1], buf[HEADER_BYTES..size]), size)
  }

  // The complete frames of a buffer, what is left of it, and whether an oversized header was met.
  datatype Parse = Parse(frames: seq<Frame>, rest: bytes, ok: bool)

  function ParseAll(buf: bytes): (r: Parse)
    ensures |r.rest| <= |buf|
    decreases |buf|
  {
    match ReadFront(buf)
    case Partial => Parse([], buf, true)
    case Oversized => Parse([], buf, false)
    case Whole(frame, size) =>
      var p := ParseAll(buf[size..]);
      Parse([frame] + p.frames, p.rest, p.ok)
  }

  // ---------- Conservation and round trip ----------

  lemma WholeIsEncoded(buf: bytes)
    requires ReadFront(buf).Whole?
    ensures var r := ReadFront(buf);
            && buf == EncodeFrame(r.frame) + buf[r.size..]
            && |r.frame.payload| <= MAX_PAYLOAD_BYTES
  {
    var r := ReadFront(buf);
    LeUnique(buf[2..6]);
    assert buf[..r.size] == [buf[0], buf[1]] + buf[2..6] + buf[6..r.size];
    assert buf == buf[..r.size] + buf[r.size..];
  }

  /** Parsing loses and invents nothing: the buffer is the re-encoded frames followed by the rest, and
      the rest holds no complete frame. */
  lemma {:induction false} ParseConserves(buf: bytes)
    ensures var p := ParseAll(buf);
            && buf == EncodeFrames(p.frames) + p.rest
            && (if p.ok then ReadFront(p.rest).Partial? else ReadFront(p.rest).Oversized?)
            && forall f :: f in p.frames ==> |f.payload| <= MAX_PAYLOAD_BYTES
    decreases |buf|
  {
    if ReadFront(buf).Whole? {
      var r := ReadFront(buf);
      WholeIsEncoded(buf);
      ParseConserves(buf[r.size..]);
      var p := ParseAll(buf[r.size..]);
      EncodeCons(r.frame, p.frames);
      assert buf == EncodeFrame(r.frame) + (EncodeFrames(p.frames) + p.rest);
    }
  }

  lemma EncodeCons(f: Frame, fs: seq<Frame>)
    ensures EncodeFrames([f] + fs) == EncodeFrame(f) + EncodeFrames(fs)
  {
  }

  lemma FrontOfEncoded(f: Frame, tail: bytes)
    requires |f.payload| <= MAX_PAYLOAD_BYTES
    ensures ReadFront(EncodeFrame(f) + tail) == Whole(f, HEADER_BYTES + |f.payload|)
    ensures (EncodeFrame(f) + tail)[HEADER_BYTES + |f.payload|..] == tail
  {
    var buf := EncodeFrame(f) + tail;
    var size := HEADER_BYTES + |f.payload|;
    WordSizes();
    LeRoundTrip(|f.payload|, 4);
    assert buf[2..6] == Le(|f.payload|, 4);
    assert buf[6..size] == f.payload;
  }

  // A parse with more frames in front.
  function Prefixed(fs: seq<Frame>, p: Parse): Parse {
    Parse(fs + p.frames, p.rest, p.ok)
  }

  lemma PrefixedTwice(f: Frame, fs: seq<Frame>, p: Parse)
    ensures Prefixed([f], Prefixed(fs, p)) == Prefixed([f] + fs, p)
  {
  }

  lemma ParseFirst(f: Frame, buf: bytes, rest: bytes)
    requires |f.payload| <= MAX_PAYLOAD_BYTES && buf == EncodeFrame(f) + rest
    ensures ParseAll(buf) == Prefixed([f], ParseAll(rest))
  {
    FrontOfEncoded(f, rest);
  }

  /** Frames with payloads of at most 4 MiB are parsed back in front of whatever follows them. */
  lemma {:induction false} FramesRoundTrip(fs: seq<Frame>, buf: bytes, tail: bytes)
    requires (forall f :: f in fs ==> |f.payload| <= MAX_PAYLOAD_BYTES) && buf == EncodeFrames(fs) + tail
    ensures ParseAll(buf) == Prefixed(fs, ParseAll(tail))
    decreases fs
  {
    if fs == [] {
      assert buf == tail;
      assert [] + ParseAll(tail).frames == ParseAll(tail).frames;
    } else {
      var rest := EncodeFrames(fs[1..]) + tail;
      assert buf == EncodeFrame(fs[0]) + rest;
      ParseFirst(fs[0], buf, rest);
      FramesRoundTrip(fs[1..], rest, tail);
      PrefixedTwice(fs[0], fs[1..], ParseAll(tail));
      assert fs == [fs[0]] + fs[1..];
    }
  }

  /** In particular encoded frames alone are parsed back with nothing left. */
  lemma EncodedFramesParse(fs: seq<Frame>)
    requires forall f :: f in fs ==> |f.payload| <= MAX_PAYLOAD_BYTES
    ensures ParseAll(EncodeFrames(fs)) == Parse(fs, [], true)
  {
    assert EncodeFrames(fs) == EncodeFrames(fs) + [];
    FramesRoundTrip(fs, EncodeFrames(fs), []);
    assert fs + [] == fs;
  }

  // ---------- Independence of chunking ----------

  // Parsing more bytes continues where parsing the first ones stopped.
  lemma ParseContinues(a: bytes, b: bytes)
    ensures ParseAll(a + b) == Prefixed(ParseAll(a).frames, ParseAll(ParseAll(a).rest + b))
  {
    var p := ParseAll(a);
    ParseConserves(a);
    assert a + b == EncodeFrames(p.frames) + (p.rest + b) by { Associate(EncodeFrames(p.frames), p.rest, b); }
    FramesRoundTrip(p.frames, a + b, p.rest + b);
  }

  // An oversized header stays oversized when bytes are added behind it.
  lemma OversizedStays(a: bytes, b: bytes)
    requires ReadFront(a).Oversized?
    ensures ReadFront(a + b).Oversized?
  {
    assert (a + b)[2..6] == a[2..6];
  }

  // What a connection has handed on and what it keeps; bytes behind an oversized header pile up.
  datatype Fed = Fed(handled: seq<Frame>, buffer: bytes)

  // The buffer is left as it was when an oversized header is met, and the frames are dropped.
  function Feed(x: Fed, chunk: bytes): Fed {
    var buf := x.buffer + chunk;
    var p := ParseAll(buf);
    if p.ok then Fed(x.handled + p.frames, p.rest) else Fed(x.handled, buf)
  }

  function FeedAll(x: Fed, chunks: seq<bytes>): Fed
    decreases |chunks|
  {
    if chunks == [] then x else FeedAll(Feed(x, chunks[0]), chunks[1..])
  }

  function Concat(chunks: seq<bytes>): bytes {
    if chunks == [] then [] else chunks[0] + Concat(chunks[1..])
  }

  const START: Fed := Fed([], [])

  // No oversized header, or nothing complete in front of it.
  predicate Smooth(buf: bytes) {
    ParseAll(buf).ok || ParseAll(buf).frames == []
  }

  lemma FeedStart(a: bytes)
    ensures Feed(START, a) == if ParseAll(a).ok then Fed(ParseAll(a).frames, ParseAll(a).rest) else Fed([], a)
  {
    var p := ParseAll(a);
    assert START.buffer + a == a;
    assert START.handled + p.frames == p.frames;
  }

  // A stream that parses has only prefixes that parse.
  lemma PrefixParses(a: bytes, b: bytes)
    requires ParseAll(a + b).ok
    ensures ParseAll(a).ok
  {
    ParseContinues(a, b);
    ParseConserves(a);
    if !ParseAll(a).ok { OversizedStays(ParseAll(a).rest, b); }
  }

  lemma FeedParsing(a: bytes, b: bytes)
    requires ParseAll(a + b).ok
    ensures ParseAll(a).ok && Feed(Feed(START, a), b) == Feed(START, a + b)
  {
    PrefixParses(a, b);
    ParseContinues(a, b);
    FeedStart(a);
    FeedStart(a + b);
  }

  // With an oversized header at the very front nothing is ever handled.
  lemma FeedOversized(a: bytes, b: bytes)
    requires ReadFront(a + b).Oversized?
    ensures Smooth(a) && Feed(START, a) == Fed([], a) && Feed(Feed(START, a), b) == Feed(START, a + b)
  {
    if |a| >= HEADER_BYTES { assert (a + b)[2..6] == a[2..6]; }
    FeedStart(a);
    FeedStart(a + b);
  }

  lemma FeedStep(a: bytes, b: bytes)
    requires Smooth(a + b)
    ensures Smooth(a) && Feed(Feed(START, a), b) == Feed(START, a + b)
  {
    if ParseAll(a + b).ok {
      FeedParsing(a, b);
    } else {
      FeedOversized(a, b);
    }
  }

  lemma {:induction false} FeedAllIsFeed(a: bytes, chunks: seq<bytes>)
    requires Smooth(a + Concat(chunks))
    ensures FeedAll(Feed(START, a), chunks) == Feed(START, a + Concat(chunks))
    decreases |chunks|
  {
    if chunks == [] {
      assert a + Concat(chunks) == a;
    } else {
      assert a + Concat(chunks) == (a + chunks[0]) + Concat(chunks[1..]);
      FeedStep(a + chunks[0], Concat(chunks[1..]));
      FeedStep(a, chunks[0]);
      FeedAllIsFeed(a + chunks[0], chunks[1..]);
    }
  }

  lemma ChunksAgree(s: bytes, chunks: seq<bytes>)
    requires Smooth(s) && Concat(chunks) == s
    ensures FeedAll(START, chunks) == Feed(START, s)
  {
    FeedStart([]);
    assert [] + Concat(chunks) == s;
    FeedAllIsFeed([], chunks);
  }

  lemma TwoChunks(a: bytes, b: bytes)
    ensures Concat([a, b]) == a + b
    ensures FeedAll(START, [a, b]) == Feed(Feed(START, a), b)
  {
    var none: seq<bytes> := [];
    assert [a, b][1..] == [b] && [b][1..] == none;
    assert Concat([b]) == b + [] == b;
    var x := Feed(START, a);
    assert FeedAll(START, [a, b]) == FeedAll(x, [b]) == FeedAll(Feed(x, b), none);
  }

  // Splitting behind the first frame of a stream that is not smooth makes a difference.
  lemma SplitDiffers(s: bytes) returns (chunks: seq<bytes>)
    requires !Smooth(s)
    ensures Concat(chunks) == s && FeedAll(START, chunks) != Feed(START, s)
  {
    var r := ReadFront(s);
    var first, rest := EncodeFrame(r.frame), s[r.size..];
    chunks := [first, rest];
    WholeIsEncoded(s);
    TwoChunks(first, rest);
    FirstFrameIsKept(r.frame, rest, s);
    FeedStart(s);
  }

  // Alone in its chunk, the frame in front of an unparsable rest is handed on.
  lemma FirstFrameIsKept(f: Frame, rest: bytes, s: bytes)
    requires |f.payload| <= MAX_PAYLOAD_BYTES && s == EncodeFrame(f) + rest && !ParseAll(s).ok
    ensures Feed(Feed(START, EncodeFrame(f)), rest) == Fed([f], rest)
  {
    ParseFirst(f, s, rest);
    FirstAlone(f);
    FeedStart(EncodeFrame(f));
    assert [] + rest == rest;
  }

  lemma FirstAlone(f: Frame)
    requires |f.payload| <= MAX_PAYLOAD_BYTES
    ensures ParseAll(EncodeFrame(f)) == Parse([f], [], true)
  {
    assert EncodeFrame(f) == EncodeFrame(f) + [];
    ParseFirst(f, EncodeFrame(f), []);
  }

  /** Feeding a stream in any chunks hands on the same frames and leaves the same bytes as feeding it at
      once, if and only if no oversized header comes behind a complete frame. */
  lemma ChunkingIsIrrelevant(s: bytes)
    ensures (forall chunks: seq<bytes> :: Concat(chunks) == s ==> FeedAll(START, chunks) == Feed(START, s))
            <==> Smooth(s)
    ensures ParseAll(s).ok ==> Feed(START, s) == Fed(ParseAll(s).frames, ParseAll(s).rest)
  {
    FeedStart(s);
    if Smooth(s) {
      forall chunks: seq<bytes> | Concat(chunks) == s ensures FeedAll(START, chunks) == Feed(START, s) {
        ChunksAgree(s, chunks);
      }
    } else {
      var chunks := SplitDiffers(s);
    }
  }

  /** A complete frame followed by a header that declares more than 4 MiB: in one piece nothing is
      handled, in two pieces the frame is. */
  lemma FrameIsDropped(first: bytes, header: bytes)
    requires first == EncodeFrame(Frame(1, 0, [])) && header == [1, 0, 255, 255, 255, 255]
    ensures !Smooth(first + header)
    ensures Feed(START, first + header).handled == []
    ensures FeedAll(START, [first, header]).handled == [Frame(1, 0, [])]
  {
    var f := Frame(1, 0, []);
    OversizedHeader(header);
    ParseFirst(f, first + header, header);
    FeedStart(first + header);
    TwoChunks(first, header);
    FirstFrameIsKept(f, header, first + header);
  }

  lemma OversizedHeader(header: bytes)
    requires header == [1, 0, 255, 255, 255, 255]
    ensures ReadFront(header).Oversized?
  {
    var b: bytes := [255, 255, 255, 255];
    assert header[2..6] == b;
    assert LeValue(b) > MAX_PAYLOAD_BYTES by {
      assert b[1..] == [255, 255, 255] && b[1..][1..] == [255, 255] && b[1..][1..][1..] == [255];
      assert LeValue(b) == 255 + 256 * LeValue(b[1..]) && LeValue(b[1..]) == 255 + 256 * LeValue(b[1..][1..]);
      assert LeValue(b[1..][1..]) == 255 + 256 * LeValue(b[1..][1..][1..]) && LeValue(b[1..][1..][1..]) >= 255;
    }
  }

  // ---------- The code ----------

  method ReadFrontAt(buf: bytes, offset: nat) returns (r: Front)
    requires offset <= |buf|
    ensures r == ReadFront(buf[offset..])
  {
    if |buf| < offset + HEADER_BYTES {
      return Partial;
    }
    ghost var rest := buf[offset..];
    assert rest[2..6] == buf[offset + 2..offset + 6];
    var length := ReadLe(buf, offset + 2, 4);
    if length > MAX_PAYLOAD_BYTES {
      return Oversized;
    }
    var frameBytes := HEADER_BYTES + length;
    if |buf| < offset + frameBytes {
      return Partial;
    }
    assert rest[HEADER_BYTES..frameBytes] == buf[offset + HEADER_BYTES..offset + frameBytes];
    r := Whole(Frame(buf[offset], buf[offset + 1], buf[offset + HEADER_BYTES..offset + frameBytes]), frameBytes);
  }

  // A parse that has found some frames and has `rest` before it.
  ghost predicate Continues(whole: Parse, found: seq<Frame>, rest: bytes) {
    whole == Prefixed(found, ParseAll(rest))
  }

  lemma ParseStep(whole: Parse, found: seq<Frame>, buf: bytes, offset: nat, front: Front)
    requires offset <= |buf| && front == ReadFront(buf[offset..]) && front.Whole?
    requires Continues(whole, found, buf[offset..])
    ensures Continues(whole, found + [front.frame], buf[offset + front.size..])
  {
  }

  /** The parsing loop: complete frames are appended and erased from the buffer; at an oversized header
      the frames found so far have been appended but the buffer is not touched. */
  method TryParseFrames(readBuffer: bytes, outFrames: seq<Frame>) returns (ok: bool, buffer: bytes, frames: seq<Frame>)
    ensures ok == ParseAll(readBuffer).ok
    ensures frames == outFrames + ParseAll(readBuffer).frames
    ensures buffer == if ok then ParseAll(readBuffer).rest else readBuffer
  {
    frames := outFrames;
    var offset := 0;
    ghost var found: seq<Frame> := [];
    ghost var whole := ParseAll(readBuffer);
    ParseStart(readBuffer);
    var front := ReadFrontAt(readBuffer, offset);
    while front.Whole?
      invariant offset <= |readBuffer| && frames == outFrames + found
      invariant front == ReadFront(readBuffer[offset..])
      invariant Continues(whole, found, readBuffer[offset..])
      decreases |readBuffer| - offset
    {
      ParseStep(whole, found, readBuffer, offset, front);
      found := found + [front.frame];
      frames := frames + [front.frame];
      offset := offset + front.size;
      front := ReadFrontAt(readBuffer, offset);
    }
    ParseEnd(whole, found, readBuffer[offset..]);
    if front.Oversized? {
      return false, readBuffer, frames;
    }
    ok, buffer := true, readBuffer[offset..];
  }

  lemma ParseStart(buf: bytes)
    ensures Continues(ParseAll(buf), [], buf[0..])
  {
  }

  lemma ParseEnd(whole: Parse, found: seq<Frame>, rest: bytes)
    requires !ReadFront(rest).Whole? && Continues(whole, found, rest)
    ensures whole == Parse(found, rest, ReadFront(rest).Partial?)
  {
  }

  // One connection of the server.
  class Connection {
    var rbuf: bytes
    ghost var fed: Fed

    ghost predicate Valid()
      reads this
    {
      fed.buffer == rbuf
    }

    constructor ()
      ensures Valid() && fed == START
    {
      rbuf, fed := [], START;
    }

    /** Receiving a chunk hands on the frames it completes. */
    method Receive(chunk: bytes) returns (handled: seq<Frame>, ok: bool)
      requires Valid()
      modifies this
      ensures Valid() && fed == Feed(old(fed), chunk)
      ensures fed.handled == old(fed).handled + handled
      ensures ok == ParseAll(old(rbuf) + chunk).ok
    {
      var frames: seq<Frame>;
      rbuf := rbuf + chunk;
      ok, rbuf, frames := TryParseFrames(rbuf, []);
      handled := if ok then frames else [];
      fed := Feed(fed, chunk);
    }
  }
}
