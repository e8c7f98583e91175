/** SV2 frames: a six-byte header (extension type, message type, 24-bit length) and a payload. */
module FrameCodec {
  import opened Options
  import opened Numbers
  import opened Wire

  const HEADER_SIZE := 6
  const MAXIMUM_PAYLOAD: nat := 0xff_ffff

  datatype Frame = Frame(extension: u16, message: byte, payload: seq<byte>)

  function Header(extension: u16, message: byte, size: nat): (h: seq<byte>)
    ensures |h| == HEADER_SIZE
  {
    LittleEndian(extension, 2) + [message] + LittleEndian(size, 3)
  }

  function HeaderSize(h: seq<byte>): nat
    requires |h| == HEADER_SIZE
  {
    FromLittleEndian(h[3..6])
  }

  function HeaderExtension(h: seq<byte>): (e: u16)
    requires |h| == HEADER_SIZE
  {
    LittleEndianWrites(h[0..2]);
    Widths();
    FromLittleEndian(h[0..2])
  }

  lemma HeaderReads(extension: u16, message: byte, size: u24)
    ensures var h := Header(extension, message, size);
            HeaderExtension(h) == extension && h[2] == message && HeaderSize(h) == size
  {
    var h := Header(extension, message, size);
    Widths();
    assert h[0..2] == LittleEndian(extension, 2);
    LittleEndianReads(extension, 2);
    assert h[3..6] == LittleEndian(size, 3);
    LittleEndianReads(size, 3);
  }

  lemma HeaderWrites(h: seq<byte>)
    requires |h| == HEADER_SIZE
    ensures HeaderSize(h) < 0x100_0000
    ensures Header(HeaderExtension(h), h[2], HeaderSize(h)) == h
  {
    Widths();
    LittleEndianWrites(h[0..2]);
    LittleEndianWrites(h[3..6]);
    assert h == h[0..2] + [h[2]] + h[3..6];
  }

  predicate Encodable(frame: Frame)
  {
    |frame.payload| <= MAXIMUM_PAYLOAD
  }

  function Encode(frame: Frame): (bytes: seq<byte>)
    requires Encodable(frame)
    ensures |bytes| == HEADER_SIZE + |frame.payload|
  {
    Header(frame.extension, frame.message, |frame.payload|) + frame.payload
  }

  function EncodeAll(frames: seq<Frame>): seq<byte>
    requires forall f :: f in frames ==> Encodable(f)
  {
    if frames == [] then [] else Encode(frames[0]) + EncodeAll(frames[1..])
  }

  // ---------- what a byte stream means ----------

  /** Whole frames, the bytes of an unfinished one, and whether a header announced too long a payload. */
  datatype Parsed = Parsed(frames: seq<Frame>, rest: seq<byte>, overrun: bool)

  function FrameOf(s: seq<byte>): Frame
    requires |s| >= HEADER_SIZE && |s| >= HEADER_SIZE + HeaderSize(s[..HEADER_SIZE])
  {
    Frame(HeaderExtension(s[..HEADER_SIZE]), s[2], s[HEADER_SIZE..HEADER_SIZE + HeaderSize(s[..HEADER_SIZE])])
  }

  function Prepend(f: Frame, p: Parsed): Parsed
  {
    Parsed([f] + p.frames, p.rest, p.overrun)
  }

  /** After an overrun everything is dropped, the rest of the stream included. */
  function Parse(limit: nat, s: seq<byte>): Parsed
  {
    if |s| < HEADER_SIZE then Parsed([], s, false)
    else
      var size := HeaderSize(s[..HEADER_SIZE]);
      if size > limit then Parsed([], [], true)
      else if |s| < HEADER_SIZE + size then Parsed([], s, false)
      else Prepend(FrameOf(s), Parse(limit, s[HEADER_SIZE + size..]))
  }

  /** Parsing a stream in two parts. */
  function Continue(limit: nat, p: Parsed, more: seq<byte>): Parsed
  {
    if p.overrun then p
    else
      var next := Parse(limit, p.rest + more);
      Parsed(p.frames + next.frames, next.rest, next.overrun)
  }

  lemma {:induction false} ParseContinues(limit: nat, a: seq<byte>, b: seq<byte>)
    ensures Parse(limit, a + b) == Continue(limit, Parse(limit, a), b)
    decreases |a|
  {
    if |a| >= HEADER_SIZE {
      assert (a + b)[..HEADER_SIZE] == a[..HEADER_SIZE];
      var size := HeaderSize(a[..HEADER_SIZE]);
      if size <= limit && |a| >= HEADER_SIZE + size {
        assert (a + b)[HEADER_SIZE + size..] == a[HEADER_SIZE + size..] + b;
        ParseContinues(limit, a[HEADER_SIZE + size..], b);
        assert FrameOf(a + b) == FrameOf(a);
      }
    }
  }

  /** One encoded frame at the head of a stream is taken off it whole. */
  lemma ParseOne(limit: nat, f: Frame, s: seq<byte>)
    requires Encodable(f) && |f.payload| <= limit
    ensures Parse(limit, Encode(f) + s) == Prepend(f, Parse(limit, s))
  {
    var whole := Encode(f) + s;
    HeaderReads(f.extension, f.message, |f.payload|);
    assert whole[..HEADER_SIZE] == Header(f.extension, f.message, |f.payload|);
    assert whole[HEADER_SIZE..HEADER_SIZE + |f.payload|] == f.payload;
    assert whole[HEADER_SIZE + |f.payload|..] == s;
  }

  /** Encoded frames parse to exactly those frames. */
  lemma {:induction false} ParseEncoded(limit: nat, frames: seq<Frame>)
    requires forall f :: f in frames ==> Encodable(f) && |f.payload| <= limit
    ensures Parse(limit, EncodeAll(frames)) == Parsed(frames, [], false)
  {
    if frames != [] {
      ParseOne(limit, frames[0], EncodeAll(frames[1..]));
      ParseEncoded(limit, frames[1..]);
      assert [frames[0]] + frames[1..] == frames;
    }
  }

  /** `encode_frame`: refused exactly when the payload is too long for its three-byte length, and otherwise readable. */
  function EncodeFrame(frame: Frame): (r: Option<seq<byte>>)
    ensures r.None? <==> |frame.payload| > MAXIMUM_PAYLOAD
    ensures r.Some? ==> Parse(MAXIMUM_PAYLOAD, r.value) == Parsed([frame], [], false)
  {
    if !Encodable(frame) then None
    else
      ParseOne(MAXIMUM_PAYLOAD, frame, []);
      assert Encode(frame) + [] == Encode(frame) && [frame] + [] == [frame];
      Some(Encode(frame))
  }

  lemma FrameOfEncodes(s: seq<byte>)
    requires |s| >= HEADER_SIZE && |s| >= HEADER_SIZE + HeaderSize(s[..HEADER_SIZE])
    ensures Encodable(FrameOf(s)) && |FrameOf(s).payload| == HeaderSize(s[..HEADER_SIZE])
    ensures Encode(FrameOf(s)) + s[HEADER_SIZE + HeaderSize(s[..HEADER_SIZE])..] == s
  {
    var h := s[..HEADER_SIZE];
    HeaderWrites(h);
    assert s == h + s[HEADER_SIZE..HEADER_SIZE + HeaderSize(h)] + s[HEADER_SIZE + HeaderSize(h)..];
  }

  lemma EncodeAllPrepend(f: Frame, frames: seq<Frame>, rest: seq<byte>)
    requires Encodable(f) && forall g :: g in frames ==> Encodable(g)
    ensures EncodeAll([f] + frames) + rest == Encode(f) + (EncodeAll(frames) + rest)
  {
    assert ([f] + frames)[1..] == frames;
  }

  /** Conversely, a stream without overrun is the encoding of its frames and what is left of it. */
  lemma {:induction false} ParsedEncodes(limit: nat, s: seq<byte>)
    requires !Parse(limit, s).overrun
    ensures forall f :: f in Parse(limit, s).frames ==> Encodable(f) && |f.payload| <= limit
    ensures EncodeAll(Parse(limit, s).frames) + Parse(limit, s).rest == s
    decreases |s|
  {
    if |s| >= HEADER_SIZE && |s| >= HEADER_SIZE + HeaderSize(s[..HEADER_SIZE]) {
      var tail := s[HEADER_SIZE + HeaderSize(s[..HEADER_SIZE])..];
      var p := Parse(limit, tail);
      ParsedEncodes(limit, tail);
      FrameOfEncodes(s);
      EncodeAllPrepend(FrameOf(s), p.frames, p.rest);
    }
  }

  function Concat(chunks: seq<seq<byte>>): seq<byte>
  {
    if chunks == [] then [] else Concat(chunks[..|chunks| - 1]) + chunks[|chunks| - 1]
  }

  /** All frames handed out, the unfinished bytes held, and how many pushes failed. */
  datatype Fed = Fed(frames: seq<Frame>, held: seq<byte>, failures: nat)

  /** Feeding a decoder chunk by chunk; after a failed push it starts afresh with the next one. */
  function Feed(limit: nat, chunks: seq<seq<byte>>): Fed
  {
    if chunks == [] then Fed([], [], 0)
    else
      var before := Feed(limit, chunks[..|chunks| - 1]);
      var p := Parse(limit, before.held + chunks[|chunks| - 1]);
      Fed(before.frames + p.frames, p.rest, before.failures + if p.overrun then 1 else 0)
  }

  /**
   However a stream is cut, the frames and the unfinished bytes are those of the whole stream, and no push fails,
   exactly when no header in it announces too much; otherwise what the whole stream gives comes out first.
   */
  lemma {:induction false} FeedIsParse(limit: nat, chunks: seq<seq<byte>>)
    ensures var fed, p := Feed(limit, chunks), Parse(limit, Concat(chunks));
            && (fed.failures == 0 <==> !p.overrun)
            && (!p.overrun ==> fed.frames == p.frames && fed.held == p.rest)
            && p.frames <= fed.frames
  {
    if chunks != [] {
      FeedIsParse(limit, chunks[..|chunks| - 1]);
      ParseContinues(limit, Concat(chunks[..|chunks| - 1]), chunks[|chunks| - 1]);
    }
  }

  /** Encoded frames survive any chunking. */
  lemma AnyChunkingDecodes(limit: nat, frames: seq<Frame>, chunks: seq<seq<byte>>)
    requires forall f :: f in frames ==> Encodable(f) && |f.payload| <= limit
    requires Concat(chunks) == EncodeAll(frames)
    ensures Feed(limit, chunks) == Fed(frames, [], 0)
  {
    FeedIsParse(limit, chunks);
    ParseEncoded(limit, frames);
  }

  /** A decoder pushed chunk after chunk, its failures counted and its frames kept. */
  method PushAll(limit: nat, chunks: seq<seq<byte>>) returns (frames: seq<Frame>, failures: nat, ended: bool)
    ensures frames == Feed(limit, chunks).frames && failures == Feed(limit, chunks).failures
    ensures ended <==> Feed(limit, chunks).held == []
  {
    var decoder := new FrameDecoder(limit);
    frames, failures := [], 0;
    for i := 0 to |chunks|
      invariant decoder.Valid() && decoder.limit == limit && fresh(decoder) && fresh(decoder.header)
      invariant Feed(limit, chunks[..i]) == Fed(frames, decoder.Buffered(), failures)
    {
      assert chunks[..i + 1][..i] == chunks[..i];
      var more, ok := decoder.Push(chunks[i]);
      frames := frames + more;
      failures := failures + if ok then 0 else 1;
    }
    assert chunks[..|chunks|] == chunks;
    ended := decoder.Finish();
  }

  // ---------- the decoder, which keeps an unfinished frame between calls ----------

  class FrameDecoder {
    const limit: nat
    const header: array<byte>
    var headerSize: nat
    var frame: Frame
    var payloadSize: nat
    var readingPayload: bool

    ghost predicate Valid()
      reads this, header
    {
      && header.Length == HEADER_SIZE
      && (if readingPayload then
            && headerSize == HEADER_SIZE
            && HeaderIn(header[..])
            && payloadSize <= limit && |frame.payload| < payloadSize
          else headerSize < HEADER_SIZE && frame.payload == [])
    }

    /** The parsed header fields agree with the header bytes. */
    ghost predicate HeaderIn(h: seq<byte>)
      reads this
    {
      && |h| == HEADER_SIZE
      && frame.extension == HeaderExtension(h) && frame.message == h[2] && payloadSize == HeaderSize(h)
    }

    /** The bytes of the unfinished frame. */
    ghost function Buffered(): seq<byte>
      reads this, header
      requires Valid()
    {
      header[..headerSize] + frame.payload
    }

    lemma Unfinished()
      requires Valid()
      ensures Parse(limit, Buffered()) == Parsed([], Buffered(), false)
    {
      if readingPayload {
        assert Buffered()[..HEADER_SIZE] == header[..];
      }
    }

    constructor (limit: nat)
      ensures Valid() && Buffered() == [] && this.limit == limit && fresh(header)
    {
      this.limit := limit;
      header := new byte[6](_ => 0);
      headerSize, payloadSize, readingPayload := 0, 0, false;
      frame := Frame(0, 0, []);
    }

    method ResetFrame()
      requires header.Length == HEADER_SIZE
      modifies this
      ensures Valid() && Buffered() == []
    {
      headerSize, payloadSize, readingPayload := 0, 0, false;
      frame := Frame(0, 0, []);
    }

    /** Copies header bytes in; `k` of them are taken. */
    method FillHeader(bytes: seq<byte>) returns (k: nat)
      requires Valid() && !readingPayload && bytes != []
      modifies this`headerSize, header
      ensures 1 <= k <= |bytes| && headerSize == old(headerSize) + k <= HEADER_SIZE
      ensures headerSize < HEADER_SIZE ==> k == |bytes|
      ensures header[..headerSize] == old(header[..headerSize]) + bytes[..k]
    {
      k := if HEADER_SIZE - headerSize <= |bytes| then HEADER_SIZE - headerSize else |bytes|;
      forall i | 0 <= i < k {
        header[headerSize + i] := bytes[i];
      }
      headerSize := headerSize + k;
    }

    /** Parses the six header bytes; an announced payload over the limit resets the decoder. */
    method BeginPayload() returns (ok: bool)
      requires header.Length == HEADER_SIZE && headerSize == HEADER_SIZE && !readingPayload && frame.payload == []
      modifies this
      ensures ok == (HeaderSize(header[..]) <= limit)
      ensures ok ==> readingPayload && headerSize == HEADER_SIZE && HeaderIn(header[..]) && frame.payload == []
      ensures !ok ==> Valid() && Buffered() == []
    {
      var h := header[..];
      payloadSize := HeaderSize(h);
      if payloadSize > limit {
        ResetFrame();
        ok := false;
      } else {
        frame := Frame(HeaderExtension(h), h[2], []);
        readingPayload := true;
        ok := true;
      }
    }

    /** Takes header bytes off the input, up to a complete header; `ok` is false when it announces too much. */
    method TakeHeader(bytes: seq<byte>) returns (rest: seq<byte>, ok: bool)
      requires Valid() && !readingPayload && bytes != []
      modifies this, header
      ensures |rest| < |bytes|
      ensures !ok ==> Valid() && Buffered() == [] && Parse(limit, old(Buffered()) + bytes) == Parsed([], [], true)
      ensures ok && !readingPayload ==> Valid() && Buffered() + rest == old(Buffered()) + bytes && rest == []
      ensures ok && readingPayload ==>
                headerSize == HEADER_SIZE && HeaderIn(header[..]) && payloadSize <= limit && frame.payload == []
      ensures ok && readingPayload ==> header[..] + rest == old(Buffered()) + bytes
    {
      var k := FillHeader(bytes);
      rest := bytes[k..];
      assert old(Buffered()) + bytes == header[..headerSize] + rest;
      ok := true;
      if headerSize == HEADER_SIZE {
        assert header[..headerSize] == header[..];
        Overruns(limit, header[..], rest);
        ok := BeginPayload();
      }
    }

    method TakePayload(bytes: seq<byte>) returns (rest: seq<byte>)
      requires Valid() && readingPayload && bytes != []
      modifies this`frame
      ensures |rest| < |bytes| && readingPayload && headerSize == HEADER_SIZE && HeaderIn(header[..])
      ensures payloadSize <= limit && |frame.payload| <= payloadSize && (|frame.payload| < payloadSize ==> rest == [])
      ensures header[..] + frame.payload + rest == old(Buffered()) + bytes
    {
      var room := payloadSize - |frame.payload|;
      var k := if room <= |bytes| then room else |bytes|;
      frame := frame.(payload := frame.payload + bytes[..k]);
      rest := bytes[k..];
      assert bytes == bytes[..k] + rest;
    }

    /** Hands over a frame whose payload is complete, which an empty one is at once. */
    method CompleteFrame(ghost rest: seq<byte>) returns (frames: seq<Frame>)
      requires header.Length == HEADER_SIZE && readingPayload && headerSize == HEADER_SIZE && HeaderIn(header[..])
      requires payloadSize <= limit && |frame.payload| <= payloadSize
      modifies this
      ensures Valid()
      ensures Parse(limit, old(header[..] + frame.payload) + rest) == Prefixed(frames, Parse(limit, Buffered() + rest))
    {
      frames := [];
      if |frame.payload| == payloadSize {
        FrameDone(limit, header[..], frame, rest);
        frames := [frame];
        ResetFrame();
        assert Buffered() + rest == rest;
      } else {
        assert Buffered() == header[..] + frame.payload;
        PrefixedNone(Parse(limit, Buffered() + rest));
      }
    }

    /** One turn of the consuming loop. */
    method Advance(bytes: seq<byte>) returns (rest: seq<byte>, frames: seq<Frame>, ok: bool)
      requires Valid() && bytes != []
      modifies this, header
      ensures Valid() && |rest| < |bytes|
      ensures ok ==> Parse(limit, old(Buffered()) + bytes) == Prefixed(frames, Parse(limit, Buffered() + rest))
      ensures !ok ==> Parse(limit, old(Buffered()) + bytes) == Parsed([], [], true) && Buffered() == []
    {
      frames, ok := [], true;
      if !readingPayload {
        rest, ok := TakeHeader(bytes);
        if !ok || !readingPayload {
          PrefixedNone(Parse(limit, Buffered() + rest));
          return;
        }
        assert header[..] + frame.payload + rest == header[..] + rest;
      } else {
        rest := TakePayload(bytes);
      }
      frames := CompleteFrame(rest);
    }

    /** Whatever was pushed before, the frames returned are those of the unfinished bytes and the new ones. */
    method Push(bytes: seq<byte>) returns (frames: seq<Frame>, ok: bool)
      requires Valid()
      modifies this, header
      ensures Valid()
      ensures Parsed(frames, Buffered(), !ok) == Parse(limit, old(Buffered()) + bytes)
    {
      var rest := bytes;
      frames, ok := [], true;
      PrefixedNone(Parse(limit, Buffered() + bytes));
      while rest != []
        invariant Valid()
        invariant ok && Parse(limit, old(Buffered()) + bytes) == Prefixed(frames, Parse(limit, Buffered() + rest))
        decreases |rest|
      {
        var done;
        rest, done, ok := Advance(rest);
        if !ok {
          return;
        }
        PrefixedTwice(frames, done, Parse(limit, Buffered() + rest));
        frames := frames + done;
      }
      assert Buffered() + [] == Buffered();
      Unfinished();
    }

    /** Refuses the end of the stream inside a frame. */
    method Finish() returns (ok: bool)
      requires Valid()
      ensures ok <==> Buffered() == []
    {
      ok := headerSize == 0 && !readingPayload;
    }
  }

  function Prefixed(frames: seq<Frame>, p: Parsed): Parsed
  {
    Parsed(frames + p.frames, p.rest, p.overrun)
  }

  lemma PrefixedNone(p: Parsed)
    ensures Prefixed([], p) == p
  {
    assert [] + p.frames == p.frames;
  }

  lemma PrefixedTwice(a: seq<Frame>, b: seq<Frame>, p: Parsed)
    ensures Prefixed(a, Prefixed(b, p)) == Prefixed(a + b, p)
  {
    assert a + (b + p.frames) == (a + b) + p.frames;
  }

  lemma Overruns(limit: nat, h: seq<byte>, rest: seq<byte>)
    requires |h| == HEADER_SIZE
    ensures HeaderSize(h) > limit ==> Parse(limit, h + rest) == Parsed([], [], true)
  {
    assert (h + rest)[..HEADER_SIZE] == h;
  }

  lemma FrameDone(limit: nat, h: seq<byte>, f: Frame, rest: seq<byte>)
    requires |h| == HEADER_SIZE && f.extension == HeaderExtension(h) && f.message == h[2]
    requires |f.payload| == HeaderSize(h) <= limit
    ensures Parse(limit, h + f.payload + rest) == Prepend(f, Parse(limit, rest))
  {
    var s := h + f.payload + rest;
    assert s[..HEADER_SIZE] == h;
    assert s[HEADER_SIZE..HEADER_SIZE + |f.payload|] == f.payload;
    assert s[HEADER_SIZE + |f.payload|..] == rest;
  }
}
