/** `send_bytes`: whole plain frames in, one sealed stream out, or the connection ends. */
module NoiseSending {
  import opened Numbers
  import opened Options
  import opened FrameCodec
  import opened NoiseStream
  import opened NoiseSession

  /** From here on the plain bytes are the later frames. */
  ghost predicate PlainAt(bytes: seq<byte>, frames: seq<Frame>, i: nat, offset: nat)
  {
    && AllEncodable(frames) && i <= |frames| && offset <= |bytes|
    && AllEncodable(frames[i..]) && bytes[offset..] == EncodeAll(frames[i..])
  }

  /** Sealing what is left completes the sealed stream. */
  ghost predicate CipherAt(a: Aead, first: nat, all: seq<seq<byte>>, n: nat, later: seq<seq<byte>>, out: seq<byte>)
  {
    n + |later| == first + |all| && out + SealAll(a, n, later) == SealAll(a, first, all)
  }

  lemma NextFrame(bytes: seq<byte>, frames: seq<Frame>, i: nat, offset: nat)
    requires PlainAt(bytes, frames, i, offset) && i < |frames|
    ensures var f, end := frames[i], offset + HEADER_SIZE + |frames[i].payload|;
            && Encodable(f) && end <= |bytes|
            && bytes[offset..offset + HEADER_SIZE] == Header(f.extension, f.message, |f.payload|)
            && bytes[offset + HEADER_SIZE..end] == f.payload
            && PlainAt(bytes, frames, i + 1, end)
    ensures |FrameMessages(frames[i])| == 1 + ChunkCount(|frames[i].payload|)
    ensures Messages(frames[i..]) == FrameMessages(frames[i]) + Messages(frames[i + 1..])
  {
    var f, tail := frames[i], bytes[offset..];
    assert f in frames;
    assert frames[i..][1..] == frames[i + 1..];
    assert tail == Encode(f) + EncodeAll(frames[i + 1..]);
    assert bytes[offset..offset + HEADER_SIZE] == tail[..HEADER_SIZE];
    assert bytes[offset + HEADER_SIZE..offset + HEADER_SIZE + |f.payload|]
           == tail[HEADER_SIZE..HEADER_SIZE + |f.payload|];
    assert bytes[offset + HEADER_SIZE + |f.payload|..] == tail[HEADER_SIZE + |f.payload|..];
    ChunksCount(f.payload);
  }

  lemma FrameParts(a: Aead, n: nat, f: Frame)
    ensures SealFrame(a, n, f) == SealAll(a, n, [Header(f.extension, f.message, |f.payload|)])
                                  + SealAll(a, n + 1, PayloadChunks(f.payload))
  {
    SealConcat(a, n, [Header(f.extension, f.message, |f.payload|)], PayloadChunks(f.payload));
  }

  lemma CipherStep(a: Aead, first: nat, all: seq<seq<byte>>, n: nat, f: Frame, later: seq<seq<byte>>, out: seq<byte>)
    requires CipherAt(a, first, all, n, FrameMessages(f) + later, out)
    ensures CipherAt(a, first, all, n + |FrameMessages(f)|, later, out + SealFrame(a, n, f))
  {
    SealConcat(a, n, FrameMessages(f), later);
    var m := n + |FrameMessages(f)|;
    assert out + (SealFrame(a, n, f) + SealAll(a, m, later)) == (out + SealFrame(a, n, f)) + SealAll(a, m, later);
  }

  /** Seals one frame straight from the plain bytes. */
  method EncryptFrame(session: Session, header: seq<byte>, payload: seq<byte>, ghost f: Frame)
    returns (r: Option<seq<byte>>)
    requires session.nonce <= NONCE_LIMIT && !session.terminal
    requires Encodable(f) && header == Header(f.extension, f.message, |f.payload|) && payload == f.payload
    modifies session
    ensures session.nonce <= NONCE_LIMIT && session.terminal == r.None?
    ensures r.Some? <==> old(session.nonce) + 1 + ChunkCount(|payload|) <= NONCE_LIMIT
    ensures r.Some? ==> r.value == SealFrame(session.cipher, old(session.nonce), f)
    ensures r.Some? ==> session.nonce == old(session.nonce) + 1 + ChunkCount(|payload|)
  {
    FrameParts(session.cipher, session.nonce, f);
    var sealedHeader := session.EncryptHeader(header);
    if sealedHeader.None? {
      return None;
    }
    if payload == [] {
      return sealedHeader;
    }
    var sealedPayload := session.EncryptPayload(payload);
    if sealedPayload.None? {
      return None;
    }
    r := Some(sealedHeader.value + sealedPayload.value);
  }

  /** One turn of the sealing loop. */
  method EncryptNext(session: Session, bytes: seq<byte>, frames: seq<Frame>, i: nat, offset: nat,
                     ghost first: nat, ghost all: seq<seq<byte>>, ghost out: seq<byte>)
                         returns (sealed: Option<seq<byte>>)
    requires session.nonce <= NONCE_LIMIT && !session.terminal
    requires i < |frames| && PlainAt(bytes, frames, i, offset)
    requires CipherAt(session.cipher, first, all, session.nonce, Messages(frames[i..]), out)
    modifies session
    ensures session.nonce <= NONCE_LIMIT && session.terminal == sealed.None?
    ensures sealed.None? ==> first + |all| > NONCE_LIMIT
    ensures sealed.Some? ==>
              && PlainAt(bytes, frames, i + 1, offset + HEADER_SIZE + |frames[i].payload|)
              && CipherAt(session.cipher, first, all, session.nonce, Messages(frames[i + 1..]), out + sealed.value)
  {
    NextFrame(bytes, frames, i, offset);
    CipherStep(session.cipher, first, all, session.nonce, frames[i], Messages(frames[i + 1..]), out);
    var size := |frames[i].payload|;
    sealed := EncryptFrame(session, bytes[offset..offset + HEADER_SIZE],
                           bytes[offset + HEADER_SIZE..offset + HEADER_SIZE + size], frames[i]);
  }

  /** The sealing loop over frames already parsed out of the bytes. */
  method EncryptFrames(session: Session, bytes: seq<byte>, frames: seq<Frame>) returns (r: Option<seq<byte>>)
    requires session.nonce <= NONCE_LIMIT && !session.terminal
    requires AllEncodable(frames) && bytes == EncodeAll(frames)
    modifies session
    ensures session.nonce <= NONCE_LIMIT
    ensures r.Some? <==> old(session.nonce) + |Messages(frames)| <= NONCE_LIMIT
    ensures r.Some? ==> r.value == SealAll(session.cipher, old(session.nonce), Messages(frames))
    ensures r.Some? ==> session.nonce == old(session.nonce) + |Messages(frames)|
  {
    ghost var all := Messages(frames);
    var out: seq<byte>, offset: nat, i: nat := [], 0, 0;
    assert frames[0..] == frames && bytes[0..] == bytes;
    while i < |frames|
      invariant session.nonce <= NONCE_LIMIT && !session.terminal
      invariant PlainAt(bytes, frames, i, offset)
      invariant CipherAt(session.cipher, old(session.nonce), all, session.nonce, Messages(frames[i..]), out)
      decreases |frames| - i
    {
      var sealed := EncryptNext(session, bytes, frames, i, offset, old(session.nonce), all, out);
      if sealed.None? {
        return None;
      }
      out := out + sealed.value;
      offset := offset + HEADER_SIZE + |frames[i].payload|;
      i := i + 1;
    }
    assert frames[i..] == [];
    assert out + [] == out;
    r := Some(out);
  }

  /** Anything that is not a nonempty series of whole frames is refused; no limit but the wire's applies to sending. */
  method SendBytes(session: Session, bytes: seq<byte>) returns (r: Option<seq<byte>>)
    requires session.nonce <= NONCE_LIMIT
    modifies session
    ensures session.nonce <= NONCE_LIMIT
    ensures var p := Parse(MAXIMUM_PAYLOAD, bytes);
            && (r.Some? <==> !old(session.terminal) && !p.overrun && p.rest == [] && p.frames != []
                             && old(session.nonce) + |Messages(p.frames)| <= NONCE_LIMIT)
            && (r.Some? ==> r.value == SealAll(session.cipher, old(session.nonce), Messages(p.frames)))
            && (r.Some? ==> session.nonce == old(session.nonce) + |Messages(p.frames)|)
  {
    var decoder := new FrameDecoder(MAXIMUM_PAYLOAD);
    assert decoder.Buffered() + bytes == bytes;
    var frames, ok := decoder.Push(bytes);
    if !ok {
      return None;
    }
    var ended := decoder.Finish();
    if !ended || frames == [] || session.terminal {
      return None;
    }
    ParsedEncodes(MAXIMUM_PAYLOAD, bytes);
    assert EncodeAll(frames) + [] == EncodeAll(frames);
    r := EncryptFrames(session, bytes, frames);
  }
}
