/**
 The encrypted SV2 stream: each frame is a sealed six-byte header followed by its payload in sealed chunks, every
 sealed piece under the next nonce. The cipher is a parameter, ideal with respect to what the peer sealed.
 */
module NoiseStream {
  import opened Numbers
  import opened Options
  import opened FrameCodec
  import opened Streams

  const TAG := 16
  const CHUNK := 65519
  const SEALED_HEADER := 22
  const NONCE_LIMIT: nat := 0xffff_ffff_ffff_ffff

  datatype Aead = Aead(seal: (nat, seq<byte>) -> seq<byte>, open: (nat, seq<byte>) -> Option<seq<byte>>)

  /** Sealing adds a tag, and exactly what was sealed under a nonce opens under it. */
  ghost predicate Ideal(a: Aead, sent: seq<seq<byte>>)
  {
    && (forall n: nat, p: seq<byte> :: |a.seal(n, p)| == |p| + TAG)
    && (forall n: nat, c: seq<byte> ::
          a.open(n, c) == if n < |sent| && c == a.seal(n, sent[n]) then Some(sent[n]) else None)
  }

  // ---------- sizes ----------

  /** `payload_chunk_count` of the C library. */
  function ChunkCount(size: nat): nat
  {
    if size == 0 then 0 else 1 + (size - 1) / CHUNK
  }

  /** `payload_ciphertext_size` of the connection. */
  function CipherSize(size: nat): nat
  {
    if size == 0 then 0 else size + (size + CHUNK - 1) / CHUNK * TAG
  }

  /** `sv2_noise_payload_ciphertext_size` of the C library. */
  function LibraryCipherSize(size: nat): nat
  {
    size + ChunkCount(size) * TAG
  }

  lemma SizesAgree(size: nat)
    ensures CipherSize(size) == LibraryCipherSize(size)
  {
    if size > 0 {
      assert size + CHUNK - 1 == (size - 1) + CHUNK;
      assert (size - 1 + CHUNK) / CHUNK == (size - 1) / CHUNK + 1;
    }
  }

  lemma ChunkCountStep(size: nat)
    ensures size > CHUNK ==> ChunkCount(size) == 1 + ChunkCount(size - CHUNK)
    ensures 0 < size <= CHUNK ==> ChunkCount(size) == 1
  {
  }

  // ---------- what the peer seals ----------

  function FirstChunk(size: nat): nat
  {
    if size > CHUNK then CHUNK else size
  }

  function PayloadChunks(p: seq<byte>): seq<seq<byte>>
  {
    if p == [] then [] else [p[..FirstChunk(|p|)]] + PayloadChunks(p[FirstChunk(|p|)..])
  }

  function FrameMessages(f: Frame): seq<seq<byte>>
  {
    [Header(f.extension, f.message, |f.payload|)] + PayloadChunks(f.payload)
  }

  function Messages(frames: seq<Frame>): seq<seq<byte>>
  {
    if frames == [] then [] else FrameMessages(frames[0]) + Messages(frames[1..])
  }

  function SealAll(a: Aead, n: nat, messages: seq<seq<byte>>): seq<byte>
    decreases |messages|
  {
    if messages == [] then [] else a.seal(n, messages[0]) + SealAll(a, n + 1, messages[1..])
  }

  lemma {:induction false} SealConcat(a: Aead, n: nat, p: seq<seq<byte>>, q: seq<seq<byte>>)
    ensures SealAll(a, n, p + q) == SealAll(a, n, p) + SealAll(a, n + |p|, q)
    decreases |p|
  {
    if p == [] {
      assert p + q == q;
    } else {
      assert (p + q)[1..] == p[1..] + q;
      SealConcat(a, n + 1, p[1..], q);
    }
  }

  lemma {:induction false} ChunksCount(p: seq<byte>)
    ensures |PayloadChunks(p)| == ChunkCount(|p|)
    decreases |p|
  {
    if p != [] {
      ChunkCountStep(|p|);
      ChunksCount(p[FirstChunk(|p|)..]);
    }
  }

  lemma {:induction false} ChunksSealed(a: Aead, sent: seq<seq<byte>>, n: nat, p: seq<byte>)
    requires Ideal(a, sent)
    ensures |PayloadChunks(p)| == ChunkCount(|p|)
    ensures |SealAll(a, n, PayloadChunks(p))| == LibraryCipherSize(|p|)
    decreases |p|
  {
    ChunksCount(p);
    if p != [] {
      ChunkCountStep(|p|);
      var k := FirstChunk(|p|);
      ChunksSealed(a, sent, n + 1, p[k..]);
      assert PayloadChunks(p)[1..] == PayloadChunks(p[k..]);
    }
  }

  // ---------- what the receiver makes of a byte stream ----------

  function OpenChunks(a: Aead, n: nat, c: seq<byte>, size: nat): (r: Option<seq<byte>>)
    requires |c| == LibraryCipherSize(size)
    decreases size
  {
    if size == 0 then Some([])
    else
      var k := FirstChunk(size);
      ChunkCountStep(size);
      match a.open(n, c[..k + TAG])
      case None => None
      case Some(p) =>
        match OpenChunks(a, n + 1, c[k + TAG..], size - k)
        case None => None
        case Some(q) => Some(p + q)
  }

  /** The frame at the head of the stream; a header is opened as soon as it is complete. */
  function TakeFrame(a: Aead, limit: nat, n: nat, s: seq<byte>): (t: Taken)
    ensures t.Took? ==> SEALED_HEADER <= t.used <= |s|
  {
    if |s| < SEALED_HEADER then Short
    else
      var h := if n < NONCE_LIMIT then a.open(n, s[..SEALED_HEADER]) else None;
      if h.None? || |h.value| != HEADER_SIZE || HeaderSize(h.value) > limit then Failed
      else TakePayload(a, n, h.value, s)
  }

  function TakePayload(a: Aead, n: nat, header: seq<byte>, s: seq<byte>): (t: Taken)
    requires |s| >= SEALED_HEADER && |header| == HEADER_SIZE
    ensures t.Took? ==> SEALED_HEADER <= t.used <= |s|
  {
    var size := HeaderSize(header);
    if |s| < SEALED_HEADER + LibraryCipherSize(size) then Short
    else if n + 1 + ChunkCount(size) > NONCE_LIMIT then Failed
    else
      match OpenChunks(a, n + 1, s[SEALED_HEADER..SEALED_HEADER + LibraryCipherSize(size)], size)
      case None => Failed
      case Some(p) => Took(header + p, SEALED_HEADER + LibraryCipherSize(size), 1 + ChunkCount(size))
  }

  function Receiver(a: Aead, limit: nat): Taker
  {
    (n: nat, s: seq<byte>) => TakeFrame(a, limit, n, s)
  }

  lemma TakeFrameStable(a: Aead, limit: nat, n: nat, s: seq<byte>, more: seq<byte>)
    requires !TakeFrame(a, limit, n, s).Short?
    ensures TakeFrame(a, limit, n, s + more) == TakeFrame(a, limit, n, s)
  {
    assert (s + more)[..SEALED_HEADER] == s[..SEALED_HEADER];
    var h := if n < NONCE_LIMIT then a.open(n, s[..SEALED_HEADER]) else None;
    if h.Some? && |h.value| == HEADER_SIZE {
      var end := SEALED_HEADER + LibraryCipherSize(HeaderSize(h.value));
      assert end <= |s| ==> (s + more)[SEALED_HEADER..end] == s[SEALED_HEADER..end];
    }
  }

  lemma ReceiverStable(a: Aead, limit: nat)
    ensures Stable(Receiver(a, limit))
  {
    forall n: nat, s: seq<byte>, more: seq<byte>
      ensures StableAt(Receiver(a, limit), n, s, more)
    {
      if !TakeFrame(a, limit, n, s).Short? {
        TakeFrameStable(a, limit, n, s, more);
      }
    }
  }

  // ---------- only what the peer sealed comes out, and all of it does ----------

  /** Chunks that open are the chunks the peer sealed at those nonces. */
  lemma {:induction false} OpenedChunksAreSealed(a: Aead, sent: seq<seq<byte>>, n: nat, c: seq<byte>, p: seq<byte>)
    requires Ideal(a, sent) && |c| == LibraryCipherSize(|p|)
    requires n <= |sent| && PayloadChunks(p) <= sent[n..]
    ensures OpenChunks(a, n, c, |p|).Some? <==> c == SealAll(a, n, PayloadChunks(p))
    ensures OpenChunks(a, n, c, |p|).Some? ==> OpenChunks(a, n, c, |p|).value == p
    decreases |p|
  {
    if p != [] {
      var k := FirstChunk(|p|);
      ChunkCountStep(|p|);
      var chunks := PayloadChunks(p);
      assert chunks[1..] == PayloadChunks(p[k..]);
      assert sent[n] == sent[n..][0] == chunks[0] == p[..k];
      assert sent[n + 1..] == sent[n..][1..];
      OpenedChunksAreSealed(a, sent, n + 1, c[k + TAG..], p[k..]);
      assert p == p[..k] + p[k..];
      assert c == c[..k + TAG] + c[k + TAG..];
      assert c == SealAll(a, n, chunks) ==> c[..k + TAG] == a.seal(n, p[..k]);
      assert c == SealAll(a, n, chunks) ==> c[k + TAG..] == SealAll(a, n + 1, chunks[1..]);
    }
  }

  ghost predicate AllEncodable(frames: seq<Frame>)
  {
    forall f :: f in frames ==> Encodable(f)
  }

  /** The peer sealed `frames` from nonce `n` on, and nothing after them. */
  ghost predicate Sends(a: Aead, sent: seq<seq<byte>>, n: nat, frames: seq<Frame>)
  {
    Ideal(a, sent) && n <= |sent| && sent[n..] == Messages(frames) && AllEncodable(frames)
  }

  lemma LedgerParts(sent: seq<seq<byte>>, n: nat, m: seq<seq<byte>>, tail: seq<seq<byte>>)
    requires n <= |sent| && m != [] && sent[n..] == m + tail
    ensures n + |m| <= |sent| && sent[n] == m[0] && sent[n + |m|..] == tail && m[1..] <= sent[n + 1..]
  {
    assert sent[n] == sent[n..][0];
    assert sent[n + |m|..] == sent[n..][|m|..];
    assert sent[n + 1..] == sent[n..][1..] == m[1..] + tail;
  }

  lemma SendsNext(a: Aead, sent: seq<seq<byte>>, n: nat, frames: seq<Frame>)
    requires Sends(a, sent, n, frames) && frames != []
    ensures |FrameMessages(frames[0])| == 1 + ChunkCount(|frames[0].payload|)
    ensures Sends(a, sent, n + |FrameMessages(frames[0])|, frames[1..])
    ensures n < |sent| && sent[n] == Header(frames[0].extension, frames[0].message, |frames[0].payload|)
    ensures PayloadChunks(frames[0].payload) <= sent[n + 1..]
  {
    var m, tail := FrameMessages(frames[0]), Messages(frames[1..]);
    ChunksSealed(a, sent, n, frames[0].payload);
    LedgerParts(sent, n, m, tail);
    assert m[1..] == PayloadChunks(frames[0].payload);
  }

  function SealFrame(a: Aead, n: nat, f: Frame): seq<byte>
  {
    SealAll(a, n, FrameMessages(f))
  }

  lemma SealFrameParts(a: Aead, sent: seq<seq<byte>>, n: nat, f: Frame)
    requires Ideal(a, sent)
    ensures SealFrame(a, n, f) ==
            a.seal(n, Header(f.extension, f.message, |f.payload|)) + SealAll(a, n + 1, PayloadChunks(f.payload))
    ensures |SealFrame(a, n, f)| == SEALED_HEADER + LibraryCipherSize(|f.payload|)
  {
    assert FrameMessages(f)[1..] == PayloadChunks(f.payload);
    ChunksSealed(a, sent, n + 1, f.payload);
  }

  /** The peer sealed this frame from nonce `n` on. */
  ghost predicate SendsFrame(a: Aead, sent: seq<seq<byte>>, n: nat, f: Frame)
  {
    && Ideal(a, sent) && Encodable(f)
    && n < |sent| && sent[n] == Header(f.extension, f.message, |f.payload|)
    && PayloadChunks(f.payload) <= sent[n + 1..]
  }

  lemma HeadMatches(x: seq<byte>, y: seq<byte>, s: seq<byte>)
    requires |s| >= |x| + |y| && s[..|x|] == x
    ensures x + y <= s <==> s[|x|..|x| + |y|] == y
  {
    assert s[..|x| + |y|] == s[..|x|] + s[|x|..|x| + |y|];
    assert x + y <= s ==> s[..|x| + |y|] == x + y;
    assert (x + y)[|x|..] == y;
  }

  lemma TakesPayload(a: Aead, sent: seq<seq<byte>>, n: nat, f: Frame, s: seq<byte>)
    requires SendsFrame(a, sent, n, f) && |s| >= SEALED_HEADER
    requires HeaderSize(sent[n]) == |f.payload| && s[..SEALED_HEADER] == a.seal(n, sent[n])
    ensures var t := TakePayload(a, n, sent[n], s);
            t.Took? <==> n + 1 + ChunkCount(|f.payload|) <= NONCE_LIMIT && SealFrame(a, n, f) <= s
    ensures var t := TakePayload(a, n, sent[n], s);
            t.Took? ==> t == Took(Encode(f), |SealFrame(a, n, f)|, 1 + ChunkCount(|f.payload|))
  {
    SealFrameParts(a, sent, n, f);
    var end := SEALED_HEADER + LibraryCipherSize(|f.payload|);
    if |s| >= end {
      OpenedChunksAreSealed(a, sent, n + 1, s[SEALED_HEADER..end], f.payload);
      HeadMatches(a.seal(n, sent[n]), SealAll(a, n + 1, PayloadChunks(f.payload)), s);
    }
  }

  /** A frame is taken exactly when its sealed form stands at the head of the stream, and it comes out whole. */
  lemma TakesFrame(a: Aead, sent: seq<seq<byte>>, limit: nat, n: nat, f: Frame, s: seq<byte>)
    requires SendsFrame(a, sent, n, f)
    ensures var t := TakeFrame(a, limit, n, s);
            t.Took? <==>
              && |f.payload| <= limit && n + 1 + ChunkCount(|f.payload|) <= NONCE_LIMIT && SealFrame(a, n, f) <= s
    ensures var t := TakeFrame(a, limit, n, s);
            t.Took? ==> t == Took(Encode(f), |SealFrame(a, n, f)|, 1 + ChunkCount(|f.payload|))
  {
    SealFrameParts(a, sent, n, f);
    HeaderReads(f.extension, f.message, |f.payload|);
    if |s| >= SEALED_HEADER {
      if s[..SEALED_HEADER] == a.seal(n, sent[n]) {
        TakesPayload(a, sent, n, f, s);
      } else {
        assert !(SealFrame(a, n, f) <= s);
      }
    }
  }

  // ---------- from frames to pieces ----------

  function FramePiece(a: Aead, limit: nat, n: nat, f: Frame): Piece
    requires Encodable(f)
  {
    var nonces := 1 + ChunkCount(|f.payload|);
    Piece(Encode(f), SealFrame(a, n, f), nonces, |f.payload| <= limit && n + nonces <= NONCE_LIMIT)
  }

  function Pieces(a: Aead, limit: nat, n: nat, frames: seq<Frame>): (pieces: seq<Piece>)
    requires AllEncodable(frames)
    ensures |pieces| == |frames|
    decreases |frames|
  {
    if frames == [] then []
    else
      assert frames[0] in frames;
      [FramePiece(a, limit, n, frames[0])] + Pieces(a, limit, n + 1 + ChunkCount(|frames[0].payload|), frames[1..])
  }

  lemma {:induction false} ReceiverReads(a: Aead, sent: seq<seq<byte>>, limit: nat, n: nat, frames: seq<Frame>)
    requires Sends(a, sent, n, frames)
    ensures Reads(Receiver(a, limit), n, Pieces(a, limit, n, frames))
    decreases |frames|
  {
    if frames == [] {
      assert n == |sent|;
    } else {
      var f := frames[0];
      assert f in frames;
      SendsNext(a, sent, n, frames);
      SealFrameParts(a, sent, n, f);
      forall s: seq<byte>
        ensures TakesPiece(Receiver(a, limit), n, FramePiece(a, limit, n, f), s)
      {
        TakesFrame(a, sent, limit, n, f, s);
      }
      ReceiverReads(a, sent, limit, n + 1 + ChunkCount(|f.payload|), frames[1..]);
    }
  }

  lemma {:induction false} PiecesMean(a: Aead, sent: seq<seq<byte>>, limit: nat, n: nat, frames: seq<Frame>)
    requires Ideal(a, sent) && AllEncodable(frames)
    ensures Plain(Pieces(a, limit, n, frames)) == EncodeAll(frames)
    ensures Nonces(Pieces(a, limit, n, frames)) == |Messages(frames)|
    ensures Sealed(Pieces(a, limit, n, frames)) == SealAll(a, n, Messages(frames))
    decreases |frames|
  {
    if frames != [] {
      var f := frames[0];
      assert f in frames;
      var m := n + 1 + ChunkCount(|f.payload|);
      ChunksSealed(a, sent, n, f.payload);
      PiecesMean(a, sent, limit, m, frames[1..]);
      SealConcat(a, n, FrameMessages(f), Messages(frames[1..]));
      assert Pieces(a, limit, n, frames)[1..] == Pieces(a, limit, m, frames[1..]);
    }
  }

  lemma TakeAfterFirst(first: Piece, later: seq<Piece>, k: nat)
    requires 0 < k <= |later| + 1
    ensures ([first] + later)[..k] == [first] + later[..k - 1]
  {
  }

  lemma {:induction false} PiecesPrefix(a: Aead, limit: nat, n: nat, frames: seq<Frame>, k: nat)
    requires AllEncodable(frames) && k <= |frames|
    ensures AllEncodable(frames[..k]) && Pieces(a, limit, n, frames)[..k] == Pieces(a, limit, n, frames[..k])
    decreases k
  {
    if k > 0 {
      assert frames[0] in frames;
      var m := n + 1 + ChunkCount(|frames[0].payload|);
      PiecesPrefix(a, limit, m, frames[1..], k - 1);
      assert frames[..k][0] == frames[0] && frames[..k][1..] == frames[1..][..k - 1];
      TakeAfterFirst(FramePiece(a, limit, n, frames[0]), Pieces(a, limit, m, frames[1..]), k);
    }
  }

  /** Whatever bytes arrive, every output is a whole-frame prefix of what the peer sealed; so is all that was used. */
  lemma OnlyThePeersFrames(a: Aead, limit: nat, frames: seq<Frame>, s: seq<byte>) returns (k: nat)
    requires AllEncodable(frames) && Ideal(a, Messages(frames))
    ensures k <= |frames| && AllEncodable(frames[..k])
    ensures var o := OpenStream(Receiver(a, limit), 0, s);
            && o.plain == EncodeAll(frames[..k])
            && o.nonce == |Messages(frames[..k])|
            && (!o.failed ==> s == SealAll(a, 0, Messages(frames[..k])) + o.rest)
  {
    var sent := Messages(frames);
    assert sent[0..] == sent;
    ReceiverReads(a, sent, limit, 0, frames);
    k := ReadsPrefix(Receiver(a, limit), 0, Pieces(a, limit, 0, frames), s);
    PiecesPrefix(a, limit, 0, frames, k);
    PiecesMean(a, sent, limit, 0, frames[..k]);
  }

  lemma {:induction false} PiecesAllowed(a: Aead, sent: seq<seq<byte>>, limit: nat, n: nat, frames: seq<Frame>)
    requires Ideal(a, sent) && AllEncodable(frames)
    requires (forall f :: f in frames ==> |f.payload| <= limit) && n + |Messages(frames)| <= NONCE_LIMIT
    ensures forall p :: p in Pieces(a, limit, n, frames) ==> p.allowed
    decreases |frames|
  {
    if frames != [] {
      assert frames[0] in frames;
      ChunksSealed(a, sent, n, frames[0].payload);
      PiecesAllowed(a, sent, limit, n + 1 + ChunkCount(|frames[0].payload|), frames[1..]);
    }
  }

  /** Unaltered, with payloads within the limit and nonces to spare, every frame comes out. */
  lemma AllThePeersFrames(a: Aead, limit: nat, frames: seq<Frame>)
    requires AllEncodable(frames) && Ideal(a, Messages(frames))
    requires (forall f :: f in frames ==> |f.payload| <= limit) && |Messages(frames)| <= NONCE_LIMIT
    ensures OpenStream(Receiver(a, limit), 0, SealAll(a, 0, Messages(frames)))
         == Opened(EncodeAll(frames), [], |Messages(frames)|, false)
  {
    var sent := Messages(frames);
    assert sent[0..] == sent;
    ReceiverReads(a, sent, limit, 0, frames);
    PiecesAllowed(a, sent, limit, 0, frames);
    PiecesMean(a, sent, limit, 0, frames);
    ReadsWhole(Receiver(a, limit), 0, Pieces(a, limit, 0, frames));
  }
}
