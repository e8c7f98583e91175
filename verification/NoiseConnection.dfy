/** The responder's connection: Act 1, then an incremental decoder of the encrypted stream. */
module NoiseConnection {
  import opened Numbers
  import opened Options
  import opened FrameCodec
  import opened Streams
  import opened NoiseStream
  import opened NoiseSession

  const ACT1_SIZE := 64

  /** Waiting for Act 1; deciphering, with the nonce and bytes of the unfinished frame; or ended. */
  datatype Link = Awaiting(act1: seq<byte>) | Live(cipher: Aead, nonce: nat, rest: seq<byte>) | Over

  function After(cipher: Aead, o: Opened): Link
  {
    if o.failed then Over else Live(cipher, o.nonce, o.rest)
  }

  /** What `receive` makes of some bytes; `agreed` is the cipher when the handshake and sending Act 2 succeed. */
  function Received(limit: nat, link: Link, bytes: seq<byte>, agreed: Option<Aead>): (Link, seq<byte>)
  {
    match link
    case Over => (Over, [])
    case Awaiting(act1) =>
      if |act1 + bytes| < ACT1_SIZE then (Awaiting(act1 + bytes), [])
      else if agreed.None? then (Over, [])
      else
        var o := OpenStream(Receiver(agreed.value, limit), 0, (act1 + bytes)[ACT1_SIZE..]);
        (After(agreed.value, o), o.plain)
    case Live(cipher, nonce, rest) =>
      var o := OpenStream(Receiver(cipher, limit), nonce, rest + bytes);
      (After(cipher, o), o.plain)
  }

  // ---------- the laws of the stream, by what stands at its head ----------

  type Meaning = (nat, seq<byte>) -> Opened

  /** A header that does not open, or announces too long a payload. */
  ghost predicate Refused(a: Aead, limit: nat, n: nat, h: seq<byte>)
  {
    n >= NONCE_LIMIT || a.open(n, h).None? || |a.open(n, h).value| != HEADER_SIZE
        || HeaderSize(a.open(n, h).value) > limit
  }

  /** A header that opened, announcing a payload within the limit. */
  ghost predicate Announces(a: Aead, limit: nat, n: nat, h: seq<byte>, plain: seq<byte>, size: nat)
  {
    && |h| == SEALED_HEADER && n < NONCE_LIMIT && a.open(n, h) == Some(plain)
    && |plain| == HEADER_SIZE && HeaderSize(plain) == size <= limit
  }

  ghost predicate WaitsForHeader(m: Meaning, n: nat, h: seq<byte>)
  {
    |h| < SEALED_HEADER ==> m(n, h) == Opened([], h, n, false)
  }

  ghost predicate StopsAtRefusal(m: Meaning, a: Aead, limit: nat, n: nat, h: seq<byte>, rest: seq<byte>)
  {
    |h| == SEALED_HEADER && Refused(a, limit, n, h) ==> m(n, h + rest) == Opened([], [], n, true)
  }

  ghost predicate WaitsForPayload(m: Meaning, a: Aead, limit: nat, n: nat, h: seq<byte>, plain: seq<byte>, size: nat,
                                  c: seq<byte>)
  {
    Announces(a, limit, n, h, plain, size) && |c| < LibraryCipherSize(size) ==>
      m(n, h + c) == Opened([], h + c, n, false)
  }

  /** What the library makes of a whole payload. */
  ghost function PayloadOf(a: Aead, n: nat, c: seq<byte>, size: nat): Option<seq<byte>>
    requires |c| == LibraryCipherSize(size)
  {
    if n + ChunkCount(size) > NONCE_LIMIT then None else OpenChunks(a, n, c, size)
  }

  ghost predicate CompletesPayload(m: Meaning, a: Aead, limit: nat, n: nat, h: seq<byte>, plain: seq<byte>, size: nat,
                               c: seq<byte>, rest: seq<byte>)
  {
    Announces(a, limit, n, h, plain, size) && |c| == LibraryCipherSize(size) ==>
      var r := PayloadOf(a, n + 1, c, size);
      m(n, h + c + rest) ==
        if r.None? then Opened([], [], n, true) else Shift(plain + r.value, m(n + 1 + ChunkCount(size), rest))
  }

  ghost predicate Lawful(m: Meaning, a: Aead, limit: nat)
  {
    && (forall n: nat, h: seq<byte> :: WaitsForHeader(m, n, h))
    && (forall n: nat, h: seq<byte>, rest: seq<byte> :: StopsAtRefusal(m, a, limit, n, h, rest))
    && (forall n: nat, h: seq<byte>, plain: seq<byte>, size: nat, c: seq<byte> ::
          WaitsForPayload(m, a, limit, n, h, plain, size, c))
    && (forall n: nat, h: seq<byte>, plain: seq<byte>, size: nat, c: seq<byte>, rest: seq<byte> ::
          CompletesPayload(m, a, limit, n, h, plain, size, c, rest))
  }

  function StreamMeaning(a: Aead, limit: nat): Meaning
  {
    (n: nat, s: seq<byte>) => OpenStream(Receiver(a, limit), n, s)
  }

  lemma HeaderLaws(a: Aead, limit: nat, n: nat, h: seq<byte>, rest: seq<byte>)
    ensures WaitsForHeader(StreamMeaning(a, limit), n, h)
    ensures StopsAtRefusal(StreamMeaning(a, limit), a, limit, n, h, rest)
  {
    if |h| < SEALED_HEADER {
      assert TakeFrame(a, limit, n, h) == Short;
    } else if |h| == SEALED_HEADER && Refused(a, limit, n, h) {
      assert (h + rest)[..SEALED_HEADER] == h;
      assert TakeFrame(a, limit, n, h + rest) == Failed;
    }
  }

  lemma PayloadLaws(a: Aead, limit: nat, n: nat, h: seq<byte>, plain: seq<byte>, size: nat, c: seq<byte>,
                    rest: seq<byte>)
    ensures WaitsForPayload(StreamMeaning(a, limit), a, limit, n, h, plain, size, c)
    ensures CompletesPayload(StreamMeaning(a, limit), a, limit, n, h, plain, size, c, rest)
  {
    if Announces(a, limit, n, h, plain, size) && |c| < LibraryCipherSize(size) {
      assert (h + c)[..SEALED_HEADER] == h;
      assert TakeFrame(a, limit, n, h + c) == Short;
    } else if Announces(a, limit, n, h, plain, size) && |c| == LibraryCipherSize(size) {
      var s := h + c + rest;
      var end := SEALED_HEADER + LibraryCipherSize(size);
      assert s[..SEALED_HEADER] == h;
      assert s[SEALED_HEADER..end] == c;
      assert s[end..] == rest;
      assert TakeFrame(a, limit, n, s) == TakePayload(a, n, plain, s);
    }
  }

  lemma StreamIsLawful(a: Aead, limit: nat)
    ensures Lawful(StreamMeaning(a, limit), a, limit)
  {
    forall n: nat, h: seq<byte>, rest: seq<byte>
      ensures WaitsForHeader(StreamMeaning(a, limit), n, h)
      ensures StopsAtRefusal(StreamMeaning(a, limit), a, limit, n, h, rest)
    {
      HeaderLaws(a, limit, n, h, rest);
    }
    forall n: nat, h: seq<byte>, plain: seq<byte>, size: nat, c: seq<byte>, rest: seq<byte>
      ensures WaitsForPayload(StreamMeaning(a, limit), a, limit, n, h, plain, size, c)
      ensures CompletesPayload(StreamMeaning(a, limit), a, limit, n, h, plain, size, c, rest)
    {
      PayloadLaws(a, limit, n, h, plain, size, c, rest);
    }
  }

  datatype StreamState = AwaitingAct1 | Act1Ready | SendingAct2 | Transport | Terminal

  class Connection {
    const limit: nat
    const act1: array<byte>
    const sealedHeader: array<byte>
    var state: StreamState
    var act1Size: nat
    var headerSize: nat
    var plainHeader: seq<byte>
    var payloadSize: nat
    var expected: nat
    var payload: seq<byte>
    var session: Session?

    ghost predicate Shape()
      reads this
    {
      act1.Length == ACT1_SIZE && sealedHeader.Length == SEALED_HEADER && act1 != sealedHeader
    }

    /** Between calls the stream is waiting for Act 1, deciphering, or over. */
    ghost predicate Valid()
      reads this, act1, sealedHeader, session
    {
      && Shape()
      && (state == AwaitingAct1 || state == Transport || state == Terminal)
      && (state == AwaitingAct1 ==> act1Size < ACT1_SIZE && headerSize == 0 && payload == [])
      && (state == Transport ==> Deciphering())
    }

    ghost predicate Deciphering()
      reads this, act1, sealedHeader, session
    {
      && Shape() && session != null && !session.terminal && session.nonce <= NONCE_LIMIT
      && (headerSize < SEALED_HEADER ==> payload == [])
      && (headerSize >= SEALED_HEADER ==>
            && headerSize == SEALED_HEADER && 0 < session.nonce
            && Announces(session.cipher, limit, session.nonce - 1, sealedHeader[..], plainHeader, payloadSize)
            && 0 < payloadSize && expected == LibraryCipherSize(payloadSize) && |payload| < expected)
    }

    /** The nonce at which the unfinished frame began. */
    ghost function Base(): nat
      reads this, act1, sealedHeader, session
      requires Deciphering()
    {
      if headerSize == SEALED_HEADER then session.nonce - 1 else session.nonce
    }

    ghost function Buffered(): seq<byte>
      reads this, act1, sealedHeader, session
      requires Deciphering()
    {
      sealedHeader[..headerSize] + payload
    }

    ghost function Contents(): Link
      reads this, act1, sealedHeader, session
      requires Valid()
    {
      match state
      case AwaitingAct1 => Awaiting(act1[..act1Size])
      case Transport => Live(session.cipher, Base(), Buffered())
      case _ => Over
    }

    constructor (limit: nat)
      ensures Valid() && Contents() == Awaiting([]) && this.limit == limit
      ensures fresh(act1) && fresh(sealedHeader)
    {
      this.limit := limit;
      act1 := new byte[64](_ => 0);
      sealedHeader := new byte[22](_ => 0);
      state, act1Size, headerSize, plainHeader, payloadSize, expected := AwaitingAct1, 0, 0, [], 0, 0;
      payload, session := [], null;
    }

    /** `terminate_locked`: the session is dropped and nothing more is read. */
    method Terminate()
      requires Shape()
      modifies this
      ensures Valid() && Contents() == Over && state == Terminal && session == null
    {
      session := null;
      state, act1Size, headerSize, payloadSize, expected, payload := Terminal, 0, 0, 0, 0, [];
    }

    method ResetIncomingFrame()
      modifies this`headerSize, this`payloadSize, this`expected, this`payload
      ensures headerSize == 0 && payload == []
    {
      headerSize, payloadSize, expected, payload := 0, 0, 0, [];
    }

    /** Copies sealed header bytes; `k` of them are taken. */
    method FillHeader(bytes: seq<byte>) returns (k: nat)
      requires Deciphering() && headerSize < SEALED_HEADER && bytes != []
      modifies this`headerSize, sealedHeader
      ensures 1 <= k <= |bytes| && headerSize == old(headerSize) + k <= SEALED_HEADER
      ensures headerSize < SEALED_HEADER ==> k == |bytes|
      ensures sealedHeader[..headerSize] == old(sealedHeader[..headerSize]) + bytes[..k]
    {
      k := if SEALED_HEADER - headerSize <= |bytes| then SEALED_HEADER - headerSize else |bytes|;
      forall i | 0 <= i < k {
        sealedHeader[headerSize + i] := bytes[i];
      }
      headerSize := headerSize + k;
    }

    /** Opens a complete header. */
    method OpenHeader() returns (ok: bool)
      requires Shape() && headerSize == SEALED_HEADER
      requires session != null && !session.terminal && session.nonce <= NONCE_LIMIT
      modifies this`plainHeader, this`payloadSize, session
      ensures !ok ==> Refused(session.cipher, limit, old(session.nonce), sealedHeader[..])
      ensures ok ==> Announces(session.cipher, limit, old(session.nonce), sealedHeader[..], plainHeader, payloadSize)
      ensures ok ==> !session.terminal && session.nonce == old(session.nonce) + 1 <= NONCE_LIMIT
    {
      var header := session.DecryptHeader(sealedHeader[..]);
      if header.None? || |header.value| != HEADER_SIZE {
        return false;
      }
      plainHeader := header.value;
      payloadSize := HeaderSize(plainHeader);
      ok := payloadSize <= limit;
    }

    /** Opens a complete header. An empty payload ends the frame at once; a failure ends the connection. */
    method BeginPayload(ghost m: Meaning, ghost a: Aead, ghost n: nat, ghost rest: seq<byte>) returns (plain: seq<byte>)
      requires Shape() && state == Transport && headerSize == SEALED_HEADER && payload == [] && Lawful(m, a, limit)
      requires session != null && !session.terminal && session.nonce == n <= NONCE_LIMIT && session.cipher == a
      modifies this, session
      ensures session == old(session) || session == null
      ensures state == Terminal || (state == Transport && Deciphering() && session.cipher == a)
      ensures state == Terminal ==> Valid() && plain == [] && m(n, sealedHeader[..] + rest) == Opened([], [], n, true)
      ensures state == Transport ==> m(n, sealedHeader[..] + rest) == Shift(plain, m(Base(), Buffered() + rest))
      ensures state == Transport && headerSize == SEALED_HEADER ==> plain == [] && Base() == n
    {
      plain := [];
      var ok := OpenHeader();
      if !ok {
        assert StopsAtRefusal(m, a, limit, n, sealedHeader[..], rest);
        Terminate();
        return;
      }
      if payloadSize == 0 {
        assert CompletesPayload(m, a, limit, n, sealedHeader[..], plainHeader, 0, [], rest);
        assert sealedHeader[..] + [] + rest == sealedHeader[..] + rest;
        assert plainHeader + [] == plainHeader;
        plain := plainHeader;
        ResetIncomingFrame();
        assert Buffered() + rest == rest;
        return;
      }
      SizesAgree(payloadSize);
      expected := LibraryCipherSize(payloadSize);
      payload := [];
      assert Buffered() == sealedHeader[..];
      ShiftTwice([], [], m(n, sealedHeader[..] + rest));
    }

    /** Collects payload bytes and opens the payload when they are all there. */
    method ContinuePayload(ghost m: Meaning, ghost a: Aead, bytes: seq<byte>)
      returns (rest: seq<byte>, plain: seq<byte>)
      requires state == Transport && Deciphering() && headerSize == SEALED_HEADER
      requires Lawful(m, a, limit) && session.cipher == a
      modifies this, session
      ensures session == old(session) || session == null
      ensures |rest| <= |bytes| && (bytes != [] ==> |rest| < |bytes|)
      ensures state == Terminal || (state == Transport && Deciphering() && session.cipher == a)
      ensures state == Terminal ==>
                Valid() && plain == [] && m(old(Base()), old(Buffered()) + bytes) == Opened([], [], old(Base()), true)
      ensures state == Transport ==>
                m(old(Base()), old(Buffered()) + bytes) == Shift(plain, m(Base(), Buffered() + rest))
      ensures state == Transport && headerSize == SEALED_HEADER ==> rest == []
    {
      ghost var n, h := Base(), sealedHeader[..];
      var k := if expected - |payload| <= |bytes| then expected - |payload| else |bytes|;
      payload := payload + bytes[..k];
      rest, plain := bytes[k..], [];
      assert old(Buffered()) + bytes == h + payload + rest;
      if |payload| != expected {
        assert Buffered() + rest == h + payload + rest;
        ShiftTwice([], [], m(n, h + payload + rest));
        return;
      }
      assert CompletesPayload(m, a, limit, n, h, plainHeader, payloadSize, payload, rest);
      HeaderWrites(plainHeader);
      var opens := session.DecryptPayload(payload, payloadSize);
      if opens.None? {
        Terminate();
        return;
      }
      plain := plainHeader + opens.value;
      ResetIncomingFrame();
      assert Buffered() + rest == rest;
    }

    /** One turn of the deciphering loop. */
    method Advance(ghost m: Meaning, ghost a: Aead, bytes: seq<byte>) returns (rest: seq<byte>, plain: seq<byte>)
      requires state == Transport && Deciphering() && bytes != []
      requires Lawful(m, a, limit) && session.cipher == a
      modifies this, session, sealedHeader
      ensures session == old(session) || session == null
      ensures |rest| < |bytes|
      ensures state == Terminal || (state == Transport && Deciphering() && session.cipher == a)
      ensures state == Terminal ==>
                Valid() && plain == [] && m(old(Base()), old(Buffered()) + bytes) == Opened([], [], old(Base()), true)
      ensures state == Transport ==>
                m(old(Base()), old(Buffered()) + bytes) == Shift(plain, m(Base(), Buffered() + rest))
    {
      if headerSize == SEALED_HEADER {
        rest, plain := ContinuePayload(m, a, bytes);
        return;
      }
      ghost var n := session.nonce;
      var k := FillHeader(bytes);
      rest, plain := bytes[k..], [];
      assert old(Buffered()) + bytes == sealedHeader[..headerSize] + rest;
      if headerSize != SEALED_HEADER {
        assert Buffered() == sealedHeader[..headerSize];
        ShiftTwice([], [], m(n, Buffered() + rest));
        return;
      }
      assert sealedHeader[..headerSize] == sealedHeader[..];
      plain := BeginPayload(m, a, n, rest);
      if state == Terminal || headerSize != SEALED_HEADER {
        return;
      }
      ShiftTwice([], [], m(n, Buffered() + rest));
      rest, plain := ContinuePayload(m, a, rest);
    }

    /** `decrypt_transport_locked` */
    method DecryptTransport(ghost m: Meaning, ghost a: Aead, bytes: seq<byte>) returns (plain: seq<byte>)
      requires state == Transport && Deciphering()
      requires Lawful(m, a, limit) && session.cipher == a
      modifies this, session, sealedHeader
      ensures session == old(session) || session == null
      ensures Valid() && state != AwaitingAct1
      ensures var o := m(old(Base()), old(Buffered()) + bytes); plain == o.plain && Contents() == After(a, o)
    {
      ghost var n, s := Base(), Buffered() + bytes;
      var rest := bytes;
      plain := [];
      ShiftTwice([], [], m(n, s));
      while rest != []
        invariant state == Transport && Deciphering() && session == old(session) && session.cipher == a
        invariant m(n, s) == Shift(plain, m(Base(), Buffered() + rest))
        decreases |rest|
      {
        var more;
        ghost var b, t := Base(), Buffered() + rest;
        rest, more := Advance(m, a, rest);
        if state == Terminal {
          assert plain + [] == plain;
          return;
        }
        ShiftTwice(plain, more, m(Base(), Buffered() + rest));
        plain := plain + more;
      }
      Settled(m, a);
      assert plain + [] == plain;
    }

    lemma Settled(m: Meaning, a: Aead)
      requires state == Transport && Deciphering() && Lawful(m, a, limit) && session.cipher == a
      ensures m(Base(), Buffered() + []) == Opened([], Buffered(), Base(), false)
    {
      assert Buffered() + [] == Buffered();
      if headerSize == SEALED_HEADER {
        assert sealedHeader[..headerSize] == sealedHeader[..];
        assert WaitsForPayload(m, a, limit, Base(), sealedHeader[..], plainHeader, payloadSize, payload);
      } else {
        assert Buffered() == sealedHeader[..headerSize];
        assert WaitsForHeader(m, Base(), sealedHeader[..headerSize]);
      }
    }

    /** Copies Act 1 bytes; what is left of the input comes after them. */
    method FillAct1(bytes: seq<byte>) returns (rest: seq<byte>)
      requires Valid() && state == AwaitingAct1
      modifies this`act1Size, this`state, act1
      ensures act1Size <= ACT1_SIZE && (act1Size < ACT1_SIZE ==> rest == [])
      ensures old(act1[..act1Size]) + bytes == act1[..act1Size] + rest
      ensures state == if act1Size == ACT1_SIZE then Act1Ready else AwaitingAct1
    {
      var k := if ACT1_SIZE - act1Size <= |bytes| then ACT1_SIZE - act1Size else |bytes|;
      forall i | 0 <= i < k {
        act1[act1Size + i] := bytes[i];
      }
      rest := bytes[k..];
      act1Size := act1Size + k;
      if act1Size == ACT1_SIZE {
        state := Act1Ready;
      }
    }

    /** `establish_transport`, for the one outcome of handshake and sending that the caller observes. */
    method EstablishTransport(agreed: Option<Aead>)
      requires Shape() && state == Act1Ready && headerSize == 0 && payload == []
      modifies this
      ensures agreed.None? ==> Valid() && Contents() == Over && session == null
      ensures agreed.Some? ==> state == Transport && Deciphering() && session.cipher == agreed.value && fresh(session)
      ensures agreed.Some? ==> Base() == 0 && Buffered() == []
    {
      if agreed.None? {
        Terminate();
      } else {
        session := new Session(agreed.value);
        state, act1Size := Transport, 0;
      }
    }

    method Receive(bytes: seq<byte>, agreed: Option<Aead>) returns (plain: seq<byte>)
      requires Valid()
      modifies this, act1, sealedHeader, session
      ensures Valid() && (session == old(session) || session == null || fresh(session))
      ensures (Contents(), plain) == Received(limit, old(Contents()), bytes, agreed)
    {
      plain := [];
      if state == Terminal {
        return;
      }
      var rest := bytes;
      if state == AwaitingAct1 {
        rest := FillAct1(bytes);
        if state == AwaitingAct1 {
          assert act1[..act1Size] + rest == act1[..act1Size];
          return;
        }
        assert |old(act1[..act1Size]) + bytes| == ACT1_SIZE + |rest|;
        assert (old(act1[..act1Size]) + bytes)[ACT1_SIZE..] == rest;
        EstablishTransport(agreed);
        if state != Transport {
          return;
        }
        assert Buffered() + rest == rest;
      }
      StreamIsLawful(session.cipher, limit);
      plain := DecryptTransport(StreamMeaning(session.cipher, limit), session.cipher, rest);
    }

    /** Ends the connection; the end is clean only between frames. */
    method Finish() returns (clean: bool)
      requires Valid()
      modifies this
      ensures Valid() && Contents() == Over
      ensures clean <==> old(Contents()).Live? && old(Contents()).rest == []
    {
      clean := state == Transport && headerSize == 0 && payload == [];
      Terminate();
    }
  }

  // ---------- a whole connection ----------

  /** Receiving chunk after chunk, with everything put out so far. */
  function ReceivedAll(limit: nat, agreed: Option<Aead>, chunks: seq<seq<byte>>): (Link, seq<byte>)
  {
    if chunks == [] then (Awaiting([]), [])
    else
      var (link, out) := ReceivedAll(limit, agreed, chunks[..|chunks| - 1]);
      var (next, more) := Received(limit, link, chunks[|chunks| - 1], agreed);
      (next, out + more)
  }

  /** The whole stream at once. */
  function ReceivedWhole(limit: nat, agreed: Option<Aead>, s: seq<byte>): (Link, seq<byte>)
  {
    if |s| < ACT1_SIZE then (Awaiting(s), [])
    else if agreed.None? then (Over, [])
    else
      var o := OpenStream(Receiver(agreed.value, limit), 0, s[ACT1_SIZE..]);
      (After(agreed.value, o), o.plain)
  }

  lemma ReceivedNext(limit: nat, agreed: Option<Aead>, s: seq<byte>, bytes: seq<byte>)
    ensures var (link, out) := ReceivedWhole(limit, agreed, s);
            var (next, more) := Received(limit, link, bytes, agreed);
            ReceivedWhole(limit, agreed, s + bytes) == (next, out + more)
  {
    var (link, out) := ReceivedWhole(limit, agreed, s);
    var (_, more) := Received(limit, link, bytes, agreed);
    assert [] + more == more && out + [] == out;
    if |s| >= ACT1_SIZE && agreed.Some? {
      var take := Receiver(agreed.value, limit);
      ReceiverStable(agreed.value, limit);
      assert (s + bytes)[ACT1_SIZE..] == s[ACT1_SIZE..] + bytes;
      OpenResumes(take, 0, s[ACT1_SIZE..], bytes);
    }
  }

  /** However the stream is cut, the link and the output are those of the whole stream. */
  lemma {:induction false} AnyFragmentation(limit: nat, agreed: Option<Aead>, chunks: seq<seq<byte>>)
    ensures ReceivedAll(limit, agreed, chunks) == ReceivedWhole(limit, agreed, Concat(chunks))
  {
    if chunks != [] {
      AnyFragmentation(limit, agreed, chunks[..|chunks| - 1]);
      ReceivedNext(limit, agreed, Concat(chunks[..|chunks| - 1]), chunks[|chunks| - 1]);
    }
  }

  /**
   Any bytes in any fragmentation: the output is a whole-frame prefix of what the peer sealed. The unaltered stream,
   with frames within the limit and nonces to spare, puts out every frame and ends between frames.
   */
  lemma ConnectionIsFaithful(limit: nat, a: Aead, frames: seq<Frame>, chunks: seq<seq<byte>>) returns (k: nat)
    requires AllEncodable(frames) && Ideal(a, Messages(frames))
    ensures k <= |frames| && AllEncodable(frames[..k])
    ensures ReceivedAll(limit, Some(a), chunks).1 == EncodeAll(frames[..k])
    ensures |Concat(chunks)| >= ACT1_SIZE && Concat(chunks)[ACT1_SIZE..] == SealAll(a, 0, Messages(frames))
            && (forall f :: f in frames ==> |f.payload| <= limit) && |Messages(frames)| <= NONCE_LIMIT
            ==> ReceivedAll(limit, Some(a), chunks) == (Live(a, |Messages(frames)|, []), EncodeAll(frames))
  {
    var s := Concat(chunks);
    AnyFragmentation(limit, Some(a), chunks);
    k := 0;
    if |s| >= ACT1_SIZE {
      k := OnlyThePeersFrames(a, limit, frames, s[ACT1_SIZE..]);
      if s[ACT1_SIZE..] == SealAll(a, 0, Messages(frames))
         && (forall f :: f in frames ==> |f.payload| <= limit) && |Messages(frames)| <= NONCE_LIMIT {
        AllThePeersFrames(a, limit, frames);
      }
    }
  }
}
