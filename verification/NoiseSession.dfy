/** The transport half of the Noise library: nonce counters that only move on, and the chunk loops over them. */
module NoiseSession {
  import opened Numbers
  import opened Options
  import opened Sequences
  import opened FrameCodec
  import opened NoiseStream

  /** One direction's cipher state and the session's terminal flag. */
  class Session {
    const cipher: Aead
    var nonce: nat
    var terminal: bool

    constructor (cipher: Aead)
      ensures this.cipher == cipher && nonce == 0 && !terminal
    {
      this.cipher := cipher;
      nonce, terminal := 0, false;
    }

    /** `check_nonce_capacity` */
    method CheckCapacity(count: nat) returns (ok: bool)
      requires nonce <= NONCE_LIMIT
      modifies this`terminal
      ensures ok == (!old(terminal) && old(nonce) + count <= NONCE_LIMIT)
      ensures terminal == !ok
    {
      if terminal {
        return false;
      }
      if count > NONCE_LIMIT - nonce {
        terminal := true;
        return false;
      }
      return true;
    }

    /** `cipher_encrypt`, which refuses the last nonce. */
    method Seal(plain: seq<byte>) returns (r: Option<seq<byte>>)
      modifies this`nonce
      ensures old(nonce) == NONCE_LIMIT ==> r.None? && nonce == old(nonce)
      ensures old(nonce) != NONCE_LIMIT ==> r == Some(cipher.seal(old(nonce), plain)) && nonce == old(nonce) + 1
    {
      if nonce == NONCE_LIMIT {
        return None;
      }
      r := Some(cipher.seal(nonce, plain));
      nonce := nonce + 1;
    }

    /** `cipher_decrypt`; the nonce moves only past what opened. */
    method Open(sealed: seq<byte>) returns (r: Option<seq<byte>>)
      modifies this`nonce
      ensures r == if old(nonce) == NONCE_LIMIT then None else cipher.open(old(nonce), sealed)
      ensures nonce == if r.Some? then old(nonce) + 1 else old(nonce)
    {
      if nonce == NONCE_LIMIT {
        return None;
      }
      r := cipher.open(nonce, sealed);
      if r.Some? {
        nonce := nonce + 1;
      }
    }

    /** A header of another size is refused without harm; a missing nonce ends the session. */
    method EncryptHeader(header: seq<byte>) returns (r: Option<seq<byte>>)
      requires nonce <= NONCE_LIMIT
      modifies this
      ensures |header| != HEADER_SIZE ==> r.None? && terminal == old(terminal)
      ensures |header| == HEADER_SIZE ==>
                terminal == r.None? && (r.Some? <==> !old(terminal) && old(nonce) < NONCE_LIMIT)
      ensures nonce == if r.Some? then old(nonce) + 1 else old(nonce)
      ensures r.Some? ==> r.value == SealAll(cipher, old(nonce), [header])
    {
      if |header| != HEADER_SIZE {
        return None;
      }
      var ok := CheckCapacity(1);
      if !ok {
        return None;
      }
      r := Seal(header);
      assert SealAll(cipher, old(nonce), [header]) == cipher.seal(old(nonce), header) + [];
    }

    /** After the capacity check no chunk can find the nonces exhausted: the whole payload is sealed or nothing is. */
    method EncryptPayload(payload: seq<byte>) returns (r: Option<seq<byte>>)
      requires nonce <= NONCE_LIMIT
      modifies this
      ensures |payload| > MAXIMUM_PAYLOAD ==> r.None? && terminal == old(terminal)
      ensures |payload| <= MAXIMUM_PAYLOAD ==>
                && terminal == r.None?
                && (r.Some? <==> !old(terminal) && old(nonce) + ChunkCount(|payload|) <= NONCE_LIMIT)
      ensures nonce == if r.Some? then old(nonce) + ChunkCount(|payload|) else old(nonce)
      ensures r.Some? ==> r.value == SealAll(cipher, old(nonce), PayloadChunks(payload))
    {
      if |payload| > MAXIMUM_PAYLOAD {
        return None;
      }
      var ok := CheckCapacity(ChunkCount(|payload|));
      if !ok {
        return None;
      }
      var out := SealEveryChunk(payload);
      r := Some(out);
    }

    method SealEveryChunk(payload: seq<byte>) returns (out: seq<byte>)
      requires nonce + ChunkCount(|payload|) <= NONCE_LIMIT
      modifies this`nonce
      ensures out == SealAll(cipher, old(nonce), PayloadChunks(payload)) && nonce == old(nonce) + ChunkCount(|payload|)
    {
      var offset := 0;
      out := [];
      assert payload[0..] == payload;
      while offset < |payload|
        invariant 0 <= offset <= |payload|
        invariant nonce + ChunkCount(|payload| - offset) == old(nonce) + ChunkCount(|payload|)
        invariant out + SealAll(cipher, nonce, PayloadChunks(payload[offset..]))
               == SealAll(cipher, old(nonce), PayloadChunks(payload))
      {
        var length := |payload| - offset;
        ChunkCountStep(length);
        if length > CHUNK {
          length := CHUNK;
        }
        ghost var tail := payload[offset..];
        assert length == FirstChunk(|tail|);
        SliceOfTail(payload, offset, length);
        SealFirst(cipher, nonce, tail);
        var sealed := Seal(payload[offset..offset + length]);
        if sealed.None? {
          assert false; // the capacity check left a nonce for every chunk
        }
        Associates(out, sealed.value, SealAll(cipher, nonce, PayloadChunks(payload[offset + length..])));
        out := out + sealed.value;
        offset := offset + length;
      }
    }

    method DecryptHeader(sealed: seq<byte>) returns (r: Option<seq<byte>>)
      requires nonce <= NONCE_LIMIT
      modifies this
      ensures |sealed| != SEALED_HEADER ==> r.None? && terminal == old(terminal)
      ensures |sealed| == SEALED_HEADER ==>
                && terminal == r.None?
                && r == if old(terminal) || old(nonce) == NONCE_LIMIT then None else cipher.open(old(nonce), sealed)
      ensures nonce == if r.Some? then old(nonce) + 1 else old(nonce)
    {
      if |sealed| != SEALED_HEADER {
        return None;
      }
      var ok := CheckCapacity(1);
      if !ok {
        return None;
      }
      r := Open(sealed);
      terminal := r.None?;
    }

    /** All chunks open, or the session is over. */
    method DecryptPayload(sealed: seq<byte>, size: nat) returns (r: Option<seq<byte>>)
      requires nonce <= NONCE_LIMIT
      modifies this
      ensures nonce <= NONCE_LIMIT
      ensures size > MAXIMUM_PAYLOAD || |sealed| != LibraryCipherSize(size) ==>
                r.None? && terminal == old(terminal) && nonce == old(nonce)
      ensures size <= MAXIMUM_PAYLOAD && |sealed| == LibraryCipherSize(size) ==>
                && terminal == r.None?
                && r == if old(terminal) || old(nonce) + ChunkCount(size) > NONCE_LIMIT then None
                        else OpenChunks(cipher, old(nonce), sealed, size)
      ensures r.Some? ==> nonce == old(nonce) + ChunkCount(size)
    {
      if size > MAXIMUM_PAYLOAD || |sealed| != LibraryCipherSize(size) {
        return None;
      }
      var ok := CheckCapacity(ChunkCount(size));
      if !ok {
        return None;
      }
      r := OpenEveryChunk(sealed, size);
      terminal := r.None?;
    }

    method OpenNextChunk(ghost first: nat, sealed: seq<byte>, size: nat, position: nat, offset: nat,
                         ghost out: seq<byte>)
      returns (plain: Option<seq<byte>>)
      requires |sealed| == LibraryCipherSize(size) && offset < size && nonce < NONCE_LIMIT
      requires OpenedSoFar(cipher, first, sealed, size, nonce, position, offset, out)
      modifies this`nonce
      ensures plain.None? ==> OpenChunks(cipher, first, sealed, size) == None && nonce == old(nonce)
      ensures plain.Some? ==>
                && nonce == old(nonce) + 1
                && OpenedSoFar(cipher, first, sealed, size, nonce, position + FirstChunk(size - offset) + TAG,
                               offset + FirstChunk(size - offset), out + plain.value)
    {
      OpenedMore(cipher, first, sealed, size, nonce, position, offset, out);
      plain := Open(sealed[position..position + FirstChunk(size - offset) + TAG]);
    }

    method OpenEveryChunk(sealed: seq<byte>, size: nat) returns (r: Option<seq<byte>>)
      requires nonce + ChunkCount(size) <= NONCE_LIMIT && |sealed| == LibraryCipherSize(size)
      modifies this`nonce
      ensures nonce <= NONCE_LIMIT && r == OpenChunks(cipher, old(nonce), sealed, size)
      ensures r.Some? ==> nonce == old(nonce) + ChunkCount(size)
    {
      var offset: nat, position: nat, out: seq<byte> := 0, 0, [];
      OpenedNothing(cipher, nonce, sealed, size);
      while offset < size
        invariant offset <= size && nonce <= NONCE_LIMIT
        invariant OpenedSoFar(cipher, old(nonce), sealed, size, nonce, position, offset, out)
        decreases size - offset
      {
        var plain := OpenNextChunk(old(nonce), sealed, size, position, offset, out);
        if plain.None? {
          return None;
        }
        out := out + plain.value;
        position := position + FirstChunk(size - offset) + TAG;
        offset := offset + FirstChunk(size - offset);
      }
      OpenedAll(cipher, old(nonce), sealed, size, nonce, position, offset, out);
      r := Some(out);
    }
  }

  lemma OpenedAll(a: Aead, first: nat, sealed: seq<byte>, size: nat, n: nat, position: nat, offset: nat, out: seq<byte>)
    requires |sealed| == LibraryCipherSize(size)
    requires offset >= size && OpenedSoFar(a, first, sealed, size, n, position, offset, out)
    ensures Some(out) == OpenChunks(a, first, sealed, size) && n == first + ChunkCount(size)
  {
    FollowingNothing(Some(out));
  }

  /** What the loop has opened, followed by what is left to open, is what the whole payload opens to. */
  ghost predicate OpenedSoFar(a: Aead, first: nat, sealed: seq<byte>, size: nat,
                              n: nat, position: nat, offset: nat, out: seq<byte>)
    requires |sealed| == LibraryCipherSize(size)
  {
    && offset <= size && position <= |sealed|
    && |sealed| - position == LibraryCipherSize(size - offset)
    && n + ChunkCount(size - offset) == first + ChunkCount(size)
    && Following(out, OpenChunks(a, n, sealed[position..], size - offset)) == OpenChunks(a, first, sealed, size)
  }

  lemma OpenedNothing(a: Aead, first: nat, sealed: seq<byte>, size: nat)
    requires |sealed| == LibraryCipherSize(size)
    ensures OpenedSoFar(a, first, sealed, size, first, 0, 0, [])
  {
    assert sealed[0..] == sealed;
    FollowingNothing(OpenChunks(a, first, sealed, size));
  }

  lemma OpenedMore(a: Aead, first: nat, sealed: seq<byte>, size: nat, n: nat, position: nat, offset: nat,
                   out: seq<byte>)
    requires |sealed| == LibraryCipherSize(size)
    requires offset < size && OpenedSoFar(a, first, sealed, size, n, position, offset, out)
    ensures ChunkCount(size - offset) > 0
    ensures var end := position + FirstChunk(size - offset) + TAG;
            && end <= |sealed|
            && (var plain := a.open(n, sealed[position..end]);
                if plain.None? then OpenChunks(a, first, sealed, size) == None
                else OpenedSoFar(a, first, sealed, size, n + 1, end, offset + FirstChunk(size - offset),
                                 out + plain.value))
  {
    var length, tail := FirstChunk(size - offset), sealed[position..];
    ChunkCountStep(size - offset);
    OpenFirst(a, n, tail, size - offset, out);
    SliceOfTail(sealed, position, length + TAG);
  }

  lemma SliceOfTail(s: seq<byte>, position: nat, length: nat)
    requires position + length <= |s|
    ensures s[position..position + length] == s[position..][..length]
    ensures s[position + length..] == s[position..][length..]
  {
  }

  function Following(out: seq<byte>, r: Option<seq<byte>>): Option<seq<byte>>
  {
    if r.None? then None else Some(out + r.value)
  }

  lemma FollowingNothing(r: Option<seq<byte>>)
    ensures Following([], r) == r && (r.Some? ==> Following(r.value, Some([])) == r)
  {
    if r.Some? {
      assert [] + r.value == r.value == r.value + [];
    }
  }

  lemma OpenFirst(a: Aead, n: nat, c: seq<byte>, size: nat, out: seq<byte>)
    requires size > 0 && |c| == LibraryCipherSize(size)
    ensures |c| >= FirstChunk(size) + TAG && |c[FirstChunk(size) + TAG..]| == LibraryCipherSize(size - FirstChunk(size))
    ensures var k := FirstChunk(size);
            Following(out, OpenChunks(a, n, c, size)) ==
            if a.open(n, c[..k + TAG]).None? then None
            else Following(out + a.open(n, c[..k + TAG]).value, OpenChunks(a, n + 1, c[k + TAG..], size - k))
  {
    ChunkCountStep(size);
    var k := FirstChunk(size);
    var first, later := a.open(n, c[..k + TAG]), OpenChunks(a, n + 1, c[k + TAG..], size - k);
    if first.Some? && later.Some? {
      assert out + (first.value + later.value) == (out + first.value) + later.value;
    }
  }

  lemma SealFirst(a: Aead, n: nat, p: seq<byte>)
    requires p != []
    ensures SealAll(a, n, PayloadChunks(p))
         == a.seal(n, p[..FirstChunk(|p|)]) + SealAll(a, n + 1, PayloadChunks(p[FirstChunk(|p|)..]))
  {
    assert PayloadChunks(p)[1..] == PayloadChunks(p[FirstChunk(|p|)..]);
  }
}
