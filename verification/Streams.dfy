/** Streams read one frame at a time by a rule that looks at the head of what has arrived. */
module Streams {
  import opened Numbers
  import opened Sequences

  /** Too little has arrived; the stream is broken; or a frame, the bytes and the nonces it used up. */
  datatype Taken = Short | Failed | Took(bytes: seq<byte>, used: nat, nonces: nat)

  type Taker = (nat, seq<byte>) -> Taken

  /** Plain frames, the bytes of an unfinished one, the nonce it starts at, and whether the stream failed. */
  datatype Opened = Opened(plain: seq<byte>, rest: seq<byte>, nonce: nat, failed: bool)

  function Shift(bytes: seq<byte>, o: Opened): Opened
  {
    o.(plain := bytes + o.plain)
  }

  function OpenStream(take: Taker, n: nat, s: seq<byte>): Opened
    decreases |s|
  {
    var t := take(n, s);
    if t.Short? then Opened([], s, n, false)
    else if t.Failed? || !(0 < t.used <= |s|) then Opened([], [], n, true)
    else Shift(t.bytes, OpenStream(take, n + t.nonces, s[t.used..]))
  }

  predicate StableAt(take: Taker, n: nat, s: seq<byte>, more: seq<byte>)
  {
    !take(n, s).Short? ==> take(n, s + more) == take(n, s) && (take(n, s).Took? ==> 0 < take(n, s).used <= |s|)
  }

  /** What is decided about the head of a stream stays so when more arrives. */
  ghost predicate Stable(take: Taker)
  {
    forall n: nat, s: seq<byte>, more: seq<byte> :: StableAt(take, n, s, more)
  }

  function Resume(take: Taker, o: Opened, more: seq<byte>): Opened
  {
    if o.failed then o else Shift(o.plain, OpenStream(take, o.nonce, o.rest + more))
  }

  lemma ShiftTwice(p: seq<byte>, q: seq<byte>, o: Opened)
    ensures Shift(p, Shift(q, o)) == Shift(p + q, o) && Shift([], o) == o
  {
    assert p + (q + o.plain) == (p + q) + o.plain;
    assert [] + o.plain == o.plain;
  }

  /** Opening a stream in two parts is opening it whole. */
  lemma {:induction false} OpenResumes(take: Taker, n: nat, s: seq<byte>, more: seq<byte>)
    requires Stable(take)
    ensures OpenStream(take, n, s + more) == Resume(take, OpenStream(take, n, s), more)
    decreases |s|
  {
    var t := take(n, s);
    assert StableAt(take, n, s, more);
    if t.Took? {
      var o := OpenStream(take, n + t.nonces, s[t.used..]);
      assert (s + more)[t.used..] == s[t.used..] + more;
      OpenResumes(take, n + t.nonces, s[t.used..], more);
      ShiftTwice(t.bytes, o.plain, OpenStream(take, o.nonce, o.rest + more));
    } else if t.Short? {
      ShiftTwice([], [], OpenStream(take, n, s + more));
    }
  }

  // ---------- a stream made of pieces ----------

  /** What a frame is, how it stands on the stream, the nonces it uses, and whether the reader lets it through. */
  datatype Piece = Piece(plain: seq<byte>, sealed: seq<byte>, nonces: nat, allowed: bool)

  function Plain(pieces: seq<Piece>): seq<byte>
  {
    if pieces == [] then [] else pieces[0].plain + Plain(pieces[1..])
  }

  function Sealed(pieces: seq<Piece>): seq<byte>
  {
    if pieces == [] then [] else pieces[0].sealed + Sealed(pieces[1..])
  }

  function Nonces(pieces: seq<Piece>): nat
  {
    if pieces == [] then 0 else pieces[0].nonces + Nonces(pieces[1..])
  }

  predicate TakesPiece(take: Taker, n: nat, p: Piece, s: seq<byte>)
  {
    var t := take(n, s);
    && (t.Took? <==> p.allowed && p.sealed <= s)
    && (t.Took? ==> t == Took(p.plain, |p.sealed|, p.nonces))
  }

  /** A rule that takes exactly these pieces in turn, and nothing past them. */
  ghost predicate Reads(take: Taker, n: nat, pieces: seq<Piece>)
    decreases |pieces|
  {
    if pieces == [] then forall s: seq<byte> :: !take(n, s).Took?
    else
      && pieces[0].sealed != []
      && (forall s: seq<byte> :: TakesPiece(take, n, pieces[0], s))
      && Reads(take, n + pieces[0].nonces, pieces[1..])
  }

  /** Whatever arrives, what comes out is whole leading pieces, and those are what was consumed. */
  lemma {:induction false} ReadsPrefix(take: Taker, n: nat, pieces: seq<Piece>, s: seq<byte>) returns (k: nat)
    requires Reads(take, n, pieces)
    ensures k <= |pieces|
    ensures var o := OpenStream(take, n, s);
            && o.plain == Plain(pieces[..k]) && o.nonce == n + Nonces(pieces[..k])
            && (!o.failed ==> s == Sealed(pieces[..k]) + o.rest)
    decreases |pieces|
  {
    k := 0;
    var t := take(n, s);
    if pieces != [] {
      assert TakesPiece(take, n, pieces[0], s);
      if t.Took? {
        var tail := s[t.used..];
        assert s == pieces[0].sealed + tail;
        var later := ReadsPrefix(take, n + t.nonces, pieces[1..], tail);
        k := later + 1;
        FirstAndLater(pieces, later);
        var rest := OpenStream(take, n + t.nonces, tail).rest;
        if !OpenStream(take, n, s).failed {
          Associates(pieces[0].sealed, Sealed(pieces[1..][..later]), rest);
        }
      }
    }
  }

  lemma FirstAndLater(pieces: seq<Piece>, k: nat)
    requires k < |pieces|
    ensures Plain(pieces[..k + 1]) == pieces[0].plain + Plain(pieces[1..][..k])
    ensures Sealed(pieces[..k + 1]) == pieces[0].sealed + Sealed(pieces[1..][..k])
    ensures Nonces(pieces[..k + 1]) == pieces[0].nonces + Nonces(pieces[1..][..k])
  {
    assert pieces[..k + 1][1..] == pieces[1..][..k];
  }

  /** Pieces that arrive unaltered and are all let through all come out. */
  lemma {:induction false} ReadsWhole(take: Taker, n: nat, pieces: seq<Piece>)
    requires Reads(take, n, pieces) && forall p :: p in pieces ==> p.allowed
    requires take(n + Nonces(pieces), []).Short?
    ensures OpenStream(take, n, Sealed(pieces)) == Opened(Plain(pieces), [], n + Nonces(pieces), false)
    decreases |pieces|
  {
    if pieces != [] {
      assert TakesPiece(take, n, pieces[0], Sealed(pieces));
      assert Sealed(pieces)[|pieces[0].sealed|..] == Sealed(pieces[1..]);
      ReadsWhole(take, n + pieces[0].nonces, pieces[1..]);
    }
  }
}
