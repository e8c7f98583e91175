/** The cursor that skips over a block's coinbase without building anything. */
module BlockReader {
  import opened Numbers
  import opened Options
  import opened Codecs
  import opened Transactions
  import CompactSizes

  /** What is left after a parse, if it succeeds. */
  function RestOf<T>(p: Parse<T>): Option<seq<byte>>
  {
    if p.Fail? then None else Some(p.rest)
  }

  lemma ManyStep<T>(p: Parser<T>, n: nat, s: seq<byte>)
    requires n > 0
    ensures RestOf(TakeMany(p, n, s)) == if p(s).Fail? then None else RestOf(TakeMany(p, n - 1, p(s).rest))
  {
  }

  /** Taking what is left from here leaves what taking everything from the start does. */
  ghost predicate OnTrack<T(!new)>(p: Parser<T>, n: nat, start: seq<byte>, left: nat, here: seq<byte>)
  {
    RestOf(TakeMany(p, left, here)) == RestOf(TakeMany(p, n, start))
  }

  lemma OnTrackStep<T(!new)>(p: Parser<T>, n: nat, start: seq<byte>, left: nat, here: seq<byte>)
    requires left > 0 && OnTrack(p, n, start, left, here)
    ensures p(here).Fail? ==> RestOf(TakeMany(p, n, start)) == None
    ensures p(here).Done? ==> OnTrack(p, n, start, left - 1, p(here).rest)
  {
    ManyStep(p, left, here);
  }

  ghost predicate SameHere<T>(p: Parser<T>, q: Parser<T>, s: seq<byte>)
  {
    RestOf(p(s)) == RestOf(q(s))
  }

  /** Two parsers that always leave the same; loops reason about one and steps about the other. */
  ghost predicate Same<T>(p: Parser<T>, q: Parser<T>)
  {
    forall s: seq<byte> :: SameHere(p, q, s)
  }

  class Cursor {
    const bytes: seq<byte>
    var offset: nat

    ghost predicate Valid()
      reads this
    {
      offset <= |bytes|
    }

    ghost function Remaining(): seq<byte>
      requires Valid()
      reads this
    {
      bytes[offset..]
    }

    constructor (bytes: seq<byte>)
      ensures Valid() && Remaining() == bytes && this.bytes == bytes
    {
      this.bytes, offset := bytes, 0;
    }

    method Skip(n: nat) returns (ok: bool)
      requires Valid()
      modifies this
      ensures Valid() && offset == old(offset) + if ok then n else 0
      ensures (if ok then Some(Remaining()) else None) == RestOf(TakeBytes(n)(old(Remaining())))
    {
      if n > |bytes| - offset {
        return false;
      }
      assert bytes[offset..][n..] == bytes[offset + n..];
      offset := offset + n;
      ok := true;
    }

    method CompactSize() returns (r: Option<nat>)
      requires Valid()
      modifies this
      ensures Valid() && offset >= old(offset) && (r.Some? ==> offset > old(offset))
      ensures CompactSizes.Take(old(Remaining())) == if r.None? then Fail else Done(r.value, Remaining())
    {
      var n := CompactSizes.Take(bytes[offset..]);
      if n.Fail? {
        return None;
      }
      CompactSizes.TakeAccepts(bytes[offset..]);
      r := Some(n.value);
      var consumed := |bytes| - offset - |n.rest|;
      assert bytes[offset..][consumed..] == n.rest;
      assert bytes[offset..][consumed..] == bytes[offset + consumed..];
      offset := offset + consumed;
    }

    method SkipCompactBytes() returns (ok: bool)
      requires Valid()
      modifies this
      ensures Valid() && offset >= old(offset) && (ok ==> offset > old(offset))
      ensures (if ok then Some(Remaining()) else None) == RestOf(TakeBlob(old(Remaining())))
    {
      var size := CompactSize();
      if size.None? || size.value > |bytes| - offset {
        return false;
      }
      ok := Skip(size.value);
    }

    /** What is left, or nothing after a failure. */
    ghost function Left(ok: bool): Option<seq<byte>>
      requires Valid()
      reads this
    {
      if ok then Some(Remaining()) else None
    }

    method SkipInput(ghost p: Parser<Input>) returns (ok: bool)
      requires Valid() && Same(p, TakeInput())
      modifies this
      ensures Valid() && Left(ok) == RestOf(p(old(Remaining())))
      ensures offset >= old(offset) && (ok ==> offset > old(offset) + 40)
    {
      assert SameHere(p, TakeInput(), Remaining());
      ok := Skip(36);
      if ok {
        ok := SkipCompactBytes();
      }
      if ok {
        ok := Skip(4);
      }
    }

    method SkipOutput(ghost p: Parser<Output>) returns (ok: bool)
      requires Valid() && Same(p, TakeOutput())
      modifies this
      ensures Valid() && Left(ok) == RestOf(p(old(Remaining())))
      ensures offset >= old(offset) && (ok ==> offset > old(offset) + 8)
    {
      assert SameHere(p, TakeOutput(), Remaining());
      ok := Skip(8);
      if ok {
        ok := SkipCompactBytes();
      }
    }

    method SkipInputs(n: nat, ghost p: Parser<Input>) returns (ok: bool)
      requires Valid() && Same(p, TakeInput())
      modifies this
      ensures Valid() && Left(ok) == RestOf(TakeMany(p, n, old(Remaining())))
      ensures offset >= old(offset) && (ok ==> offset >= old(offset) + 41 * n)
    {
      ok := true;
      var i := 0;
      while i < n
        invariant 0 <= i <= n && Valid() && ok && OnTrack(p, n, old(Remaining()), n - i, Remaining())
        invariant 41 * i <= offset - old(offset)
        decreases |bytes| - offset
      {
        OnTrackStep(p, n, old(Remaining()), n - i, Remaining());
        ok := SkipInput(p);
        i := i + 1;
        if !ok {
          return;
        }
      }
    }

    method SkipOutputs(n: nat, ghost p: Parser<Output>) returns (ok: bool)
      requires Valid() && Same(p, TakeOutput())
      modifies this
      ensures Valid() && Left(ok) == RestOf(TakeMany(p, n, old(Remaining())))
      ensures offset >= old(offset) && (ok ==> offset >= old(offset) + 9 * n)
    {
      ok := true;
      var i := 0;
      while i < n
        invariant 0 <= i <= n && Valid() && ok && OnTrack(p, n, old(Remaining()), n - i, Remaining())
        invariant 9 * i <= offset - old(offset)
        decreases |bytes| - offset
      {
        OnTrackStep(p, n, old(Remaining()), n - i, Remaining());
        ok := SkipOutput(p);
        i := i + 1;
        if !ok {
          return;
        }
      }
    }

    method SkipItem(ghost p: Parser<seq<byte>>) returns (ok: bool)
      requires Valid() && Same(p, TakeBlob)
      modifies this
      ensures Valid() && Left(ok) == RestOf(p(old(Remaining())))
      ensures offset >= old(offset) && (ok ==> offset > old(offset))
    {
      assert SameHere(p, TakeBlob, Remaining());
      ok := SkipCompactBytes();
    }

    method SkipItems(n: nat, ghost p: Parser<seq<byte>>) returns (ok: bool)
      requires Valid() && Same(p, TakeBlob)
      modifies this
      ensures Valid() && Left(ok) == RestOf(TakeMany(p, n, old(Remaining())))
      ensures offset >= old(offset) && (ok ==> offset >= old(offset) + n)
    {
      ok := true;
      var i := 0;
      while i < n
        invariant 0 <= i <= n && Valid() && ok && OnTrack(p, n, old(Remaining()), n - i, Remaining())
        invariant i <= offset - old(offset)
        decreases |bytes| - offset
      {
        OnTrackStep(p, n, old(Remaining()), n - i, Remaining());
        ok := SkipItem(p);
        i := i + 1;
        if !ok {
          return;
        }
      }
    }

    method SkipStack(ghost p: Parser<Stack>) returns (ok: bool)
      requires Valid() && Same(p, TakeStack())
      modifies this
      ensures Valid() && Left(ok) == RestOf(p(old(Remaining())))
      ensures offset >= old(offset) && (ok ==> offset > old(offset))
    {
      assert SameHere(p, TakeStack(), Remaining());
      var count := CompactSize();
      if count.None? {
        return false;
      }
      ok := SkipItems(count.value, TakeBlob);
    }

    method SkipStacks(n: nat, ghost p: Parser<Stack>) returns (ok: bool)
      requires Valid() && Same(p, TakeStack())
      modifies this
      ensures Valid() && Left(ok) == RestOf(TakeMany(p, n, old(Remaining())))
      ensures offset >= old(offset) && (ok ==> offset >= old(offset) + n)
    {
      ok := true;
      var i := 0;
      ghost var start := Remaining();
      while i < n
        invariant 0 <= i <= n && Valid() && ok && OnTrack(p, n, start, n - i, Remaining())
        invariant i <= offset - old(offset)
        decreases |bytes| - offset
      {
        OnTrackStep(p, n, start, n - i, Remaining());
        ok := SkipStack(p);
        i := i + 1;
        if !ok {
          return;
        }
      }
    }

    /** The two-byte marker of a witness transaction, if it is there. */
    method SkipMarker() returns (ok: bool, flagged: bool)
      requires Valid()
      modifies this
      ensures offset >= old(offset)
      ensures Valid() && TakeMarker(old(Remaining())) == if ok then Done(flagged, Remaining()) else Fail
    {
      flagged := false;
      if offset >= |bytes| {
        return false, false;
      }
      if bytes[offset] == 0 {
        if offset + 1 >= |bytes| {
          return false, false;
        }
        if bytes[offset + 1] != 0 {
          if bytes[offset + 1] != 1 {
            return false, false;
          }
          assert bytes[offset..][2..] == bytes[offset + 2..];
          offset := offset + 2;
          flagged := true;
        }
      }
      ok := true;
    }

    /** Inputs and outputs; the number of inputs is kept for the witness. */
    method SkipBody() returns (inputs: Option<nat>)
      requires Valid()
      modifies this
      ensures Valid() && offset >= old(offset)
      ensures inputs.Some? ==> inputs.value > 0 && offset >= old(offset) + 2 + 41 * inputs.value
      ensures var b := TakeBody()(old(Remaining()));
              if b.Fail? || |b.value.0| == 0 then inputs.None?
              else inputs == Some(|b.value.0|) && Remaining() == b.rest
    {
      var count := CompactSize();
      if count.None? || count.value == 0 {
        return None;
      }
      CountKept(TakeInput(), count.value, Remaining());
      var ok := SkipInputs(count.value, TakeInput());
      if !ok {
        return None;
      }
      var outputs := CompactSize();
      if outputs.None? {
        return None;
      }
      ok := SkipOutputs(outputs.value, TakeOutput());
      inputs := if ok then count else None;
    }
  }

  lemma {:induction false} CountKept<T>(p: Parser<T>, n: nat, s: seq<byte>)
    ensures TakeMany(p, n, s).Done? ==> |TakeMany(p, n, s).value| == n
    decreases n
  {
    if n > 0 && p(s).Done? {
      CountKept(p, n - 1, p(s).rest);
    }
  }

  /**
   Exactly the transactions are skipped, each one whole; anything else is refused. Every turn of a loop uses up input,
   so whatever counts are announced, what remains bounds the work.
   */
  method SkipTransaction(cursor: Cursor) returns (ok: bool)
    requires cursor.Valid()
    modifies cursor
    ensures cursor.Valid() && cursor.Left(ok) == RestOf(TakeTx(old(cursor.Remaining())))
    ensures cursor.offset >= old(cursor.offset) && (ok ==> cursor.offset >= old(cursor.offset) + 51)
  {
    ok := cursor.Skip(4);
    if !ok {
      return;
    }
    var flagged;
    ok, flagged := cursor.SkipMarker();
    if !ok {
      return;
    }
    var inputs := cursor.SkipBody();
    if inputs.None? {
      return false;
    }
    if flagged {
      ok := cursor.SkipStacks(inputs.value, TakeStack());
      if !ok {
        return;
      }
    }
    ok := cursor.Skip(4);
  }
}
