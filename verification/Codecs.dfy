/** Parsers that take a value off the head of a byte string, and serializers they undo. */
module Codecs {
  import opened Numbers

  datatype Parse<+T> = Fail | Done(value: T, rest: seq<byte>)

  type Parser<T> = seq<byte> -> Parse<T>
  type Writer<!T> = T -> seq<byte>

  /** The value comes back, and what followed it is left. */
  ghost predicate Reads<T>(p: Parser<T>, w: Writer<T>, x: T, rest: seq<byte>)
  {
    p(w(x) + rest) == Done(x, rest)
  }

  /** Whatever is accepted is the serialization of an allowed value. */
  ghost predicate Accepts<T>(p: Parser<T>, w: Writer<T>, ok: T -> bool, s: seq<byte>)
  {
    p(s).Done? ==> ok(p(s).value) && s == w(p(s).value) + p(s).rest
  }

  /** Exactly the serializations of allowed values are accepted. */
  ghost predicate Exact<T(!new)>(p: Parser<T>, w: Writer<T>, ok: T -> bool)
  {
    && (forall x: T, rest: seq<byte> :: ok(x) ==> Reads(p, w, x, rest))
    && (forall s: seq<byte> :: Accepts(p, w, ok, s))
  }

  // ---------- fixed fields ----------

  function TakeBytes(n: nat): Parser<seq<byte>>
  {
    (s: seq<byte>) => if n > |s| then Fail else Done(s[..n], s[n..])
  }

  function Raw(x: seq<byte>): seq<byte>
  {
    x
  }

  function SizedOk(n: nat): seq<byte> -> bool
  {
    (x: seq<byte>) => |x| == n
  }

  lemma SizedExact(n: nat)
    ensures Exact(TakeBytes(n), Raw, SizedOk(n))
  {
    forall x: seq<byte>, rest: seq<byte> | SizedOk(n)(x)
      ensures Reads(TakeBytes(n), Raw, x, rest)
    {
      assert (x + rest)[..n] == x && (x + rest)[n..] == rest;
    }
    forall s: seq<byte>
      ensures Accepts(TakeBytes(n), Raw, SizedOk(n), s)
    {
      if n <= |s| {
        assert s == s[..n] + s[n..];
      }
    }
  }

  // ---------- a counted series ----------

  function TakeMany<T>(p: Parser<T>, n: nat, s: seq<byte>): Parse<seq<T>>
    decreases n
  {
    if n == 0 then Done([], s)
    else
      var first := p(s);
      if first.Fail? then Fail
      else
        var rest := TakeMany(p, n - 1, first.rest);
        if rest.Fail? then Fail else Done([first.value] + rest.value, rest.rest)
  }

  function WriteMany<T>(w: Writer<T>, xs: seq<T>): seq<byte>
  {
    if xs == [] then [] else w(xs[0]) + WriteMany(w, xs[1..])
  }

  predicate AllOk<T>(ok: T -> bool, xs: seq<T>)
  {
    forall i :: 0 <= i < |xs| ==> ok(xs[i])
  }

  lemma {:induction false} ManyReads<T(!new)>(p: Parser<T>, w: Writer<T>, ok: T -> bool, xs: seq<T>, rest: seq<byte>)
    requires Exact(p, w, ok) && AllOk(ok, xs)
    ensures TakeMany(p, |xs|, WriteMany(w, xs) + rest) == Done(xs, rest)
    decreases |xs|
  {
    if xs == [] {
      assert [] + rest == rest;
    } else {
      var tail := WriteMany(w, xs[1..]) + rest;
      assert WriteMany(w, xs) + rest == w(xs[0]) + tail;
      assert Reads(p, w, xs[0], tail);
      ManyReads(p, w, ok, xs[1..], rest);
      assert [xs[0]] + xs[1..] == xs;
    }
  }

  lemma {:induction false} ManyAccepts<T(!new)>(p: Parser<T>, w: Writer<T>, ok: T -> bool, n: nat, s: seq<byte>)
    requires Exact(p, w, ok) && TakeMany(p, n, s).Done?
    ensures var r := TakeMany(p, n, s); |r.value| == n && AllOk(ok, r.value) && s == WriteMany(w, r.value) + r.rest
    decreases n
  {
    if n == 0 {
      assert [] + s == s;
    } else {
      assert Accepts(p, w, ok, s);
      ManyAccepts(p, w, ok, n - 1, p(s).rest);
      var r, later := TakeMany(p, n, s), TakeMany(p, n - 1, p(s).rest);
      assert r.value[1..] == later.value;
    }
  }

  // ---------- sums of fields ----------

  /** One field after another. */
  function TakeBoth<A, B>(p: Parser<A>, q: Parser<B>): Parser<(A, B)>
  {
    (s: seq<byte>) =>
      var a := p(s);
      if a.Fail? then Fail
      else
        var b := q(a.rest);
        if b.Fail? then Fail else Done((a.value, b.value), b.rest)
  }

  function WriteBoth<A, B>(w: Writer<A>, v: Writer<B>): Writer<(A, B)>
  {
    (x: (A, B)) => w(x.0) + v(x.1)
  }

  function BothOk<A, B>(ok: A -> bool, fine: B -> bool): ((A, B)) -> bool
  {
    (x: (A, B)) => ok(x.0) && fine(x.1)
  }

  lemma BothExact<A(!new), B(!new)>(p: Parser<A>, w: Writer<A>, ok: A -> bool, q: Parser<B>, v: Writer<B>,
                                    fine: B -> bool)
    requires Exact(p, w, ok) && Exact(q, v, fine)
    ensures Exact(TakeBoth(p, q), WriteBoth(w, v), BothOk(ok, fine))
  {
    forall x: (A, B), rest: seq<byte> | BothOk(ok, fine)(x)
      ensures Reads(TakeBoth(p, q), WriteBoth(w, v), x, rest)
    {
      assert Reads(p, w, x.0, v(x.1) + rest);
      assert Reads(q, v, x.1, rest);
      assert (w(x.0) + v(x.1)) + rest == w(x.0) + (v(x.1) + rest);
    }
    forall s: seq<byte>
      ensures Accepts(TakeBoth(p, q), WriteBoth(w, v), BothOk(ok, fine), s)
    {
      var r := TakeBoth(p, q)(s);
      if r.Done? {
        assert Accepts(p, w, ok, s);
        assert Accepts(q, v, fine, p(s).rest);
        assert s == (w(r.value.0) + v(r.value.1)) + r.rest;
      }
    }
  }
}
