/** Serialized transactions as the block reader sees them, legacy and witness form. */
module Transactions {
  import opened Numbers
  import opened Options
  import opened Codecs
  import CompactSizes

  /** A byte array behind its length. */
  function TakeBlob(s: seq<byte>): Parse<seq<byte>>
  {
    var n := CompactSizes.Take(s);
    if n.Fail? || n.value > |n.rest| then Fail else Done(n.rest[..n.value], n.rest[n.value..])
  }

  function WriteBlob(x: seq<byte>): seq<byte>
  {
    CompactSizes.Write(|x|) + x
  }

  predicate BlobOk(x: seq<byte>)
  {
    CompactSizes.Fits(|x|)
  }

  lemma BlobExact()
    ensures Exact(TakeBlob, WriteBlob, BlobOk)
  {
    forall x: seq<byte>, rest: seq<byte> | BlobOk(x)
      ensures Reads(TakeBlob, WriteBlob, x, rest)
    {
      CompactSizes.TakeReads(|x|, x + rest);
      assert WriteBlob(x) + rest == CompactSizes.Write(|x|) + (x + rest);
      assert (x + rest)[..|x|] == x && (x + rest)[|x|..] == rest;
    }
    forall s: seq<byte>
      ensures Accepts(TakeBlob, WriteBlob, BlobOk, s)
    {
      if TakeBlob(s).Done? {
        CompactSizes.TakeAccepts(s);
        var n := CompactSizes.Take(s);
        assert n.rest == n.rest[..n.value] + n.rest[n.value..];
        assert s == CompactSizes.Write(n.value) + n.rest[..n.value] + n.rest[n.value..];
      }
    }
  }

  /** A series behind its count. */
  function TakeVector<T>(p: Parser<T>): Parser<seq<T>>
  {
    (s: seq<byte>) =>
      var n := CompactSizes.Take(s);
      if n.Fail? then Fail else TakeMany(p, n.value, n.rest)
  }

  function WriteVector<T>(w: Writer<T>): Writer<seq<T>>
  {
    (xs: seq<T>) => CompactSizes.Write(|xs|) + WriteMany(w, xs)
  }

  function VectorOk<T>(ok: T -> bool): seq<T> -> bool
  {
    (xs: seq<T>) => CompactSizes.Fits(|xs|) && AllOk(ok, xs)
  }

  lemma VectorExact<T(!new)>(p: Parser<T>, w: Writer<T>, ok: T -> bool)
    requires Exact(p, w, ok)
    ensures Exact(TakeVector(p), WriteVector(w), VectorOk(ok))
  {
    forall xs: seq<T>, rest: seq<byte> | VectorOk(ok)(xs)
      ensures Reads(TakeVector(p), WriteVector(w), xs, rest)
    {
      CompactSizes.TakeReads(|xs|, WriteMany(w, xs) + rest);
      assert WriteVector(w)(xs) + rest == CompactSizes.Write(|xs|) + (WriteMany(w, xs) + rest);
      ManyReads(p, w, ok, xs, rest);
    }
    forall s: seq<byte>
      ensures Accepts(TakeVector(p), WriteVector(w), VectorOk(ok), s)
    {
      var r := TakeVector(p)(s);
      if r.Done? {
        CompactSizes.TakeAccepts(s);
        var n := CompactSizes.Take(s);
        ManyAccepts(p, w, ok, n.value, n.rest);
        assert s == (CompactSizes.Write(n.value) + WriteMany(w, r.value)) + r.rest;
      }
    }
  }

  // ---------- transactions ----------

  /** Previous output, script, sequence. */
  type Input = (seq<byte>, (seq<byte>, seq<byte>))

  /** Amount, script. */
  type Output = (seq<byte>, seq<byte>)

  type Stack = seq<seq<byte>>

  function TakeInput(): Parser<Input> { TakeBoth(TakeBytes(36), TakeBoth(TakeBlob, TakeBytes(4))) }
  function WriteInput(): Writer<Input> { WriteBoth(Raw, WriteBoth(WriteBlob, Raw)) }
  function InputOk(): Input -> bool { BothOk(SizedOk(36), BothOk(BlobOk, SizedOk(4))) }

  function TakeOutput(): Parser<Output> { TakeBoth(TakeBytes(8), TakeBlob) }
  function WriteOutput(): Writer<Output> { WriteBoth(Raw, WriteBlob) }
  function OutputOk(): Output -> bool { BothOk(SizedOk(8), BlobOk) }

  function TakeStack(): Parser<Stack> { TakeVector(TakeBlob) }
  function WriteStack(): Writer<Stack> { WriteVector(WriteBlob) }
  function StackOk(): Stack -> bool { VectorOk(BlobOk) }

  function TakeBody(): Parser<(seq<Input>, seq<Output>)> { TakeBoth(TakeVector(TakeInput()), TakeVector(TakeOutput())) }
  function WriteBody(): Writer<(seq<Input>,
                                seq<Output>)> { WriteBoth(WriteVector(WriteInput()), WriteVector(WriteOutput())) }
  function BodyOk(): ((seq<Input>, seq<Output>)) -> bool { BothOk(VectorOk(InputOk()), VectorOk(OutputOk())) }

  lemma InputIs(x: Input)
    ensures WriteInput()(x) == x.0 + (WriteBlob(x.1.0) + x.1.1)
    ensures InputOk()(x) <==> |x.0| == 36 && BlobOk(x.1.0) && |x.1.1| == 4
  {
    assert WriteBoth(WriteBlob, Raw)(x.1) == WriteBlob(x.1.0) + Raw(x.1.1);
    assert WriteInput()(x) == Raw(x.0) + WriteBoth(WriteBlob, Raw)(x.1);
  }

  lemma OutputIs(x: Output)
    ensures WriteOutput()(x) == x.0 + WriteBlob(x.1)
    ensures OutputOk()(x) <==> |x.0| == 8 && BlobOk(x.1)
  {
    assert WriteOutput()(x) == Raw(x.0) + WriteBlob(x.1);
  }

  lemma BodyIs(inputs: seq<Input>, outputs: seq<Output>)
    ensures WriteBody()((inputs, outputs)) ==
            CompactSizes.Write(|inputs|) + WriteMany(WriteInput(), inputs)
            + (CompactSizes.Write(|outputs|) + WriteMany(WriteOutput(), outputs))
    ensures BodyOk()((inputs, outputs)) <==>
            && CompactSizes.Fits(|inputs|) && AllOk(InputOk(), inputs)
            && CompactSizes.Fits(|outputs|) && AllOk(OutputOk(), outputs)
  {
    var x := (inputs, outputs);
    assert WriteBody()(x) == WriteVector(WriteInput())(x.0) + WriteVector(WriteOutput())(x.1);
    assert BodyOk()(x) == (VectorOk(InputOk())(x.0) && VectorOk(OutputOk())(x.1));
  }

  lemma FieldsExact()
    ensures Exact(TakeInput(), WriteInput(), InputOk())
    ensures Exact(TakeOutput(), WriteOutput(), OutputOk())
  {
    SizedExact(4);
    SizedExact(8);
    SizedExact(36);
    BlobExact();
    BothExact(TakeBlob, WriteBlob, BlobOk, TakeBytes(4), Raw, SizedOk(4));
    BothExact(TakeBytes(36), Raw, SizedOk(36), TakeBoth(TakeBlob, TakeBytes(4)), WriteBoth(WriteBlob, Raw),
              BothOk(BlobOk, SizedOk(4)));
    BothExact(TakeBytes(8), Raw, SizedOk(8), TakeBlob, WriteBlob, BlobOk);
  }

  lemma BodyExact()
    ensures Exact(TakeBody(), WriteBody(), BodyOk())
    ensures Exact(TakeStack(), WriteStack(), StackOk())
  {
    FieldsExact();
    BlobExact();
    VectorExact(TakeInput(), WriteInput(), InputOk());
    VectorExact(TakeOutput(), WriteOutput(), OutputOk());
    VectorExact(TakeBlob, WriteBlob, BlobOk);
    BothExact(TakeVector(TakeInput()), WriteVector(WriteInput()), VectorOk(InputOk()),
              TakeVector(TakeOutput()), WriteVector(WriteOutput()), VectorOk(OutputOk()));
  }

  datatype Shape<I, O, K> = Tx(version: seq<byte>, inputs: seq<I>, outputs: seq<O>, stacks: Option<seq<K>>,
                               lockTime: seq<byte>)

  type Tx = Shape<Input, Output, Stack>

  /** How the middle of a transaction is read and written. */
  datatype Parts<!I(!new), !O(!new), !K(!new)> = Parts(
    takeBody: Parser<(seq<I>, seq<O>)>, writeBody: Writer<(seq<I>, seq<O>)>, bodyOk: ((seq<I>, seq<O>)) -> bool,
    takeStack: Parser<K>, writeStack: Writer<K>, stackOk: K -> bool)

  ghost predicate PartsExact<I(!new), O(!new), K(!new)>(m: Parts<I, O, K>)
  {
    && Exact(m.takeBody, m.writeBody, m.bodyOk) && Exact(m.takeStack, m.writeStack, m.stackOk)
    && (forall x: (seq<I>, seq<O>) :: m.bodyOk(x) && x.0 != [] ==> StartsNonzero(m.writeBody(x)))
  }

  predicate StartsNonzero(s: seq<byte>)
  {
    s != [] && s[0] != 0
  }

  /** Four-byte ends, at least one input, and if there are witnesses a stack for each. */
  predicate TxOk<I(!new), O(!new), K(!new)>(m: Parts<I, O, K>, tx: Shape<I, O, K>)
  {
    && |tx.version| == 4 && |tx.lockTime| == 4
    && |tx.inputs| > 0 && m.bodyOk((tx.inputs, tx.outputs))
    && (tx.stacks.Some? ==> |tx.stacks.value| == |tx.inputs| && AllOk(m.stackOk, tx.stacks.value))
  }

  function WriteShape<I(!new), O(!new), K(!new)>(m: Parts<I, O, K>, tx: Shape<I, O, K>): seq<byte>
  {
    var body := m.writeBody((tx.inputs, tx.outputs));
    if tx.stacks.None? then tx.version + body + tx.lockTime
    else tx.version + [0, 1] + body + WriteMany(m.writeStack, tx.stacks.value) + tx.lockTime
  }

  /** Whether a witness follows, and where the inputs begin; fails on other flags. */
  function TakeMarker(s: seq<byte>): Parse<bool>
  {
    if s == [] || s == [0] then Fail
    else if s[0] != 0 || s[1] == 0 then Done(false, s)
    else if s[1] != 1 then Fail
    else Done(true, s[2..])
  }

  function TakeStacks<K>(stack: Parser<K>, flagged: bool, n: nat, s: seq<byte>): Parse<Option<seq<K>>>
  {
    if !flagged then Done(None, s)
    else
      var r := TakeMany(stack, n, s);
      if r.Fail? then Fail else Done(Some(r.value), r.rest)
  }

  function TakeShape<I(!new), O(!new), K(!new)>(m: Parts<I, O, K>, s: seq<byte>): Parse<Shape<I, O, K>>
  {
    if |s| < 4 then Fail
    else
      var marker := TakeMarker(s[4..]);
      if marker.Fail? then Fail
      else
        var body := m.takeBody(marker.rest);
        if body.Fail? || |body.value.0| == 0 then Fail
        else
          var stacks := TakeStacks(m.takeStack, marker.value, |body.value.0|, body.rest);
          if stacks.Fail? || |stacks.rest| < 4 then Fail
          else Done(Tx(s[..4], body.value.0, body.value.1, stacks.value, stacks.rest[..4]), stacks.rest[4..])
  }

  lemma ShapeReadsLegacy<I(!new), O(!new), K(!new)>(m: Parts<I, O, K>, tx: Shape<I, O, K>, rest: seq<byte>)
    requires PartsExact(m) && TxOk(m, tx) && tx.stacks.None?
    ensures TakeShape(m, WriteShape(m, tx) + rest) == Done(tx, rest)
  {
    var x := (tx.inputs, tx.outputs);
    var s1 := tx.lockTime + rest;
    var s2 := m.writeBody(x) + s1;
    var s := WriteShape(m, tx) + rest;
    assert s == tx.version + s2;
    assert s[..4] == tx.version && s[4..] == s2;
    assert StartsNonzero(m.writeBody(x));
    assert TakeMarker(s2) == Done(false, s2);
    assert Reads(m.takeBody, m.writeBody, x, s1);
    assert s1[..4] == tx.lockTime && s1[4..] == rest;
  }

  lemma ShapeReadsWitness<I(!new), O(!new), K(!new)>(m: Parts<I, O, K>, tx: Shape<I, O, K>, rest: seq<byte>)
    requires PartsExact(m) && TxOk(m, tx) && tx.stacks.Some?
    ensures TakeShape(m, WriteShape(m, tx) + rest) == Done(tx, rest)
  {
    var x := (tx.inputs, tx.outputs);
    var s1 := tx.lockTime + rest;
    var s2 := WriteMany(m.writeStack, tx.stacks.value) + s1;
    var s3 := m.writeBody(x) + s2;
    var s4 := [0, 1] + s3;
    var s := WriteShape(m, tx) + rest;
    assert s == tx.version + s4;
    assert s[..4] == tx.version && s[4..] == s4;
    assert s4[2..] == s3;
    assert TakeMarker(s4) == Done(true, s3);
    assert Reads(m.takeBody, m.writeBody, x, s2);
    ManyReads(m.takeStack, m.writeStack, m.stackOk, tx.stacks.value, s1);
    assert s1[..4] == tx.lockTime && s1[4..] == rest;
  }

  lemma ShapeAccepts<I(!new), O(!new), K(!new)>(m: Parts<I, O, K>, s: seq<byte>)
    requires PartsExact(m) && TakeShape(m, s).Done?
    ensures TxOk(m, TakeShape(m, s).value)
    ensures s == WriteShape(m, TakeShape(m, s).value) + TakeShape(m, s).rest
  {
    var tx, rest := TakeShape(m, s).value, TakeShape(m, s).rest;
    var marker := TakeMarker(s[4..]);
    var body := m.takeBody(marker.rest);
    assert Accepts(m.takeBody, m.writeBody, m.bodyOk, marker.rest);
    var stacks := TakeStacks(m.takeStack, marker.value, |body.value.0|, body.rest);
    assert stacks.rest == tx.lockTime + rest;
    assert s == tx.version + s[4..];
    if marker.value {
      ManyAccepts(m.takeStack, m.writeStack, m.stackOk, |body.value.0|, body.rest);
      assert s[4..] == [0, 1] + marker.rest;
    }
  }

  // ---------- the node's transactions ----------

  function Node(): Parts<Input, Output, Stack>
  {
    Parts(TakeBody(), WriteBody(), BodyOk(), TakeStack(), WriteStack(), StackOk())
  }

  lemma BodyStarts(x: (seq<Input>, seq<Output>))
    requires BodyOk()(x) && |x.0| > 0
    ensures StartsNonzero(WriteBody()(x))
  {
    assert WriteBody()(x) == CompactSizes.Write(|x.0|) + WriteMany(WriteInput(), x.0) + WriteVector(WriteOutput())(x.1);
  }

  lemma NodeExact()
    ensures PartsExact(Node())
  {
    BodyExact();
    forall x: (seq<Input>, seq<Output>) | Node().bodyOk(x) && x.0 != []
      ensures StartsNonzero(Node().writeBody(x))
    {
      BodyStarts(x);
    }
  }

  predicate WellFormed(tx: Tx)
  {
    TxOk(Node(), tx)
  }

  lemma WellFormedIs(tx: Tx)
    ensures WellFormed(tx) <==>
            && |tx.version| == 4 && |tx.lockTime| == 4 && |tx.inputs| > 0
            && BodyOk()((tx.inputs, tx.outputs))
            && (tx.stacks.Some? ==> |tx.stacks.value| == |tx.inputs| && AllOk(StackOk(), tx.stacks.value))
  {
  }

  function WriteTx(tx: Tx): seq<byte>
  {
    WriteShape(Node(), tx)
  }

  function TakeTx(s: seq<byte>): Parse<Tx>
  {
    TakeShape(Node(), s)
  }

  lemma WriteTxIs(tx: Tx)
    ensures var body := WriteBody()((tx.inputs, tx.outputs));
            WriteTx(tx) == if tx.stacks.None? then tx.version + body + tx.lockTime
                           else tx.version + [0, 1] + body + WriteMany(WriteStack(), tx.stacks.value) + tx.lockTime
  {
  }

  /** A well-formed transaction followed by anything is taken off whole. */
  lemma TransactionReads(tx: Tx, rest: seq<byte>)
    requires WellFormed(tx)
    ensures TakeTx(WriteTx(tx) + rest) == Done(tx, rest)
  {
    NodeExact();
    if tx.stacks.None? {
      ShapeReadsLegacy(Node(), tx, rest);
    } else {
      ShapeReadsWitness(Node(), tx, rest);
    }
  }

  /** Nothing but a well-formed transaction is ever taken off. */
  lemma TransactionAccepts(s: seq<byte>)
    requires TakeTx(s).Done?
    ensures WellFormed(TakeTx(s).value) && s == WriteTx(TakeTx(s).value) + TakeTx(s).rest
  {
    NodeExact();
    ShapeAccepts(Node(), s);
  }
}
