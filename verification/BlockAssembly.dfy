/** Coinbases and blocks as the pool builds them, and the reader that takes a block apart again. */
module BlockAssembly {
  import opened Numbers
  import opened Options
  import opened Wire
  import opened Codecs
  import opened Transactions
  import opened BlockReader
  import CompactSizes

  const MAX_SCRIPT_SIG := 100
  const HEADER_SIZE := 80

  datatype CoinbaseOutput = CoinbaseOutput(value: u64, script: seq<byte>)

  function WriteCoinbaseOutput(o: CoinbaseOutput): seq<byte>
  {
    LittleEndian(o.value, 8) + CompactSizes.Write(|o.script|) + o.script
  }

  function WriteOutputs(outputs: seq<CoinbaseOutput>): seq<byte>
  {
    if outputs == [] then [] else WriteCoinbaseOutput(outputs[0]) + WriteOutputs(outputs[1..])
  }

  function NullPrevout(): (s: seq<byte>)
    ensures |s| == 36
  {
    seq(32, _ => 0) + [0xff, 0xff, 0xff, 0xff]
  }

  /** Up to where the extranonce goes. */
  function Coinbase1(prefix: seq<byte>, extranonceSize: nat, tag: seq<byte>, version: u32): Option<seq<byte>>
  {
    var length := |prefix| + extranonceSize + |tag|;
    if length > MAX_SCRIPT_SIG then None
    else Some(LittleEndian(version, 4) + [1] + NullPrevout() + CompactSizes.Write(length) + prefix)
  }

  /** From after the extranonce on. */
  function Coinbase2(outputs: seq<CoinbaseOutput>, tag: seq<byte>, sequence: u32, lockTime: u32): seq<byte>
  {
    tag + LittleEndian(sequence, 4) + CompactSizes.Write(|outputs|) + WriteOutputs(outputs) + LittleEndian(lockTime, 4)
  }

  /** `legacy_to_witness` */
  function WithWitness(legacy: seq<byte>, item: seq<byte>): Option<seq<byte>>
  {
    if |legacy| < 8 || |item| != 32 then None
    else Some(legacy[..4] + [0, 1] + legacy[4..|legacy| - 4]
              + CompactSizes.Write(1) + CompactSizes.Write(32) + item + legacy[|legacy| - 4..])
  }

  // ---------- a coinbase is a transaction ----------

  function AsOutput(o: CoinbaseOutput): Output
  {
    (LittleEndian(o.value, 8), o.script)
  }

  function AsOutputs(outputs: seq<CoinbaseOutput>): seq<Output>
  {
    seq(|outputs|, i requires 0 <= i < |outputs| => AsOutput(outputs[i]))
  }

  predicate OutputsFit(outputs: seq<CoinbaseOutput>)
  {
    CompactSizes.Fits(|outputs|) && forall i :: 0 <= i < |outputs| ==> CompactSizes.Fits(|outputs[i].script|)
  }

  /** The one-input transaction with the given script and outputs. */
  function CoinbaseTx(version: u32, script: seq<byte>, sequence: u32, outputs: seq<CoinbaseOutput>, lockTime: u32,
                      stacks: Option<seq<Stack>>): Tx
  {
    Tx(LittleEndian(version, 4), [(NullPrevout(), (script, LittleEndian(sequence, 4)))], AsOutputs(outputs), stacks,
       LittleEndian(lockTime, 4))
  }

  lemma {:induction false} OutputsWritten(outputs: seq<CoinbaseOutput>)
    ensures WriteMany(WriteOutput(), AsOutputs(outputs)) == WriteOutputs(outputs)
  {
    if outputs != [] {
      OutputsWritten(outputs[1..]);
      assert AsOutputs(outputs)[1..] == AsOutputs(outputs[1..]);
      OutputIs(AsOutput(outputs[0]));
    }
  }

  function InputBytes(script: seq<byte>, sequence: u32): seq<byte>
  {
    NullPrevout() + CompactSizes.Write(|script|) + script + LittleEndian(sequence, 4)
  }

  lemma InputWritten(script: seq<byte>, sequence: u32)
    ensures WriteMany(WriteInput(), [(NullPrevout(), (script, LittleEndian(sequence, 4)))])
            == InputBytes(script, sequence)
  {
    var x: Input := (NullPrevout(), (script, LittleEndian(sequence, 4)));
    assert [x][1..] == [];
    InputIs(x);
  }

  /** The serialized input and outputs of a coinbase. */
  function CoinbaseBody(script: seq<byte>, sequence: u32, outputs: seq<CoinbaseOutput>): seq<byte>
  {
    [1] + InputBytes(script, sequence) + (CompactSizes.Write(|outputs|) + WriteOutputs(outputs))
  }

  lemma BodyWritten(script: seq<byte>, sequence: u32, outputs: seq<CoinbaseOutput>)
    ensures WriteBody()(([(NullPrevout(), (script, LittleEndian(sequence, 4)))], AsOutputs(outputs)))
         == CoinbaseBody(script, sequence, outputs)
  {
    OutputsWritten(outputs);
    InputWritten(script, sequence);
    BodyIs([(NullPrevout(), (script, LittleEndian(sequence, 4)))], AsOutputs(outputs));
  }

  lemma CoinbaseBodyOk(script: seq<byte>, sequence: u32, outputs: seq<CoinbaseOutput>)
    requires CompactSizes.Fits(|script|) && OutputsFit(outputs)
    ensures BodyOk()(([(NullPrevout(), (script, LittleEndian(sequence, 4)))], AsOutputs(outputs)))
  {
    var input: Input := (NullPrevout(), (script, LittleEndian(sequence, 4)));
    BodyIs([input], AsOutputs(outputs));
    InputIs(input);
    forall i | 0 <= i < |outputs|
      ensures OutputOk()(AsOutputs(outputs)[i])
    {
      OutputIs(AsOutput(outputs[i]));
    }
  }

  lemma CoinbaseWellFormed(tx: Tx, script: seq<byte>, sequence: u32, outputs: seq<CoinbaseOutput>)
    requires CompactSizes.Fits(|script|) && OutputsFit(outputs)
    requires tx.inputs == [(NullPrevout(), (script, LittleEndian(sequence, 4)))] && tx.outputs == AsOutputs(outputs)
    requires |tx.version| == 4 && |tx.lockTime| == 4
    requires tx.stacks.Some? ==> |tx.stacks.value| == 1 && AllOk(StackOk(), tx.stacks.value)
    ensures WellFormed(tx)
  {
    CoinbaseBodyOk(script, sequence, outputs);
    WellFormedIs(tx);
  }

  /** What a share's coinbase is made of. */
  datatype Coinbase = Coinbase(version: u32, prefix: seq<byte>, extranonce: seq<byte>, tag: seq<byte>, sequence: u32,
                               outputs: seq<CoinbaseOutput>, lockTime: u32)

  function Script(c: Coinbase): seq<byte>
  {
    c.prefix + c.extranonce + c.tag
  }

  predicate CoinbaseFits(c: Coinbase)
  {
    |Script(c)| <= MAX_SCRIPT_SIG && OutputsFit(c.outputs)
  }

  /** The two halves around the extranonce. */
  function Legacy(c: Coinbase): (bytes: seq<byte>)
    requires CoinbaseFits(c)
  {
    Coinbase1(c.prefix, |c.extranonce|, c.tag, c.version).value + c.extranonce
    + Coinbase2(c.outputs, c.tag, c.sequence, c.lockTime)
  }

  function AsTx(c: Coinbase, stacks: Option<seq<Stack>>): Tx
  {
    CoinbaseTx(c.version, Script(c), c.sequence, c.outputs, c.lockTime, stacks)
  }

  lemma LegacyParts(c: Coinbase)
    requires CoinbaseFits(c)
    ensures Legacy(c) == LittleEndian(c.version, 4) + CoinbaseBody(Script(c), c.sequence, c.outputs)
            + LittleEndian(c.lockTime, 4)
  {
    var length := CompactSizes.Write(|Script(c)|);
    assert |c.prefix| + |c.extranonce| + |c.tag| == |Script(c)|;
    Regrouped(LittleEndian(c.version, 4), NullPrevout(), length, c.prefix, c.extranonce, c.tag,
              LittleEndian(c.sequence, 4),
              CompactSizes.Write(|c.outputs|), WriteOutputs(c.outputs), LittleEndian(c.lockTime, 4));
  }

  lemma Regrouped(v: seq<byte>, p: seq<byte>, n: seq<byte>, a: seq<byte>, e: seq<byte>, t: seq<byte>, s: seq<byte>,
                  m: seq<byte>, o: seq<byte>, l: seq<byte>)
    ensures (v + [1] + p + n + a) + e + (t + s + m + o + l) == v + ([1] + (p + n + (a + e + t) + s) + (m + o)) + l
  {
  }

  /** Joined around the extranonce, the halves are a serialized transaction. */
  lemma LegacyIsTransaction(c: Coinbase)
    requires CoinbaseFits(c)
    ensures WellFormed(AsTx(c, None)) && Legacy(c) == WriteTx(AsTx(c, None))
  {
    CoinbaseWellFormed(AsTx(c, None), Script(c), c.sequence, c.outputs);
    WriteTxIs(AsTx(c, None));
    BodyWritten(Script(c), c.sequence, c.outputs);
    LegacyParts(c);
  }

  lemma StackWritten(item: seq<byte>)
    requires |item| == 32
    ensures AllOk(StackOk(), [[item]]) && WriteMany(WriteStack(), [[item]]) == CompactSizes.Write(1)
            + CompactSizes.Write(32) + item
  {
    assert [[item]][1..] == [] && [item][1..] == [];
    assert WriteStack()([item]) == CompactSizes.Write(1) + WriteMany(WriteBlob, [item]);
    assert WriteMany(WriteBlob, [item]) == WriteBlob(item) + [];
  }

  lemma Spliced(v: seq<byte>, body: seq<byte>, l: seq<byte>, legacy: seq<byte>, item: seq<byte>)
    requires |v| == 4 && |l| == 4 && legacy == v + body + l && |item| == 32
    ensures WithWitness(legacy, item)
         == Some(v + [0, 1] + body + (CompactSizes.Write(1) + CompactSizes.Write(32) + item) + l)
  {
    assert legacy[..4] == v && legacy[4..|legacy| - 4] == body && legacy[|legacy| - 4..] == l;
    var one, size := CompactSizes.Write(1), CompactSizes.Write(32);
    assert v + [0, 1] + body + one + size + item + l == v + [0, 1] + body + (one + size + item) + l;
  }

  /** With the witness spliced in, it is the same transaction with a one-item witness. */
  lemma WitnessIsTransaction(c: Coinbase, item: seq<byte>)
    requires CoinbaseFits(c) && |item| == 32
    ensures WellFormed(AsTx(c, Some([[item]])))
    ensures WithWitness(Legacy(c), item) == Some(WriteTx(AsTx(c, Some([[item]]))))
  {
    StackWritten(item);
    CoinbaseWellFormed(AsTx(c, Some([[item]])), Script(c), c.sequence, c.outputs);
    WriteTxIs(AsTx(c, Some([[item]])));
    BodyWritten(Script(c), c.sequence, c.outputs);
    LegacyParts(c);
    Spliced(LittleEndian(c.version, 4), CoinbaseBody(Script(c), c.sequence, c.outputs), LittleEndian(c.lockTime, 4),
            Legacy(c), item);
  }

  // ---------- headers ----------

  datatype Header = Header(version: u32, prevhash: seq<byte>, merkleRoot: seq<byte>, time: u32, bits: u32, nonce: u32)

  predicate HeaderOk(h: Header)
  {
    |h.prevhash| == 32 && |h.merkleRoot| == 32
  }

  /** `build_header` */
  function WriteHeader(h: Header): (bytes: seq<byte>)
    requires HeaderOk(h)
    ensures |bytes| == HEADER_SIZE
  {
    LittleEndian(h.version, 4) + h.prevhash + h.merkleRoot
    + LittleEndian(h.time, 4) + LittleEndian(h.bits, 4) + LittleEndian(h.nonce, 4)
  }

  /** The fields `fill_header_fields` takes: version, time, bits and the previous hash. */
  function ReadHeader(bytes: seq<byte>): (nat, nat, nat, seq<byte>)
    requires |bytes| == HEADER_SIZE
  {
    (FromLittleEndian(bytes[0..4]), FromLittleEndian(bytes[68..72]), FromLittleEndian(bytes[72..76]), bytes[4..36])
  }

  lemma HeaderRoundTrip(h: Header)
    requires HeaderOk(h)
    ensures ReadHeader(WriteHeader(h)) == (h.version, h.time, h.bits, h.prevhash)
    ensures WriteHeader(h)[36..68] == h.merkleRoot
  {
    HeaderSlices(LittleEndian(h.version, 4), h.prevhash, h.merkleRoot, LittleEndian(h.time, 4), LittleEndian(h.bits, 4),
                 LittleEndian(h.nonce, 4));
    Widths();
    LittleEndianReads(h.version, 4);
    LittleEndianReads(h.time, 4);
    LittleEndianReads(h.bits, 4);
  }

  lemma HeaderSlices(v: seq<byte>, p: seq<byte>, m: seq<byte>, t: seq<byte>, b: seq<byte>, n: seq<byte>)
    requires |v| == 4 && |p| == 32 && |m| == 32 && |t| == 4 && |b| == 4 && |n| == 4
    ensures var s := v + p + m + t + b + n;
            |s| == 80 && s[0..4] == v && s[4..36] == p && s[36..68] == m && s[68..72] == t && s[72..76] == b
  {
  }

  // ---------- blocks ----------

  /** The transaction count on the wire: the sum is taken in 32 bits. */
  function CountWithCoinbase(count: u32): nat
  {
    (count + 1) % 0x1_0000_0000
  }

  /** `build_block_hex`, as bytes. */
  function BuildBlock(header: seq<byte>, count: u32, coinbase: seq<byte>, data: seq<byte>): seq<byte>
  {
    header + CompactSizes.Write(CountWithCoinbase(count)) + coinbase + data
  }

  datatype BlockFields = BlockFields(header: seq<byte>, count: nat, data: seq<byte>)

  function BlockBy<T>(takeCoinbase: Parser<T>, block: seq<byte>): Option<BlockFields>
  {
    if |block| <= HEADER_SIZE then None
    else
      var total := CompactSizes.Take(block[HEADER_SIZE..]);
      if total.Fail? || total.value == 0 || total.value > 0xffff_ffff then None
      else
        var coinbase := takeCoinbase(total.rest);
        if coinbase.Fail? then None else Some(BlockFields(block[..HEADER_SIZE], total.value - 1, coinbase.rest))
  }

  /** What a block reads as: its header, the number of transactions after the coinbase, and their bytes. */
  function BlockOf(block: seq<byte>): Option<BlockFields>
  {
    BlockBy(TakeTx, block)
  }

  /** `fill_block_fields` */
  method FillBlockFields(block: seq<byte>) returns (r: Option<BlockFields>)
    ensures r == BlockOf(block)
  {
    if |block| <= HEADER_SIZE {
      return None;
    }
    var cursor := new Cursor(block[HEADER_SIZE..]);
    var total := cursor.CompactSize();
    if total.None? || total.value == 0 || total.value > 0xffff_ffff {
      return None;
    }
    var ok := SkipTransaction(cursor);
    if !ok {
      return None;
    }
    r := Some(BlockFields(block[..HEADER_SIZE], total.value - 1, cursor.bytes[cursor.offset..]));
  }

  lemma BlockByReads<T>(take: Parser<T>, header: seq<byte>, count: u32, coinbase: seq<byte>, data: seq<byte>)
    requires |header| == HEADER_SIZE && take(coinbase + data).Done? && take(coinbase + data).rest == data
    ensures BlockBy(take, BuildBlock(header, count, coinbase, data)) ==
            if count == 0xffff_ffff then None else Some(BlockFields(header, count, data))
  {
    var total := CountWithCoinbase(count);
    var tail := coinbase + data;
    var block := BuildBlock(header, count, coinbase, data);
    assert block == header + (CompactSizes.Write(total) + tail);
    assert block[..HEADER_SIZE] == header && block[HEADER_SIZE..] == CompactSizes.Write(total) + tail;
    CompactSizes.TakeReads(total, tail);
  }

  /**
   A block built around any well-formed coinbase reads back as the same header, count and transaction bytes, exactly
   when adding the coinbase does not wrap the 32-bit count; when it does, the count reads as zero and the block is
   refused.
   */
  lemma BlockRoundTrip(header: seq<byte>, count: u32, coinbase: Tx, data: seq<byte>)
    requires |header| == HEADER_SIZE && WellFormed(coinbase)
    ensures BlockOf(BuildBlock(header, count, WriteTx(coinbase), data)) ==
            if count == 0xffff_ffff then None else Some(BlockFields(header, count, data))
  {
    TransactionReads(coinbase, data);
    BlockByReads(TakeTx, header, count, WriteTx(coinbase), data);
  }

  /** In particular with the coinbase of a share, plain or with its witness spliced in. */
  lemma ShareBlockRoundTrip(header: seq<byte>, count: u32, c: Coinbase, item: Option<seq<byte>>, data: seq<byte>)
    requires |header| == HEADER_SIZE && CoinbaseFits(c)
    requires item.Some? ==> |item.value| == 32
    ensures var coinbase := if item.None? then Some(Legacy(c)) else WithWitness(Legacy(c), item.value);
            && coinbase.Some?
            && BlockOf(BuildBlock(header, count, coinbase.value, data)) ==
               if count == 0xffff_ffff then None else Some(BlockFields(header, count, data))
  {
    if item.None? {
      LegacyIsTransaction(c);
      BlockRoundTrip(header, count, AsTx(c, None), data);
    } else {
      WitnessIsTransaction(c, item.value);
      BlockRoundTrip(header, count, AsTx(c, Some([[item.value]])), data);
    }
  }
}
