/** SV2 messages: each a fixed list of fields, written one after another and read back with nothing left over. */
module Messages {
  import opened Numbers
  import opened Options
  import opened Sequences
  import opened Wire
  import opened Codecs
  import opened FrameCodec

  /** A number of some bytes, a byte array behind its length, or one of four special forms. */
  datatype Field = Fixed(width: nat) | Counted(countWidth: nat, longest: nat) | Hash | Bool | Hashes | Optional

  const U8 := Fixed(1)
  const U16 := Fixed(2)
  const U32 := Fixed(4)
  const U64 := Fixed(8)
  const STR := Counted(1, 255)
  const B32 := Counted(1, 32)
  const B64K := Counted(2, 65535)

  predicate FieldOk(f: Field)
  {
    f in {U8, U16, U32, U64, STR, B32, B64K, Hash, Bool, Hashes, Optional}
  }

  /** A field's value; a float is its bit pattern. */
  datatype Value =
    | Number(n: nat)
    | Bytes(bytes: seq<byte>)
    | Flag(on: bool)
    | List(items: seq<seq<byte>>)
    | Maybe(m: Option<nat>)

  /** The values a field can carry; the writer refuses longer ones. */
  predicate Fits(f: Field, v: Value)
  {
    match f
    case Fixed(width) => v.Number? && v.n < Pow(256, width)
    case Counted(_, longest) => v.Bytes? && |v.bytes| <= longest
    case Hash => v.Bytes? && |v.bytes| == 32
    case Bool => v.Flag?
    case Hashes => v.List? && |v.items| <= 255 && AllOk(SizedOk(32), v.items)
    case Optional => v.Maybe? && (v.m.Some? ==> v.m.value < Pow(256, 4))
  }

  function Write(f: Field, v: Value): seq<byte>
    requires Fits(f, v)
  {
    match f
    case Fixed(width) => LittleEndian(v.n, width)
    case Counted(countWidth, _) => LittleEndian(|v.bytes|, countWidth) + v.bytes
    case Hash => v.bytes
    case Bool => [if v.on then 1 else 0]
    case Hashes => [|v.items|] + WriteMany(Raw, v.items)
    case Optional => if v.m.None? then [0] else [1] + LittleEndian(v.m.value, 4)
  }

  function TakeNumber(n: nat, s: seq<byte>): Parse<nat>
  {
    if n > |s| then Fail else Done(FromLittleEndian(s[..n]), s[n..])
  }

  function TakeCounted(countWidth: nat, longest: nat, s: seq<byte>): Parse<Value>
  {
    var n := TakeNumber(countWidth, s);
    if n.Fail? || n.value > longest || n.value > |n.rest| then Fail
    else Done(Bytes(n.rest[..n.value]), n.rest[n.value..])
  }

  function TakeList(p: Parser<seq<byte>>, s: seq<byte>): Parse<Value>
  {
    if s == [] then Fail
    else
      var items := TakeMany(p, s[0], s[1..]);
      if items.Fail? then Fail else Done(List(items.value), items.rest)
  }

  function TakeHashes(s: seq<byte>): Parse<Value>
  {
    TakeList(TakeBytes(32), s)
  }

  function TakeOptional(s: seq<byte>): Parse<Value>
  {
    if s == [] || s[0] > 1 then Fail
    else if s[0] == 0 then Done(Maybe(None), s[1..])
    else
      var n := TakeNumber(4, s[1..]);
      if n.Fail? then Fail else Done(Maybe(Some(n.value)), n.rest)
  }

  /** One field off the head of the bytes; of a flag only the lowest bit counts. */
  function Take(f: Field, s: seq<byte>): Parse<Value>
  {
    match f
    case Fixed(width) => (var n := TakeNumber(width, s); if n.Fail? then Fail else Done(Number(n.value), n.rest))
    case Counted(countWidth, longest) => TakeCounted(countWidth, longest, s)
    case Hash => if |s| < 32 then Fail else Done(Bytes(s[..32]), s[32..])
    case Bool => if s == [] then Fail else Done(Flag(s[0] % 2 == 1), s[1..])
    case Hashes => TakeHashes(s)
    case Optional => TakeOptional(s)
  }

  // ---------- one field ----------

  lemma NumberReads(v: nat, n: nat, rest: seq<byte>)
    requires v < Pow(256, n)
    ensures TakeNumber(n, LittleEndian(v, n) + rest) == Done(v, rest)
  {
    var s := LittleEndian(v, n) + rest;
    assert s[..n] == LittleEndian(v, n) && s[n..] == rest;
    LittleEndianReads(v, n);
  }

  lemma NumberAccepts(n: nat, s: seq<byte>)
    requires TakeNumber(n, s).Done?
    ensures TakeNumber(n, s).value < Pow(256, n) && s == LittleEndian(TakeNumber(n, s).value, n) + TakeNumber(n, s).rest
  {
    LittleEndianWrites(s[..n]);
    assert s == s[..n] + s[n..];
  }

  lemma CountedReads(countWidth: nat, longest: nat, bytes: seq<byte>, rest: seq<byte>)
    requires |bytes| <= longest < Pow(256, countWidth)
    ensures TakeCounted(countWidth, longest, LittleEndian(|bytes|, countWidth) + bytes + rest)
            == Done(Bytes(bytes), rest)
  {
    assert LittleEndian(|bytes|, countWidth) + bytes + rest == LittleEndian(|bytes|, countWidth) + (bytes + rest);
    NumberReads(|bytes|, countWidth, bytes + rest);
    assert (bytes + rest)[..|bytes|] == bytes && (bytes + rest)[|bytes|..] == rest;
  }

  lemma CountedAccepts(countWidth: nat, longest: nat, s: seq<byte>)
    requires TakeCounted(countWidth, longest, s).Done?
    ensures var r := TakeCounted(countWidth, longest, s);
            && r.value.Bytes? && |r.value.bytes| <= longest
            && s == LittleEndian(|r.value.bytes|, countWidth) + r.value.bytes + r.rest
  {
    NumberAccepts(countWidth, s);
    var n := TakeNumber(countWidth, s);
    assert n.rest == n.rest[..n.value] + n.rest[n.value..];
  }

  lemma ListReads(p: Parser<seq<byte>>, ok: seq<byte> -> bool, items: seq<seq<byte>>, rest: seq<byte>)
    requires Exact(p, Raw, ok) && |items| <= 255 && AllOk(ok, items)
    ensures TakeList(p, [|items|] + WriteMany(Raw, items) + rest) == Done(List(items), rest)
  {
    ManyReads(p, Raw, ok, items, rest);
    ListOf(p, items, WriteMany(Raw, items), rest);
  }

  lemma ListOf(p: Parser<seq<byte>>, items: seq<seq<byte>>, body: seq<byte>, rest: seq<byte>)
    requires |items| <= 255 && TakeMany(p, |items|, body + rest) == Done(items, rest)
    ensures TakeList(p, [|items|] + body + rest) == Done(List(items), rest)
  {
    var s := [|items|] + body + rest;
    assert s[0] == |items| && s[1..] == body + rest;
  }

  lemma ListAccepts(p: Parser<seq<byte>>, ok: seq<byte> -> bool, s: seq<byte>)
    requires Exact(p, Raw, ok) && TakeList(p, s).Done?
    ensures var r := TakeList(p, s);
            && r.value.List? && |r.value.items| <= 255 && AllOk(ok, r.value.items)
            && s == [|r.value.items|] + WriteMany(Raw, r.value.items) + r.rest
  {
    ManyAccepts(p, Raw, ok, s[0], s[1..]);
    var items := TakeMany(p, s[0], s[1..]);
    Prefixed(s, WriteMany(Raw, items.value), items.rest);
  }

  lemma Prefixed(s: seq<byte>, body: seq<byte>, rest: seq<byte>)
    requires s != [] && s[1..] == body + rest
    ensures s == [s[0]] + body + rest
  {
    assert s == [s[0]] + s[1..];
  }

  lemma OptionalReads(m: Option<nat>, rest: seq<byte>)
    requires m.Some? ==> m.value < Pow(256, 4)
    ensures TakeOptional((if m.None? then [0] else [1] + LittleEndian(m.value, 4)) + rest) == Done(Maybe(m), rest)
  {
    if m.Some? {
      NumberReads(m.value, 4, rest);
      OptionalOf(m.value, LittleEndian(m.value, 4), rest);
    } else {
      assert ([0] + rest)[1..] == rest;
    }
  }

  lemma OptionalOf(n: nat, body: seq<byte>, rest: seq<byte>)
    requires TakeNumber(4, body + rest) == Done(n, rest)
    ensures TakeOptional([1] + body + rest) == Done(Maybe(Some(n)), rest)
  {
    var s := [1] + body + rest;
    assert s[0] == 1 && s[1..] == body + rest;
  }

  lemma OptionalAccepts(s: seq<byte>)
    requires TakeOptional(s).Done?
    ensures var r := TakeOptional(s);
            && r.value.Maybe? && (r.value.m.Some? ==> r.value.m.value < Pow(256, 4))
            && s == (if r.value.m.None? then [0] else [1] + LittleEndian(r.value.m.value, 4)) + r.rest
  {
    assert s == [s[0]] + s[1..];
    if s[0] == 1 {
      NumberAccepts(4, s[1..]);
    }
  }

  /** Every field reads back as it was written. */
  lemma FieldReads(f: Field, v: Value, rest: seq<byte>)
    requires FieldOk(f) && Fits(f, v)
    ensures Take(f, Write(f, v) + rest) == Done(v, rest)
  {
    Widths();
    match f
    case Fixed(width) => NumberReads(v.n, width, rest);
    case Counted(countWidth, longest) => CountedReads(countWidth, longest, v.bytes, rest);
    case Hash => assert (v.bytes + rest)[..32] == v.bytes && (v.bytes + rest)[32..] == rest;
    case Bool => assert (Write(f, v) + rest)[1..] == rest;
    case Hashes =>
      SizedExact(32);
      ListReads(TakeBytes(32), SizedOk(32), v.items, rest);
    case Optional => OptionalReads(v.m, rest);
  }

  /** And except for flags, only what the writer writes is read. */
  lemma FieldAccepts(f: Field, s: seq<byte>)
    requires FieldOk(f) && f != Bool && Take(f, s).Done?
    ensures Fits(f, Take(f, s).value) && s == Write(f, Take(f, s).value) + Take(f, s).rest
  {
    match f
    case Fixed(width) => NumberAccepts(width, s);
    case Counted(countWidth, longest) => CountedAccepts(countWidth, longest, s);
    case Hash => assert s == s[..32] + s[32..];
    case Hashes =>
      SizedExact(32);
      ListAccepts(TakeBytes(32), SizedOk(32), s);
    case Optional => OptionalAccepts(s);
  }

  // ---------- messages ----------

  datatype Message =
    | SetupConnection | SetupConnectionSuccess | SetupConnectionError
    | OpenStandardMiningChannel | OpenStandardMiningChannelSuccess | OpenMiningChannelError
    | OpenExtendedMiningChannel | OpenExtendedMiningChannelSuccess
    | NewMiningJob | UpdateChannel | UpdateChannelError | CloseChannel | SetExtranoncePrefix
    | SubmitSharesStandard | SubmitSharesExtended | SubmitSharesSuccess | SubmitSharesError
    | NewExtendedMiningJob | SetNewPrevHash | SetTarget

  function Schema(m: Message): seq<Field>
  {
    match m
    case SetupConnection => [U8, U16, U16, U32, STR, U16, STR, STR, STR, STR]
    case SetupConnectionSuccess => [U16, U32]
    case SetupConnectionError => [U32, STR]
    case OpenStandardMiningChannel => [U32, STR, U32, Hash]
    case OpenStandardMiningChannelSuccess => [U32, U32, Hash, B32, U32]
    case OpenMiningChannelError => [U32, STR]
    case OpenExtendedMiningChannel => [U32, STR, U32, Hash, U16]
    case OpenExtendedMiningChannelSuccess => [U32, U32, Hash, U16, B32, U32]
    case NewMiningJob => [U32, U32, Optional, U32, Hash]
    case UpdateChannel => [U32, U32, Hash]
    case UpdateChannelError => [U32, STR]
    case CloseChannel => [U32, STR]
    case SetExtranoncePrefix => [U32, B32]
    case SubmitSharesStandard => [U32, U32, U32, U32, U32, U32]
    case SubmitSharesExtended => [U32, U32, U32, U32, U32, U32, B32]
    case SubmitSharesSuccess => [U32, U32, U32, U64]
    case SubmitSharesError => [U32, U32, STR]
    case NewExtendedMiningJob => [U32, U32, Optional, U32, Bool, Hashes, B64K, B64K]
    case SetNewPrevHash => [U32, U32, Hash, U32, U32]
    case SetTarget => [U32, Hash]
  }

  function Code(m: Message): byte
  {
    match m
    case SetupConnection => 0x00
    case SetupConnectionSuccess => 0x01
    case SetupConnectionError => 0x02
    case OpenStandardMiningChannel => 0x10
    case OpenStandardMiningChannelSuccess => 0x11
    case OpenMiningChannelError => 0x12
    case OpenExtendedMiningChannel => 0x13
    case OpenExtendedMiningChannelSuccess => 0x14
    case NewMiningJob => 0x15
    case UpdateChannel => 0x16
    case UpdateChannelError => 0x17
    case CloseChannel => 0x18
    case SetExtranoncePrefix => 0x19
    case SubmitSharesStandard => 0x1a
    case SubmitSharesExtended => 0x1b
    case SubmitSharesSuccess => 0x1c
    case SubmitSharesError => 0x1d
    case NewExtendedMiningJob => 0x1f
    case SetNewPrevHash => 0x20
    case SetTarget => 0x21
  }

  /** Messages about a channel carry the routing bit. */
  predicate ForChannel(m: Message)
  {
    Code(m) >= 0x15
  }

  predicate AllFit(schema: seq<Field>, values: seq<Value>)
  {
    |values| == |schema| && forall i :: 0 <= i < |schema| ==> Fits(schema[i], values[i])
  }

  function WriteAll(schema: seq<Field>, values: seq<Value>): seq<byte>
    requires AllFit(schema, values)
  {
    if schema == [] then [] else Write(schema[0], values[0]) + WriteAll(schema[1..], values[1..])
  }

  function TakeAll(schema: seq<Field>, s: seq<byte>): Parse<seq<Value>>
    decreases |schema|
  {
    if schema == [] then Done([], s)
    else
      var first := Take(schema[0], s);
      if first.Fail? then Fail
      else
        var later := TakeAll(schema[1..], first.rest);
        if later.Fail? then Fail else Done([first.value] + later.value, later.rest)
  }

  /** `decode`: every field in turn, and nothing may be left. */
  function Decode(schema: seq<Field>, s: seq<byte>): Option<seq<Value>>
  {
    var r := TakeAll(schema, s);
    if r.Fail? || r.rest != [] then None else Some(r.value)
  }

  predicate FieldsOk(schema: seq<Field>)
  {
    forall i :: 0 <= i < |schema| ==> FieldOk(schema[i])
  }

  lemma {:induction false} AllRead(schema: seq<Field>, values: seq<Value>, rest: seq<byte>)
    requires FieldsOk(schema) && AllFit(schema, values)
    ensures TakeAll(schema, WriteAll(schema, values) + rest) == Done(values, rest)
    decreases |schema|
  {
    if schema == [] {
      assert [] + rest == rest;
    } else {
      var tail := WriteAll(schema[1..], values[1..]) + rest;
      assert WriteAll(schema, values) + rest == Write(schema[0], values[0]) + tail;
      FieldReads(schema[0], values[0], tail);
      AllRead(schema[1..], values[1..], rest);
      assert [values[0]] + values[1..] == values;
    }
  }

  /** Every message decodes back to itself, and with anything after it not at all. */
  lemma MessageRoundTrip(m: Message, values: seq<Value>, trailing: seq<byte>)
    requires AllFit(Schema(m), values)
    ensures Decode(Schema(m), WriteAll(Schema(m), values)) == Some(values)
    ensures trailing != [] ==> Decode(Schema(m), WriteAll(Schema(m), values) + trailing) == None
  {
    SchemaOk(m);
    AllRead(Schema(m), values, []);
    assert WriteAll(Schema(m), values) + [] == WriteAll(Schema(m), values);
    AllRead(Schema(m), values, trailing);
  }

  lemma SchemaOk(m: Message)
    ensures FieldsOk(Schema(m)) && |Schema(m)| <= 10
  {
  }

  lemma WriteAllParts(schema: seq<Field>, values: seq<Value>, first: Value, later: seq<Value>)
    requires schema != [] && values == [first] + later && Fits(schema[0], first) && AllFit(schema[1..], later)
    ensures AllFit(schema, values) && WriteAll(schema, values) == Write(schema[0], first) + WriteAll(schema[1..], later)
  {
    assert values[1..] == later;
    forall i | 0 <= i < |schema|
      ensures Fits(schema[i], values[i])
    {
      if i > 0 {
        assert schema[i] == schema[1..][i - 1] && values[i] == later[i - 1];
      }
    }
  }

  /** Every flag among the fields was sent as 0 or 1. */
  predicate PlainFlags(schema: seq<Field>, s: seq<byte>)
    requires TakeAll(schema, s).Done?
  {
    schema == [] || ((schema[0] == Bool ==> s[0] <= 1) && PlainFlags(schema[1..], Take(schema[0], s).rest))
  }

  lemma FieldExact(f: Field, s: seq<byte>)
    requires FieldOk(f) && Take(f, s).Done?
    ensures Fits(f, Take(f, s).value) && |Write(f, Take(f, s).value)| <= |s|
    ensures s[|Write(f, Take(f, s).value)|..] == Take(f, s).rest
    ensures s == Write(f, Take(f, s).value) + Take(f, s).rest <==> (f == Bool ==> s[0] <= 1)
  {
    if f == Bool {
      assert s == [s[0]] + s[1..];
      if s == Write(f, Take(f, s).value) + Take(f, s).rest {
        assert s[0] == Write(f, Take(f, s).value)[0];
      }
    } else {
      FieldAccepts(f, s);
    }
  }

  lemma Glued(s: seq<byte>, a: seq<byte>, b: seq<byte>, tail: seq<byte>, rest: seq<byte>)
    requires |a| <= |s| && s[|a|..] == tail
    ensures s == (a + b) + rest <==> s == a + tail && tail == b + rest
  {
    Associates(a, b, rest);
    if s == a + (b + rest) {
      assert s[|a|..] == b + rest;
    }
  }

  lemma {:induction false} AllExact(schema: seq<Field>, s: seq<byte>)
    requires FieldsOk(schema) && TakeAll(schema, s).Done?
    ensures AllFit(schema, TakeAll(schema, s).value)
    ensures s == WriteAll(schema, TakeAll(schema, s).value) + TakeAll(schema, s).rest <==> PlainFlags(schema, s)
    decreases |schema|
  {
    if schema == [] {
      assert [] + s == s;
    } else {
      var first := Take(schema[0], s);
      var later := TakeAll(schema[1..], first.rest);
      FieldExact(schema[0], s);
      AllExact(schema[1..], first.rest);
      WriteAllParts(schema, TakeAll(schema, s).value, first.value, later.value);
      Glued(s, Write(schema[0], first.value), WriteAll(schema[1..], later.value), first.rest, later.rest);
    }
  }

  /**
   A payload that decodes is the encoding of what it decodes to exactly when its flags were sent as 0 or 1. Only the
   extended job carries a flag.
   */
  lemma DecodedIsEncoding(m: Message, s: seq<byte>)
    requires Decode(Schema(m), s).Some?
    ensures var v := Decode(Schema(m), s).value;
            AllFit(Schema(m), v) && (WriteAll(Schema(m), v) == s <==> PlainFlags(Schema(m), s))
    ensures m != NewExtendedMiningJob ==> WriteAll(Schema(m), Decode(Schema(m), s).value) == s
  {
    SchemaOk(m);
    PayloadExact(Schema(m), s);
    if m != NewExtendedMiningJob {
      FlaglessSchema(m);
      NoFlags(Schema(m), s);
    }
  }

  lemma PayloadExact(schema: seq<Field>, s: seq<byte>)
    requires FieldsOk(schema) && Decode(schema, s).Some?
    ensures AllFit(schema, Decode(schema, s).value)
    ensures WriteAll(schema, Decode(schema, s).value) == s <==> PlainFlags(schema, s)
  {
    AllExact(schema, s);
    var v := Decode(schema, s).value;
    assert WriteAll(schema, v) + [] == WriteAll(schema, v);
  }

  lemma FlaglessSchema(m: Message)
    requires m != NewExtendedMiningJob
    ensures Bool !in Schema(m)
  {
  }

  lemma {:induction false} NoFlags(schema: seq<Field>, s: seq<byte>)
    requires Bool !in schema && TakeAll(schema, s).Done?
    ensures PlainFlags(schema, s)
    decreases |schema|
  {
    if schema != [] {
      assert schema[0] in schema;
      NoFlags(schema[1..], Take(schema[0], s).rest);
    }
  }

  /** Only the lowest bit of a flag is read: 3 is taken for 1, which is what the writer writes. */
  lemma FlagsReadByLowestBit(rest: seq<byte>)
    ensures Take(Bool, [3] + rest) == Take(Bool, [1] + rest) && Write(Bool, Flag(true)) != [3]
  {
    assert ([3] + rest)[1..] == rest && ([1] + rest)[1..] == rest;
  }

  // ---------- messages in frames ----------

  lemma WriteSize(f: Field, v: Value)
    requires FieldOk(f) && Fits(f, v)
    ensures |Write(f, v)| <= 65537
  {
    if f == Hashes {
      HashesSize(v.items);
    }
  }

  lemma {:induction false} HashesSize(items: seq<seq<byte>>)
    requires AllOk(SizedOk(32), items)
    ensures |WriteMany(Raw, items)| == 32 * |items|
  {
    if items != [] {
      assert SizedOk(32)(items[0]);
      HashesSize(items[1..]);
    }
  }

  lemma {:induction false} WriteAllSize(schema: seq<Field>, values: seq<Value>)
    requires FieldsOk(schema) && AllFit(schema, values)
    ensures |WriteAll(schema, values)| <= 65537 * |schema|
    decreases |schema|
  {
    if schema != [] {
      WriteSize(schema[0], values[0]);
      WriteAllSize(schema[1..], values[1..]);
    }
  }

  /** `encode_message` */
  function AsFrame(m: Message, values: seq<Value>): (f: Frame)
    requires AllFit(Schema(m), values)
  {
    Frame(if ForChannel(m) then 0x8000 else 0, Code(m), WriteAll(Schema(m), values))
  }

  function MessageOf(code: byte): Option<Message>
  {
    if code == 0x00 then Some(SetupConnection)
    else if code == 0x01 then Some(SetupConnectionSuccess)
    else if code == 0x02 then Some(SetupConnectionError)
    else if code == 0x10 then Some(OpenStandardMiningChannel)
    else if code == 0x11 then Some(OpenStandardMiningChannelSuccess)
    else if code == 0x12 then Some(OpenMiningChannelError)
    else if code == 0x13 then Some(OpenExtendedMiningChannel)
    else if code == 0x14 then Some(OpenExtendedMiningChannelSuccess)
    else if code == 0x15 then Some(NewMiningJob)
    else if code == 0x16 then Some(UpdateChannel)
    else if code == 0x17 then Some(UpdateChannelError)
    else if code == 0x18 then Some(CloseChannel)
    else if code == 0x19 then Some(SetExtranoncePrefix)
    else if code == 0x1a then Some(SubmitSharesStandard)
    else if code == 0x1b then Some(SubmitSharesExtended)
    else if code == 0x1c then Some(SubmitSharesSuccess)
    else if code == 0x1d then Some(SubmitSharesError)
    else if code == 0x1f then Some(NewExtendedMiningJob)
    else if code == 0x20 then Some(SetNewPrevHash)
    else if code == 0x21 then Some(SetTarget)
    else None
  }

  lemma CodesDistinct(m: Message)
    ensures MessageOf(Code(m)) == Some(m)
  {
  }

  /** No message is too long for a frame; framed and parsed in any stream, each comes back as itself. */
  lemma FramedMessageRoundTrip(m: Message, values: seq<Value>, stream: seq<byte>)
    requires AllFit(Schema(m), values)
    ensures Encodable(AsFrame(m, values))
    ensures var p := FrameCodec.Parse(MAXIMUM_PAYLOAD, Encode(AsFrame(m, values)) + stream);
            && p.frames != [] && p.frames[0] == AsFrame(m, values)
            && MessageOf(p.frames[0].message) == Some(m) && Decode(Schema(m), p.frames[0].payload) == Some(values)
  {
    SchemaOk(m);
    WriteAllSize(Schema(m), values);
    ParseOne(MAXIMUM_PAYLOAD, AsFrame(m, values), stream);
    CodesDistinct(m);
    MessageRoundTrip(m, values, []);
  }

  // ---------- the loops ----------

  /** The writer appends field after field and throws at the first value that is too long. */
  method EncodePayload(schema: seq<Field>, values: seq<Value>) returns (r: Option<seq<byte>>)
    requires |schema| == |values|
    ensures r == if AllFit(schema, values) then Some(WriteAll(schema, values)) else None
  {
    var bytes: seq<byte> := [];
    if AllFit(schema, values) {
      WrittenFromStart(schema, values);
    }
    for i := 0 to |schema|
      invariant forall j :: 0 <= j < i ==> Fits(schema[j], values[j])
      invariant AllFit(schema, values) ==> bytes + WrittenFrom(schema, values, i) == WriteAll(schema, values)
    {
      if !Fits(schema[i], values[i]) {
        return None;
      }
      if AllFit(schema, values) {
        Associates(bytes, Write(schema[i], values[i]), WrittenFrom(schema, values, i + 1));
      }
      bytes := bytes + Write(schema[i], values[i]);
    }
    assert AllFit(schema, values) && bytes + [] == bytes;
    r := Some(bytes);
  }

  /** The fields from the i-th on, as written. */
  ghost function WrittenFrom(schema: seq<Field>, values: seq<Value>, i: nat): seq<byte>
    requires AllFit(schema, values) && i <= |schema|
    decreases |schema| - i
  {
    if i == |schema| then [] else Write(schema[i], values[i]) + WrittenFrom(schema, values, i + 1)
  }

  lemma {:induction false} WrittenFromIs(schema: seq<Field>, values: seq<Value>, i: nat)
    requires AllFit(schema, values) && i <= |schema|
    ensures WrittenFrom(schema, values, i) == WriteAll(schema[i..], values[i..])
    decreases |schema| - i
  {
    if i < |schema| {
      WrittenFromIs(schema, values, i + 1);
      assert schema[i..][1..] == schema[i + 1..] && values[i..][1..] == values[i + 1..];
    }
  }

  lemma WrittenFromStart(schema: seq<Field>, values: seq<Value>)
    requires AllFit(schema, values)
    ensures [] + WrittenFrom(schema, values, 0) == WriteAll(schema, values)
  {
    WrittenFromIs(schema, values, 0);
    assert schema[0..] == schema && values[0..] == values;
  }

  /** Fields read so far, followed by those still to come, are all of them. */
  function Following(values: seq<Value>, r: Parse<seq<Value>>): Parse<seq<Value>>
  {
    if r.Fail? then Fail else Done(values + r.value, r.rest)
  }

  method DecodePayload(schema: seq<Field>, bytes: seq<byte>) returns (r: Option<seq<Value>>)
    ensures r == Decode(schema, bytes)
  {
    var values: seq<Value>, rest := [], bytes;
    FollowingNothing(TakeAll(schema, bytes));
    assert schema[0..] == schema;
    for i := 0 to |schema|
      invariant Following(values, TakeAll(schema[i..], rest)) == TakeAll(schema, bytes)
    {
      assert schema[i..][1..] == schema[i + 1..];
      FollowingMore(values, schema[i..], rest);
      var field := Take(schema[i], rest);
      if field.Fail? {
        return None;
      }
      values := values + [field.value];
      rest := field.rest;
    }
    assert values + [] == values;
    r := if rest == [] then Some(values) else None;
  }

  lemma FollowingNothing(r: Parse<seq<Value>>)
    ensures Following([], r) == r
  {
    if r.Done? {
      assert [] + r.value == r.value;
    }
  }

  lemma FollowingMore(values: seq<Value>, schema: seq<Field>, s: seq<byte>)
    requires schema != []
    ensures Following(values, TakeAll(schema, s)) ==
            var first := Take(schema[0], s);
            if first.Fail? then Fail else Following(values + [first.value], TakeAll(schema[1..], first.rest))
  {
    var first := Take(schema[0], s);
    if first.Done? && TakeAll(schema[1..], first.rest).Done? {
      var later := TakeAll(schema[1..], first.rest).value;
      assert values + ([first.value] + later) == (values + [first.value]) + later;
    }
  }
}
