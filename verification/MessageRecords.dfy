/**
 Messages as records. The program lists the fields of a message twice, once where it writes them and once where it reads
 them; here both lists are kept apart, and they agree.
 */
module MessageRecords {
  import opened Numbers
  import opened Options
  import opened Messages

  /** The fields of all messages. */
  datatype Name =
    | Protocol | MinimumVersion | MaximumVersion | Flags | EndpointHost | EndpointPort | Vendor
    | HardwareVersion | Firmware | DeviceId | UsedVersion | ErrorCode | RequestId | UserIdentity
    | NominalHashRate | MaximumTarget | ChannelId | Target | ExtranoncePrefix | GroupChannelId
    | MinimumExtranonceSize | ExtranonceSize | ReasonCode | JobId | MinimumNtime | Version | MerkleRoot
    | SequenceNumber | Nonce | Ntime | Extranonce | LastSequenceNumber | NewSubmitsAcceptedCount
    | NewSharesSum | VersionRollingAllowed | MerklePath | CoinbaseTxPrefix | CoinbaseTxSuffix | PreviousHash
    | Nbits

  type Record = map<Name, Value>

  /** The order in which `encode_payload` writes; the kinds are `Schema`. */
  function WriterNames(m: Message): seq<Name>
  {
    match m
    case SetupConnection => 
      [Protocol, MinimumVersion, MaximumVersion, Flags, EndpointHost, EndpointPort, Vendor, HardwareVersion, Firmware,
       DeviceId]
    case SetupConnectionSuccess => [UsedVersion, Flags]
    case SetupConnectionError => [Flags, ErrorCode]
    case OpenStandardMiningChannel => [RequestId, UserIdentity, NominalHashRate, MaximumTarget]
    case OpenStandardMiningChannelSuccess => [RequestId, ChannelId, Target, ExtranoncePrefix, GroupChannelId]
    case OpenMiningChannelError => [RequestId, ErrorCode]
    case OpenExtendedMiningChannel => [RequestId, UserIdentity, NominalHashRate, MaximumTarget, MinimumExtranonceSize]
    case OpenExtendedMiningChannelSuccess => 
      [RequestId, ChannelId, Target, ExtranonceSize, ExtranoncePrefix, GroupChannelId]
    case NewMiningJob => [ChannelId, JobId, MinimumNtime, Version, MerkleRoot]
    case UpdateChannel => [ChannelId, NominalHashRate, MaximumTarget]
    case UpdateChannelError => [ChannelId, ErrorCode]
    case CloseChannel => [ChannelId, ReasonCode]
    case SetExtranoncePrefix => [ChannelId, ExtranoncePrefix]
    case SubmitSharesStandard => [ChannelId, SequenceNumber, JobId, Nonce, Ntime, Version]
    case SubmitSharesExtended => [ChannelId, SequenceNumber, JobId, Nonce, Ntime, Version, Extranonce]
    case SubmitSharesSuccess => [ChannelId, LastSequenceNumber, NewSubmitsAcceptedCount, NewSharesSum]
    case SubmitSharesError => [ChannelId, SequenceNumber, ErrorCode]
    case NewExtendedMiningJob => 
      [ChannelId, JobId, MinimumNtime, Version, VersionRollingAllowed, MerklePath, CoinbaseTxPrefix, CoinbaseTxSuffix]
    case SetNewPrevHash => [ChannelId, JobId, PreviousHash, MinimumNtime, Nbits]
    case SetTarget => [ChannelId, MaximumTarget]
  }

  /** The order in which the `decode_` functions assign, by name or by the order of the members. */
  function ReaderNames(m: Message): seq<Name>
  {
    match m
    case SetupConnection => 
      [Protocol, MinimumVersion, MaximumVersion, Flags, EndpointHost, EndpointPort, Vendor, HardwareVersion, Firmware,
       DeviceId]
    case SetupConnectionSuccess => [UsedVersion, Flags]
    case SetupConnectionError => [Flags, ErrorCode]
    case OpenStandardMiningChannel => [RequestId, UserIdentity, NominalHashRate, MaximumTarget]
    case OpenStandardMiningChannelSuccess => [RequestId, ChannelId, Target, ExtranoncePrefix, GroupChannelId]
    case OpenMiningChannelError => [RequestId, ErrorCode]
    case OpenExtendedMiningChannel => [RequestId, UserIdentity, NominalHashRate, MaximumTarget, MinimumExtranonceSize]
    case OpenExtendedMiningChannelSuccess => 
      [RequestId, ChannelId, Target, ExtranonceSize, ExtranoncePrefix, GroupChannelId]
    case NewMiningJob => [ChannelId, JobId, MinimumNtime, Version, MerkleRoot]
    case UpdateChannel => [ChannelId, NominalHashRate, MaximumTarget]
    case UpdateChannelError => [ChannelId, ErrorCode]
    case CloseChannel => [ChannelId, ReasonCode]
    case SetExtranoncePrefix => [ChannelId, ExtranoncePrefix]
    case SubmitSharesStandard => [ChannelId, SequenceNumber, JobId, Nonce, Ntime, Version]
    case SubmitSharesExtended => [ChannelId, SequenceNumber, JobId, Nonce, Ntime, Version, Extranonce]
    case SubmitSharesSuccess => [ChannelId, LastSequenceNumber, NewSubmitsAcceptedCount, NewSharesSum]
    case SubmitSharesError => [ChannelId, SequenceNumber, ErrorCode]
    case NewExtendedMiningJob => 
      [ChannelId, JobId, MinimumNtime, Version, VersionRollingAllowed, MerklePath, CoinbaseTxPrefix, CoinbaseTxSuffix]
    case SetNewPrevHash => [ChannelId, JobId, PreviousHash, MinimumNtime, Nbits]
    case SetTarget => [ChannelId, MaximumTarget]
  }

  /** What they read for each. */
  function ReaderSchema(m: Message): seq<Field>
  {
    match m
    case SetupConnection => [U8, U16, U16, U32, STR, U16, STR, STR, STR, STR]
    case SetupConnectionSuccess => [U16, U32]
    case SetupConnectionError => [U32, STR]
    case OpenStandardMiningChannel => [U32, STR, U32, Hash]
    case OpenStandardMiningChannelSuccess => [U32, U32, Hash, B32, U32]
    case OpenMiningChannelError => [U32, STR]
    case OpenExtendedMiningChannel => [U32, STR, U32, Hash, U16]
    case OpenExtendedMiningChannelSuccess => [U32, U32, Hash, U16, B32, U32]
    case NewMiningJob => [U32, U32, Optional, U32, Hash]
    case UpdateChannel => [U32, U32, Hash]
    case UpdateChannelError => [U32, STR]
    case CloseChannel => [U32, STR]
    case SetExtranoncePrefix => [U32, B32]
    case SubmitSharesStandard => [U32, U32, U32, U32, U32, U32]
    case SubmitSharesExtended => [U32, U32, U32, U32, U32, U32, B32]
    case SubmitSharesSuccess => [U32, U32, U32, U64]
    case SubmitSharesError => [U32, U32, STR]
    case NewExtendedMiningJob => [U32, U32, Optional, U32, Bool, Hashes, B64K, B64K]
    case SetNewPrevHash => [U32, U32, Hash, U32, U32]
    case SetTarget => [U32, Hash]
  }

  /** Field by field, reader and writer mean the same name and the same kind. */
  lemma ListsAgree(m: Message)
    ensures ReaderNames(m) == WriterNames(m) && ReaderSchema(m) == Schema(m) && |WriterNames(m)| == |Schema(m)|
  {
  }

  predicate Has(rec: Record, names: seq<Name>)
  {
    forall i :: 0 <= i < |names| ==> names[i] in rec
  }

  function ValuesOf(names: seq<Name>, rec: Record): (values: seq<Value>)
    requires Has(rec, names)
    ensures |values| == |names|
  {
    if names == [] then [] else ValuesOf(names[..|names| - 1], rec) + [rec[names[|names| - 1]]]
  }

  /** The record that results from assigning field after field. */
  function RecordOf(names: seq<Name>, values: seq<Value>): Record
    requires |names| == |values|
  {
    if names == [] then map[]
    else RecordOf(names[..|names| - 1], values[..|names| - 1])[names[|names| - 1] := values[|names| - 1]]
  }

  lemma {:induction false} RecordOfValues(names: seq<Name>, rec: Record)
    requires Has(rec, names)
    ensures forall n :: n in RecordOf(names, ValuesOf(names, rec)) <==> n in names
    ensures forall n :: n in names ==> n in RecordOf(names, ValuesOf(names, rec))
    ensures forall n :: n in names ==> n in rec && RecordOf(names, ValuesOf(names, rec))[n] == rec[n]
  {
    if names != [] {
      var front, last := names[..|names| - 1], names[|names| - 1];
      RecordOfValues(front, rec);
      assert ValuesOf(names, rec)[..|front|] == ValuesOf(front, rec);
      assert names == front + [last];
    }
  }

  /** A message's own fields and no others. */
  predicate IsRecord(m: Message, rec: Record)
  {
    Has(rec, WriterNames(m)) && forall n :: n in rec ==> n in WriterNames(m)
  }

  /** `encode_payload`; nothing when a value is too long. */
  function EncodeRecord(m: Message, rec: Record): Option<seq<byte>>
    requires IsRecord(m, rec)
  {
    var values := ValuesOf(WriterNames(m), rec);
    if AllFit(Schema(m), values) then Some(WriteAll(Schema(m), values)) else None
  }

  /** The `decode_` functions. */
  function DecodeRecord(m: Message, s: seq<byte>): Option<Record>
  {
    ListsAgree(m);
    DecodedSize(ReaderSchema(m), s);
    var values := Decode(ReaderSchema(m), s);
    if values.None? then None else Some(RecordOf(ReaderNames(m), values.value))
  }

  lemma DecodedSize(schema: seq<Field>, s: seq<byte>)
    ensures Decode(schema, s).Some? ==> |Decode(schema, s).value| == |schema|
  {
    TakenSize(schema, s);
  }

  lemma {:induction false} TakenSize(schema: seq<Field>, s: seq<byte>)
    ensures TakeAll(schema, s).Done? ==> |TakeAll(schema, s).value| == |schema|
    decreases |schema|
  {
    if schema != [] && Take(schema[0], s).Done? {
      TakenSize(schema[1..], Take(schema[0], s).rest);
    }
  }

  lemma WholeRecord(m: Message, rec: Record)
    requires IsRecord(m, rec)
    ensures RecordOf(WriterNames(m), ValuesOf(WriterNames(m), rec)) == rec
  {
    var names := WriterNames(m);
    RecordOfValues(names, rec);
    assert forall n :: n in names ==> n in rec;
  }

  /**
   Every message, field by field under its own name, is read as it was written; with anything after it, not at all.
   */
  lemma RecordRoundTrip(m: Message, rec: Record, trailing: seq<byte>)
    requires IsRecord(m, rec) && EncodeRecord(m, rec).Some?
    ensures DecodeRecord(m, EncodeRecord(m, rec).value) == Some(rec)
    ensures trailing != [] ==> DecodeRecord(m, EncodeRecord(m, rec).value + trailing) == None
  {
    ListsAgree(m);
    var values := ValuesOf(WriterNames(m), rec);
    MessageRoundTrip(m, values, trailing);
    WholeRecord(m, rec);
  }
}
