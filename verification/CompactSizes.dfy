/** Bitcoin's CompactSize integers, as the node's serialization uses them: shortest form only. */
module CompactSizes {
  import opened Numbers
  import opened Wire
  import opened Codecs

  /** `encode_varint` */
  function Write(v: nat): seq<byte>
  {
    if v < 0xfd then [v]
    else if v <= 0xffff then [0xfd] + LittleEndian(v, 2)
    else if v <= 0xffff_ffff then [0xfe] + LittleEndian(v, 4)
    else [0xff] + LittleEndian(v, 8)
  }

  /** `decode_varint` with the bytes it used; nothing when the input is too short. */
  function Decode(s: seq<byte>): Parse<nat>
  {
    if s == [] then Fail
    else if s[0] < 0xfd then Done(s[0], s[1..])
    else
      var n := if s[0] == 0xfd then 2 else if s[0] == 0xfe then 4 else 8;
      if |s| < 1 + n then Fail else Done(FromLittleEndian(s[1..1 + n]), s[1 + n..])
  }

  /** `Cursor::compact_size`: longer forms of small numbers are refused. */
  function Take(s: seq<byte>): Parse<nat>
  {
    var d := Decode(s);
    if d.Fail? then Fail
    else
      var consumed := |s| - |d.rest|;
      if (consumed == 3 && d.value < 0xfd) || (consumed == 5 && d.value <= 0xffff)
          || (consumed == 9 && d.value <= 0xffff_ffff)
      then Fail else d
  }

  predicate Fits(v: nat)
  {
    v < 0x1_0000_0000_0000_0000
  }

  lemma TakeReads(v: nat, rest: seq<byte>)
    requires Fits(v)
    ensures Take(Write(v) + rest) == Done(v, rest)
  {
    var s := Write(v) + rest;
    if v >= 0xfd {
      var n := if v <= 0xffff then 2 else if v <= 0xffff_ffff then 4 else 8;
      Widths();
      assert s[1..1 + n] == LittleEndian(v, n) && s[1 + n..] == rest;
      LittleEndianReads(v, n);
    } else {
      assert s[1..] == rest;
    }
  }

  lemma LongForm(s: seq<byte>, n: nat)
    requires |s| >= 1 + n
    ensures FromLittleEndian(s[1..1 + n]) < Pow(256, n)
    ensures s == [s[0]] + LittleEndian(FromLittleEndian(s[1..1 + n]), n) + s[1 + n..]
  {
    LittleEndianWrites(s[1..1 + n]);
    assert s == [s[0]] + s[1..1 + n] + s[1 + n..];
  }

  lemma TakeAccepts(s: seq<byte>)
    requires Take(s).Done?
    ensures Fits(Take(s).value) && s == Write(Take(s).value) + Take(s).rest
  {
    Widths();
    if s[0] < 0xfd {
      assert s == [s[0]] + s[1..];
    } else if s[0] == 0xfd {
      LongForm(s, 2);
    } else if s[0] == 0xfe {
      LongForm(s, 4);
    } else {
      LongForm(s, 8);
    }
  }
}
