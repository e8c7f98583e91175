/** Fixed-width little-endian integers as they stand on the wire. */
module Wire {
  import opened Numbers

  type u16 = x: int | 0 <= x < 0x1_0000
  type u24 = x: int | 0 <= x < 0x100_0000
  type u32 = x: int | 0 <= x < 0x1_0000_0000
  type u64 = x: int | 0 <= x < 0x1_0000_0000_0000_0000

  function LittleEndian(v: nat, n: nat): (s: seq<byte>)
    ensures |s| == n
  {
    ToDigits(v, n, 256)
  }

  function FromLittleEndian(s: seq<byte>): (v: nat)
  {
    ValueBound(s, 256);
    Value(s, 256)
  }

  lemma Widths()
    ensures Pow(256, 1) == 0x100 && Pow(256, 2) == 0x1_0000 && Pow(256, 3) == 0x100_0000
    ensures Pow(256, 4) == 0x1_0000_0000 && Pow(256, 8) == 0x1_0000_0000_0000_0000
  {
    PowAdd(256, 2, 1);
    PowAdd(256, 2, 2);
    PowAdd(256, 4, 4);
  }

  /** Written then read back: the value, as long as it fits. */
  lemma LittleEndianReads(v: nat, n: nat)
    requires v < Pow(256, n)
    ensures FromLittleEndian(LittleEndian(v, n)) == v
  {
    ToDigitsValue(v, n, 256);
  }

  /** Read then written back: the same bytes. */
  lemma LittleEndianWrites(s: seq<byte>)
    ensures FromLittleEndian(s) < Pow(256, |s|)
    ensures LittleEndian(FromLittleEndian(s), |s|) == s
  {
    ToDigitsOfValue(s, 256);
  }
}
