/** Segwit addresses: a human-readable prefix, a version and a witness program under a bech32 or bech32m checksum. */
module SegwitAddress {
  import opened Options
  import opened Bech32Radix
  import Code = Bech32Checksum

  const CHARSET := "qpzry9x8gf2tvdw0s3jn54khce6mua7l"

  datatype Witness = Witness(version: nat, program: seq<nat>)

  // ---------- characters ----------

  function IndexFrom(c: char, i: nat): Option<nat>
    requires i <= 32
    decreases 32 - i
  {
    if i == 32 then None else if CHARSET[i] == c then Some(i) else IndexFrom(c, i + 1)
  }

  /** `charset_index` */
  function SymbolOf(c: char): Option<nat>
  {
    IndexFrom(c, 0)
  }

  lemma {:induction false} IndexFromFinds(c: char, i: nat)
    requires i <= 32
    ensures IndexFrom(c, i).Some? ==> i <= IndexFrom(c, i).value < 32 && CHARSET[IndexFrom(c, i).value] == c
    ensures IndexFrom(c, i).None? ==> forall j :: i <= j < 32 ==> CHARSET[j] != c
    ensures IndexFrom(c, i).Some? ==> forall j :: i <= j < IndexFrom(c, i).value ==> CHARSET[j] != c
    decreases 32 - i
  {
    if i < 32 && CHARSET[i] != c {
      IndexFromFinds(c, i + 1);
    }
  }

  function Place(c: char): nat
  {
    match c
    case 'q' => 0 case 'p' => 1 case 'z' => 2 case 'r' => 3 case 'y' => 4 case '9' => 5 case 'x' => 6 case '8' => 7
    case 'g' => 8 case 'f' => 9 case '2' => 10 case 't' => 11 case 'v' => 12 case 'd' => 13 case 'w' => 14
    case '0' => 15
    case 's' => 16 case '3' => 17 case 'j' => 18 case 'n' => 19 case '5' => 20 case '4' => 21 case 'k' => 22
    case 'h' => 23
    case 'c' => 24 case 'e' => 25 case '6' => 26 case 'm' => 27 case 'u' => 28 case 'a' => 29 case '7' => 30
    case 'l' => 31
    case _ => 32
  }

  lemma PlaceInCharset(i: nat)
    requires i < 32
    ensures Place(CHARSET[i]) == i
  {
  }

  lemma CharsetDistinct(i: nat, j: nat)
    requires i < 32 && j < 32 && CHARSET[i] == CHARSET[j]
    ensures i == j
  {
    PlaceInCharset(i);
    PlaceInCharset(j);
  }

  lemma SymbolOfCharset(i: nat)
    requires i < 32
    ensures SymbolOf(CHARSET[i]) == Some(i)
  {
    IndexFromFinds(CHARSET[i], 0);
    if SymbolOf(CHARSET[i]).Some? {
      CharsetDistinct(i, SymbolOf(CHARSET[i]).value);
    }
  }

  predicate IsUpper(c: char)
  {
    'A' <= c <= 'Z'
  }

  predicate IsLower(c: char)
  {
    'a' <= c <= 'z'
  }

  predicate Printable(c: char)
  {
    33 as char <= c <= 126 as char
  }

  lemma CharsetPlain(i: nat)
    requires i < 32
    ensures Printable(CHARSET[i]) && !IsUpper(CHARSET[i]) && CHARSET[i] != '1'
  {
  }

  function Lower(c: char): char
  {
    if IsUpper(c) then (c as int + 32) as char else c
  }

  function Lowered(text: string): (t: string)
    ensures |t| == |text|
  {
    seq(|text|, i requires 0 <= i < |text| => Lower(text[i]))
  }

  predicate WellCased(text: string)
  {
    && (forall i :: 0 <= i < |text| ==> Printable(text[i]))
    && ((forall i :: 0 <= i < |text| ==> !IsUpper(text[i])) || (forall i :: 0 <= i < |text| ==> !IsLower(text[i])))
  }

  function Chars(symbols: seq<nat>): (text: string)
    requires Code.Symbols(symbols)
    ensures |text| == |symbols|
  {
    seq(|symbols|, i requires 0 <= i < |symbols| => CHARSET[symbols[i]])
  }

  function SymbolsIn(text: string): (s: Option<seq<nat>>)
    ensures s.Some? ==> |s.value| == |text|
  {
    if text == [] then Some([])
    else
      var first, rest := SymbolOf(text[0]), SymbolsIn(text[1..]);
      if first.None? || rest.None? then None else Some([first.value] + rest.value)
  }

  lemma {:induction false} SymbolsInChars(symbols: seq<nat>)
    requires Code.Symbols(symbols)
    ensures SymbolsIn(Chars(symbols)) == Some(symbols)
  {
    if symbols != [] {
      SymbolOfCharset(symbols[0]);
      assert Chars(symbols)[1..] == Chars(symbols[1..]);
      SymbolsInChars(symbols[1..]);
      assert [symbols[0]] + symbols[1..] == symbols;
    }
  }

  lemma {:induction false} CharsOfSymbols(text: string)
    requires SymbolsIn(text).Some?
    ensures Code.Symbols(SymbolsIn(text).value) && Chars(SymbolsIn(text).value) == text
  {
    if text != [] {
      IndexFromFinds(text[0], 0);
      CharsOfSymbols(text[1..]);
      var s, r := SymbolsIn(text).value, SymbolsIn(text[1..]).value;
      assert s == [s[0]] + r && Code.Symbols(s);
      assert Chars(s) == [CHARSET[s[0]]] + Chars(r);
      assert text == [text[0]] + text[1..];
    } else {
      assert Chars([]) == [];
    }
  }

  /** The last `1`, as `rfind` gives it. */
  function LastOne(text: string): (k: Option<nat>)
    ensures k.Some? ==> k.value < |text| && text[k.value] == '1'
    ensures k.Some? ==> forall i :: k.value < i < |text| ==> text[i] != '1'
    ensures k.None? ==> forall i :: 0 <= i < |text| ==> text[i] != '1'
  {
    if text == [] then None
    else if text[|text| - 1] == '1' then Some(|text| - 1)
    else LastOne(text[..|text| - 1])
  }

  // ---------- checksummed strings ----------

  /** `hrp_expand` */
  function Expanded(hrp: string): seq<nat>
  {
    seq(|hrp|, i requires 0 <= i < |hrp| => hrp[i] as int / 32) + [0]
        + seq(|hrp|, i requires 0 <= i < |hrp| => hrp[i] as int % 32)
  }

  predicate ByteString(text: string)
  {
    forall i :: 0 <= i < |text| ==> text[i] as int < 256
  }

  lemma ExpandedSymbols(hrp: string)
    requires ByteString(hrp)
    ensures Code.Symbols(Expanded(hrp))
  {
  }

  datatype Decoded = Decoded(hrp: string, data: seq<nat>, constant: nat)

  /** `bech32_decode`: the prefix, the data without its checksum, and which constant the checksum meets. */
  function Decode(text: string): Option<Decoded>
  {
    if |text| < 8 || |text| > 90 || !WellCased(text) then None
    else
      var t := Lowered(text);
      var k := LastOne(t);
      if k.None? || k.value == 0 || k.value + 7 > |t| then None
      else
        var hrp, symbols := t[..k.value], SymbolsIn(t[k.value + 1..]);
        if symbols.None? then None
        else
          var residue := Code.Residue(Expanded(hrp) + symbols.value);
          if residue != Code.BECH32 && residue != Code.BECH32M then None
          else Some(Decoded(hrp, symbols.value[..|symbols.value| - 6], residue))
  }

  function ConstantFor(version: nat): nat
  {
    if version == 0 then Code.BECH32 else Code.BECH32M
  }

  predicate GoodProgram(version: nat, program: seq<nat>)
  {
    && version <= 16 && 2 <= |program| <= 40
    && (version == 0 ==> |program| == 20 || |program| == 32)
  }

  /** `segwit_address_decode` */
  function AddressDecode(hrp: string, text: string): Option<Witness>
  {
    var decoded := Decode(text);
    if decoded.None? || decoded.value.hrp != hrp || decoded.value.data == [] || decoded.value.data[0] > 16 then None
    else
      var version, program := decoded.value.data[0], Regroup(decoded.value.data[1..], SYMBOL, BYTE, false);
      if program.None? || !GoodProgram(version, program.value) || decoded.value.constant != ConstantFor(version)
          then None
      else Some(Witness(version, program.value))
  }

  /** What the encoder accepts; it does not look at the lengths of version 0. */
  predicate Encodable(hrp: string, w: Witness)
  {
    w.version <= 16 && 2 <= |w.program| <= 40 && Digits(w.program, BYTE) && ByteString(hrp)
  }

  lemma BytesGiveSymbols(x: seq<nat>)
    requires Digits(x, BYTE)
    ensures var y := Regroup(x, BYTE, SYMBOL, true);
            y.Some? && Code.Symbols(y.value) && 5 * |y.value| < 8 * |x| + 5
  {
    var y := SymbolsOfBytes(x);
    FillCounts(|x|, |y|);
    Code.Powers();
  }

  function DataOf(w: Witness): (data: seq<nat>)
    requires w.version <= 16 && Digits(w.program, BYTE)
    ensures Code.Symbols(data) && |data| > 0
  {
    BytesGiveSymbols(w.program);
    [w.version] + Regroup(w.program, BYTE, SYMBOL, true).value
  }

  /** `segwit_address_encode` */
  function AddressEncode(hrp: string, w: Witness): string
    requires Encodable(hrp, w)
  {
    ExpandedSymbols(hrp);
    hrp + "1" + Chars(DataOf(w) + Code.Checksum(Expanded(hrp) + DataOf(w), ConstantFor(w.version)))
  }

  // ---------- encoding, then decoding ----------

  predicate PlainText(text: string)
  {
    forall i :: 0 <= i < |text| ==> Printable(text[i]) && !IsUpper(text[i])
  }

  lemma CharsPlain(symbols: seq<nat>)
    requires Code.Symbols(symbols)
    ensures PlainText(Chars(symbols)) && forall i :: 0 <= i < |symbols| ==> Chars(symbols)[i] != '1'
  {
    forall i | 0 <= i < |symbols|
      ensures Printable(Chars(symbols)[i]) && !IsUpper(Chars(symbols)[i]) && Chars(symbols)[i] != '1'
    {
      CharsetPlain(symbols[i]);
    }
  }

  lemma LoweredPlain(text: string)
    requires PlainText(text)
    ensures Lowered(text) == text && WellCased(text)
  {
  }

  /** A plain string with one separator before its symbols decodes by its residue alone. */
  lemma DecodeOfParts(hrp: string, symbols: seq<nat>)
    requires hrp != [] && PlainText(hrp) && Code.Symbols(symbols) && |symbols| >= 6
    ensures var text, residue := hrp + "1" + Chars(symbols), Code.Residue(Expanded(hrp) + symbols);
            Decode(text) == if |text| > 90 || (residue != Code.BECH32 && residue != Code.BECH32M) then None
                            else Some(Decoded(hrp, symbols[..|symbols| - 6], residue))
  {
    var text := hrp + "1" + Chars(symbols);
    CharsPlain(symbols);
    assert PlainText(text);
    LoweredPlain(text);
    assert text[|hrp|] == '1';
    assert LastOne(text) == Some(|hrp|) by {
      assert forall i :: |hrp| < i < |text| ==> text[i] == Chars(symbols)[i - |hrp| - 1];
    }
    assert text[..|hrp|] == hrp && text[|hrp| + 1..] == Chars(symbols);
    SymbolsInChars(symbols);
  }

  /**
   An encoded address decodes to the version and program it was made from, exactly when the program has a length its
   version allows and the whole address is at most ninety characters.
   */
  lemma EncodeThenDecode(hrp: string, w: Witness)
    requires Encodable(hrp, w) && hrp != [] && PlainText(hrp)
    ensures AddressDecode(hrp, AddressEncode(hrp, w)) ==
            if |AddressEncode(hrp, w)| <= 90 && GoodProgram(w.version, w.program) then Some(w) else None
  {
    var data := DataOf(w);
    ExpandedSymbols(hrp);
    var values := Expanded(hrp) + data;
    var checksum := Code.Checksum(values, ConstantFor(w.version));
    Code.ChecksumVerifies(values, ConstantFor(w.version));
    assert Expanded(hrp) + (data + checksum) == values + checksum;
    DecodeOfParts(hrp, data + checksum);
    assert (data + checksum)[..|data|] == data;
    assert data[1..] == Regroup(w.program, BYTE, SYMBOL, true).value;
    BytesRoundTrip(w.program);
  }

  /** Every prefix the pool uses leaves room for every program. */
  lemma PrefixesInUse(hrp: string, w: Witness)
    requires hrp == "bc" || hrp == "tb" || hrp == "bcrt"
    requires w.version <= 16 && Digits(w.program, BYTE) && GoodProgram(w.version, w.program)
    ensures Encodable(hrp, w) && AddressDecode(hrp, AddressEncode(hrp, w)) == Some(w)
  {
    BytesGiveSymbols(w.program);
    assert PlainText(hrp);
    EncodeThenDecode(hrp, w);
  }

  // ---------- decoding, then encoding ----------

  lemma LoweredIsPlain(text: string)
    requires WellCased(text)
    ensures PlainText(Lowered(text))
  {
  }

  /** The parts of a string that decodes. */
  lemma PartsOfDecoded(text: string) returns (symbols: seq<nat>)
    requires Decode(text).Some?
    ensures var d := Decode(text).value;
            && Code.Symbols(symbols) && |symbols| >= 6 && d.data == symbols[..|symbols| - 6]
            && Lowered(text) == d.hrp + "1" + Chars(symbols) && d.hrp != [] && PlainText(d.hrp)
            && Code.Residue(Expanded(d.hrp) + symbols) == d.constant && |text| <= 90
            && (d.constant == Code.BECH32 || d.constant == Code.BECH32M)
  {
    var t := Lowered(text);
    var k := SplitOfDecoded(text);
    LoweredIsPlain(text);
    CharsOfSymbols(t[k + 1..]);
    symbols := SymbolsIn(t[k + 1..]).value;
    AroundSeparator(t, k);
  }

  /** Where an accepted text is split, and what its two parts gave. */
  lemma SplitOfDecoded(text: string) returns (k: nat)
    requires Decode(text).Some?
    ensures var t, d := Lowered(text), Decode(text).value;
            && WellCased(text) && 0 < k && k + 7 <= |t| && t[k] == '1' && |text| <= 90
            && d.hrp == t[..k] && SymbolsIn(t[k + 1..]).Some?
            && (var symbols := SymbolsIn(t[k + 1..]).value;
                && |symbols| >= 6 && d.data == symbols[..|symbols| - 6]
                    && Code.Residue(Expanded(d.hrp) + symbols) == d.constant)
            && (d.constant == Code.BECH32 || d.constant == Code.BECH32M)
  {
    var t := Lowered(text);
    k := LastOne(t).value;
    var symbols := SymbolsIn(t[k + 1..]).value;
    assert |symbols| == |t| - k - 1;
    assert Decode(text).value == Decoded(t[..k], symbols[..|symbols| - 6], Code.Residue(Expanded(t[..k]) + symbols));
  }

  lemma AroundSeparator(t: string, k: nat)
    requires k < |t| && t[k] == '1'
    ensures t == t[..k] + "1" + t[k + 1..]
  {
  }

  /** Only one checksum fits given data and constant. */
  lemma ChecksumUnique(values: seq<nat>, checksum: seq<nat>, constant: nat)
    requires Code.Symbols(values) && Code.Symbols(checksum) && |checksum| == 6 && constant < 0x4000_0000
    requires Code.Residue(values + checksum) == constant
    ensures checksum == Code.Checksum(values, constant)
  {
    var made := Code.Checksum(values, constant);
    Code.ChecksumVerifies(values, constant);
    assert values + checksum + [] == values + checksum && values + made + [] == values + made;
    if checksum != made {
      Code.BurstIsDetected(values, checksum, made, []);
    }
  }

  lemma DataOfDecoded(data: seq<nat>, program: seq<nat>)
    requires data != [] && data[0] <= 16 && Regroup(data[1..], SYMBOL, BYTE, false) == Some(program)
    ensures Digits(program, BYTE) && DataOf(Witness(data[0], program)) == data
  {
    SymbolsRoundTrip(data[1..], program);
    DataParts(Witness(data[0], program), data);
  }

  lemma DataParts(w: Witness, data: seq<nat>)
    requires data != [] && data[0] == w.version && w.version <= 16 && Digits(w.program, BYTE)
    requires Regroup(w.program, BYTE, SYMBOL, true) == Some(data[1..])
    ensures DataOf(w) == data
  {
    assert data == [data[0]] + data[1..];
  }

  lemma AddressOfParts(hrp: string, w: Witness, symbols: seq<nat>)
    requires Encodable(hrp, w) && Code.Symbols(symbols) && |symbols| >= 6 && symbols[..|symbols| - 6] == DataOf(w)
    requires Code.Residue(Expanded(hrp) + symbols) == ConstantFor(w.version)
    ensures AddressEncode(hrp, w) == hrp + "1" + Chars(symbols)
  {
    var data, checksum := DataOf(w), symbols[|symbols| - 6..];
    assert symbols == data + checksum;
    ExpandedSymbols(hrp);
    assert Expanded(hrp) + symbols == (Expanded(hrp) + data) + checksum;
    ChecksumUnique(Expanded(hrp) + data, checksum, ConstantFor(w.version));
  }

  /** An accepted address is the encoding of what it decodes to, up to letter case: no two spellings are accepted. */
  lemma DecodeThenEncode(hrp: string, text: string)
    requires AddressDecode(hrp, text).Some?
    ensures Encodable(hrp, AddressDecode(hrp, text).value)
    ensures AddressEncode(hrp, AddressDecode(hrp, text).value) == Lowered(text)
  {
    var w, d := AddressDecode(hrp, text).value, Decode(text).value;
    var symbols := PartsOfDecoded(text);
    DataOfDecoded(d.data, w.program);
    AddressOfParts(hrp, w, symbols);
  }

  lemma AcceptedResidue(hrp: string, symbols: seq<nat>)
    requires hrp != [] && PlainText(hrp) && Code.Symbols(symbols) && |symbols| >= 7
    requires AddressDecode(hrp, hrp + "1" + Chars(symbols)).Some?
    ensures Code.Residue(Expanded(hrp) + symbols) == ConstantFor(symbols[0])
  {
    DecodeOfParts(hrp, symbols);
  }

  /** Changing up to six characters in a row, the version left alone, never gives another accepted address. */
  lemma NearbyAddressRejected(hrp: string, p: seq<nat>, m: seq<nat>, m': seq<nat>, q: seq<nat>)
    requires hrp != [] && PlainText(hrp) && p != [] && |m| == |m'| <= 6 && m != m' && |p + m + q| >= 7
    requires Code.Symbols(p) && Code.Symbols(m) && Code.Symbols(m') && Code.Symbols(q)
    requires AddressDecode(hrp, hrp + "1" + Chars(p + m + q)).Some?
    ensures AddressDecode(hrp, hrp + "1" + Chars(p + m' + q)).None?
  {
    if AddressDecode(hrp, hrp + "1" + Chars(p + m' + q)).Some? {
      AcceptedResidue(hrp, p + m + q);
      AcceptedResidue(hrp, p + m' + q);
      ExpandedSymbols(hrp);
      Code.SameResidueSameBurst(Expanded(hrp), p, m, m', q);
    }
  }
}
