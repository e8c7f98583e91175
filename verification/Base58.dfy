/** Base58 and Base58Check: numerals in base 58 and base 256 with leading zeros carried over one for one. */
module Base58 {
  import opened Numbers
  import opened Sequences
  import opened Options

  const ALPHABET := "123456789" + "ABCDEFGH" + "JKLMN" + "PQRSTUVWXYZ" + "abcdefghijk" + "mnopqrstuvwxyz"

  // ---------- numerals without leading zeros ----------

  /** Least significant digit first, ending in a nonzero digit if it has any. */
  predicate Trimmed(s: seq<int>, b: nat)
  {
    AreDigits(s, b) && (s != [] ==> s[|s| - 1] != 0)
  }

  function Numeral(v: nat, b: nat): (s: seq<int>)
    requires b > 1
  {
    if v == 0 then []
    else
      Quotient(v, b, v / b, v % b);
      Smaller(v, b);
      [v % b] + Numeral(v / b, b)
  }

  lemma Smaller(v: nat, b: nat)
    requires v > 0 && b > 1
    ensures 0 <= v / b < v
  {
    Quotient(v, b, v / b, v % b);
    if v / b >= v {
      MulMonotone(v / b, 2, b);
    }
  }

  lemma {:induction false} NumeralTrimmed(v: nat, b: nat)
    requires b > 1
    ensures Trimmed(Numeral(v, b), b) && Value(Numeral(v, b), b) == v
    ensures v > 0 ==> Numeral(v, b) != []
  {
    if v > 0 {
      var q, r := v / b, v % b;
      Quotient(v, b, q, r);
      Smaller(v, b);
      NumeralTrimmed(q, b);
      assert Numeral(v, b)[1..] == Numeral(q, b);
    }
  }

  /** A trimmed numeral is determined by its value. */
  lemma {:induction false} TrimmedUnique(s: seq<int>, b: nat)
    requires b > 1 && Trimmed(s, b)
    ensures Value(s, b) >= 0 && (s != [] ==> Value(s, b) > 0)
    ensures Numeral(Value(s, b), b) == s
  {
    if s != [] {
      var q, r := Value(s[1..], b), s[0];
      TrimmedUnique(s[1..], b);
      if q > 0 {
        MulMonotone(q, 1, b);
      }
      DivModUnique(Value(s, b), b, q, r);
      assert s == [r] + s[1..];
    }
  }

  // ---------- multiply and add, in place ----------

  /** The digits below `i` are done; the carry and the digits from `i` on make up the rest. */
  ghost predicate Carrying(digits: seq<int>, before: seq<int>, i: nat, carry: int, f: nat, t: nat, added: int)
  {
    && |digits| == |before| && i <= |digits| && AreDigits(digits, t) && 0 <= carry < f
    && digits[i..] == before[i..]
    && Value(digits[..i], t) + Pow(t, i) * carry == f * Value(before[..i], t) + added
  }

  lemma SumRange(carry: int, d: int, f: nat, t: nat) returns (q: int, r: int)
    requires t > 1 && 0 <= carry < f && 0 <= d < t
    ensures 0 <= carry + d * f < t * f
    ensures q == (carry + d * f) / t && r == (carry + d * f) % t
    ensures carry + d * f == t * q + r && 0 <= q < f && 0 <= r < t
  {
    var sum := carry + d * f;
    MulMonotone(f, 0, d);
    MulMonotone(f, d, t - 1);
    assert f * (t - 1) == t * f - f && d * f == f * d;
    q, r := sum / t, sum % t;
    Quotient(sum, t, q, r);
    if q >= f {
      MulMonotone(t, f, q);
    }
  }

  lemma PrefixUpdate(digits: seq<int>, before: seq<int>, i: nat, r: int)
    requires |digits| == |before| && i < |digits| && digits[i..] == before[i..]
    ensures before[i] == digits[i]
    ensures digits[i := r][..i + 1] == digits[..i] + [r] && before[..i + 1] == before[..i] + [digits[i]]
    ensures digits[i := r][i + 1..] == before[i + 1..]
  {
    assert before[i] == before[i..][0] == digits[i..][0];
    assert digits[i + 1..] == digits[i..][1..] && before[i + 1..] == before[i..][1..];
  }

  lemma CarryStep(digits: seq<int>, before: seq<int>, i: nat, carry: int, f: nat, t: nat, added: int)
    requires t > 1 && f > 0 && i < |digits| && Carrying(digits, before, i, carry, f, t, added)
    ensures var sum := carry + digits[i] * f;
            0 <= sum < t * f && Carrying(digits[i := sum % t], before, i + 1, sum / t, f, t, added)
  {
    var d := digits[i];
    var q, r := SumRange(carry, d, f, t);
    PrefixUpdate(digits, before, i, r);
    ValueAppend(digits[..i], r, t);
    ValueAppend(before[..i], d, t);
    CarryAlgebra(Value(digits[..i], t), Value(before[..i], t), Pow(t, i), carry, d, f, t, q, r, added);
  }

  lemma CarryAlgebra(x: int, y: int, p: int, carry: int, d: int, f: int, t: int, q: int, r: int, added: int)
    requires x + p * carry == f * y + added && carry + d * f == t * q + r
    ensures x + p * r + (t * p) * q == f * (y + p * d) + added
  {
    assert (t * p) * q == p * (t * q);
    assert p * r + p * (t * q) == p * (carry + d * f);
    assert p * (carry + d * f) == p * carry + p * (d * f);
    assert f * (y + p * d) == f * y + f * (p * d);
    assert p * (d * f) == f * (p * d);
  }

  ghost predicate Pushing(digits: seq<int>, carry: int, t: nat, total: int)
  {
    AreDigits(digits, t) && carry >= 0 && Value(digits, t) + Pow(t, |digits|) * carry == total
  }

  lemma PushAlgebra(v: int, p: int, t: int, q: int, r: int, carry: int)
    requires carry == t * q + r
    ensures v + p * r + (t * p) * q == v + p * carry
  {
    assert p * (t * q + r) == p * (t * q) + p * r;
    assert p * (t * q) == (t * p) * q;
  }

  lemma PushStep(digits: seq<int>, carry: int, t: nat, total: int)
    requires t > 1 && carry > 0 && Pushing(digits, carry, t, total)
    ensures 0 <= carry / t < carry && 0 <= carry % t < t && (carry / t == 0 ==> carry % t != 0)
    ensures Pushing(digits + [carry % t], carry / t, t, total)
  {
    var q, r := carry / t, carry % t;
    Quotient(carry, t, q, r);
    Smaller(carry, t);
    ValueAppend(digits, r, t);
    PushAlgebra(Value(digits, t), Pow(t, |digits|), t, q, r, carry);
  }

  method PushCarry(digits0: seq<int>, carry0: int, t: nat, ghost total: int) returns (digits: seq<int>)
    requires t > 1 && Pushing(digits0, carry0, t, total)
    ensures AreDigits(digits, t) && Value(digits, t) == total
    ensures carry0 == 0 ==> digits == digits0
    ensures carry0 > 0 ==> |digits| > 0 && digits[|digits| - 1] != 0
  {
    digits := digits0;
    var carry := carry0;
    while carry != 0
      invariant Pushing(digits, carry, t, total)
      invariant carry0 == 0 ==> digits == digits0 && carry == 0
      invariant carry0 > 0 && carry == 0 ==> |digits| > 0 && digits[|digits| - 1] != 0
      decreases carry
    {
      PushStep(digits, carry, t, total);
      digits := digits + [carry % t];
      carry := carry / t;
    }
  }

  /** One input digit into the running numeral: `digits * f + value`, still trimmed. */
  method MultiplyAdd(before: seq<int>, f: nat, t: nat, value: nat) returns (digits: seq<int>)
    requires t > 1 && value < f && Trimmed(before, t)
    ensures Trimmed(digits, t) && Value(digits, t) == f * Value(before, t) + value
  {
    digits := before;
    var carry: int := value;
    for i := 0 to |before|
      invariant |digits| == |before| && Carrying(digits, before, i, carry, f, t, value)
    {
      CarryStep(digits, before, i, carry, f, t, value);
      var sum := carry + digits[i] * f;
      digits := digits[i := sum % t];
      carry := sum / t;
    }
    assert digits[..|before|] == digits && before[..|before|] == before;
    ghost var multiplied := digits;
    digits := PushCarry(digits, carry, t, f * Value(before, t) + value);
    if carry == 0 {
      StillTrimmed(multiplied, before, f, t, value);
    }
  }

  lemma TopDigit(s: seq<int>, n: nat, t: nat)
    requires t > 1 && |s| == n + 1 && AreDigits(s, t)
    ensures s[n] == 0 ==> Value(s, t) < Pow(t, n)
    ensures s[n] != 0 ==> Value(s, t) >= Pow(t, n)
  {
    assert s == s[..n] + [s[n]];
    ValueAppend(s[..n], s[n], t);
    ValueBound(s[..n], t);
    if s[n] != 0 {
      MulMonotone(Pow(t, n), 1, s[n]);
    }
  }

  /** Without a final carry the numeral keeps its length, so its last digit cannot have become zero. */
  lemma StillTrimmed(digits: seq<int>, before: seq<int>, f: nat, t: nat, value: nat)
    requires t > 1 && f > 0 && |digits| == |before| && AreDigits(digits, t) && Trimmed(before, t)
    requires Value(digits, t) == f * Value(before, t) + value
    ensures Trimmed(digits, t)
  {
    if digits != [] {
      var n := |digits| - 1;
      TopDigit(digits, n, t);
      TopDigit(before, n, t);
      assert Pow(t, n) > 0;
      Grows(Value(before, t), f, value);
    }
  }

  lemma Grows(x: int, f: nat, v: nat)
    requires x >= 0 && f > 0
    ensures f * x + v >= x
  {
    MulMonotone(x, 1, f);
  }

  // ---------- from one base to another ----------

  function Zeros(n: nat): seq<int>
  {
    seq(n, _ => 0)
  }

  function LeadingZeros(s: seq<int>): (n: nat)
    ensures n <= |s|
    ensures forall i :: 0 <= i < n ==> s[i] == 0
    ensures n < |s| ==> s[n] != 0
  {
    if s == [] || s[0] != 0 then 0 else 1 + LeadingZeros(s[1..])
  }

  /** The number a digit string spells, most significant digit first. */
  function Spelled(s: seq<int>, b: nat): int
  {
    Value(Reversed(s), b)
  }

  lemma SpelledAppend(s: seq<int>, d: int, b: nat)
    ensures Spelled(s + [d], b) == b * Spelled(s, b) + d
  {
    assert Reversed(s + [d])[1..] == Reversed(s);
  }

  lemma SpelledZeros(n: nat, s: seq<int>, b: nat)
    ensures Spelled(Zeros(n) + s, b) == Spelled(s, b)
  {
    assert Reversed(Zeros(n) + s) == Reversed(s) + seq(n, i => 0);
    ValueConcat(Reversed(s), seq(n, i => 0), b);
    ValueZeros(n, b);
  }

  /** The same number in another base, with as many leading zeros as before. */
  function Transcoded(s: seq<int>, f: nat, t: nat): seq<int>
    requires f > 0 && t > 1 && AreDigits(s, f)
  {
    ValueBound(Reversed(s), f);
    Zeros(LeadingZeros(s)) + Reversed(Numeral(Spelled(s, f), t))
  }

  lemma LeadingZerosOf(n: nat, s: seq<int>)
    requires s != [] ==> s[0] != 0
    ensures LeadingZeros(Zeros(n) + s) == n
  {
    var all := Zeros(n) + s;
    assert forall i :: 0 <= i < n ==> all[i] == 0;
    assert n < |all| ==> all[n] != 0;
  }

  lemma TranscodedDigits(s: seq<int>, f: nat, t: nat)
    requires f > 1 && t > 1 && AreDigits(s, f)
    ensures AreDigits(Transcoded(s, f, t), t) && LeadingZeros(Transcoded(s, f, t)) == LeadingZeros(s)
    ensures Spelled(Transcoded(s, f, t), t) == Spelled(s, f)
  {
    ValueBound(Reversed(s), f);
    var v := Spelled(s, f);
    NumeralTrimmed(v, t);
    var r := Reversed(Numeral(v, t));
    LeadingZerosOf(LeadingZeros(s), r);
    SpelledZeros(LeadingZeros(s), r, t);
    ReversedTwice(Numeral(v, t));
  }

  /** What follows the leading zeros is a trimmed numeral of the same number. */
  lemma AfterZeros(s: seq<int>, f: nat)
    requires f > 1 && AreDigits(s, f)
    ensures var rest := s[LeadingZeros(s)..];
            s == Zeros(LeadingZeros(s)) + rest && Spelled(s, f) >= 0 && Numeral(Spelled(s, f), f) == Reversed(rest)
  {
    var z := LeadingZeros(s);
    var rest := s[z..];
    assert s == Zeros(z) + rest;
    SpelledZeros(z, rest, f);
    ReversedTrimmed(rest, f);
    TrimmedUnique(Reversed(rest), f);
  }

  lemma ReversedTrimmed(rest: seq<int>, f: nat)
    requires AreDigits(rest, f) && (rest != [] ==> rest[0] != 0)
    ensures Trimmed(Reversed(rest), f)
  {
  }

  /** Going to another base and back gives the digits that were there, leading zeros included. */
  lemma TranscodeTwice(s: seq<int>, f: nat, t: nat)
    requires f > 1 && t > 1 && AreDigits(s, f)
    ensures AreDigits(Transcoded(s, f, t), t)
    ensures Transcoded(Transcoded(s, f, t), t, f) == s
  {
    TranscodedDigits(s, f, t);
    AfterZeros(s, f);
    ReversedTwice(s[LeadingZeros(s)..]);
  }

  // ---------- text ----------

  /** The alphabet, range by range: digits and letters without 0, I, O and l. */
  function CharAt(i: nat): char
    requires i < 58
  {
    if i < 9 then ('1' as int + i) as char
    else if i < 17 then ('A' as int + (i - 9)) as char
    else if i < 22 then ('J' as int + (i - 17)) as char
    else if i < 33 then ('P' as int + (i - 22)) as char
    else if i < 44 then ('a' as int + (i - 33)) as char
    else ('m' as int + (i - 44)) as char
  }

  function Place(c: char): int
  {
    if '1' <= c <= '9' then c as int - '1' as int
    else if 'A' <= c <= 'H' then 9 + (c as int - 'A' as int)
    else if 'J' <= c <= 'N' then 17 + (c as int - 'J' as int)
    else if 'P' <= c <= 'Z' then 22 + (c as int - 'P' as int)
    else if 'a' <= c <= 'k' then 33 + (c as int - 'a' as int)
    else if 'm' <= c <= 'z' then 44 + (c as int - 'm' as int)
    else -1
  }

  /** The characters by place are the alphabet, and the places are those of the reverse table. */
  lemma AlphabetIs(i: nat)
    requires i < 58
    ensures |ALPHABET| == 58 && ALPHABET[i] == CharAt(i) && Place(ALPHABET[i]) == i
  {
  }

  lemma PlaceOfChar(i: nat)
    requires i < 58
    ensures Place(CharAt(i)) == i
  {
  }

  lemma CharOfPlace(c: char)
    ensures -1 <= Place(c) < 58
    ensures Place(c) >= 0 ==> CharAt(Place(c)) == c
  {
  }

  predicate InAlphabet(text: string)
  {
    forall i :: 0 <= i < |text| ==> Place(text[i]) >= 0
  }

  function Places(text: string): (s: seq<int>)
    requires InAlphabet(text)
    ensures |s| == |text|
  {
    seq(|text|, i requires 0 <= i < |text| => Place(text[i]))
  }

  lemma PlacesDigits(text: string)
    requires InAlphabet(text)
    ensures AreDigits(Places(text), 58)
  {
    forall i | 0 <= i < |text|
      ensures 0 <= Places(text)[i] < 58
    {
      CharOfPlace(text[i]);
    }
  }

  function CharsOf(s: seq<int>): (text: string)
    requires AreDigits(s, 58)
    ensures |text| == |s|
  {
    seq(|s|, i requires 0 <= i < |s| => CharAt(s[i]))
  }

  lemma PlacesOfChars(s: seq<int>)
    requires AreDigits(s, 58)
    ensures InAlphabet(CharsOf(s)) && Places(CharsOf(s)) == s
  {
    forall i | 0 <= i < |s|
      ensures Place(CharsOf(s)[i]) == s[i]
    {
      PlaceOfChar(s[i]);
    }
  }

  lemma CharsOfPlaces(text: string)
    requires InAlphabet(text)
    ensures AreDigits(Places(text), 58) && CharsOf(Places(text)) == text
  {
    PlacesDigits(text);
    forall i | 0 <= i < |text|
      ensures CharsOf(Places(text))[i] == text[i]
    {
      CharOfPlace(text[i]);
    }
  }

  function Encode(data: seq<int>): string
    requires AreDigits(data, 256)
  {
    TranscodedDigits(data, 256, 58);
    CharsOf(Transcoded(data, 256, 58))
  }

  function Decode(text: string): (r: Option<seq<int>>)
    ensures r.Some? ==> AreDigits(r.value, 256)
  {
    if !InAlphabet(text) then None
    else
      PlacesDigits(text);
      TranscodedDigits(Places(text), 58, 256);
      Some(Transcoded(Places(text), 58, 256))
  }

  lemma EncodeThenDecode(data: seq<int>)
    requires AreDigits(data, 256)
    ensures Decode(Encode(data)) == Some(data)
  {
    TranscodeTwice(data, 256, 58);
    PlacesOfChars(Transcoded(data, 256, 58));
  }

  lemma DecodeThenEncode(text: string)
    requires InAlphabet(text)
    ensures Decode(text).Some? && Encode(Decode(text).value) == text
  {
    CharsOfPlaces(text);
    TranscodeTwice(Places(text), 58, 256);
  }

  // ---------- Base58Check, for any hash ----------

  predicate HashOk(hash: seq<int> -> seq<int>, payload: seq<int>)
  {
    |hash(payload)| >= 4 && AreDigits(hash(payload), 256)
  }

  function CheckEncode(hash: seq<int> -> seq<int>, payload: seq<int>): string
    requires AreDigits(payload, 256) && HashOk(hash, payload)
  {
    Encode(payload + hash(payload)[..4])
  }

  function CheckDecode(hash: seq<int> -> seq<int>, text: string): Option<seq<int>>
  {
    var full := Decode(text);
    if full.None? || |full.value| < 4 then None
    else
      var payload, tail := full.value[..|full.value| - 4], full.value[|full.value| - 4..];
      if |hash(payload)| < 4 || tail != hash(payload)[..4] then None else Some(payload)
  }

  lemma CheckRoundTrip(hash: seq<int> -> seq<int>, payload: seq<int>)
    requires AreDigits(payload, 256) && HashOk(hash, payload)
    ensures CheckDecode(hash, CheckEncode(hash, payload)) == Some(payload)
  {
    var full := payload + hash(payload)[..4];
    EncodeThenDecode(full);
    assert full[..|full| - 4] == payload && full[|full| - 4..] == hash(payload)[..4];
  }

  /** What decodes is the encoding of its payload, and nothing else is. */
  lemma CheckCanonical(hash: seq<int> -> seq<int>, text: string)
    requires CheckDecode(hash, text).Some?
    requires AreDigits(hash(CheckDecode(hash, text).value), 256)
    ensures AreDigits(CheckDecode(hash, text).value, 256) && HashOk(hash, CheckDecode(hash, text).value)
    ensures CheckEncode(hash, CheckDecode(hash, text).value) == text
  {
    var full, payload := Decode(text).value, CheckDecode(hash, text).value;
    assert full == payload + full[|full| - 4..];
    DecodeThenEncode(text);
  }

  // ---------- the loops ----------

  /** `try_base58_decode` */
  method TryDecode(text: string) returns (r: Option<seq<int>>)
    ensures r == Decode(text)
  {
    var digits: seq<int> := [];
    for i := 0 to |text|
      invariant InAlphabet(text[..i]) && Trimmed(digits, 256)
      invariant Value(digits, 256) == Spelled(Places(text[..i]), 58)
    {
      var value := Place(text[i]);
      CharOfPlace(text[i]);
      if value < 0 {
        return None;
      }
      PlacesNext(text, i);
      SpelledAppend(Places(text[..i]), value, 58);
      digits := MultiplyAdd(digits, 58, 256, value);
    }
    assert text[..|text|] == text;
    PlacesDigits(text);
    TrimmedUnique(digits, 256);
    var zeros := CountLeading(Places(text));
    ZerosInFront(digits, zeros);
    r := Some(Reversed(digits + Zeros(zeros)));
  }

  lemma PlacesNext(text: string, i: nat)
    requires i < |text| && InAlphabet(text[..i]) && Place(text[i]) >= 0
    ensures InAlphabet(text[..i + 1]) && Places(text[..i + 1]) == Places(text[..i]) + [Place(text[i])]
  {
  }

  lemma ZerosInFront(digits: seq<int>, n: nat)
    ensures Reversed(digits + Zeros(n)) == Zeros(n) + Reversed(digits)
  {
  }

  method CountLeading(s: seq<int>) returns (n: nat)
    ensures n == LeadingZeros(s)
  {
    n := 0;
    while n < |s| && s[n] == 0
      invariant n <= |s| && forall i :: 0 <= i < n ==> s[i] == 0
    {
      n := n + 1;
    }
  }

  /** `base58_encode` */
  method EncodeBytes(data: seq<int>) returns (text: string)
    requires AreDigits(data, 256)
    ensures text == Encode(data)
  {
    var digits: seq<int> := [];
    for i := 0 to |data|
      invariant Trimmed(digits, 58) && Value(digits, 58) == Spelled(data[..i], 256)
    {
      assert data[..i + 1] == data[..i] + [data[i]];
      SpelledAppend(data[..i], data[i], 256);
      digits := MultiplyAdd(digits, 256, 58, data[i]);
    }
    assert data[..|data|] == data;
    TrimmedUnique(digits, 58);
    var zeros := CountLeading(data);
    TranscodedDigits(data, 256, 58);
    text := CharsOf(Zeros(zeros) + Reversed(digits));
  }
}
