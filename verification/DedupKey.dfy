/** The text key by which an SV1 session recognises a share it has already seen. */
module DedupKey {
  import opened Options
  import opened Text

  function Nibble(c: char): int
  {
    if 'A' <= c <= 'F' then 10 + (c as int - 'A' as int) else HexValue(c)
  }

  function LowerChar(c: char): char
  {
    if 'A' <= c <= 'Z' then (c as int + 32) as char else c
  }

  function Lowered(t: string): (r: string)
    ensures |r| == |t|
  {
    seq(|t|, i requires 0 <= i < |t| => LowerChar(t[i]))
  }

  predicate HexText(t: string)
  {
    forall i :: 0 <= i < |t| ==> Nibble(t[i]) >= 0
  }

  /** The number hexadecimal text spells, in either case. */
  function Number(t: string): int
  {
    if t == [] then 0 else 16 * Number(t[..|t| - 1]) + Nibble(t[|t| - 1])
  }

  function Zeros(n: nat): (z: string)
    ensures |z| == n
  {
    seq(n, _ => '0')
  }

  function Padded(t: string, width: nat): string
  {
    if |t| < width then Zeros(width - |t|) + t else t
  }

  /** Left-padded with zeros, then lowered. */
  function Canonical(t: string, width: nat): string
  {
    Lowered(Padded(t, width))
  }

  lemma LowerKeepsNibble(c: char)
    requires Nibble(c) >= 0
    ensures Nibble(LowerChar(c)) == Nibble(c) && HexValue(LowerChar(c)) == Nibble(c)
            && HexDigitOf(Nibble(c)) == LowerChar(c)
  {
  }

  function HexDigitOf(n: int): char
  {
    if 0 <= n < 16 then HexDigit(n) else '?'
  }

  lemma {:induction false} NumberLowered(t: string)
    requires HexText(t)
    ensures HexText(Lowered(t)) && Number(Lowered(t)) == Number(t)
  {
    if t != [] {
      var front := t[..|t| - 1];
      NumberLowered(front);
      LowerKeepsNibble(t[|t| - 1]);
      assert Lowered(t)[..|t| - 1] == Lowered(front);
    }
  }

  lemma {:induction false} NumberPadded(n: nat, t: string)
    requires HexText(t)
    ensures HexText(Zeros(n) + t) && Number(Zeros(n) + t) == Number(t)
    decreases n + |t|
  {
    var whole := Zeros(n) + t;
    if t != [] {
      NumberPadded(n, t[..|t| - 1]);
      assert whole[..|whole| - 1] == Zeros(n) + t[..|t| - 1];
    } else if n > 0 {
      NumberPadded(n - 1, []);
      assert whole[..|whole| - 1] == Zeros(n - 1) + [];
    } else {
      assert whole == [];
    }
  }

  lemma NumberCanonical(t: string, width: nat)
    requires HexText(t)
    ensures HexText(Canonical(t, width)) && Number(Canonical(t, width)) == Number(t)
  {
    if |t| < width {
      NumberPadded(width - |t|, t);
    }
    NumberLowered(Padded(t, width));
  }

  /** Equal-length lower-case numerals with one value are one text. */
  lemma {:induction false} NumberInjective(s: string, t: string)
    requires HexText(s) && HexText(t) && |s| == |t| && Number(s) == Number(t)
    ensures Lowered(s) == Lowered(t)
  {
    if s != [] {
      var x, y := s[|s| - 1], t[|t| - 1];
      LowerKeepsNibble(x);
      LowerKeepsNibble(y);
      assert 0 <= Nibble(x) < 16 && 0 <= Nibble(y) < 16;
      NumberInjective(s[..|s| - 1], t[..|t| - 1]);
      assert Lowered(s) == Lowered(s[..|s| - 1]) + [LowerChar(x)];
      assert Lowered(t) == Lowered(t[..|t| - 1]) + [LowerChar(y)];
    }
  }

  lemma LoweredTwice(t: string)
    ensures Lowered(Lowered(t)) == Lowered(t)
  {
  }

  /** A field of at most eight digits: one canonical text per value. */
  lemma CanonicalIff(s: string, t: string)
    requires HexText(s) && HexText(t) && |s| <= 8 && |t| <= 8
    ensures Canonical(s, 8) == Canonical(t, 8) <==> Number(s) == Number(t)
  {
    NumberCanonical(s, 8);
    NumberCanonical(t, 8);
    if Number(s) == Number(t) {
      NumberInjective(Canonical(s, 8), Canonical(t, 8));
      LoweredTwice(Padded(s, 8));
      LoweredTwice(Padded(t, 8));
    }
  }

  /** The bytes hexadecimal text stands for; odd lengths stand for none. */
  function Bytes(t: string): seq<int>
    requires |t| % 2 == 0
  {
    if t == [] then [] else [16 * Nibble(t[0]) + Nibble(t[1])] + Bytes(t[2..])
  }

  lemma {:induction false} BytesIff(s: string, t: string)
    requires HexText(s) && HexText(t) && |s| % 2 == 0 && |t| % 2 == 0
    ensures Bytes(s) == Bytes(t) <==> Lowered(s) == Lowered(t)
    decreases |s|
  {
    if s == [] || t == [] {
    } else {
      var a, b, x, y := s[0], s[1], t[0], t[1];
      LowerKeepsNibble(a);
      LowerKeepsNibble(b);
      LowerKeepsNibble(x);
      LowerKeepsNibble(y);
      assert 0 <= Nibble(b) < 16 && 0 <= Nibble(y) < 16;
      BytesIff(s[2..], t[2..]);
      assert Lowered(s) == [LowerChar(a), LowerChar(b)] + Lowered(s[2..]);
      assert Lowered(t) == [LowerChar(x), LowerChar(y)] + Lowered(t[2..]);
      assert Lowered(s)[2..] == Lowered(s[2..]) && Lowered(t)[2..] == Lowered(t[2..]);
      assert Bytes(s)[1..] == Bytes(s[2..]) && Bytes(t)[1..] == Bytes(t[2..]);
      assert Lowered(s)[0] == LowerChar(a) && Lowered(s)[1] == LowerChar(b);
      assert Lowered(t)[0] == LowerChar(x) && Lowered(t)[1] == LowerChar(y);
      assert Bytes(s)[0] == 16 * Nibble(a) + Nibble(b) && Bytes(t)[0] == 16 * Nibble(x) + Nibble(y);
    }
  }

  // ---------- keys ----------

  datatype Share = Share(jobId: string, extranonce2: string, ntime: string, nonce: string, versionBits: Option<string>,
                         mask: string)

  function VersionToken(s: Share): string
  {
    if s.versionBits.Some? then Canonical(s.versionBits.value, 8) else []
  }

  function KeyTokens(s: Share): seq<string>
  {
    [Lowered(s.jobId), Lowered(s.extranonce2), Canonical(s.ntime, 8), Canonical(s.nonce, 8), VersionToken(s), s.mask]
  }

  /** `make_dedup_key`; the mask is given as its eight digits. */
  function Key(s: Share): string
  {
    Join(KeyTokens(s), '|')
  }

  predicate FieldOk(t: string)
  {
    HexText(t) && |t| <= 8
  }

  /** Every field hexadecimal and of a length the session lets through, the empty one included. */
  predicate HexShare(s: Share)
  {
    && HexText(s.jobId) && HexText(s.extranonce2) && |s.extranonce2| % 2 == 0
    && FieldOk(s.ntime) && FieldOk(s.nonce) && (s.versionBits.Some? ==> FieldOk(s.versionBits.value))
    && HexText(s.mask)
  }

  lemma HexTextFree(t: string)
    requires HexText(t)
    ensures Free(t, '|') && HexText(Lowered(t))
  {
    forall i | 0 <= i < |t|
      ensures Nibble(Lowered(t)[i]) >= 0
    {
      LowerKeepsNibble(t[i]);
    }
  }

  lemma KeyTokensFree(s: Share)
    requires HexShare(s)
    ensures AllFree(KeyTokens(s), '|')
  {
    HexTextFree(s.jobId);
    HexTextFree(Lowered(s.jobId));
    HexTextFree(s.extranonce2);
    HexTextFree(Lowered(s.extranonce2));
    NumberCanonical(s.ntime, 8);
    HexTextFree(Canonical(s.ntime, 8));
    NumberCanonical(s.nonce, 8);
    HexTextFree(Canonical(s.nonce, 8));
    HexTextFree(s.mask);
    if s.versionBits.Some? {
      NumberCanonical(s.versionBits.value, 8);
      HexTextFree(Canonical(s.versionBits.value, 8));
    }
  }

  /** The same submission: same bytes and numbers, however they are spelled. */
  predicate SameShare(s: Share, t: Share)
    requires |s.extranonce2| % 2 == 0 && |t.extranonce2| % 2 == 0
  {
    && Lowered(s.jobId) == Lowered(t.jobId) && Bytes(s.extranonce2) == Bytes(t.extranonce2)
    && Number(s.ntime) == Number(t.ntime) && Number(s.nonce) == Number(t.nonce)
    && s.versionBits.Some? == t.versionBits.Some?
    && (s.versionBits.Some? ==> Number(s.versionBits.value) == Number(t.versionBits.value))
    && s.mask == t.mask
  }

  lemma VersionTokenIff(s: Share, t: Share)
    requires HexShare(s) && HexShare(t)
    ensures VersionToken(s) == VersionToken(t) <==>
            && s.versionBits.Some? == t.versionBits.Some?
            && (s.versionBits.Some? ==> Number(s.versionBits.value) == Number(t.versionBits.value))
  {
    if s.versionBits.Some? && t.versionBits.Some? {
      CanonicalIff(s.versionBits.value, t.versionBits.value);
    }
  }

  /** For hexadecimal fields, two keys are equal exactly when the submissions are the same. */
  lemma KeysEqualIff(s: Share, t: Share)
    requires HexShare(s) && HexShare(t)
    ensures Key(s) == Key(t) <==> SameShare(s, t)
  {
    KeyTokensFree(s);
    KeyTokensFree(t);
    BytesIff(s.extranonce2, t.extranonce2);
    CanonicalIff(s.ntime, t.ntime);
    CanonicalIff(s.nonce, t.nonce);
    VersionTokenIff(s, t);
    var a, b := KeyTokens(s), KeyTokens(t);
    if Key(s) == Key(t) {
      JoinInjective(a, b, '|');
      assert a[0] == b[0] && a[1] == b[1] && a[2] == b[2] && a[3] == b[3] && a[4] == b[4] && a[5] == b[5];
    }
  }
}
