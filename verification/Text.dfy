/** Hexadecimal and decimal text, and strings joined by a separator that none of them contains. */
module Text {
  import opened Numbers

  // ---------- hexadecimal ----------

  function HexDigit(d: nat): char
    requires d < 16
  {
    if d < 10 then ('0' as int + d) as char else ('a' as int + (d - 10)) as char
  }

  function HexValue(c: char): int
  {
    if '0' <= c <= '9' then c as int - '0' as int
    else if 'a' <= c <= 'f' then 10 + (c as int - 'a' as int)
    else -1
  }

  lemma HexDigitValue(d: nat)
    requires d < 16
    ensures HexValue(HexDigit(d)) == d
  {
  }

  /** `to_hex` */
  function Hex(s: seq<byte>): (t: string)
    ensures |t| == 2 * |s|
  {
    if s == [] then [] else [HexDigit(s[0] / 16), HexDigit(s[0] % 16)] + Hex(s[1..])
  }

  lemma {:induction false} HexInjective(s: seq<byte>, t: seq<byte>)
    requires Hex(s) == Hex(t)
    ensures s == t
  {
    if s != [] {
      assert |s| == |t|;
      assert Hex(s)[0] == HexDigit(s[0] / 16) && Hex(t)[0] == HexDigit(t[0] / 16);
      assert Hex(s)[1] == HexDigit(s[0] % 16) && Hex(t)[1] == HexDigit(t[0] % 16);
      HexDigitValue(s[0] / 16);
      HexDigitValue(t[0] / 16);
      HexDigitValue(s[0] % 16);
      HexDigitValue(t[0] % 16);
      assert Hex(s)[2..] == Hex(s[1..]) && Hex(t)[2..] == Hex(t[1..]);
      HexInjective(s[1..], t[1..]);
      assert s == [s[0]] + s[1..] && t == [t[0]] + t[1..];
    }
  }

  predicate Free(t: string, c: char)
  {
    forall i :: 0 <= i < |t| ==> t[i] != c
  }

  lemma {:induction false} HexFree(s: seq<byte>, c: char)
    requires HexValue(c) < 0
    ensures Free(Hex(s), c)
  {
    if s != [] {
      HexDigitValue(s[0] / 16);
      HexDigitValue(s[0] % 16);
      HexFree(s[1..], c);
    }
  }

  // ---------- decimal ----------

  /** `std::to_string` of an unsigned number. */
  function Decimal(n: nat): (t: string)
    ensures |t| > 0
  {
    (if n < 10 then [] else Decimal(n / 10)) + [('0' as int + n % 10) as char]
  }

  function DecimalValue(t: string): int
  {
    if t == [] then 0 else 10 * DecimalValue(t[..|t| - 1]) + (t[|t| - 1] as int - '0' as int)
  }

  lemma {:induction false} DecimalReads(n: nat)
    ensures DecimalValue(Decimal(n)) == n
  {
    if n >= 10 {
      DecimalReads(n / 10);
    }
    var t := Decimal(n);
    assert t[..|t| - 1] == if n < 10 then [] else Decimal(n / 10);
  }

  lemma {:induction false} DecimalFree(n: nat, c: char)
    requires c < '0' || '9' < c
    ensures Free(Decimal(n), c)
  {
    if n >= 10 {
      DecimalFree(n / 10, c);
    }
  }

  // ---------- separators ----------

  /** Where a separator first stands, the text before it and from it on are determined. */
  lemma SplitUnique(a: string, x: string, b: string, y: string, c: char)
    requires Free(a, c) && Free(b, c) && a + x == b + y
    requires (x != [] ==> x[0] == c) && (y != [] ==> y[0] == c)
    ensures a == b && x == y
  {
    var whole := a + x;
    assert |a| < |whole| ==> whole[|a|] == c;
    assert |b| < |whole| ==> whole[|b|] == c;
    assert forall i :: 0 <= i < |a| ==> whole[i] == a[i];
    assert forall i :: 0 <= i < |b| ==> whole[i] == b[i];
    assert a == (a + x)[..|a|] && b == (b + y)[..|b|];
    assert x == (a + x)[|a|..] && y == (b + y)[|b|..];
  }

  function Join(tokens: seq<string>, c: char): string
    requires tokens != []
  {
    if |tokens| == 1 then tokens[0] else tokens[0] + ([c] + Join(tokens[1..], c))
  }

  predicate AllFree(tokens: seq<string>, c: char)
  {
    forall i :: 0 <= i < |tokens| ==> Free(tokens[i], c)
  }

  /** Joined tokens that hold no separator can be told apart again. */
  lemma {:induction false} JoinInjective(s: seq<string>, t: seq<string>, c: char)
    requires s != [] && t != [] && AllFree(s, c) && AllFree(t, c) && Join(s, c) == Join(t, c)
    ensures s == t
  {
    var x := if |s| == 1 then [] else [c] + Join(s[1..], c);
    var y := if |t| == 1 then [] else [c] + Join(t[1..], c);
    assert Join(s, c) == s[0] + x && Join(t, c) == t[0] + y;
    SplitUnique(s[0], x, t[0], y, c);
    if |s| > 1 {
      assert x[1..] == Join(s[1..], c) && y[1..] == Join(t[1..], c);
      JoinInjective(s[1..], t[1..], c);
    }
    assert s == [s[0]] + s[1..] && t == [t[0]] + t[1..];
  }
}
