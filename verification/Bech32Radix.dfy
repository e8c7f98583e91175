/** `convertbits`: regrouping a bit string from digits of one power of two to digits of another. */
module Bech32Radix {
  import opened Numbers
  import opened Options
  import opened Xors

  /** The number a digit string spells, most significant digit first, digits of `b` bits. */
  function Big(s: seq<nat>, b: nat): nat
  {
    if s == [] then 0 else Pow2(b) * Big(s[..|s| - 1], b) + s[|s| - 1]
  }

  predicate Digits(s: seq<nat>, b: nat)
  {
    forall i :: 0 <= i < |s| ==> s[i] < Pow2(b)
  }

  lemma BigAppend(s: seq<nat>, d: nat, b: nat)
    ensures Big(s + [d], b) == Pow2(b) * Big(s, b) + d
  {
    assert (s + [d])[..|s|] == s;
  }

  // ---------- the reference: the same number in other digits ----------

  /** The last `m` digits of a number, most significant first. */
  function ToBig(v: nat, m: nat, b: nat): (s: seq<nat>)
    ensures |s| == m
    decreases m
  {
    if m == 0 then [] else ToBig(ShiftRight(v, b), m - 1, b) + [LowBits(v, b)]
  }

  lemma {:induction false} ToBigDigits(v: nat, m: nat, b: nat)
    ensures Digits(ToBig(v, m, b), b)
    decreases m
  {
    if m > 0 {
      ToBigDigits(ShiftRight(v, b), m - 1, b);
      Parts(v, b);
    }
  }

  /** Digits that spell a number are its digits. */
  lemma {:induction false} ToBigOfBig(s: seq<nat>, b: nat)
    requires Digits(s, b)
    ensures ToBig(Big(s, b), |s|, b) == s
  {
    if s != [] {
      var front, last := s[..|s| - 1], s[|s| - 1];
      ToBigOfBig(front, b);
      DivModUnique(Big(s, b), Pow2(b), Big(front, b), last);
      PartsAreQuotients(Big(s, b), b);
    }
  }

  function Groups(length: nat, t: nat): (n: nat)
    requires t > 0
    ensures n == length / t
  {
    Quotient(length, t, length / t, length % t);
    length / t
  }

  function LeftOver(length: nat, t: nat): (n: nat)
    requires t > 0
    ensures n == length % t && n < t
  {
    length % t
  }

  /** Zero bits that complete the last group. */
  function FillOf(length: nat, t: nat): nat
    requires t > 0
  {
    if LeftOver(length, t) == 0 then 0 else t - LeftOver(length, t)
  }

  /** Padding fills the last group with zero bits; without it, what is left over must be short and zero. */
  function Regroup(s: seq<nat>, f: nat, t: nat, pad: bool): Option<seq<nat>>
    requires f > 0 && t > 0
  {
    var length := |s| * f;
    if !Digits(s, f) then None
    else if pad then Some(ToBig(ShiftLeft(Big(s, f), FillOf(length, t)), Groups(length + FillOf(length, t), t), t))
    else if LeftOver(length, t) >= f || LowBits(Big(s, f), LeftOver(length, t)) != 0 then None
    else Some(ToBig(ShiftRight(Big(s, f), LeftOver(length, t)), Groups(length, t), t))
  }

  // ---------- the accumulator ----------

  lemma {:induction false} LowOfLow(x: nat, m: nat, k: nat)
    requires k <= m
    ensures LowBits(LowBits(x, m), k) == LowBits(x, k)
    decreases k
  {
    if k > 0 {
      LowOfLow(x / 2, m - 1, k - 1);
      assert LowBits(x, m) / 2 == LowBits(x / 2, m - 1) && LowBits(x, m) % 2 == x % 2;
    }
  }

  /** The low bits after a digit is shifted in. */
  lemma {:induction false} LowOfShifted(acc: nat, f: nat, v: nat, bits: nat)
    requires v < Pow2(f)
    ensures LowBits(ShiftLeft(acc, f) + v, bits + f) == ShiftLeft(LowBits(acc, bits), f) + v
    decreases f
  {
    if f > 0 {
      LowOfShifted(acc, f - 1, v / 2, bits);
      assert (ShiftLeft(acc, f) + v) / 2 == ShiftLeft(acc, f - 1) + v / 2;
      assert (ShiftLeft(acc, f) + v) % 2 == v % 2;
    }
  }

  /** The low bits are a digit and the bits below it. */
  lemma {:induction false} LowSplit(acc: nat, k: nat, t: nat)
    ensures LowBits(acc, k + t) == ShiftLeft(LowBits(ShiftRight(acc, k), t), k) + LowBits(acc, k)
    decreases k
  {
    if k > 0 {
      LowSplit(acc / 2, k - 1, t);
    }
  }

  /**
   Where the conversion stands: `out` spells the leading bits of what was read and the low `bits` bits of the
   accumulator are the rest.
   */
  ghost predicate Standing(value: nat, length: nat, out: seq<nat>, t: nat, acc: nat, bits: nat)
  {
    && Digits(out, t)
    && length == |out| * t + bits
    && value == Pow2(bits) * Big(out, t) + LowBits(acc, bits)
  }

  function Shifted(acc: nat, f: nat, v: nat, width: nat): nat
  {
    LowBits(BitOr(ShiftLeft(acc, f), v), width)
  }

  lemma Algebra(p: nat, q: nat, x: nat, y: nat, v: nat)
    ensures (p * q) * x + q * y + v == q * (p * x + y) + v
  {
  }

  lemma ReadsDigit(value: nat, length: nat, out: seq<nat>, t: nat, acc: nat, bits: nat, f: nat, v: nat, width: nat)
    requires Standing(value, length, out, t, acc, bits) && v < Pow2(f) && bits + f <= width
    ensures Standing(Pow2(f) * value + v, length + f, out, t, Shifted(acc, f, v, width), bits + f)
  {
    ShiftLeftIs(acc, f);
    DivModUnique(ShiftLeft(acc, f), Pow2(f), acc, 0);
    BitOrDisjoint(ShiftLeft(acc, f), v, f);
    LowOfLow(ShiftLeft(acc, f) + v, width, bits + f);
    LowOfShifted(acc, f, v, bits);
    ShiftLeftIs(LowBits(acc, bits), f);
    Pow2Add(bits, f);
    Algebra(Pow2(bits), Pow2(f), Big(out, t), LowBits(acc, bits), v);
  }

  function Digit(acc: nat, k: nat, t: nat): nat
  {
    LowBits(ShiftRight(acc, k), t)
  }

  lemma WritesDigit(value: nat, length: nat, out: seq<nat>, t: nat, acc: nat, bits: nat)
    requires Standing(value, length, out, t, acc, bits) && bits >= t
    ensures Standing(value, length, out + [Digit(acc, bits - t, t)], t, acc, bits - t)
  {
    var k, d := bits - t, Digit(acc, bits - t, t);
    Parts(ShiftRight(acc, k), t);
    LowSplit(acc, k, t);
    ShiftLeftIs(d, k);
    BigAppend(out, d, t);
    Pow2Add(t, k);
    Algebra(Pow2(t), Pow2(k), Big(out, t), d, LowBits(acc, k));
    assert (|out| + 1) * t == |out| * t + t;
  }

  /** The group that padding completes. */
  function LastGroup(acc: nat, bits: nat, t: nat): nat
    requires bits <= t
  {
    LowBits(ShiftLeft(acc, t - bits), t)
  }

  lemma LastGroupIs(acc: nat, bits: nat, t: nat)
    requires bits <= t
    ensures LastGroup(acc, bits, t) == Pow2(t - bits) * LowBits(acc, bits)
    ensures LastGroup(acc, bits, t) == 0 <==> LowBits(acc, bits) == 0
    ensures LastGroup(acc, bits, t) < Pow2(t)
  {
    LowOfShifted(acc, t - bits, 0, bits);
    ShiftLeftIs(LowBits(acc, bits), t - bits);
    Parts(ShiftLeft(acc, t - bits), t);
  }

  lemma StandingCounts(value: nat, length: nat, out: seq<nat>, t: nat, acc: nat, bits: nat)
    requires Standing(value, length, out, t, acc, bits) && bits < t
    ensures length % t == bits && length / t == |out|
    ensures LowBits(value, bits) == LowBits(acc, bits) && ShiftRight(value, bits) == Big(out, t)
  {
    assert |out| * t == t * |out|;
    DivModUnique(length, t, |out|, bits);
    Parts(acc, bits);
    DivModUnique(value, Pow2(bits), Big(out, t), LowBits(acc, bits));
    PartsAreQuotients(value, bits);
  }

  lemma EndsExact(s: seq<nat>, f: nat, out: seq<nat>, t: nat, acc: nat, bits: nat)
    requires f > 0 && Digits(s, f) && bits < t && Standing(Big(s, f), |s| * f, out, t, acc, bits)
    ensures Regroup(s, f, t, false) == if bits >= f || LastGroup(acc, bits, t) != 0 then None else Some(out)
  {
    StandingCounts(Big(s, f), |s| * f, out, t, acc, bits);
    LastGroupIs(acc, bits, t);
    ToBigOfBig(out, t);
  }

  lemma EndsEven(s: seq<nat>, f: nat, out: seq<nat>, t: nat, acc: nat)
    requires f > 0 && t > 0 && Digits(s, f) && Standing(Big(s, f), |s| * f, out, t, acc, 0)
    ensures Regroup(s, f, t, true) == Some(out)
  {
    StandingCounts(Big(s, f), |s| * f, out, t, acc, 0);
    ToBigOfBig(out, t);
  }

  lemma EndsPadded(s: seq<nat>, f: nat, out: seq<nat>, t: nat, acc: nat, bits: nat)
    requires f > 0 && Digits(s, f) && 0 < bits < t && Standing(Big(s, f), |s| * f, out, t, acc, bits)
    ensures Regroup(s, f, t, true) == Some(out + [LastGroup(acc, bits, t)])
  {
    var value, fill, last := Big(s, f), t - bits, LastGroup(acc, bits, t);
    StandingCounts(value, |s| * f, out, t, acc, bits);
    LastGroupIs(acc, bits, t);
    BigAppend(out, last, t);
    Pow2Add(bits, fill);
    Algebra(Pow2(bits), Pow2(fill), Big(out, t), LowBits(acc, bits), 0);
    ShiftLeftIs(value, fill);
    ToBigOfBig(out + [last], t);
    GroupCount(|s| * f, |out|, t, bits);
  }

  lemma GroupCount(length: nat, n: nat, t: nat, bits: nat)
    requires 0 < bits < t && length == n * t + bits
    ensures (length + (t - bits)) / t == n + 1
  {
    assert length + (t - bits) == t * (n + 1);
    DivModUnique(length + (t - bits), t, n + 1, 0);
  }

  // ---------- the loops ----------

  /** Writes whole groups while there are bits for one. */
  method DrainGroups(acc: nat, bits0: nat, t: nat, out0: seq<nat>, ghost value: nat, ghost length: nat)
    returns (bits: nat, out: seq<nat>)
    requires t > 0 && Standing(value, length, out0, t, acc, bits0)
    ensures bits < t && Standing(value, length, out, t, acc, bits)
  {
    bits, out := bits0, out0;
    while bits >= t
      invariant Standing(value, length, out, t, acc, bits)
    {
      WritesDigit(value, length, out, t, acc, bits);
      bits := bits - t;
      out := out + [Digit(acc, bits, t)];
    }
  }

  lemma BigPrefix(s: seq<nat>, f: nat, i: nat)
    requires i < |s|
    ensures Big(s[..i + 1], f) == Pow2(f) * Big(s[..i], f) + s[i]
    ensures (i + 1) * f == i * f + f
  {
    assert s[..i + 1][..i] == s[..i];
  }

  method ReadAll(s: seq<nat>, f: nat, t: nat) returns (ok: bool, acc: nat, bits: nat, out: seq<nat>)
    requires f > 0 && t > 0
    ensures ok == Digits(s, f)
    ensures ok ==> bits < t && Standing(Big(s, f), |s| * f, out, t, acc, bits)
  {
    acc, bits, out, ok := 0, 0, [], true;
    for i := 0 to |s|
      invariant ok && Digits(s[..i], f) && bits < t
      invariant Standing(Big(s[..i], f), i * f, out, t, acc, bits)
    {
      if ShiftRight(s[i], f) != 0 {
        TooBig(s, f, i);
        ok := false;
        return;
      }
      Fits(s[i], f);
      ReadsDigit(Big(s[..i], f), i * f, out, t, acc, bits, f, s[i], f + t - 1);
      BigPrefix(s, f, i);
      acc := Shifted(acc, f, s[i], f + t - 1);
      bits, out := DrainGroups(acc, bits + f, t, out, Big(s[..i + 1], f), (i + 1) * f);
    }
    assert s[..|s|] == s;
  }

  lemma Fits(v: nat, f: nat)
    requires ShiftRight(v, f) == 0
    ensures v < Pow2(f)
  {
    Parts(v, f);
    ShiftLeftIs(0, f);
  }

  lemma TooBig(s: seq<nat>, f: nat, i: nat)
    requires i < |s| && ShiftRight(s[i], f) != 0
    ensures !Digits(s, f)
  {
    PartsAreQuotients(s[i], f);
    if s[i] < Pow2(f) {
      DivModUnique(s[i], Pow2(f), 0, s[i]);
    }
  }

  method ConvertBits(s: seq<nat>, f: nat, t: nat, pad: bool) returns (r: Option<seq<nat>>)
    requires f > 0 && t > 0
    ensures r == Regroup(s, f, t, pad)
  {
    var ok, acc, bits, out := ReadAll(s, f, t);
    if !ok {
      return None;
    }
    if pad {
      if bits != 0 {
        EndsPadded(s, f, out, t, acc, bits);
        out := out + [LastGroup(acc, bits, t)];
      } else {
        EndsEven(s, f, out, t, acc);
      }
    } else {
      EndsExact(s, f, out, t, acc, bits);
      if bits >= f || LastGroup(acc, bits, t) != 0 {
        return None;
      }
    }
    r := Some(out);
  }

  // ---------- bytes to five-bit symbols and back ----------

  lemma {:induction false} BigBound(s: seq<nat>, b: nat)
    requires Digits(s, b)
    ensures Big(s, b) < Pow2(|s| * b)
  {
    if s != [] {
      var front, last := s[..|s| - 1], s[|s| - 1];
      BigBound(front, b);
      assert |s| * b == |front| * b + b;
      Pow2Add(|front| * b, b);
      BoundStep(Pow2(b), Big(front, b), last, Pow2(|front| * b));
    }
  }

  lemma BoundStep(p: nat, x: nat, d: nat, q: nat)
    requires x < q && d < p
    ensures p * x + d < q * p
  {
    MulMonotone(p, x + 1, q);
  }

  lemma {:induction false} BigOfToBig(v: nat, m: nat, b: nat)
    requires v < Pow2(m * b)
    ensures Big(ToBig(v, m, b), b) == v
    decreases m
  {
    if m > 0 {
      var high, low := ShiftRight(v, b), LowBits(v, b);
      Parts(v, b);
      ShiftLeftIs(high, b);
      assert m * b == (m - 1) * b + b;
      Pow2Add((m - 1) * b, b);
      HighBound(Pow2(b), high, low, Pow2((m - 1) * b));
      BigOfToBig(high, m - 1, b);
      BigAppend(ToBig(high, m - 1, b), low, b);
    }
  }

  lemma HighBound(p: nat, x: nat, d: nat, q: nat)
    requires p > 0 && p * x + d < q * p
    ensures x < q
  {
    if x >= q {
      MulMonotone(p, q, x);
    }
  }

  const BYTE: nat := 8
  const SYMBOL: nat := 5

  function Fill(n: nat): nat
  {
    FillOf(n * BYTE, SYMBOL)
  }

  lemma FillCounts(n: nat, m: nat)
    requires m == (n * BYTE + Fill(n)) / SYMBOL
    ensures Fill(n) < 5 && m * SYMBOL == n * BYTE + Fill(n)
    ensures m * SYMBOL % BYTE == Fill(n) && m * SYMBOL / BYTE == n
  {
    var q, left := 8 * n / 5, 8 * n % 5;
    Quotient(8 * n, 5, q, left);
    DivModUnique(8 * n + Fill(n), 5, if left == 0 then q else q + 1, 0);
    DivModUnique(8 * n + Fill(n), 8, n, Fill(n));
  }

  lemma ScaledBound(v: nat, n: nat, fill: nat, m: nat)
    requires v < Pow2(n) && m == n + fill
    ensures Pow2(fill) * v < Pow2(m)
  {
    Pow2Add(n, fill);
    MulMonotone(Pow2(fill), v + 1, Pow2(n));
    assert Pow2(fill) * (v + 1) == Pow2(fill) * v + Pow2(fill);
  }

  /** Bytes regrouped into symbols: the same number, its last symbol filled with fewer than five zero bits. */
  lemma SymbolsOfBytes(x: seq<nat>) returns (y: seq<nat>)
    requires Digits(x, BYTE)
    ensures Regroup(x, BYTE, SYMBOL, true) == Some(y)
    ensures |y| == (|x| * BYTE + Fill(|x|)) / SYMBOL
    ensures Digits(y, SYMBOL) && Big(y, SYMBOL) == Pow2(Fill(|x|)) * Big(x, BYTE)
  {
    var fill := Fill(|x|);
    var m, v := (|x| * BYTE + fill) / SYMBOL, ShiftLeft(Big(x, BYTE), fill);
    y := ToBig(v, m, SYMBOL);
    FillCounts(|x|, m);
    ShiftLeftIs(Big(x, BYTE), fill);
    BigBound(x, BYTE);
    ScaledBound(Big(x, BYTE), |x| * BYTE, fill, m * SYMBOL);
    BigOfToBig(v, m, SYMBOL);
    ToBigDigits(v, m, SYMBOL);
  }

  lemma BytesRoundTrip(x: seq<nat>)
    requires Digits(x, BYTE)
    ensures Regroup(x, BYTE, SYMBOL, true).Some?
    ensures Regroup(Regroup(x, BYTE, SYMBOL, true).value, SYMBOL, BYTE, false) == Some(x)
  {
    var y := SymbolsOfBytes(x);
    var fill := Fill(|x|);
    FillCounts(|x|, |y|);
    DivModUnique(Big(y, SYMBOL), Pow2(fill), Big(x, BYTE), 0);
    PartsAreQuotients(Big(y, SYMBOL), fill);
    ToBigOfBig(x, BYTE);
  }

  lemma LeftCounts(m: nat, left: nat, n: nat)
    requires left == m * SYMBOL % BYTE && left < SYMBOL && n == m * SYMBOL / BYTE
    ensures m * SYMBOL == n * BYTE + left && Fill(n) == left && (n * BYTE + left) / SYMBOL == m
  {
    Quotient(5 * m, 8, n, left);
    DivModUnique(8 * n, 5, if left == 0 then m else m - 1, if left == 0 then 0 else 5 - left);
    DivModUnique(5 * m, 5, m, 0);
  }

  /** Bytes read off symbols spell the same number but for the zero bits left over. */
  lemma BytesOfSymbols(y: seq<nat>, left: nat, n: nat) returns (x: seq<nat>)
    requires Digits(y, SYMBOL) && |y| * SYMBOL == n * BYTE + left && LowBits(Big(y, SYMBOL), left) == 0
    ensures x == ToBig(ShiftRight(Big(y, SYMBOL), left), n, BYTE)
    ensures Digits(x, BYTE) && ShiftLeft(Big(x, BYTE), left) == Big(y, SYMBOL)
  {
    var v := ShiftRight(Big(y, SYMBOL), left);
    x := ToBig(v, n, BYTE);
    Parts(Big(y, SYMBOL), left);
    ShiftLeftIs(v, left);
    BigBound(y, SYMBOL);
    Pow2Add(n * BYTE, left);
    HighBound(Pow2(left), v, 0, Pow2(n * BYTE));
    BigOfToBig(v, n, BYTE);
    ToBigDigits(v, n, BYTE);
  }

  lemma RegroupsTo(x: seq<nat>, y: seq<nat>)
    requires Digits(x, BYTE) && Digits(y, SYMBOL) && (|x| * BYTE + Fill(|x|)) / SYMBOL == |y|
    requires ShiftLeft(Big(x, BYTE), Fill(|x|)) == Big(y, SYMBOL)
    ensures Regroup(x, BYTE, SYMBOL, true) == Some(y)
  {
    var z := SymbolsOfBytes(x);
    ShiftLeftIs(Big(x, BYTE), Fill(|x|));
    SameNumber(y, z, SYMBOL);
  }

  lemma SameNumber(y: seq<nat>, z: seq<nat>, b: nat)
    requires Digits(y, b) && Digits(z, b) && |y| == |z| && Big(y, b) == Big(z, b)
    ensures y == z
  {
    ToBigOfBig(y, b);
    ToBigOfBig(z, b);
  }

  lemma ExactMeans(y: seq<nat>, left: nat)
    requires left == |y| * SYMBOL % BYTE && Regroup(y, SYMBOL, BYTE, false).Some?
    ensures Digits(y, SYMBOL) && left < SYMBOL && LowBits(Big(y, SYMBOL), left) == 0
    ensures Regroup(y, SYMBOL, BYTE, false).value == ToBig(ShiftRight(Big(y, SYMBOL), left), |y| * SYMBOL / BYTE, BYTE)
  {
  }

  /** Symbols that regroup into bytes are the symbols of those bytes. */
  lemma SymbolsRoundTrip(y: seq<nat>, x: seq<nat>)
    requires Regroup(y, SYMBOL, BYTE, false) == Some(x)
    ensures Digits(x, BYTE) && Regroup(x, BYTE, SYMBOL, true) == Some(y)
  {
    var left, n := |y| * SYMBOL % BYTE, |y| * SYMBOL / BYTE;
    ExactMeans(y, left);
    LeftCounts(|y|, left, n);
    var x' := BytesOfSymbols(y, left, n);
    RegroupsTo(x, y);
  }
}
