/**
 `difficulty_from_target`, `target_from_compact` and the exact ratio: dividing the difficulty-one target by a 256-bit
 target yields the IEEE 754 double nearest to the exact quotient.
 */
module Difficulty {
  import opened Numbers
  import opened Doubles
  import opened WideArithmetic

  datatype Double = Finite(significand: nat, exponent: int) | Infinity

  /** n / d is at least 2^e. */
  ghost predicate AtLeast(n: nat, d: nat, e: int)
  {
    if e >= 0 then n >= d * Pow2(e) else n * Pow2(-e) >= d
  }

  lemma LengthsBracket(n: nat, d: nat)
    requires n > 0 && d > 0
    ensures var e := BitLen(n) as int - BitLen(d); !AtLeast(n, d, e + 1) && AtLeast(n, d, e - 1)
  {
    var e := BitLen(n) as int - BitLen(d);
    if e >= 0 {
      FirstBit(n, d);
    } else {
      LengthsAbove(n, d, -e - 1);
    }
    if e > 0 {
      LengthsAbove(d, n, e - 1);
    } else {
      FirstBit(d, n);
    }
  }

  lemma LengthsAbove(n: nat, d: nat, k: nat)
    requires n > 0 && BitLen(d) == BitLen(n) + k + 1
    ensures n * Pow2(k) < d
  {
    BitLenBounds(n);
    BitLenBounds(d);
    ScaleBelow(n, Pow2(BitLen(n)), Pow2(k));
    Pow2Add(BitLen(n), k);
  }

  /** The fraction scaled so that its integer part has exactly 53 bits. */
  lemma Normalized(n: nat, d: nat, e: int, a: nat, b: nat)
    requires d > 0 && AtLeast(n, d, e) && !AtLeast(n, d, e + 1)
    requires e <= 52 ==> a == n * Pow2(52 - e) && b == d
    requires e > 52 ==> a == n && b == d * Pow2(e - 52)
    ensures b > 0 && TWO52 * b <= a < TWO53 * b
    ensures InUnits(n, d, a, b, e - 52)
  {
    TwoPowers();
    if e > 52 {
      Pow2Add(e - 52, 52);
      Pow2Add(e - 52, 53);
      ScaledDown(n, d, Pow2(e - 52));
      assert n * b == a * d * Pow2(e - 52);
    } else {
      UnitsUp(n, d, Pow2(52 - e), a);
      if e >= 0 {
        Pow2Add(e, 52 - e);
        Pow2Add(e + 1, 52 - e);
        ScaledUp(n, d, Pow2(e), Pow2(e + 1), Pow2(52 - e));
      } else {
        NormalizedBelowOne(n, d, e, a);
      }
    }
  }

  lemma UnitsUp(n: int, d: int, p: int, a: int)
    requires a == n * p
    ensures n * d * p == a * d
    ensures n * d == a * d * 1 || p != 1
  {
  }

  lemma ScaledDown(n: nat, d: nat, p: nat)
    requires d > 0 && p > 0 && d * (p * TWO52) <= n < d * (p * TWO53)
    ensures d * p > 0 && TWO52 * (d * p) <= n < TWO53 * (d * p)
    ensures n * (d * p) == n * d * p
  {
    MulMonotone(d, 1, p);
  }

  lemma ScaledUp(n: nat, d: nat, p: nat, q: nat, c: nat)
    requires d > 0 && c > 0 && p * c == TWO52 && q * c == TWO53 && d * p <= n < d * q
    ensures TWO52 * d <= n * c < TWO53 * d
  {
    MulMonotone(c, d * p, n);
    MulMonotone(c, n + 1, d * q);
    assert (d * p) * c == d * (p * c);
    assert (d * q) * c == d * (q * c);
  }

  lemma NormalizedBelowOne(n: nat, d: nat, e: int, a: nat)
    requires d > 0 && e < 0 && AtLeast(n, d, e) && !AtLeast(n, d, e + 1) && a == n * Pow2(52 - e)
    ensures TWO52 * d <= a < TWO53 * d
  {
    TwoPowers();
    Pow2Add(-e, 52);
    Pow2Add(-(e + 1), 53);
    assert -e + 52 == 52 - e && -(e + 1) + 53 == 52 - e;
    assert n * Pow2(-(e + 1)) < d;
    ScaledSmall(n, d, Pow2(-e), Pow2(-(e + 1)));
  }

  lemma ScaledSmall(n: nat, d: nat, p: nat, q: nat)
    requires n * p >= d && n * q < d
    ensures TWO52 * d <= n * (p * TWO52) && n * (q * TWO53) < TWO53 * d
  {
    assert n * (p * TWO52) == (n * p) * TWO52;
    assert n * (q * TWO53) == (n * q) * TWO53;
  }

  lemma QuotientRange(a: nat, b: nat, q: nat, r: nat)
    requires b > 0 && a == q * b + r && r < b && TWO52 * b <= a < TWO53 * b
    ensures TWO52 <= q < TWO53
  {
    if q < TWO52 {
      MulMonotone(b, q, TWO52 - 1);
    } else if q >= TWO53 {
      MulMonotone(b, TWO53, q);
    }
  }

  lemma QuotientShort(a: nat, b: nat)
    requires b > 0 && a < TWO53 * b
    ensures BitLen(a) as int - BitLen(b) <= 53
  {
    BitLenBounds(a);
    BitLenBounds(b);
    if BitLen(a) > BitLen(b) + 53 {
      TwoPowers();
      Pow2Add(53, BitLen(b));
      Pow2Monotone(53 + BitLen(b), BitLen(a) - 1);
    }
  }

  lemma ShiftFits(v: nat, len: nat, shift: nat)
    requires v < Pow2(len) && len + shift <= 320
    ensures v * Pow2(shift) < Pow2(320)
  {
    ScaleBelow(v, Pow2(len), Pow2(shift));
    Pow2Add(len, shift);
    Pow2Monotone(len + shift, 320);
  }

  /** Shifts by an amount that loses no bit. */
  method ShiftLeftExactly(value: WideInteger, shift: nat) returns (shifted: WideInteger)
    requires BitLen(Val(value)) + shift <= 320
    ensures Val(shifted) == Val(value) * Pow2(shift)
  {
    BitLenBounds(Val(value));
    ShiftFits(Val(value), BitLen(Val(value)), shift);
    ShiftExact(value, shift);
    shifted := ShiftLeft(value, shift);
  }

  /** The binary exponent of numerator / denominator. */
  method LeadingExponent(numerator: WideInteger, denominator: WideInteger) returns (exponent: int)
    requires Val(numerator) > 0 && Val(denominator) > 0
    ensures AtLeast(Val(numerator), Val(denominator), exponent)
            && !AtLeast(Val(numerator), Val(denominator), exponent + 1)
    ensures var e := BitLen(Val(numerator)) as int - BitLen(Val(denominator)); e - 1 <= exponent <= e
  {
    var numeratorBits := BitLength(numerator);
    var denominatorBits := BitLength(denominator);
    exponent := numeratorBits as int - denominatorBits;
    LengthsBracket(Val(numerator), Val(denominator));
    var order;
    if exponent >= 0 {
      var shifted := ShiftLeftExactly(denominator, exponent);
      order := Compare(numerator, shifted);
    } else {
      var shifted := ShiftLeftExactly(numerator, -exponent);
      order := Compare(shifted, denominator);
    }
    if order < 0 {
      exponent := exponent - 1;
    }
  }

  lemma ScaledLength(d: nat, k: nat, len: nat)
    requires d > 0 && BitLen(d) + k <= len
    ensures d * Pow2(k) < Pow2(len)
  {
    BitLenBounds(d);
    ScaleBelow(d, Pow2(BitLen(d)), Pow2(k));
    Pow2Add(BitLen(d), k);
    Pow2Monotone(BitLen(d) + k, len);
  }

  /** The rounding decision: compare twice the remainder with the divisor, ties to even. */
  method RoundQuotient(significand: nat, remainder: WideInteger, divisor: WideInteger) returns (rounded: nat)
    requires Val(remainder) < Val(divisor) && BitLen(Val(divisor)) <= 319
    ensures RoundsTo(significand * Val(divisor) + Val(remainder), Val(divisor), rounded)
    ensures significand <= rounded <= significand + 1
  {
    SmallerIsShorter(Val(remainder), Val(divisor));
    var twice := ShiftLeftExactly(remainder, 1);
    assert Val(twice) == 2 * Val(remainder);
    var order := Compare(twice, divisor);
    rounded := significand;
    if order > 0 || (order == 0 && significand % 2 != 0) {
      rounded := significand + 1;
    }
    RoundedQuotient(significand, Val(remainder), Val(divisor), rounded);
  }

  lemma SmallerIsShorter(x: nat, y: nat)
    requires x <= y
    ensures BitLen(x) <= BitLen(y)
  {
    if BitLen(x) > BitLen(y) {
      ShorterIsSmaller(y, x);
    }
  }

  lemma RoundedQuotient(q: nat, r: nat, d: nat, rounded: nat)
    requires r < d
    requires rounded == if 2 * r > d || (2 * r == d && q % 2 != 0) then q + 1 else q
    ensures RoundsTo(q * d + r, d, rounded)
  {
    assert (q + 1) * d == q * d + d;
  }

  /** The dividend and divisor whose quotient is the 53-bit significand. */
  method ScaleToSignificand(numerator: WideInteger, denominator: WideInteger, exponent: int)
    returns (dividend: WideInteger, divisor: WideInteger)
    requires Val(numerator) > 0
    requires Val(denominator) > 0 && BitLen(Val(denominator)) <= 267
    requires AtLeast(Val(numerator), Val(denominator), exponent)
             && !AtLeast(Val(numerator), Val(denominator), exponent + 1)
    requires var e := BitLen(Val(numerator)) as int - BitLen(Val(denominator)); e - 1 <= exponent <= e
    ensures Val(divisor) > 0 && TWO52 * Val(divisor) <= Val(dividend) < TWO53 * Val(divisor)
    ensures InUnits(Val(numerator), Val(denominator), Val(dividend), Val(divisor), exponent - 52)
    ensures BitLen(Val(divisor)) <= 319
  {
    BitLength320(numerator);
    dividend, divisor := numerator, denominator;
    var significandShift := 52 - exponent;
    if significandShift >= 0 {
      dividend := ShiftLeftExactly(numerator, significandShift);
    } else {
      divisor := ShiftLeftExactly(denominator, -significandShift);
    }
    Normalized(Val(numerator), Val(denominator), exponent, Val(dividend), Val(divisor));
    DivisorLength(Val(denominator), exponent, Val(divisor), BitLen(Val(numerator)));
  }

  /** The quotient rounded to an integer, ties to even. */
  method RoundedSignificand(dividend: WideInteger, divisor: WideInteger) returns (significand: nat)
    requires Val(divisor) > 0 && TWO52 * Val(divisor) <= Val(dividend) < TWO53 * Val(divisor)
    requires BitLen(Val(divisor)) <= 319
    ensures RoundsTo(Val(dividend), Val(divisor), significand) && TWO52 <= significand <= TWO53
  {
    QuotientShort(Val(dividend), Val(divisor));
    var quotient, remainder := Divide(dividend, divisor);
    QuotientRange(Val(dividend), Val(divisor), quotient, Val(remainder));
    significand := RoundQuotient(quotient, remainder, divisor);
  }

  /** The double nearest to numerator / denominator, ties to even, with its significand normalized. */
  method ExactRatioToDouble(numerator: WideInteger, denominator: WideInteger) returns (ratio: Double)
    requires Val(numerator) > 0
    requires Val(denominator) > 0 && BitLen(Val(denominator)) <= 267
    ensures ratio.Finite? && TWO52 <= ratio.significand < TWO53 && -1074 <= ratio.exponent <= 971
    ensures NearestEven(Val(numerator), Val(denominator), ratio.significand, ratio.exponent)
  {
    var exponent := LeadingExponent(numerator, denominator);
    BitLength320(numerator);
    var dividend, divisor := ScaleToSignificand(numerator, denominator, exponent);
    var significand := RoundedSignificand(dividend, divisor);
    if significand == TWO53 {
      CarryOut(Val(numerator), Val(denominator), Val(dividend), Val(divisor), exponent - 52);
      significand := significand / 2;
      exponent := exponent + 1;
    } else {
      NearestDouble(Val(numerator), Val(denominator), Val(dividend), Val(divisor), significand, exponent - 52);
    }
    ratio := Finite(significand, exponent - 52);
  }

  lemma BitLength320(w: WideInteger)
    ensures BitLen(Val(w)) <= 320
  {
    ValBound(w);
    BitLenBounds(Val(w));
    if BitLen(Val(w)) > 320 {
      Pow2Monotone(320, BitLen(Val(w)) - 1);
    }
  }

  lemma DivisorLength(d: nat, e: int, b: nat, len: nat)
    requires d > 0 && BitLen(d) <= 267 && len <= 320 && e <= len as int - BitLen(d)
    requires e <= 52 ==> b == d
    requires e > 52 ==> b == d * Pow2(e - 52)
    ensures BitLen(b) <= 319
  {
    if e > 52 {
      ScaledLength(d, e - 52, 268);
      BitLenBounds(b);
      if BitLen(b) > 268 {
        Pow2Monotone(268, BitLen(b) - 1);
      }
    }
  }

  // ---------- targets ----------

  /** A 256-bit number as its 32 bytes, least significant first. */
  const TARGET_SIZE: nat := 32

  type Target = s: seq<byte> | |s| == TARGET_SIZE witness seq(TARGET_SIZE, i => 0)

  function TargetValue(target: Target): (v: nat)
    ensures v < Pow(256, TARGET_SIZE)
  {
    ValueBound(target, 256);
    Value(target, 256)
  }

  lemma BytesPerWord(n: nat)
    ensures Pow(256, 8 * n) == Pow(WORD, n)
  {
    assert Pow2(8) == 256;
    PowIsPow2(8, 8 * n);
    WordPower(n);
  }

  lemma WordOfBytes(b: seq<byte>)
    requires |b| == 8
    ensures 0 <= Value(b, 256) < WORD
  {
    ValueBound(b, 256);
    BytesPerWord(1);
  }

  method TargetInteger(target: Target) returns (value: WideInteger)
    ensures Val(value) == TargetValue(target)
  {
    value := [0, 0, 0, 0, 0];
    var index := 0;
    while index < 4
      invariant 0 <= index <= 4
      invariant forall i :: index <= i < 5 ==> value[i] == 0
      invariant Value(value[..index], WORD) == Value(target[..8 * index], 256)
    {
      ghost var low := value[..index];
      WordOfBytes(target[8 * index..8 * index + 8]);
      value := value[index := Value(target[8 * index..8 * index + 8], 256)];
      assert value[..index + 1] == low + [value[index]];
      ValueAppend(low, value[index], WORD);
      assert target[..8 * (index + 1)] == target[..8 * index] + target[8 * index..8 * index + 8];
      ValueConcat(target[..8 * index], target[8 * index..8 * index + 8], 256);
      BytesPerWord(index);
      index := index + 1;
    }
    assert target[..32] == target;
    assert value == value[..4] + [0];
    ValueAppend(value[..4], 0, WORD);
  }

  /** 0xffff * 2^208: the target of difficulty one. */
  ghost function DifficultyOne(): (v: nat)
    ensures v > 0
  {
    0xffff * Pow2(208)
  }

  method DifficultyOneNumerator() returns (numerator: WideInteger)
    ensures Val(numerator) == DifficultyOne()
  {
    numerator := [0, 0, 0, 0xffff_0000, 0];
    WordPower(3);
    assert Pow2(208) == Pow2(192) * 0x1_0000 by {
      assert Pow2(8) == 0x100;
      Pow2Double(8, 0x100);
      Pow2Add(192, 16);
    }
    var top := [0xffff_0000, 0];
    assert Value(top, WORD) == 0xffff_0000 by { assert top[1..] == [0]; }
    assert numerator == seq(3, i => 0) + top;
    ValueConcat(seq(3, i => 0), top, WORD);
    ValueZeros(3, WORD);
  }

  /** The difficulty of a target: infinite for zero, otherwise the double nearest to the exact ratio. */
  method DifficultyFromTarget(target: Target) returns (difficulty: Double)
    ensures TargetValue(target) == 0 ==> difficulty == Infinity
    ensures TargetValue(target) > 0 ==>
              && difficulty.Finite? && TWO52 <= difficulty.significand < TWO53
              && -1074 <= difficulty.exponent <= 971
              && NearestEven(DifficultyOne(), TargetValue(target), difficulty.significand, difficulty.exponent)
  {
    if target == seq(32, i => 0) {
      ValueZeros(32, 256);
      return Infinity;
    }
    if TargetValue(target) == 0 {
      ValueZeros(32, 256);
      ValueInjective(target, seq(32, i => 0), 256);
    }
    var numerator := DifficultyOneNumerator();
    var denominator := TargetInteger(target);
    TargetLength(target);
    difficulty := ExactRatioToDouble(numerator, denominator);
  }

  lemma TargetLength(target: Target)
    ensures BitLen(TargetValue(target)) <= 256
  {
    BytesPerWord(4);
    WordPower(4);
    BitLenBounds(TargetValue(target));
    if BitLen(TargetValue(target)) > 256 {
      Pow2Monotone(256, BitLen(TargetValue(target)) - 1);
    }
  }

  // ---------- target_from_compact ----------

  /** The number a compact `nBits` denotes, cut to 256 bits. */
  function CompactValue(nbits: nat): nat
  {
    var exponent, mantissa := nbits / 0x100_0000, nbits % 0x80_0000;
    if exponent <= 3 then mantissa / Pow(256, 3 - exponent)
        else (mantissa * Pow(256, exponent - 3)) % Pow(256, TARGET_SIZE)
  }

  /** Bytes written from `index` on, those past the end dropped. */
  lemma WrittenAt(target: Target, bytes: seq<byte>, index: nat)
    requires forall i :: 0 <= i < 32 ==> target[i] == if index <= i < index + |bytes| then bytes[i - index] else 0
    ensures TargetValue(target) == (Value(bytes, 256) * Pow(256, index)) % Pow(256, TARGET_SIZE)
  {
    var full := seq(index, i => 0) + bytes + seq(32, i => 0);
    assert full[..32] == target;
    ValueZeros(index, 256);
    ValueZeros(32, 256);
    ValueConcat(seq(index, i => 0) + bytes, seq(32, i => 0), 256);
    ValueConcat(seq(index, i => 0), bytes, 256);
    ValueSplit(full, 32, 256);
    TruncatedValue(Value(bytes, 256) * Pow(256, index), TargetValue(target), Pow(256, TARGET_SIZE),
                   Value(full[32..], 256));
  }

  lemma TruncatedValue(x: int, low: nat, m: nat, high: int)
    requires low < m && x == low + m * high
    ensures x % m == low
  {
    DivModUnique(x, m, high, low);
  }

  /** The three low bytes of a mantissa, least significant first. */
  function MantissaBytes(m: nat): (b: seq<byte>)
    ensures |b| == 3
  {
    [m % 256, m / 256 % 256, m / 65536 % 256]
  }

  lemma MantissaValue(m: nat)
    requires m < 0x100_0000
    ensures Value(MantissaBytes(m), 256) == m
  {
    var b := MantissaBytes(m);
    assert b[1..] == [b[1], b[2]] && [b[1], b[2]][1..] == [b[2]] && [b[2]][1..] == [];
    assert Value([b[2]], 256) == b[2];
    assert Value([b[1], b[2]], 256) == (b[1] as int) + 256 * (b[2] as int);
  }

  lemma SmallModulo(m: nat)
    requires m < 0x100_0000
    ensures (m * Pow(256, 0)) % Pow(256, TARGET_SIZE) == m
  {
    PowAdd(256, 3, 29);
    MulMonotone(Pow(256, 3), 1, Pow(256, 29));
    assert Pow(256, 3) == 0x100_0000;
    DivModUnique(m, Pow(256, TARGET_SIZE), 0, m);
  }

  method TargetFromCompact(nbits: nat) returns (target: Target)
    requires nbits < 0x1_0000_0000
    ensures TargetValue(target) == CompactValue(nbits)
  {
    var exponent, mantissa := nbits / 0x100_0000, nbits % 0x80_0000;
    target := seq(32, i => 0);
    if exponent <= 3 {
      QuotientFits(mantissa, Pow(256, 3 - exponent));
      mantissa := mantissa / Pow(256, 3 - exponent);
      var bytes := MantissaBytes(mantissa);
      target := target[0 := bytes[0]][1 := bytes[1]][2 := bytes[2]];
      WrittenAt(target, bytes, 0);
      MantissaValue(mantissa);
      SmallModulo(mantissa);
    } else {
      var index := exponent - 3;
      target := WriteMantissa(mantissa, index);
    }
  }

  method WriteMantissa(mantissa: nat, index: nat) returns (target: Target)
    requires mantissa < 0x80_0000
    ensures TargetValue(target) == (mantissa * Pow(256, index)) % Pow(256, TARGET_SIZE)
  {
    var bytes := MantissaBytes(mantissa);
    target := seq(32, i => 0);
    if index <= 31 {
      target := target[index := bytes[0]];
    }
    if index + 1 <= 31 {
      target := target[index + 1 := bytes[1]];
    }
    if index + 2 <= 31 {
      target := target[index + 2 := bytes[2]];
    }
    WrittenAt(target, bytes, index);
    MantissaValue(mantissa);
  }
}
