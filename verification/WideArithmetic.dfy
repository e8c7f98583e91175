/** The 320-bit integer arithmetic behind the pool's difficulty figures: five 64-bit words, least significant first. */
module WideArithmetic {
  import opened Numbers

  const WORD: nat := 0x1_0000_0000_0000_0000

  type word = x: int | 0 <= x < 0x1_0000_0000_0000_0000
  type WideInteger = s: seq<word> | |s| == 5 witness [0, 0, 0, 0, 0]

  /** The number five little-endian 64-bit words stand for. */
  function Val(w: WideInteger): (v: nat)
    ensures v < Pow(WORD, 5)
  {
    ValueBound(w, WORD);
    Value(w, WORD)
  }

  lemma WordIsPow2()
    ensures Pow2(64) == WORD
  {
    assert Pow2(8) == 0x100;
    Pow2Double(8, 0x100);
    Pow2Double(16, 0x1_0000);
    Pow2Double(32, 0x1_0000_0000);
  }

  lemma Pow2Double(n: nat, p: nat)
    requires Pow2(n) == p
    ensures Pow2(2 * n) == p * p
  {
    Pow2Add(n, n);
  }

  lemma WordPower(n: nat)
    ensures Pow(WORD, n) == Pow2(64 * n)
  {
    WordIsPow2();
    PowIsPow2(64, n);
  }

  lemma ValBound(w: WideInteger)
    ensures Val(w) < Pow2(320)
  {
    WordPower(5);
  }

  // ---------- shift_left ----------

  lemma SplitProduct(v: int, c: nat, p: nat, hi: int, r: int)
    requires c > 0 && p > 0 && v == c * hi + r && 0 <= r < c
    ensures v * p == (p * c) * hi + r * p
    ensures 0 <= r * p && r * p + p <= p * c
    ensures 0 <= v < p * c ==> hi < p
  {
    assert (c * hi) * p == (p * c) * hi;
    MulMonotone(p, 0, r);
    MulMonotone(p, r + 1, c);
    if hi >= p {
      MulMonotone(c, p, hi);
    }
  }

  /** `v << bits` in a 64-bit register. */
  function LowPart(v: word, bits: nat): (lo: word)
  {
    (v * Pow2(bits)) % WORD
  }

  /** `v >> (64 - bits)`, the bits that `v << bits` drops. */
  function HighPart(v: word, bits: nat): (hi: word)
    requires bits < 64
  {
    QuotientFits(v, Pow2(64 - bits));
    v / Pow2(64 - bits)
  }

  lemma QuotientFits(v: nat, d: nat)
    requires d > 0
    ensures 0 <= v / d <= v
  {
    Quotient(v, d, v / d, v % d);
    MulMonotone(v / d, 1, d);
  }

  /** Shifting one word left splits it into the part kept in place and the part carried up. */
  lemma WordShift(v: word, bits: nat)
    requires bits < 64
    ensures v * Pow2(bits) == LowPart(v, bits) + WORD * HighPart(v, bits)
    ensures HighPart(v, bits) < Pow2(bits)
    ensures LowPart(v, bits) % Pow2(bits) == 0
    ensures LowPart(v, bits) + Pow2(bits) <= WORD
  {
    assert Pow2(bits) * Pow2(64 - bits) == WORD by {
      Pow2Add(bits, 64 - bits);
      WordIsPow2();
    }
    WordShiftBy(v, Pow2(bits), Pow2(64 - bits), LowPart(v, bits), HighPart(v, bits));
  }

  lemma WordShiftBy(v: word, p: nat, c: nat, lo: int, hi: int)
    requires p > 0 && c > 0 && p * c == WORD
    requires lo == (v * p) % WORD && hi == v / c
    ensures v * p == lo + WORD * hi
    ensures 0 <= lo < WORD && 0 <= hi < p
    ensures lo % p == 0 && lo + p <= WORD
  {
    var r := v % c;
    Quotient(v, c, hi, r);
    SplitProduct(v, c, p, hi, r);
    DivModUnique(v * p, WORD, hi, r * p);
    DivModUnique(r * p, p, r, 0);
  }

  lemma ShiftStepNumbers(w: int, a: int, d: int, v: int, p: int, carry: int, lo: int, hi: int)
    requires a * p == d + w * carry
    requires v * p == lo + WORD * hi
    ensures (a + w * v) * p == d + w * (carry + lo) + (WORD * w) * hi
  {
    assert (w * v) * p == w * (lo + WORD * hi);
  }

  /** One step of the shift loop: word `s` is added below the running carry. */
  lemma ShiftStep(low: seq<int>, done: seq<int>, v: word, p: nat, carry: nat, lo: int, hi: int)
    requires |low| == |done|
    requires Value(low, WORD) * p == Value(done, WORD) + Pow(WORD, |done|) * carry
    requires v * p == lo + WORD * hi
    ensures Value(low + [v], WORD) * p
         == Value(done + [carry + lo], WORD) + Pow(WORD, |done| + 1) * hi
  {
    var w := Pow(WORD, |done|);
    ValueAppend(low, v, WORD);
    ValueAppend(done, carry + lo, WORD);
    assert Pow(WORD, |done| + 1) == WORD * w;
    ShiftStepNumbers(w, Value(low, WORD), Value(done, WORD), v, p, carry, lo, hi);
  }

  lemma ShiftTotalNumbers(a: int, m: int, h: int, w: int, p: int, d: int, carry: int)
    requires a * p == d + m * carry
    ensures (a + m * h) * (w * p) == w * d + (w * m) * (carry + h * p)
  {
    assert (m * h) * (w * p) == (w * m) * (h * p);
    assert a * (w * p) == w * (a * p);
    assert w * (m * carry) == (w * m) * carry;
  }

  lemma LowWordsZero(shifted: WideInteger, words: nat)
    requires words <= 5 && forall i :: 0 <= i < words ==> shifted[i] == 0
    ensures Val(shifted) == Pow(WORD, words) * Value(shifted[words..], WORD)
  {
    ValueSplit(shifted, words, WORD);
    assert shifted[..words] == seq(words, i => 0);
    ValueZeros(words, WORD);
  }

  lemma ShiftFactors(words: nat, bits: nat)
    requires words <= 5
    ensures Pow(WORD, words) * Pow2(bits) == Pow2(64 * words + bits)
    ensures Pow(WORD, words) * Pow(WORD, 5 - words) == Pow2(320)
  {
    WordPower(words);
    WordPower(5 - words);
    Pow2Add(64 * words, bits);
    Pow2Add(64 * words, 64 * (5 - words));
  }

  /** The finished loop holds the product with everything above 320 bits cut off. */
  lemma ShiftTotal(value: WideInteger, shifted: WideInteger, words: nat, bits: nat, carry: nat)
    requires words <= 5
    requires forall i :: 0 <= i < words ==> shifted[i] == 0
    requires Value(value[..5 - words], WORD) * Pow2(bits)
          == Value(shifted[words..], WORD) + Pow(WORD, 5 - words) * carry
    ensures Val(shifted) == (Val(value) * Pow2(64 * words + bits)) % Pow2(320)
  {
    var n := 5 - words;
    var h := Value(value[n..], WORD);
    ShiftFactors(words, bits);
    LowWordsZero(shifted, words);
    ValueSplit(value, n, WORD);
    ValBound(shifted);
    CutOff(Val(value), Val(shifted), Value(value[..n], WORD), Pow(WORD, n), h, Pow(WORD, words), Pow2(bits),
           Value(shifted[words..], WORD), carry, Pow2(64 * words + bits), Pow2(320));
  }

  lemma CutOff(value: int, shifted: int, a: int, m: int, h: int, w: int, p: int, d: int, carry: int,
               factor: int, modulus: int)
    requires a * p == d + m * carry && value == a + m * h && shifted == w * d
    requires w * p == factor && w * m == modulus && 0 <= shifted < modulus
    ensures shifted == (value * factor) % modulus
  {
    ShiftTotalNumbers(a, m, h, w, p, d, carry);
    DivModUnique(value * factor, modulus, carry + h * p, shifted);
  }

  /** What the shift loop holds after `source` words: they are in place, bar the carry above them. */
  ghost predicate Shifting(value: WideInteger, shifted: WideInteger, source: nat, words: nat, bits: nat, carry: nat)
  {
    && source + words <= 5
    && (forall i :: 0 <= i < 5 && (i < words || i > source + words) ==> shifted[i] == 0)
    && carry < Pow2(bits)
    && (source + words < 5 ==> shifted[source + words] == carry)
    && Value(value[..source], WORD) * Pow2(bits)
       == Value(shifted[words..source + words], WORD) + Pow(WORD, source) * carry
  }

  /** The body of the shift loop: at most two words change. */
  function ShiftWord(shifted: seq<nat>, destination: nat, v: word, bits: nat): (after: seq<nat>)
    requires |shifted| == 5 && destination < 5 && bits < 64
    ensures |after| == 5
  {
    var low := shifted[destination := BitOr(shifted[destination], LowPart(v, bits))];
    if bits != 0 && destination + 1 < 5
    then low[destination + 1 := BitOr(shifted[destination + 1], HighPart(v, bits))]
    else low
  }

  lemma ShiftedWords(shifted: WideInteger, destination: nat, v: word, bits: nat, carry: nat)
    requires destination < 5 && bits < 64 && carry < Pow2(bits) && shifted[destination] == carry
    requires forall i :: destination < i < 5 ==> shifted[i] == 0
    ensures var after := ShiftWord(shifted, destination, v, bits);
            && after[destination] == carry + LowPart(v, bits) < WORD
            && (forall i :: 0 <= i < destination ==> after[i] == shifted[i])
            && (destination + 1 < 5 ==> after[destination + 1] == HighPart(v, bits))
            && (forall i :: destination + 1 < i < 5 ==> after[i] == 0)
  {
    WordShift(v, bits);
    BitOrDisjoint(LowPart(v, bits), carry, bits);
    if bits == 0 {
      assert Pow2(bits) == 1;
    }
  }

  lemma ShiftingStep(value: WideInteger, shifted: WideInteger, source: nat, words: nat, bits: nat, carry: nat)
    requires Shifting(value, shifted, source, words, bits, carry) && source + words < 5 && bits < 64
    ensures var after := ShiftWord(shifted, source + words, value[source], bits);
            && (forall i :: 0 <= i < 5 ==> 0 <= after[i] < WORD)
            && Shifting(value, after, source + 1, words, bits, HighPart(value[source], bits))
  {
    var after := ShiftWord(shifted, source + words, value[source], bits);
    var lo, hi := LowPart(value[source], bits), HighPart(value[source], bits);
    WordShift(value[source], bits);
    ShiftedWords(shifted, source + words, value[source], bits, carry);
    var done := shifted[words..source + words];
    assert after[words..source + words + 1] == done + [carry + lo];
    assert value[..source + 1] == value[..source] + [value[source]];
    ShiftStep(value[..source], done, value[source], Pow2(bits), carry, lo, hi);
  }

  method ShiftLeft(value: WideInteger, shift: nat) returns (shifted: WideInteger)
    ensures Val(shifted) == (Val(value) * Pow2(shift)) % Pow2(320)
  {
    shifted := [0, 0, 0, 0, 0];
    var wordShift := shift / 64;
    var bitShift := shift % 64;
    var source := 0;
    ghost var carry: nat := 0;
    while source < 5
      invariant 0 <= source <= 5
      invariant wordShift <= 5 ==> Shifting(value, shifted, source, wordShift, bitShift, carry)
      invariant wordShift > 5 ==> shifted == [0, 0, 0, 0, 0]
    {
      var destination := source + wordShift;
      if destination >= 5 {
        break;
      }
      ShiftingStep(value, shifted, source, wordShift, bitShift, carry);
      ghost var after := ShiftWord(shifted, destination, value[source], bitShift);
      assert after[destination] < WORD;
      var low := shifted[destination := BitOr(shifted[destination], LowPart(value[source], bitShift))];
      if bitShift != 0 && destination + 1 < 5 {
        assert after[destination + 1] < WORD;
        low := low[destination + 1 := BitOr(shifted[destination + 1], HighPart(value[source], bitShift))];
      }
      shifted := low;
      assert shifted == after;
      carry := HighPart(value[source], bitShift);
      source := source + 1;
    }
    ShiftDone(value, shifted, shift, source, carry);
  }

  lemma ShiftDone(value: WideInteger, shifted: WideInteger, shift: nat, source: nat, carry: nat)
    requires shift / 64 <= 5 ==> Shifting(value, shifted, source, shift / 64, shift % 64, carry)
    requires source == 5 || source + shift / 64 >= 5
    requires shift / 64 > 5 ==> shifted == [0, 0, 0, 0, 0]
    ensures Val(shifted) == (Val(value) * Pow2(shift)) % Pow2(320)
  {
    var words, bits := shift / 64, shift % 64;
    assert shift == 64 * words + bits;
    if words <= 5 {
      ShiftDoneWithin(value, shifted, source, words, bits, carry);
    } else {
      ShiftedOut(value, shift);
      assert shifted == seq(5, i => 0);
      ValueZeros(5, WORD);
    }
  }

  lemma ShiftDoneWithin(value: WideInteger, shifted: WideInteger, source: nat, words: nat, bits: nat, carry: nat)
    requires Shifting(value, shifted, source, words, bits, carry)
    requires source == 5 || source + words >= 5
    ensures Val(shifted) == (Val(value) * Pow2(64 * words + bits)) % Pow2(320)
  {
    assert source == 5 - words;
    assert shifted[words..5] == shifted[words..];
    ShiftTotal(value, shifted, words, bits, carry);
  }

  lemma ShiftedOut(value: WideInteger, shift: nat)
    requires shift >= 320
    ensures (Val(value) * Pow2(shift)) % Pow2(320) == 0
  {
    Pow2Add(320, shift - 320);
    MultipleModulo(Val(value), Pow2(320), Pow2(shift - 320));
  }

  lemma MultipleModulo(v: int, m: int, k: int)
    requires m > 0
    ensures (v * (m * k)) % m == 0
  {
    assert v * (m * k) == m * (v * k);
    DivModUnique(v * (m * k), m, v * k, 0);
  }

  /** A shift that fits loses no bit. */
  lemma ShiftExact(value: WideInteger, shift: nat)
    requires Val(value) * Pow2(shift) < Pow2(320)
    ensures (Val(value) * Pow2(shift)) % Pow2(320) == Val(value) * Pow2(shift)
  {
    ValBound(value);
    MulMonotone(Pow2(shift), 0, Val(value));
    DivModUnique(Val(value) * Pow2(shift), Pow2(320), 0, Val(value) * Pow2(shift));
  }

  // ---------- compare, bit_length, subtract ----------

  /** The most significant differing word decides the order of the numbers. */
  lemma TopWordDecides(left: WideInteger, right: WideInteger, i: nat)
    requires i < 5 && left[i + 1..] == right[i + 1..]
    ensures left[i] < right[i] ==> Val(left) < Val(right)
  {
    if left[i] < right[i] {
      ValueSplit(left, i, WORD);
      ValueSplit(right, i, WORD);
      ValueBound(left[..i], WORD);
      ValueBound(right[..i], WORD);
      var w, high := Pow(WORD, i), Value(left[i + 1..], WORD);
      assert left[i..] == [left[i]] + left[i + 1..] && right[i..] == [right[i]] + right[i + 1..];
      assert Value(left[i..], WORD) == left[i] + WORD * high;
      assert Value(right[i..], WORD) == right[i] + WORD * high;
      MulMonotone(w, left[i] + 1 + WORD * high, right[i] + WORD * high);
      assert w * (left[i] + 1 + WORD * high) == w * (left[i] + WORD * high) + w;
    }
  }

  method Compare(left: WideInteger, right: WideInteger) returns (order: int)
    ensures order == if Val(left) < Val(right) then -1 else if Val(left) > Val(right) then 1 else 0
  {
    var index := 5;
    while index > 0
      invariant 0 <= index <= 5
      invariant left[index..] == right[index..]
    {
      index := index - 1;
      TopWordDecides(left, right, index);
      TopWordDecides(right, left, index);
      if left[index] < right[index] {
        return -1;
      }
      if left[index] > right[index] {
        return 1;
      }
      assert left[index..] == [left[index]] + left[index + 1..];
      assert right[index..] == [right[index]] + right[index + 1..];
    }
    assert left[0..] == left && right[0..] == right;
    return 0;
  }

  method BitLength(value: WideInteger) returns (n: nat)
    ensures n == BitLen(Val(value)) && n <= 320
  {
    ValBound(value);
    var index := 5;
    while index > 0
      invariant 0 <= index <= 5
      invariant forall i :: index <= i < 5 ==> value[i] == 0
    {
      index := index - 1;
      if value[index] != 0 {
        n := index * 64 + BitLen(value[index]);
        TopWordBitLength(value, index);
        return;
      }
    }
    assert value == seq(5, i => 0);
    ValueZeros(5, WORD);
    return 0;
  }

  lemma TopWordBitLength(value: WideInteger, i: nat)
    requires i < 5 && value[i] != 0 && forall k :: i < k < 5 ==> value[k] == 0
    ensures BitLen(Val(value)) == 64 * i + BitLen(value[i]) <= 320
  {
    var len := BitLen(value[i]);
    BitLenBounds(value[i]);
    WordLength(value[i], len);
    ValueSplit(value, i, WORD);
    ValueBound(value[..i], WORD);
    assert Value(value[i..], WORD) == value[i] by {
      assert value[i..] == [value[i]] + seq(4 - i, k => 0);
      ValueZeros(4 - i, WORD);
    }
    WordPower(i);
    ScaledBitLength(Value(value[..i], WORD), value[i], 64 * i, len, Val(value));
  }

  lemma WordLength(x: word, len: nat)
    requires len > 0 && Pow2(len - 1) <= x
    ensures len <= 64
  {
    if len > 64 {
      WordIsPow2();
      Pow2Monotone(64, len - 1);
    }
  }

  lemma ScaledBitLength(low: nat, top: nat, k: nat, len: nat, total: nat)
    requires low < Pow2(k) && len > 0 && Pow2(len - 1) <= top < Pow2(len)
    requires total == low + Pow2(k) * top
    ensures BitLen(total) == k + len
  {
    Pow2Add(k, len - 1);
    Pow2Add(k, len);
    ScaledBounds(low, top, Pow2(k), Pow2(len - 1), Pow2(len));
    BitLenUnique(total, k + len);
  }

  lemma ScaledBounds(low: nat, top: nat, w: nat, lower: nat, upper: nat)
    requires low < w && lower <= top < upper
    ensures w * lower <= low + w * top < w * upper
  {
    MulMonotone(w, lower, top);
    MulMonotone(w, top + 1, upper);
  }

  /** One word of a subtraction with borrow, in wrapping 64-bit arithmetic. */
  lemma BorrowStep(a: word, b: word, borrow: int, subtrahend: int, next: int)
    requires 0 <= borrow <= 1
    requires subtrahend == (b + borrow) % WORD
    requires next == if subtrahend < b || a < subtrahend then 1 else 0
    ensures (a - subtrahend) % WORD == a - b - borrow + WORD * next
  {
    if b + borrow == WORD {
    } else if a < subtrahend {
      DivModUnique(a - subtrahend, WORD, -1, a - subtrahend + WORD);
    } else {
    }
  }

  /** Subtracts in place, word by word with a borrow, as the source does on its array. */
  method Subtract(left: array<word>, right: WideInteger)
    requires left.Length == 5
    requires Val(right) <= Val(left[..])
    modifies left
    ensures Val(left[..]) == old(Val(left[..])) - Val(right)
  {
    var borrow := 0;
    var index := 0;
    ghost var was: WideInteger := left[..];
    while index < 5
      invariant 0 <= index <= 5 && 0 <= borrow <= 1
      invariant forall i :: index <= i < 5 ==> left[i] == was[i]
      invariant Value(left[..index], WORD) - Pow(WORD, index) * borrow
             == Value(was[..index], WORD) - Value(right[..index], WORD)
    {
      ghost var low := left[..index];
      var subtrahend := (right[index] + borrow) % WORD;
      var additionOverflow := subtrahend < right[index];
      var nextBorrow := if additionOverflow || left[index] < subtrahend then 1 else 0;
      BorrowStep(left[index], right[index], borrow, subtrahend, nextBorrow);
      ghost var d := (left[index] - subtrahend) % WORD;
      left[index] := (left[index] - subtrahend) % WORD;
      SubtractStep(low, was[..index], right[..index], was[index], right[index], d, borrow, nextBorrow);
      assert left[..index + 1] == low + [d];
      assert was[..index + 1] == was[..index] + [was[index]];
      assert right[..index + 1] == right[..index] + [right[index]];
      borrow := nextBorrow;
      index := index + 1;
    }
    assert left[..5] == left[..] && was[..5] == was && right[..5] == right;
    ValBound(left[..]);
    WordIsPow2();
  }

  lemma SubtractStepNumbers(w: int, x: int, y: int, d: int, borrow: int, next: int)
    requires d == x - y - borrow + WORD * next
    ensures w * d == w * x - w * y - w * borrow + (WORD * w) * next
  {
  }

  lemma SubtractStep(low: seq<int>, a: seq<int>, b: seq<int>, x: int, y: int, d: int, borrow: int, next: int)
    requires |low| == |a| == |b|
    requires Value(low, WORD) - Pow(WORD, |low|) * borrow == Value(a, WORD) - Value(b, WORD)
    requires d == x - y - borrow + WORD * next
    ensures Value(low + [d], WORD) - Pow(WORD, |low| + 1) * next
         == Value(a + [x], WORD) - Value(b + [y], WORD)
  {
    ValueAppend(low, d, WORD);
    ValueAppend(a, x, WORD);
    ValueAppend(b, y, WORD);
    SubtractStepNumbers(Pow(WORD, |low|), x, y, d, borrow, next);
  }

  // ---------- divide ----------

  lemma ScaleBelow(x: nat, b: nat, c: nat)
    requires x < b && c > 0
    ensures x * c < b * c
  {
    MulMonotone(c, x + 1, b);
  }

  lemma ShiftedDivisorFits(dividend: nat, divisor: nat, bit: nat)
    requires divisor > 0 && BitLen(dividend) <= 320 && bit + BitLen(divisor) <= BitLen(dividend)
    ensures divisor * Pow2(bit) < Pow2(320)
  {
    BitLenBounds(divisor);
    ScaleBelow(divisor, Pow2(BitLen(divisor)), Pow2(bit));
    Pow2Add(BitLen(divisor), bit);
    Pow2Monotone(bit + BitLen(divisor), 320);
  }

  lemma ShorterIsSmaller(x: nat, y: nat)
    requires BitLen(x) < BitLen(y)
    ensures x < y
  {
    BitLenBounds(x);
    BitLenBounds(y);
    Pow2Monotone(BitLen(x), BitLen(y) - 1);
  }

  lemma ScaleAbove(x: nat, b: nat, y: nat, c: nat)
    requires x < b * c && b <= y
    ensures x < y * c
  {
    MulMonotone(c, b, y);
  }

  lemma FirstBit(dividend: nat, divisor: nat)
    requires divisor > 0 && BitLen(dividend) >= BitLen(divisor)
    ensures dividend < divisor * Pow2(BitLen(dividend) - BitLen(divisor) + 1)
  {
    var n, d := BitLen(dividend), BitLen(divisor);
    BitLenBounds(dividend);
    BitLenBounds(divisor);
    Pow2Add(d - 1, n - d + 1);
    ScaleAbove(dividend, Pow2(d - 1), divisor, Pow2(n - d + 1));
  }

  /** What the division loop holds before it tries bit `bit` of the quotient. */
  ghost predicate Dividing(dividend: nat, divisor: nat, quotient: nat, left: nat, bit: int)
  {
    && dividend == quotient * divisor + left
    && (bit >= -1 ==> left < divisor * Pow2(bit + 1) && quotient % Pow2(bit + 1) == 0)
    && (bit < -1 ==> left < divisor)
  }

  lemma DividingStart(dividend: nat, divisor: nat)
    requires divisor > 0
    ensures Dividing(dividend, divisor, 0, dividend, BitLen(dividend) as int - BitLen(divisor))
  {
    if BitLen(dividend) >= BitLen(divisor) {
      FirstBit(dividend, divisor);
    } else {
      ShorterIsSmaller(dividend, divisor);
    }
  }

  lemma DividingStep(dividend: nat, divisor: nat, quotient: nat, left: nat, bit: nat)
    requires divisor > 0 && Dividing(dividend, divisor, quotient, left, bit)
    ensures left < divisor * Pow2(bit) ==> Dividing(dividend, divisor, quotient, left, bit - 1)
    ensures left >= divisor * Pow2(bit) ==>
              Dividing(dividend, divisor, BitOr(quotient, Pow2(bit)), left - divisor * Pow2(bit), bit - 1)
  {
    BitOrDisjoint(quotient, Pow2(bit), bit + 1);
    QuotientBitNumbers(quotient, divisor, left, Pow2(bit));
  }

  /** Schoolbook binary long division: quotient and remainder, the quotient in 64 bits. */
  method Divide(dividend: WideInteger, divisor: WideInteger) returns (quotient: nat, remainder: WideInteger)
    requires Val(divisor) > 0
    requires BitLen(Val(dividend)) as int - BitLen(Val(divisor)) <= 63
    ensures Val(dividend) == quotient * Val(divisor) + Val(remainder)
    ensures Val(remainder) < Val(divisor)
  {
    var left := new word[5](i requires 0 <= i < 5 => dividend[i]);
    assert left[..] == dividend;
    quotient := 0;
    var dividendBits := BitLength(dividend);
    var divisorBits := BitLength(divisor);
    var bit: int := dividendBits as int - divisorBits;
    DividingStart(Val(dividend), Val(divisor));
    while bit >= 0
      invariant bit + divisorBits <= dividendBits
      invariant Dividing(Val(dividend), Val(divisor), quotient, Val(left[..]), bit)
    {
      ShiftedDivisorFits(Val(dividend), Val(divisor), bit);
      ShiftExact(divisor, bit);
      DividingStep(Val(dividend), Val(divisor), quotient, Val(left[..]), bit);
      var shifted := ShiftLeft(divisor, bit);
      var order := Compare(left[..], shifted);
      if order >= 0 {
        Subtract(left, shifted);
        quotient := BitOr(quotient, Pow2(bit));
      }
      bit := bit - 1;
    }
    remainder := left[..];
  }

  lemma QuotientBitNumbers(quotient: nat, d: nat, left: nat, p: nat)
    requires p > 0 && quotient % (2 * p) == 0 && left < d * (2 * p)
    ensures (quotient + p) % p == 0 && quotient % p == 0
    ensures (quotient + p) * d == quotient * d + d * p
    ensures left >= d * p ==> left - d * p < d * p
  {
    var k := quotient / (2 * p);
    Quotient(quotient, 2 * p, k, 0);
    assert quotient == p * (2 * k);
    DivModUnique(quotient, p, 2 * k, 0);
    assert quotient + p == p * (2 * k + 1);
    DivModUnique(quotient + p, p, 2 * k + 1, 0);
    assert d * (2 * p) == d * p + d * p;
  }
}
