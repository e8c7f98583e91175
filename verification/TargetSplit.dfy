/**
 `target_from_difficulty`: a double quotient is peeled into four 64-bit words by floating-point division,
 truncation, multiplication and subtraction. Each of those operations is proved exact, so the words
 hold the floor of the quotient.

 A non-negative double is a natural number in units of 2^-b. Dividing or multiplying by a power of two
 changes the unit and not the number, and rounding to 53 bits does not depend on the unit.
 */
module TargetSplit {
  import opened Numbers
  import opened Doubles
  import opened WideArithmetic
  import opened Difficulty

  /** x has at most 53 significant bits: it is short, or twice such a number. */
  ghost predicate Representable(x: nat)
  {
    x < TWO53 || (x % 2 == 0 && Representable(x / 2))
  }

  /** Rounding to a double: anything at all, except that doubles stay as they are. */
  ghost predicate RoundsDoublesToThemselves(round: nat -> nat)
  {
    forall x: nat :: Representable(x) ==> round(x) == x
  }

  lemma {:induction false} RepresentableProduct(m: nat, j: nat)
    requires m < TWO53
    ensures Representable(m * Pow2(j))
  {
    if j > 0 {
      RepresentableProduct(m, j - 1);
      assert m * Pow2(j) == 2 * (m * Pow2(j - 1));
      Doubled(m * Pow2(j - 1));
    }
  }

  lemma Doubled(x: nat)
    requires Representable(x)
    ensures Representable(2 * x)
  {
  }

  /** The high and the low part of a representable number are representable. */
  lemma {:induction false} PartsRepresentable(x: nat, p: nat)
    requires Representable(x)
    ensures 0 <= x / Pow2(p) && Representable(x / Pow2(p))
    ensures 0 <= x % Pow2(p) && Representable(x % Pow2(p))
  {
    if x < TWO53 {
      SmallParts(x, Pow2(p));
    } else if p == 0 {
      DivModUnique(x, 1, x, 0);
    } else {
      PartsRepresentable(x / 2, p - 1);
      DivideCommon(x / 2, x, 2, Pow2(p - 1), Pow2(p));
      Doubled((x / 2) % Pow2(p - 1));
    }
  }

  lemma SmallParts(m: nat, c: nat)
    requires c > 0
    ensures 0 <= m / c <= m && 0 <= m % c <= m
  {
    QuotientFits(m, c);
    RemainderFits(m, c);
  }

  lemma DivideCommon(m: nat, x: nat, q: nat, c: nat, qc: nat)
    requires q > 0 && c > 0 && qc == q * c && x == m * q
    ensures x / qc == m / c && x % qc == (m % c) * q
  {
    var k, r := m / c, m % c;
    Quotient(m, c, k, r);
    assert x == qc * k + r * q by {
      assert (c * k) * q == (q * c) * k;
    }
    MulMonotone(q, r + 1, c);
    MulMonotone(q, 0, r);
    DivModUnique(x, qc, k, r * q);
  }

  lemma RemainderFits(m: nat, d: nat)
    requires d > 0
    ensures 0 <= m % d <= m
  {
    Quotient(m, d, m / d, m % d);
    MulMonotone(d, 0, m / d);
  }

  /** One word: divide, truncate, convert back, multiply, subtract - each followed by a rounding. */
  method PeelWord(remaining: nat, unit: nat, round: nat -> nat) returns (word: nat, rest: nat)
    requires RoundsDoublesToThemselves(round) && Representable(remaining)
    ensures remaining == word * Pow2(unit) + rest && rest < Pow2(unit) && Representable(rest)
  {
    PartsRepresentable(remaining, unit);
    Quotient(remaining, Pow2(unit), remaining / Pow2(unit), remaining % Pow2(unit));
    var quotient := round(remaining);
    word := quotient / Pow2(unit);
    var converted := round(word);
    var product := round(converted);
    rest := round(remaining - product * Pow2(unit));
  }

  lemma WordFits(remaining: nat, unit: nat, word: nat, rest: nat)
    requires remaining == word * Pow2(unit) + rest && remaining < Pow2(unit + 64)
    ensures word < WORD
  {
    Pow2Add(unit, 64);
    WordIsPow2();
    if word >= WORD {
      MulMonotone(Pow2(unit), WORD, word);
    }
  }

  const WORD_SIZE: nat := 8

  function WordBytes(w: nat): (s: seq<byte>)
    ensures |s| == WORD_SIZE
  {
    ToDigits(w, WORD_SIZE, 256)
  }

  lemma WordThen(w: nat, rest: seq<byte>)
    requires w < WORD
    ensures Value(WordBytes(w) + rest, 256) == w + WORD * Value(rest, 256)
  {
    BytesPerWord(1);
    ToDigitsValue(w, 8, 256);
    ValueConcat(WordBytes(w), rest, 256);
  }

  /** The bytes of four words, least significant first, spell the number the words spell. */
  lemma FourWords(w0: nat, w1: nat, w2: nat, w3: nat, target: Target)
    requires w0 < WORD && w1 < WORD && w2 < WORD && w3 < WORD
    requires target == WordBytes(w0) + WordBytes(w1) + WordBytes(w2) + WordBytes(w3)
    ensures TargetValue(target) == w0 + WORD * (w1 + WORD * (w2 + WORD * w3))
  {
    var t3 := WordBytes(w3) + [];
    var t2 := WordBytes(w2) + t3;
    var t1 := WordBytes(w1) + t2;
    Regrouped(WordBytes(w0), WordBytes(w1), WordBytes(w2), WordBytes(w3));
    FourValues(w0, w1, w2, w3, t3, t2, t1);
  }

  lemma Regrouped(a: seq<byte>, b: seq<byte>, c: seq<byte>, d: seq<byte>)
    ensures a + b + c + d == a + (b + (c + (d + [])))
  {
    assert d + [] == d;
    assert a + b + c == a + (b + c);
    assert a + (b + c) + d == a + (b + c + d);
    assert b + c + d == b + (c + d);
  }

  lemma FourValues(w0: nat, w1: nat, w2: nat, w3: nat, t3: seq<byte>, t2: seq<byte>, t1: seq<byte>)
    requires w0 < WORD && w1 < WORD && w2 < WORD && w3 < WORD
    requires t3 == WordBytes(w3) + [] && t2 == WordBytes(w2) + t3 && t1 == WordBytes(w1) + t2
    ensures Value(WordBytes(w0) + t1, 256) == w0 + WORD * (w1 + WORD * (w2 + WORD * w3))
  {
    WordThen(w3, []);
    WordThen(w2, t3);
    WordThen(w1, t2);
    WordThen(w0, t1);
  }

  /** The words of a quotient below 2^256 spell its floor. */
  lemma FloorOfWords(x: nat, b: nat, w3: nat, r3: nat, w2: nat, r2: nat, w1: nat, r1: nat, w0: nat, r0: nat)
    requires x == w3 * Pow2(192 + b) + r3 && r3 == w2 * Pow2(128 + b) + r2
    requires r2 == w1 * Pow2(64 + b) + r1 && r1 == w0 * Pow2(b) + r0 && r0 < Pow2(b)
    ensures x / Pow2(b) == w0 + WORD * (w1 + WORD * (w2 + WORD * w3))
  {
    WordIsPow2();
    Pow2Add(64, b);
    Pow2Add(64, 64 + b);
    Pow2Add(64, 128 + b);
    FloorNumbers(x, Pow2(b), Pow2(64 + b), Pow2(128 + b), Pow2(192 + b), w3, w2, w1, w0, r0);
  }

  lemma FloorNumbers(x: int, u: int, u1: int, u2: int, u3: int, w3: int, w2: int, w1: int, w0: int, r0: int)
    requires u1 == WORD * u && u2 == WORD * u1 && u3 == WORD * u2 && 0 <= r0 < u
    requires x == w3 * u3 + (w2 * u2 + (w1 * u1 + (w0 * u + r0)))
    ensures x / u == w0 + WORD * (w1 + WORD * (w2 + WORD * w3))
  {
    Nested(w2, w3, u2, u3);
    Nested(w1, w2 + WORD * w3, u1, u2);
    Nested(w0, w1 + WORD * (w2 + WORD * w3), u, u1);
    DivModUnique(x, u, w0 + WORD * (w1 + WORD * (w2 + WORD * w3)), r0);
  }

  lemma Nested(w: int, above: int, u: int, next: int)
    requires next == WORD * u
    ensures above * next + w * u == (w + WORD * above) * u
  {
    assert above * (WORD * u) == (WORD * above) * u;
  }

  /** The four words, most significant first. */
  method PeelWords(quotient: nat, b: nat, round: nat -> nat) returns (w0: nat, w1: nat, w2: nat, w3: nat)
    requires RoundsDoublesToThemselves(round) && Representable(quotient) && quotient < Pow2(b + 256)
    ensures w0 < WORD && w1 < WORD && w2 < WORD && w3 < WORD
    ensures quotient / Pow2(b) == w0 + WORD * (w1 + WORD * (w2 + WORD * w3))
  {
    var r3, r2, r1;
    w3, r3 := PeelWord(quotient, 192 + b, round);
    WordFits(quotient, 192 + b, w3, r3);
    w2, r2 := PeelWord(r3, 128 + b, round);
    WordFits(r3, 128 + b, w2, r2);
    w1, r1 := PeelWord(r2, 64 + b, round);
    WordFits(r2, 64 + b, w1, r1);
    ghost var r0;
    w0, r0 := LastWord(r1, b);
    FloorOfWords(quotient, b, w3, r3, w2, r2, w1, r1, w0, r0);
  }

  method LastWord(remaining: nat, b: nat) returns (word: nat, ghost rest: nat)
    requires remaining < Pow2(b + 64)
    ensures word < WORD && remaining == word * Pow2(b) + rest && rest < Pow2(b)
  {
    Quotient(remaining, Pow2(b), remaining / Pow2(b), remaining % Pow2(b));
    word, rest := remaining / Pow2(b), remaining % Pow2(b);
    WordFits(remaining, b, word, rest);
  }

  /** The quotient, below 2^256 and given in units of 2^-b, becomes a target equal to its floor. */
  method SplitQuotient(quotient: nat, b: nat, round: nat -> nat) returns (target: Target)
    requires RoundsDoublesToThemselves(round) && Representable(quotient) && quotient < Pow2(b + 256)
    ensures TargetValue(target) == quotient / Pow2(b)
  {
    var w0, w1, w2, w3 := PeelWords(quotient, b, round);
    target := WordBytes(w0) + WordBytes(w1) + WordBytes(w2) + WordBytes(w3);
    FourWords(w0, w1, w2, w3, target);
  }

  // ---------- the whole conversion ----------

  datatype Float = NaN | NegativeInfinity | PositiveInfinity | Number(m: int, e: int)

  /** 2.4e-10 is the double MINIMUM / 2^80. */
  const MINIMUM: nat := 290142196707511

  ghost predicate AboveMinimum(d: Float)
  {
    match d
    case NaN => false
    case NegativeInfinity => false
    case PositiveInfinity => true
    case Number(m, e) =>
      if e >= -80 then m * Pow2(e + 80) > MINIMUM else m > MINIMUM * Pow2(-(e + 80))
  }

  /** The exact quotient 0xffff * 2^208 / d as a fraction. */
  ghost function Numerator(e: int): nat
  {
    if e >= 0 then DifficultyOne() else DifficultyOne() * Pow2(-e)
  }

  ghost function Denominator(m: nat, e: int): nat
  {
    if e >= 0 then m * Pow2(e) else m
  }

  /** The floor of m * 2^e. */
  function Floor(m: nat, e: int): nat
  {
    if e >= 0 then m * Pow2(e) else (QuotientFits(m, Pow2(-e)); m / Pow2(-e))
  }

  lemma MinimumScaled(m: nat, e: int)
    requires AboveMinimum(Number(m, e))
    ensures Denominator(m, e) * Pow2(80) > MINIMUM * (if e >= 0 then 1 else Pow2(-e))
  {
    if e >= 0 {
      MinimumWhole(m, e);
    } else if e >= -80 {
      Pow2Add(e + 80, -e);
      ScaleMinimum(m, Pow2(e + 80), Pow2(-e), Pow2(80));
    } else {
      MinimumSmall(m, e);
    }
  }

  lemma MinimumWhole(m: nat, e: nat)
    requires m * Pow2(e + 80) > MINIMUM
    ensures m * Pow2(e) * Pow2(80) > MINIMUM
  {
    Pow2Add(e, 80);
    assert m * Pow2(e) * Pow2(80) == m * (Pow2(e) * Pow2(80));
  }

  lemma MinimumSmall(m: nat, e: int)
    requires e < -80 && m > MINIMUM * Pow2(-(e + 80))
    ensures m * Pow2(80) > MINIMUM * Pow2(-e)
  {
    Pow2Add(-(e + 80), 80);
    ScaleMinimumDown(m, Pow2(-(e + 80)), Pow2(80), Pow2(-e));
  }

  lemma ScaleMinimum(m: nat, p: nat, q: nat, pq: nat)
    requires m * p > MINIMUM && pq == p * q && q > 0
    ensures m * pq > MINIMUM * q
  {
    MulMonotone(q, MINIMUM + 1, m * p);
    assert q * (m * p) == m * (p * q);
  }

  lemma ScaleMinimumDown(m: nat, p: nat, q: nat, pq: nat)
    requires m > MINIMUM * p && pq == p * q && q > 0
    ensures m * q > MINIMUM * pq
  {
    MulMonotone(q, MINIMUM * p + 1, m);
    assert q * (MINIMUM * p) == MINIMUM * (p * q);
  }

  /** The exact quotient is below the largest double under 2^256. */
  lemma QuotientBelow(t: nat, n: nat, s: nat)
    requires s > 0 && t * Pow2(80) > MINIMUM * s && n == DifficultyOne() * s
    ensures n < t * ((TWO53 - 1) * Pow2(203))
  {
    TwoPowers();
    Pow2Add(85, 123);
    Pow2Add(80, 123);
    Powers85();
    QuotientBelowNumbers(t, n, s, Pow2(80), Pow2(85), Pow2(123), Pow2(203), Pow2(208));
  }

  lemma Powers85()
    ensures Pow2(85) == 0x20_0000_0000_0000_0000_0000
  {
    assert Pow2(5) == 32;
    Pow2Add(5, 16);
    assert Pow2(8) == 0x100;
    Pow2Double(8, 0x100);
    WordIsPow2();
    Pow2Add(21, 64);
  }

  lemma QuotientBelowNumbers(t: nat, n: nat, s: nat, p80: nat, p85: nat, p123: nat, p203: nat, p208: nat)
    requires t * p80 >= MINIMUM * s + 1 && n == 0xffff * p208 * s && p123 > 0 && s > 0
    requires p85 == 0x20_0000_0000_0000_0000_0000 && p208 == p85 * p123 && p203 == p80 * p123
    ensures n < t * ((TWO53 - 1) * p203)
  {
    var c := p123 * (TWO53 - 1);
    MulMonotone(c, MINIMUM * s + 1, t * p80);
    assert c * (t * p80) == t * ((TWO53 - 1) * p203);
    var sp := s * p123;
    assert n == 0xffff * p85 * sp;
    assert c * (MINIMUM * s + 1) == (TWO53 - 1) * MINIMUM * sp + c;
    MulMonotone(sp, 0xffff * p85, (TWO53 - 1) * MINIMUM);
  }

  /** So the rounded quotient is below 2^256. */
  lemma RoundedBelow(n: nat, t: nat, m: nat, e: int, b: nat)
    requires t > 0 && NearestEven(n, t, m, e) && n < t * ((TWO53 - 1) * Pow2(203)) && b + e >= 0
    ensures m * Pow2(b + e) < Pow2(203 + b) * TWO53
  {
    Pow2Add(203, b);
    assert Distance(n, t, b, m, e) <= Distance(n, t, b, TWO53 - 1, 203);
    if m * Pow2(b + e) >= Pow2(203 + b) * TWO53 {
      Overshoot(m * Pow2(b + e), t, n, Pow2(b), Pow2(203), Pow2(203 + b));
    }
  }

  lemma Top(b: nat)
    ensures Pow2(203 + b) * TWO53 == Pow2(b + 256)
  {
    TwoPowers();
    Pow2Add(203 + b, 53);
  }

  lemma Overshoot(x: nat, t: nat, n: nat, pb: nat, p: nat, q: nat)
    requires t > 0 && q == p * pb && pb > 0 && q > 0 && n < t * ((TWO53 - 1) * p) && x >= q * TWO53
    ensures Abs(x * t - n * pb) > Abs((TWO53 - 1) * q * t - n * pb)
  {
    MulMonotone(pb, n + 1, t * ((TWO53 - 1) * p));
    assert pb * (t * ((TWO53 - 1) * p)) == (TWO53 - 1) * q * t;
    MulMonotone(t, q * TWO53, x);
    assert t * (q * TWO53) == (TWO53 - 1) * q * t + q * t;
    Positive(q, t);
  }

  /**
   The target of a difficulty: all ones unless the difficulty exceeds 2.4e-10, zero for an infinite one, and
   otherwise the floor of the double the division produced. `quotient` is that double.
   */
  method TargetFromDifficulty(difficulty: Float, quotientM: nat, quotientE: int, round: nat -> nat)
    returns (target: Target)
    requires RoundsDoublesToThemselves(round)
    requires difficulty.Number? && AboveMinimum(difficulty) ==>
               && 0 < difficulty.m && quotientM < TWO53
               && NearestEven(Numerator(difficulty.e), Denominator(difficulty.m, difficulty.e), quotientM, quotientE)
    ensures !AboveMinimum(difficulty) ==> target == seq(32, i => 255)
    ensures difficulty.PositiveInfinity? ==> TargetValue(target) == 0
    ensures difficulty.Number? && AboveMinimum(difficulty) ==> TargetValue(target) == Floor(quotientM, quotientE)
  {
    match difficulty
    case PositiveInfinity =>
      target := SplitQuotient(0, 0, round);
    case NaN => target := seq(32, i => 255);
    case NegativeInfinity => target := seq(32, i => 255);
    case Number(m, e) =>
      var above := if e >= -80 then m * Pow2(e + 80) > MINIMUM else m > MINIMUM * Pow2(-(e + 80));
      if above {
        target := FiniteTarget(m, e, quotientM, quotientE, round);
      } else {
        target := seq(32, i => 255);
      }
  }

  method FiniteTarget(m: nat, e: int, quotientM: nat, quotientE: int, round: nat -> nat) returns (target: Target)
    requires RoundsDoublesToThemselves(round) && m > 0 && AboveMinimum(Number(m, e)) && quotientM < TWO53
    requires NearestEven(Numerator(e), Denominator(m, e), quotientM, quotientE)
    ensures TargetValue(target) == Floor(quotientM, quotientE)
  {
    if quotientE >= 0 {
      DivisionBelow(m, e, quotientM, quotientE, 0);
      RepresentableProduct(quotientM, quotientE);
      target := SplitQuotient(quotientM * Pow2(quotientE), 0, round);
    } else {
      DivisionBelow(m, e, quotientM, quotientE, -quotientE);
      target := SplitQuotient(quotientM, -quotientE, round);
    }
  }

  lemma DivisionBelow(m: nat, e: int, quotientM: nat, quotientE: int, b: nat)
    requires m > 0 && AboveMinimum(Number(m, e)) && b + quotientE >= 0
    requires NearestEven(Numerator(e), Denominator(m, e), quotientM, quotientE)
    ensures quotientM * Pow2(b + quotientE) < Pow2(b + 256)
  {
    MinimumScaled(m, e);
    var s := if e >= 0 then 1 else Pow2(-e);
    assert Denominator(m, e) > 0 by {
      if e >= 0 {
        Positive(m, Pow2(e));
      }
    }
    QuotientBelow(Denominator(m, e), Numerator(e), s);
    RoundedBelow(Numerator(e), Denominator(m, e), quotientM, quotientE, b);
    Top(b);
  }
}
