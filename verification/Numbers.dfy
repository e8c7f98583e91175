/** Positional numerals, powers and bit operations shared by the arithmetic and codec models. */
module Numbers {

  type byte = x: int | 0 <= x < 256

  function Pow(b: nat, n: nat): (p: nat)
    ensures b > 0 ==> p > 0
  {
    if n == 0 then 1 else b * Pow(b, n - 1)
  }

  function Pow2(n: nat): (p: nat)
    ensures p > 0
  {
    if n == 0 then 1 else 2 * Pow2(n - 1)
  }

  lemma {:induction false} PowAdd(b: nat, m: nat, n: nat)
    ensures Pow(b, m + n) == Pow(b, m) * Pow(b, n)
  {
    if m == 0 {
    } else {
      PowAdd(b, m - 1, n);
      assert b * (Pow(b, m - 1) * Pow(b, n)) == (b * Pow(b, m - 1)) * Pow(b, n);
    }
  }

  lemma {:induction false} Pow2Add(m: nat, n: nat)
    ensures Pow2(m + n) == Pow2(m) * Pow2(n)
  {
    if m == 0 {
    } else {
      Pow2Add(m - 1, n);
      assert 2 * (Pow2(m - 1) * Pow2(n)) == (2 * Pow2(m - 1)) * Pow2(n);
    }
  }

  lemma {:induction false} Pow2Monotone(m: nat, n: nat)
    requires m <= n
    ensures Pow2(m) <= Pow2(n)
    ensures m < n ==> 2 * Pow2(m) <= Pow2(n)
    decreases n - m
  {
    if m < n {
      Pow2Monotone(m, n - 1);
    }
  }

  lemma {:induction false} PowIsPow2(k: nat, n: nat)
    ensures Pow(Pow2(k), n) == Pow2(k * n)
  {
    if n == 0 {
    } else {
      PowIsPow2(k, n - 1);
      assert k * n == k + k * (n - 1);
      Pow2Add(k, k * (n - 1));
    }
  }

  /** Euclidean division is the only decomposition with a remainder in range. */
  lemma DivModUnique(x: int, d: int, q: int, r: int)
    requires d > 0 && 0 <= r < d && x == d * q + r
    ensures x / d == q && x % d == r
  {
    var q', r' := x / d, x % d;
    assert x == d * q' + r';
    assert d * (q' - q) == r - r';
    if q' > q {
      MulMonotone(d, 1, q' - q);
    } else if q' < q {
      MulMonotone(d, q' - q, -1);
    }
  }

  lemma Quotient(x: nat, d: nat, q: int, r: int)
    requires d > 0 && q == x / d && r == x % d
    ensures x == d * q + r && 0 <= r < d && 0 <= q
  {
  }

  lemma MulMonotone(a: int, x: int, y: int)
    requires 0 <= a && x <= y
    ensures a * x <= a * y
  {
  }

  // ---------- positional numerals, least significant digit first ----------

  function Value(s: seq<int>, b: nat): int
  {
    if s == [] then 0 else s[0] + b * Value(s[1..], b)
  }

  predicate AreDigits(s: seq<int>, b: nat)
  {
    forall i :: 0 <= i < |s| ==> 0 <= s[i] < b
  }

  lemma {:induction false} ValueConcat(s: seq<int>, t: seq<int>, b: nat)
    ensures Value(s + t, b) == Value(s, b) + Pow(b, |s|) * Value(t, b)
  {
    if s == [] {
      assert s + t == t;
    } else {
      assert (s + t)[1..] == s[1..] + t;
      ValueConcat(s[1..], t, b);
      var p, v := Pow(b, |s| - 1), Value(t, b);
      assert b * (Value(s[1..], b) + p * v) == b * Value(s[1..], b) + (b * p) * v;
    }
  }

  lemma ValueSplit(s: seq<int>, i: nat, b: nat)
    requires i <= |s|
    ensures Value(s, b) == Value(s[..i], b) + Pow(b, i) * Value(s[i..], b)
  {
    assert s == s[..i] + s[i..];
    ValueConcat(s[..i], s[i..], b);
  }

  lemma ValueAppend(s: seq<int>, d: int, b: nat)
    ensures Value(s + [d], b) == Value(s, b) + Pow(b, |s|) * d
  {
    ValueConcat(s, [d], b);
    assert Value([d], b) == d;
  }

  lemma {:induction false} ValueBound(s: seq<int>, b: nat)
    requires b > 0 && AreDigits(s, b)
    ensures 0 <= Value(s, b) < Pow(b, |s|)
  {
    if s == [] {
    } else {
      ValueBound(s[1..], b);
      NextDigitBound(s[0], b, Value(s[1..], b), Pow(b, |s| - 1));
    }
  }

  lemma NextDigitBound(d: int, b: nat, v: int, p: int)
    requires 0 <= d < b && 0 <= v < p
    ensures 0 <= d + b * v < b * p
  {
    MulMonotone(b, 0, v);
    MulMonotone(b, v, p - 1);
    assert b * (p - 1) == b * p - b;
  }

  /** Equal-length numerals with equal values are the same numeral. */
  lemma {:induction false} ValueInjective(s: seq<int>, t: seq<int>, b: nat)
    requires |s| == |t| && b > 0 && AreDigits(s, b) && AreDigits(t, b)
    requires Value(s, b) == Value(t, b)
    ensures s == t
  {
    if s == [] {
    } else {
      DivModUnique(Value(s, b), b, Value(s[1..], b), s[0]);
      DivModUnique(Value(t, b), b, Value(t[1..], b), t[0]);
      ValueInjective(s[1..], t[1..], b);
      assert s == [s[0]] + s[1..] && t == [t[0]] + t[1..];
    }
  }

  lemma {:induction false} ValueZeros(n: nat, b: nat)
    ensures Value(seq(n, i => 0), b) == 0
  {
    if n == 0 {
    } else {
      assert seq(n, i => 0)[1..] == seq(n - 1, i => 0);
      ValueZeros(n - 1, b);
    }
  }

  /** The little-endian numeral of `v` in exactly `n` digits, dropping anything above. */
  function ToDigits(v: nat, n: nat, b: nat): (s: seq<int>)
    requires b > 0
    ensures |s| == n && AreDigits(s, b)
    decreases n
  {
    if n == 0 then []
    else
      var q, r := v / b, v % b;
      Quotient(v, b, q, r);
      [r] + ToDigits(q, n - 1, b)
  }

  lemma ToDigitsStep(v: nat, n: nat, b: nat) returns (q: nat, r: nat)
    requires b > 0 && n > 0
    ensures v == b * q + r && r < b
    ensures ToDigits(v, n, b) == [r] + ToDigits(q, n - 1, b)
  {
    q, r := v / b, v % b;
    Quotient(v, b, q, r);
  }

  lemma {:induction false} ToDigitsValue(v: nat, n: nat, b: nat)
    requires b > 0 && v < Pow(b, n)
    ensures Value(ToDigits(v, n, b), b) == v
    decreases n
  {
    if n == 0 {
    } else {
      var q, r := ToDigitsStep(v, n, b);
      if q >= Pow(b, n - 1) {
        MulMonotone(b, Pow(b, n - 1), q);
      }
      ToDigitsValue(q, n - 1, b);
      var t := ToDigits(q, n - 1, b);
      assert ([r] + t)[1..] == t;
    }
  }

  lemma ToDigitsOfValue(s: seq<int>, b: nat)
    requires b > 0 && AreDigits(s, b)
    ensures 0 <= Value(s, b) < Pow(b, |s|)
    ensures ToDigits(Value(s, b), |s|, b) == s
  {
    ValueBound(s, b);
    ToDigitsValue(Value(s, b), |s|, b);
    ValueInjective(ToDigits(Value(s, b), |s|, b), s, b);
  }

  // ---------- bits ----------

  /** Bitwise or on naturals of any width. */
  function BitOr(a: nat, b: nat): (c: nat)
  {
    if a == 0 then b
    else if b == 0 then a
    else 2 * BitOr(a / 2, b / 2) + (if a % 2 == 1 || b % 2 == 1 then 1 else 0)
  }

  /** When the set bits cannot meet, bitwise or is addition. */
  lemma {:induction false} BitOrDisjoint(a: nat, b: nat, k: nat)
    requires a % Pow2(k) == 0 && b < Pow2(k)
    ensures BitOr(a, b) == a + b && BitOr(b, a) == a + b
    decreases k
  {
    if a == 0 || b == 0 || k == 0 {
    } else {
      var p := Pow2(k - 1);
      var q := a / (2 * p);
      assert a == 2 * (p * q);
      assert a / 2 == p * q;
      DivModUnique(a / 2, p, q, 0);
      BitOrDisjoint(a / 2, b / 2, k - 1);
    }
  }

  /** Number of significant bits (`std::bit_width`). */
  function BitLen(x: nat): (n: nat)
  {
    if x == 0 then 0 else 1 + BitLen(x / 2)
  }

  lemma {:induction false} BitLenBounds(x: nat)
    ensures x < Pow2(BitLen(x))
    ensures x > 0 ==> BitLen(x) > 0 && Pow2(BitLen(x) - 1) <= x
  {
    if x == 0 {
    } else {
      BitLenBounds(x / 2);
    }
  }

  lemma BitLenUnique(x: nat, n: nat)
    requires n > 0 && Pow2(n - 1) <= x < Pow2(n)
    ensures BitLen(x) == n
  {
    BitLenBounds(x);
    if BitLen(x) < n {
      Pow2Monotone(BitLen(x), n - 1);
    } else if BitLen(x) > n {
      Pow2Monotone(n, BitLen(x) - 1);
    }
  }
}
