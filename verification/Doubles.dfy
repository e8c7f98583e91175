/**
 IEEE 754 binary64 values as dyadic numbers m * 2^e, and what it means to be the one nearest to a fraction.
 Every comparison is made on integers, in units of 2^-b for a b that makes both exponents whole.
 */
module Doubles {
  import opened Numbers

  const TWO52: int := 0x10_0000_0000_0000
  const TWO53: int := 0x20_0000_0000_0000

  function Abs(x: int): nat
  {
    if x < 0 then -x else x
  }

  /** How far m * 2^e is from n / t, in units of 2^-b / t. */
  function Distance(n: nat, t: nat, b: nat, m: int, e: int): nat
    requires b + e >= 0
  {
    Abs(m * Pow2(b + e) * t - n * Pow2(b))
  }

  /** m * 2^e is at least as close to n / t as any 53-bit dyadic, and m is even when another is as close. */
  ghost predicate NearestEven(n: nat, t: nat, m: int, e: int)
  {
    forall b: nat, m': int, e': int ::
      b + e >= 0 && b + e' >= 0 && -TWO53 < m' < TWO53 ==>
        && Distance(n, t, b, m, e) <= Distance(n, t, b, m', e')
        && (Distance(n, t, b, m, e) == Distance(n, t, b, m', e') && m * Pow2(b + e) != m' * Pow2(b + e') ==> m % 2 == 0)
  }

  /** s is a / d rounded to an integer, ties to even. */
  ghost predicate RoundsTo(a: nat, d: nat, s: int)
  {
    && 2 * Abs(s * d - a) <= d
    && (2 * Abs(s * d - a) == d ==> s % 2 == 0)
  }

  /** a / d is n / t measured in units of 2^k. */
  ghost predicate InUnits(n: nat, t: nat, a: nat, d: nat, k: int)
  {
    if k >= 0 then n * d == a * t * Pow2(k) else n * d * Pow2(-k) == a * t
  }

  lemma TwoPowers()
    ensures Pow2(52) == TWO52 && Pow2(53) == TWO53
  {
    assert Pow2(13) == 0x2000;
    Pow2Add(13, 13);
    Pow2Add(26, 26);
  }

  // ---------- comparisons in units of 2^k ----------

  lemma Apart(d: int, s: int, i: int)
    requires d > 0
    ensures i > s ==> i * d >= s * d + d
    ensures i < s ==> i * d <= s * d - d
  {
    if i > s {
      MulMonotone(d, s + 1, i);
    } else if i < s {
      MulMonotone(d, i, s - 1);
    }
  }

  lemma NearestInteger(a: nat, d: nat, s: int, i: int)
    requires d > 0 && RoundsTo(a, d, s)
    ensures Abs(s * d - a) <= Abs(i * d - a)
    ensures i != s && Abs(s * d - a) == Abs(i * d - a) ==> s % 2 == 0
  {
    Apart(d, s, i);
  }

  lemma NotBelow(a: nat, d: nat, s: int)
    requires d > 0 && a >= TWO52 * d && RoundsTo(a, d, s)
    ensures s >= TWO52
  {
    if s < TWO52 {
      MulMonotone(d, s, TWO52 - 1);
    }
  }

  /** A dyadic with a smaller exponent lies strictly farther, being below 2^52 units. */
  lemma SmallExponentFarther(a: nat, d: nat, s: int, m: int, c: int)
    requires d > 0 && a >= TWO52 * d && RoundsTo(a, d, s)
    requires m < TWO53 && c >= 2
    ensures c * Abs(s * d - a) < Abs(m * d - c * a)
  {
    NotBelow(a, d, s);
    MulMonotone(d, m, TWO53 - 1);
    assert m * d <= (TWO53 - 1) * d;
    if s * d <= a {
      MulMonotone(d, TWO52, s);
      SmallBelow(a, d, s * d, m * d, c);
    } else {
      Apart(d, TWO52, s);
      SmallAbove(a, d, s * d, m * d, c);
    }
  }

  lemma SmallBelow(a: int, d: int, sd: int, md: int, c: int)
    requires d > 0 && c >= 2 && TWO52 * d <= sd <= a && md <= (TWO53 - 1) * d
    ensures c * (a - sd) < c * a - md && md < c * a
  {
    MulMonotone(c, TWO52 * d, sd);
    MulMonotone(TWO52 * d, 2, c);
    MulMonotone(c, sd, a);
    assert c * (a - sd) == c * a - c * sd;
  }

  lemma SmallAbove(a: int, d: int, sd: int, md: int, c: int)
    requires d > 0 && c >= 2 && TWO52 * d < a < sd && 2 * (sd - a) <= d && md <= (TWO53 - 1) * d
    ensures c * (sd - a) < c * a - md && md < c * a
  {
    var gap := sd - a;
    MulMonotone(c, TWO52 * d + 1, a);
    MulMonotone(d, 2, c);
    MulMonotone(c, 2 * gap, d);
    SmallAboveNumbers(c * a, c * d, c * gap, c, d, md) by {
      assert c * (TWO52 * d + 1) == TWO52 * (c * d) + c;
      assert c * (2 * gap) == 2 * (c * gap);
    }
  }

  lemma SmallAboveNumbers(ca: int, cd: int, cgap: int, c: int, d: int, md: int)
    requires ca >= TWO52 * cd + c && c >= 2 && cd >= 2 * d && d > 0 && 2 * cgap <= cd && md <= (TWO53 - 1) * d
    ensures cgap < ca - md && md < ca
  {
  }

  // ---------- from units of 2^k to any common unit ----------

  lemma CommonUnit(n: nat, t: nat, a: nat, d: nat, k: int, b: nat)
    requires InUnits(n, t, a, d, k) && b + k >= 0
    ensures n * Pow2(b) * d == a * t * Pow2(b + k)
  {
    if k >= 0 {
      Pow2Add(k, b);
      Associate(n, d, a * t, Pow2(k), Pow2(b));
    } else {
      Pow2Add(-k, b + k);
      AssociateDown(n, d, a * t, Pow2(-k), Pow2(b + k));
    }
  }

  lemma Associate(n: int, d: int, at: int, p: int, q: int)
    requires n * d == at * p
    ensures n * q * d == at * (p * q)
  {
    assert n * q * d == (n * d) * q;
  }

  lemma AssociateDown(n: int, d: int, at: int, p: int, q: int)
    requires n * d * p == at
    ensures n * (p * q) * d == at * q
  {
    assert n * (p * q) * d == (n * d * p) * q;
  }

  /** |x*u*t - nb| scaled by d, where nb*d = a*t*u, is u*t*|x*d - a|. */
  lemma ScaledDistance(x: int, u: nat, t: nat, nb: int, a: int, d: nat)
    requires nb * d == a * t * u
    ensures Abs(x * u * t - nb) * d == u * t * Abs(x * d - a)
  {
    AbsProduct(x * u * t - nb, d);
    AbsProduct(x * d - a, u * t);
    assert (x * u * t) * d == (x * d) * (u * t);
    assert a * t * u == a * (u * t);
    assert (x * d - a) * (u * t) == (x * d) * (u * t) - a * (u * t);
    assert (x * u * t - nb) * d == (x * u * t) * d - nb * d;
  }

  lemma AbsProduct(x: int, f: nat)
    ensures Abs(x * f) == Abs(x) * f
  {
    if x >= 0 {
      MulMonotone(f, 0, x);
    } else {
      MulMonotone(f, x, 0);
    }
  }

  lemma CancelFactor(x: nat, y: nat, f: nat)
    requires f > 0
    ensures x * f <= y * f ==> x <= y
    ensures x * f < y * f ==> x < y
    ensures x * f == y * f ==> x == y
  {
    if x < y {
      MulMonotone(f, x + 1, y);
    } else if y < x {
      MulMonotone(f, y + 1, x);
    }
  }

  lemma LargeExponent(s: int, m: int, u: nat, t: nat, nb: int, a: nat, d: nat, c: nat)
    requires d > 0 && u > 0 && t > 0 && nb * d == a * t * u && RoundsTo(a, d, s)
    ensures Abs(s * u * t - nb) <= Abs(m * (u * c) * t - nb)
    ensures Abs(s * u * t - nb) == Abs(m * (u * c) * t - nb) && s * u != m * (u * c) ==> s % 2 == 0
  {
    var i := m * c;
    assert m * (u * c) == i * u;
    ScaledDistance(s, u, t, nb, a, d);
    ScaledDistance(i, u, t, nb, a, d);
    NearestInteger(a, d, s, i);
    MulMonotone(u * t, Abs(s * d - a), Abs(i * d - a));
    CancelFactor(Abs(s * u * t - nb), Abs(i * u * t - nb), d);
    if Abs(s * u * t - nb) == Abs(i * u * t - nb) {
      Positive(u, t);
      CancelFactor(Abs(s * d - a), Abs(i * d - a), u * t);
    }
  }

  lemma Positive(u: nat, t: nat)
    requires u > 0 && t > 0
    ensures u * t > 0
  {
  }

  lemma SmallExponent(s: int, m: int, v: nat, t: nat, nb: int, a: nat, d: nat, c: nat)
    requires d > 0 && v > 0 && t > 0 && c >= 2 && nb * d == a * t * (v * c) && RoundsTo(a, d, s)
    requires a >= TWO52 * d && m < TWO53
    ensures Abs(s * (v * c) * t - nb) < Abs(m * v * t - nb)
  {
    var near, far := Abs(s * d - a), Abs(m * d - c * a);
    ScaledDistance(s, v * c, t, nb, a, d);
    Regroup(a, t, v, c);
    ScaledDistance(m, v, t, nb, c * a, d);
    SmallExponentFarther(a, d, s, m, c);
    Positive(v, t);
    StrictlyFarther(Abs(s * (v * c) * t - nb), Abs(m * v * t - nb), d, v, c, t, near, far);
  }

  lemma Regroup(a: int, t: int, v: int, c: int)
    ensures a * t * (v * c) == (c * a) * t * v
  {
  }

  lemma StrictlyFarther(x: nat, y: nat, d: nat, v: nat, c: nat, t: nat, near: nat, far: nat)
    requires d > 0 && v * t > 0
    requires x * d == (v * c) * t * near && y * d == v * t * far && c * near < far
    ensures x < y
  {
    assert (v * c) * t * near == (v * t) * (c * near);
    MulMonotone(v * t, c * near + 1, far);
    CancelFactor(x, y, d);
  }

  lemma NotFarther(n: nat, t: nat, a: nat, d: nat, s: int, k: int, b: nat, m: int, e: int)
    requires d > 0 && t > 0 && InUnits(n, t, a, d, k) && a >= TWO52 * d && RoundsTo(a, d, s)
    requires b + k >= 0 && b + e >= 0 && m < TWO53
    ensures Distance(n, t, b, s, k) <= Distance(n, t, b, m, e)
    ensures Distance(n, t, b, s, k) == Distance(n, t, b, m, e) && s * Pow2(b + k) != m * Pow2(b + e) ==> s % 2 == 0
  {
    CommonUnit(n, t, a, d, k, b);
    if e >= k {
      Pow2Add(b + k, e - k);
      LargeExponent(s, m, Pow2(b + k), t, n * Pow2(b), a, d, Pow2(e - k));
    } else {
      Pow2Add(b + e, k - e);
      Pow2Monotone(1, k - e);
      SmallExponent(s, m, Pow2(b + e), t, n * Pow2(b), a, d, Pow2(k - e));
    }
  }

  /** Rounding a quotient of at least 2^52 units to an integer yields the nearest double. */
  lemma NearestDouble(n: nat, t: nat, a: nat, d: nat, s: int, k: int)
    requires d > 0 && t > 0 && InUnits(n, t, a, d, k) && a >= TWO52 * d && RoundsTo(a, d, s)
    ensures NearestEven(n, t, s, k)
  {
    forall b: nat, m': int, e': int | b + k >= 0 && b + e' >= 0 && -TWO53 < m' < TWO53
      ensures Distance(n, t, b, s, k) <= Distance(n, t, b, m', e')
      ensures Distance(n, t, b, s, k) == Distance(n, t, b, m', e') && s * Pow2(b + k) != m' * Pow2(b + e')
              ==> s % 2 == 0
    {
      NotFarther(n, t, a, d, s, k, b, m', e');
    }
  }

  /** A significand that rounds up to 2^53 is the same double with half the significand. */
  lemma CarryOut(n: nat, t: nat, a: nat, d: nat, k: int)
    requires d > 0 && t > 0 && InUnits(n, t, a, d, k) && a >= TWO52 * d && RoundsTo(a, d, TWO53)
    ensures NearestEven(n, t, TWO52, k + 1)
  {
    forall b: nat, m': int, e': int | b + k + 1 >= 0 && b + e' >= 0 && -TWO53 < m' < TWO53
      ensures Distance(n, t, b, TWO52, k + 1) <= Distance(n, t, b, m', e')
    {
      CarryNotFarther(n, t, a, d, k, b, m', e');
    }
  }

  lemma CarryNotFarther(n: nat, t: nat, a: nat, d: nat, k: int, b: nat, m: int, e: int)
    requires d > 0 && t > 0 && InUnits(n, t, a, d, k) && a >= TWO52 * d && RoundsTo(a, d, TWO53)
    requires b + k + 1 >= 0 && b + e >= 0 && m < TWO53
    ensures Distance(n, t, b, TWO52, k + 1) <= Distance(n, t, b, m, e)
  {
    NotFarther(n, t, a, d, TWO53, k, b + 1, m, e);
    assert Pow2(b + 1 + k) == Pow2(b + (k + 1));
    assert Pow2(b + 1) == 2 * Pow2(b) && Pow2(b + 1 + e) == 2 * Pow2(b + e);
    HalveBoth(Pow2(b + (k + 1)), t, n * Pow2(b), m, Pow2(b + e), n, Pow2(b));
  }

  lemma HalveBoth(u: int, t: int, nb: int, m: int, v: int, n: int, pb: int)
    requires nb == n * pb
    requires Abs(TWO53 * u * t - n * (2 * pb)) <= Abs(m * (2 * v) * t - n * (2 * pb))
    ensures Abs(TWO52 * u * t - nb) <= Abs(m * v * t - nb)
  {
    assert n * (2 * pb) == 2 * nb;
    assert m * (2 * v) * t == 2 * (m * v * t);
    assert TWO53 * u * t == 2 * (TWO52 * u * t);
  }
}
