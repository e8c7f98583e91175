/** Variable difficulty under a constant hashrate, over the reals. */
module Vardiff {

  const UNCAPPED: real := 1000000000000.0

  function Cap(maximum: real): real
  {
    if maximum > 0.0 then maximum else UNCAPPED
  }

  function Clamped(x: real, low: real, high: real): real
  {
    if x < low then low else if high < x then high else x
  }

  /** `vardiff_next` */
  function Next(current: real, sharesPerMinute: real, target: real, minimum: real, maximum: real): real
  {
    var cap := Cap(maximum);
    var d := Clamped(current, minimum, cap);
    if sharesPerMinute > target * 2.0 && d < cap then (if cap < d * 2.0 then cap else d * 2.0)
    else if sharesPerMinute < target / 2.0 then (if d / 2.0 < minimum then minimum else d / 2.0)
    else d
  }

  /** A miner whose share rate is `power / difficulty`, and the pool's settings. */
  datatype Setup = Setup(power: real, target: real, minimum: real, maximum: real)

  predicate SetupOk(s: Setup)
  {
    s.power >= 0.0 && s.target > 0.0 && 0.0 < s.minimum <= Cap(s.maximum)
  }

  predicate InRange(s: Setup, d: real)
  {
    s.minimum <= d <= Cap(s.maximum)
  }

  function Step(s: Setup, d: real): real
    requires d != 0.0
  {
    Next(d, s.power / d, s.target, s.minimum, s.maximum)
  }

  /** Shares come more than twice as fast as wanted, or less than half as fast. */
  predicate TooFast(s: Setup, d: real)
  {
    s.power > s.target * 2.0 * d
  }

  predicate TooSlow(s: Setup, d: real)
  {
    2.0 * s.power < s.target * d
  }

  lemma RateCompare(k: real, d: real, x: real)
    requires d > 0.0
    ensures k / d > x <==> k > x * d
    ensures k / d < x <==> k < x * d
  {
    var r := k / d;
    assert r * d == k;
    if r > x {
      assert (r - x) * d > 0.0;
    } else if r < x {
      assert (x - r) * d > 0.0;
    }
  }

  /** A retarget doubles, halves or stays, within the bounds. */
  lemma StepIs(s: Setup, d: real)
    requires SetupOk(s) && InRange(s, d)
    ensures Step(s, d) ==
            if TooFast(s, d) && d < Cap(s.maximum) then (if Cap(s.maximum) < d * 2.0 then Cap(s.maximum) else d * 2.0)
            else if TooSlow(s, d) then (if d / 2.0 < s.minimum then s.minimum else d / 2.0)
            else d
    ensures InRange(s, Step(s, d))
  {
    RateCompare(s.power, d, s.target * 2.0);
    RateCompare(s.power, d, s.target / 2.0);
    assert s.target / 2.0 * d == s.target * d / 2.0;
  }

  function Iterated(s: Setup, d: real, n: nat): real
    requires SetupOk(s) && InRange(s, d)
    ensures InRange(s, Iterated(s, d, n))
  {
    if n == 0 then d
    else
      StepIs(s, Iterated(s, d, n - 1));
      Step(s, Iterated(s, d, n - 1))
  }

  // ---------- never reversing ----------

  lemma RisingStaysUp(s: Setup, d: real)
    requires SetupOk(s) && InRange(s, d) && TooFast(s, d)
    ensures !TooSlow(s, Step(s, d)) && Step(s, d) >= d
  {
    StepIs(s, d);
    var e := Step(s, d);
    assert e <= 2.0 * d;
    Product(s.target, e, 2.0 * d);
    assert s.target * (2.0 * d) == s.target * 2.0 * d;
  }

  lemma FallingStaysDown(s: Setup, d: real)
    requires SetupOk(s) && InRange(s, d) && TooSlow(s, d)
    ensures !TooFast(s, Step(s, d)) && Step(s, d) <= d
  {
    StepIs(s, d);
    var e := Step(s, d);
    FastNotSlow(s, d);
    assert 2.0 * e >= d;
    Product(s.target, d, 2.0 * e);
    assert s.target * (2.0 * e) == s.target * 2.0 * e;
  }

  lemma FastNotSlow(s: Setup, d: real)
    requires SetupOk(s) && d > 0.0
    ensures !(TooFast(s, d) && TooSlow(s, d))
  {
    assert s.target * d > 0.0;
    assert s.target * 2.0 * d == 2.0 * (s.target * d);
  }

  lemma Product(t: real, x: real, y: real)
    requires t > 0.0 && x <= y
    ensures t * x <= t * y
  {
    assert t * (y - x) >= 0.0;
  }

  /** From a start that is too fast the difficulty only rises, from one too slow it only falls. */
  lemma {:induction false} NeverReverses(s: Setup, d: real, n: nat)
    requires SetupOk(s) && InRange(s, d)
    ensures TooFast(s, d) ==> !TooSlow(s, Iterated(s, d, n)) && Iterated(s, d, n + 1) >= Iterated(s, d, n)
    ensures TooSlow(s, d) ==> !TooFast(s, Iterated(s, d, n)) && Iterated(s, d, n + 1) <= Iterated(s, d, n)
    ensures !TooFast(s, d) && !TooSlow(s, d) ==> Iterated(s, d, n) == d
  {
    FastNotSlow(s, d);
    if n > 0 {
      NeverReverses(s, d, n - 1);
      var x := Iterated(s, d, n - 1);
      StepIs(s, x);
      if TooFast(s, d) && TooFast(s, x) {
        RisingStaysUp(s, x);
      }
      if TooSlow(s, d) && TooSlow(s, x) {
        FallingStaysDown(s, x);
      }
    }
    StepIs(s, Iterated(s, d, n));
  }

  // ---------- arriving ----------

  function Doubled(x: real, n: nat): real
  {
    if n == 0 then x else 2.0 * Doubled(x, n - 1)
  }

  lemma {:induction false} DoubledGrows(x: real, n: nat)
    requires x > 0.0
    ensures Doubled(x, n) >= x * (n as real + 1.0)
  {
    if n > 0 {
      DoubledGrows(x, n - 1);
      assert 2.0 * (x * (n as real)) == x * (n as real + 1.0) + x * (n as real - 1.0);
      assert x * (n as real - 1.0) >= 0.0;
    }
  }

  lemma {:induction false} DoubledInside(x: real, n: nat)
    ensures Doubled(2.0 * x, n) == 2.0 * Doubled(x, n)
  {
    if n > 0 {
      DoubledInside(x, n - 1);
    }
  }

  lemma {:induction false} DoubledMonotone(x: real, y: real, n: nat)
    requires x < y
    ensures Doubled(x, n) < Doubled(y, n)
  {
    if n > 0 {
      DoubledMonotone(x, y, n - 1);
    }
  }

  /** Enough doublings pass any bound. */
  lemma EnoughDoublings(x: real, y: real) returns (n: nat)
    requires x > 0.0 && y > 0.0
    ensures Doubled(x, n) >= y
  {
    n := (y / x).Floor;
    DoubledGrows(x, n);
    var q := y / x;
    assert q * x == y;
    Product(x, q, n as real + 1.0);
    assert x * q == y;
  }

  predicate Settled(s: Setup, d: real)
    requires d != 0.0
  {
    Step(s, d) == d
  }

  /** A settled difficulty is in the band, or pinned at a bound its share rate still pushes against. */
  lemma SettledMeans(s: Setup, d: real)
    requires SetupOk(s) && InRange(s, d)
    ensures Settled(s, d) <==>
            || (!TooFast(s, d) && !TooSlow(s, d))
            || (TooFast(s, d) && d == Cap(s.maximum))
            || (TooSlow(s, d) && d == s.minimum)
  {
    StepIs(s, d);
    FastNotSlow(s, d);
  }

  lemma RiseStep(s: Setup, x: real, y: real)
    requires SetupOk(s) && InRange(s, x) && !TooSlow(s, x) && (Settled(s, x) || x >= y)
    ensures Step(s, x) != 0.0 && (Settled(s, Step(s, x)) || Step(s, x) >= 2.0 * y)
  {
    StepIs(s, x);
    if !Settled(s, x) {
      RisingStaysUp(s, x);
      SettledMeans(s, Step(s, x));
    }
  }

  lemma FallStep(s: Setup, x: real)
    requires SetupOk(s) && InRange(s, x) && !TooFast(s, x)
    ensures Step(s, x) != 0.0 && (Settled(s, Step(s, x)) || 2.0 * Step(s, x) == x)
  {
    StepIs(s, x);
    if !Settled(s, x) {
      FallingStaysDown(s, x);
      SettledMeans(s, Step(s, x));
    }
  }

  lemma {:induction false} RisesFast(s: Setup, d: real, n: nat)
    requires SetupOk(s) && InRange(s, d) && TooFast(s, d)
    ensures Settled(s, Iterated(s, d, n)) || Iterated(s, d, n) >= Doubled(d, n)
  {
    if n > 0 {
      RisesFast(s, d, n - 1);
      NeverReverses(s, d, n - 1);
      RiseStep(s, Iterated(s, d, n - 1), Doubled(d, n - 1));
    }
  }

  lemma {:induction false} FallsFast(s: Setup, d: real, n: nat)
    requires SetupOk(s) && InRange(s, d) && TooSlow(s, d)
    ensures Settled(s, Iterated(s, d, n)) || Doubled(Iterated(s, d, n), n) <= d
  {
    if n > 0 {
      FallsFast(s, d, n - 1);
      NeverReverses(s, d, n - 1);
      var x := Iterated(s, d, n - 1);
      FallStep(s, x);
      DoubledInside(Step(s, x), n - 1);
    }
  }

  /** In finitely many retargets the difficulty settles: in the band, or at the bound it was moving toward. */
  lemma Converges(s: Setup, d: real) returns (n: nat)
    requires SetupOk(s) && InRange(s, d)
    ensures Settled(s, Iterated(s, d, n))
    ensures var x := Iterated(s, d, n);
            || (!TooFast(s, x) && !TooSlow(s, x))
            || (TooFast(s, d) && x == Cap(s.maximum))
            || (TooSlow(s, d) && x == s.minimum)
  {
    if TooFast(s, d) {
      n := RisesToSettle(s, d);
    } else if TooSlow(s, d) {
      n := FallsToSettle(s, d);
    } else {
      n := 0;
      SettledMeans(s, d);
    }
  }

  lemma RisesToSettle(s: Setup, d: real) returns (n: nat)
    requires SetupOk(s) && InRange(s, d) && TooFast(s, d)
    ensures Settled(s, Iterated(s, d, n)) && !TooSlow(s, Iterated(s, d, n))
    ensures TooFast(s, Iterated(s, d, n)) ==> Iterated(s, d, n) == Cap(s.maximum)
  {
    n := EnoughDoublings(d, Cap(s.maximum));
    RisesFast(s, d, n);
    NeverReverses(s, d, n);
    SettledMeans(s, Iterated(s, d, n));
  }

  lemma FallsToSettle(s: Setup, d: real) returns (n: nat)
    requires SetupOk(s) && InRange(s, d) && TooSlow(s, d)
    ensures Settled(s, Iterated(s, d, n)) && !TooFast(s, Iterated(s, d, n))
    ensures TooSlow(s, Iterated(s, d, n)) ==> Iterated(s, d, n) == s.minimum
  {
    n := EnoughDoublings(s.minimum, d);
    FallsFast(s, d, n);
    NeverReverses(s, d, n);
    if s.minimum < Iterated(s, d, n) {
      DoubledMonotone(s.minimum, Iterated(s, d, n), n);
    }
    SettledMeans(s, Iterated(s, d, n));
  }
}
