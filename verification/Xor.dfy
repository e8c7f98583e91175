/** Exclusive or on naturals of any width: the vector space the checksum code lives in. */
module Xors {
  import opened Numbers

  function Xor(a: nat, b: nat): (c: nat)
  {
    if a == 0 then b
    else if b == 0 then a
    else 2 * Xor(a / 2, b / 2) + (if a % 2 == b % 2 then 0 else 1)
  }

  lemma XorStep(a: nat, b: nat)
    ensures Xor(a, b) % 2 == (if a % 2 == b % 2 then 0 else 1) && Xor(a, b) / 2 == Xor(a / 2, b / 2)
  {
    if a != 0 && b != 0 {
      Appended(Xor(a / 2, b / 2), if a % 2 == b % 2 then 0 else 1);
    } else if a == 0 {
      assert Xor(0, b) == b && Xor(0, b / 2) == b / 2;
    } else {
      XorNothing(a);
      XorNothing(a / 2);
    }
  }

  lemma Appended(x: nat, r: nat)
    requires r < 2
    ensures (2 * x + r) % 2 == r && (2 * x + r) / 2 == x
  {
  }

  lemma XorNothing(a: nat)
    ensures Xor(a, 0) == a
  {
  }

  lemma {:induction false} XorComm(a: nat, b: nat)
    ensures Xor(a, b) == Xor(b, a)
  {
    if a != 0 && b != 0 {
      XorComm(a / 2, b / 2);
    }
  }

  lemma Halves(x: nat, y: nat)
    requires x % 2 == y % 2 && x / 2 == y / 2
    ensures x == y
  {
  }

  lemma XorJoin(q: nat, r: nat, q': nat, r': nat)
    requires r < 2 && r' < 2
    ensures Xor(2 * q + r, 2 * q' + r') == 2 * Xor(q, q') + (if r == r' then 0 else 1)
  {
    XorStep(2 * q + r, 2 * q' + r');
    assert (2 * q + r) / 2 == q && (2 * q' + r') / 2 == q';
  }

  lemma {:induction false} XorAssoc(a: nat, b: nat, c: nat)
    ensures Xor(Xor(a, b), c) == Xor(a, Xor(b, c))
    decreases a + b + c
  {
    if a != 0 && b != 0 && c != 0 {
      XorAssoc(a / 2, b / 2, c / 2);
      XorStep(a, b);
      XorStep(b, c);
      XorStep(Xor(a, b), c);
      XorStep(a, Xor(b, c));
      Halves(Xor(Xor(a, b), c), Xor(a, Xor(b, c)));
    }
  }

  lemma {:induction false} XorSelf(a: nat)
    ensures Xor(a, a) == 0
  {
    if a != 0 {
      XorSelf(a / 2);
    }
  }

  lemma {:induction false} XorZeroEqual(a: nat, b: nat)
    requires Xor(a, b) == 0
    ensures a == b
  {
    if a != 0 && b != 0 {
      XorZeroEqual(a / 2, b / 2);
    }
  }

  /** The middle two of four change places. */
  lemma XorSwap(a: nat, b: nat, c: nat, d: nat)
    ensures Xor(Xor(a, b), Xor(c, d)) == Xor(Xor(a, c), Xor(b, d))
  {
    XorAssoc(a, b, Xor(c, d));
    XorAssoc(b, c, d);
    XorComm(b, c);
    XorAssoc(c, b, d);
    XorAssoc(a, c, Xor(b, d));
  }

  /** Adding the same twice undoes it. */
  lemma XorCancel(a: nat, b: nat)
    ensures Xor(a, Xor(a, b)) == b
  {
    XorAssoc(a, a, b);
    XorSelf(a);
  }

  // ---------- shifts and masks ----------

  function ShiftLeft(a: nat, k: nat): nat
  {
    if k == 0 then a else 2 * ShiftLeft(a, k - 1)
  }

  function ShiftRight(a: nat, k: nat): nat
    decreases k
  {
    if k == 0 then a else ShiftRight(a / 2, k - 1)
  }

  function LowBits(a: nat, k: nat): nat
    decreases k
  {
    if k == 0 then 0 else 2 * LowBits(a / 2, k - 1) + a % 2
  }

  lemma {:induction false} ShiftLeftIs(a: nat, k: nat)
    ensures ShiftLeft(a, k) == Pow2(k) * a
  {
    if k > 0 {
      ShiftLeftIs(a, k - 1);
      assert 2 * (Pow2(k - 1) * a) == (2 * Pow2(k - 1)) * a;
    }
  }

  lemma {:induction false} Parts(a: nat, k: nat)
    ensures a == ShiftLeft(ShiftRight(a, k), k) + LowBits(a, k)
    ensures LowBits(a, k) < Pow2(k)
    decreases k
  {
    if k > 0 {
      Parts(a / 2, k - 1);
    }
  }

  /** The shift and the mask are quotient and remainder. */
  lemma PartsAreQuotients(a: nat, k: nat)
    ensures ShiftRight(a, k) == a / Pow2(k) && LowBits(a, k) == a % Pow2(k)
  {
    Parts(a, k);
    ShiftLeftIs(ShiftRight(a, k), k);
    DivModUnique(a, Pow2(k), ShiftRight(a, k), LowBits(a, k));
  }

  lemma {:induction false} XorShiftLeft(a: nat, b: nat, k: nat)
    ensures ShiftLeft(Xor(a, b), k) == Xor(ShiftLeft(a, k), ShiftLeft(b, k))
  {
    if k > 0 {
      XorShiftLeft(a, b, k - 1);
      XorJoin(ShiftLeft(a, k - 1), 0, ShiftLeft(b, k - 1), 0);
    }
  }

  lemma {:induction false} XorShiftRight(a: nat, b: nat, k: nat)
    ensures ShiftRight(Xor(a, b), k) == Xor(ShiftRight(a, k), ShiftRight(b, k))
    decreases k
  {
    if k > 0 {
      XorStep(a, b);
      XorShiftRight(a / 2, b / 2, k - 1);
    }
  }

  lemma {:induction false} XorLowBits(a: nat, b: nat, k: nat)
    ensures LowBits(Xor(a, b), k) == Xor(LowBits(a, k), LowBits(b, k))
    decreases k
  {
    if k > 0 {
      XorStep(a, b);
      XorLowBits(a / 2, b / 2, k - 1);
      XorJoin(LowBits(a / 2, k - 1), a % 2, LowBits(b / 2, k - 1), b % 2);
    }
  }

  lemma {:induction false} XorBound(a: nat, b: nat, k: nat)
    requires a < Pow2(k) && b < Pow2(k)
    ensures Xor(a, b) < Pow2(k)
    decreases k
  {
    if k > 0 {
      XorStep(a, b);
      XorBound(a / 2, b / 2, k - 1);
    }
  }

  /** Where no bits can meet, exclusive or is addition. */
  lemma {:induction false} XorDisjoint(a: nat, b: nat, k: nat)
    requires b < Pow2(k)
    ensures Xor(ShiftLeft(a, k), b) == ShiftLeft(a, k) + b
    decreases k
  {
    if k > 0 {
      XorDisjoint(a, b / 2, k - 1);
      XorJoin(ShiftLeft(a, k - 1), 0, b / 2, b % 2);
    }
  }
}
