/** The bech32 checksum: a linear code over five-bit symbols, computed in 30-bit words. */
module Bech32Checksum {
  import opened Numbers
  import opened Xors

  const BECH32: nat := 1
  const BECH32M: nat := 0x2bc830a3

  const GENERATOR: seq<nat> := [0x3b6a57b2, 0x26508e6d, 0x1ea119fa, 0x3d4233dd, 0x2a1462b3]

  const SYMBOL: nat := 5
  const KEPT: nat := 25
  const WORD: nat := 30

  predicate Symbols(values: seq<nat>)
  {
    forall i :: 0 <= i < |values| ==> values[i] < 32
  }

  function Tap(top: nat, g: nat): nat
  {
    if top % 2 == 1 then g else 0
  }

  /** The generators picked out by the bits of `top`. */
  function Taps(top: nat, g: seq<nat>): nat
    decreases |g|
  {
    if g == [] then 0 else Xor(Tap(top, g[0]), Taps(top / 2, g[1..]))
  }

  function Step(g: seq<nat>, c: nat, v: nat): nat
  {
    Xor(Xor(ShiftLeft(LowBits(c, KEPT), SYMBOL), v), Taps(ShiftRight(c, KEPT), g))
  }

  function Poly(g: seq<nat>, c: nat, values: seq<nat>): nat
    decreases |values|
  {
    if values == [] then c else Poly(g, Step(g, c, values[0]), values[1..])
  }

  // ---------- linearity ----------

  lemma TapLinear(s: nat, t: nat, g: nat)
    ensures Tap(Xor(s, t), g) == Xor(Tap(s, g), Tap(t, g))
  {
    XorStep(s, t);
    XorSelf(g);
  }

  lemma {:induction false} TapsLinear(s: nat, t: nat, g: seq<nat>)
    ensures Taps(Xor(s, t), g) == Xor(Taps(s, g), Taps(t, g))
    decreases |g|
  {
    if g != [] {
      XorStep(s, t);
      TapLinear(s, t, g[0]);
      TapsLinear(s / 2, t / 2, g[1..]);
      XorSwap(Tap(s, g[0]), Tap(t, g[0]), Taps(s / 2, g[1..]), Taps(t / 2, g[1..]));
    }
  }

  lemma StepLinear(g: seq<nat>, a: nat, b: nat, u: nat, v: nat)
    ensures Step(g, Xor(a, b), Xor(u, v)) == Xor(Step(g, a, u), Step(g, b, v))
  {
    XorLowBits(a, b, KEPT);
    XorShiftRight(a, b, KEPT);
    var x, y := LowBits(a, KEPT), LowBits(b, KEPT);
    XorShiftLeft(x, y, SYMBOL);
    TapsLinear(ShiftRight(a, KEPT), ShiftRight(b, KEPT), g);
    XorSwap(ShiftLeft(x, SYMBOL), ShiftLeft(y, SYMBOL), u, v);
    XorSwap(Xor(ShiftLeft(x, SYMBOL), u), Xor(ShiftLeft(y, SYMBOL), v),
            Taps(ShiftRight(a, KEPT), g), Taps(ShiftRight(b, KEPT), g));
  }

  function XorAll(xs: seq<nat>, ys: seq<nat>): (zs: seq<nat>)
    requires |xs| == |ys|
    ensures |zs| == |xs|
  {
    if xs == [] then [] else [Xor(xs[0], ys[0])] + XorAll(xs[1..], ys[1..])
  }

  /** The checksum of a symbolwise sum is the sum of the checksums. */
  lemma {:induction false} PolyLinear(g: seq<nat>, a: nat, b: nat, xs: seq<nat>, ys: seq<nat>)
    requires |xs| == |ys|
    ensures Poly(g, Xor(a, b), XorAll(xs, ys)) == Xor(Poly(g, a, xs), Poly(g, b, ys))
    decreases |xs|
  {
    if xs != [] {
      StepLinear(g, a, b, xs[0], ys[0]);
      PolyLinear(g, Step(g, a, xs[0]), Step(g, b, ys[0]), xs[1..], ys[1..]);
      assert XorAll(xs, ys)[1..] == XorAll(xs[1..], ys[1..]);
    }
  }

  lemma {:induction false} PolyConcat(g: seq<nat>, c: nat, xs: seq<nat>, ys: seq<nat>)
    ensures Poly(g, c, xs + ys) == Poly(g, Poly(g, c, xs), ys)
    decreases |xs|
  {
    if xs == [] {
      assert xs + ys == ys;
    } else {
      assert (xs + ys)[1..] == xs[1..] + ys;
      PolyConcat(g, Step(g, c, xs[0]), xs[1..], ys);
    }
  }

  // ---------- no word is lost ----------

  lemma Powers()
    ensures Pow2(SYMBOL) == 32 && Pow2(KEPT) == 0x200_0000 && Pow2(WORD) == 0x4000_0000
  {
    Pow2Add(5, 5);
    Pow2Add(10, 10);
    Pow2Add(20, 5);
    Pow2Add(25, 5);
  }

  lemma {:induction false} TapsZero(g: seq<nat>)
    ensures Taps(0, g) == 0
    decreases |g|
  {
    if g != [] {
      TapsZero(g[1..]);
    }
  }

  lemma SmallParts(c: nat)
    requires c < 0x200_0000
    ensures LowBits(c, KEPT) == c && ShiftRight(c, KEPT) == 0 && ShiftLeft(c, SYMBOL) == 32 * c
  {
    Powers();
    PartsAreQuotients(c, KEPT);
    ShiftLeftIs(c, SYMBOL);
  }

  /** Into a word with room at the top a symbol is simply shifted. */
  lemma StepSmall(g: seq<nat>, c: nat, v: nat)
    requires c < 0x200_0000 && v < 32
    ensures Step(g, c, v) == 32 * c + v
  {
    Powers();
    SmallParts(c);
    TapsZero(g);
    XorDisjoint(c, v, SYMBOL);
    XorComm(32 * c + v, 0);
  }

  lemma {:induction false} TapsBound(top: nat, g: seq<nat>, k: nat)
    requires forall i :: 0 <= i < |g| ==> g[i] < Pow2(k)
    ensures Taps(top, g) < Pow2(k)
    decreases |g|
  {
    if g != [] {
      TapsBound(top / 2, g[1..], k);
      XorBound(Tap(top, g[0]), Taps(top / 2, g[1..]), k);
    }
  }

  lemma ShiftedBound(c: nat)
    ensures ShiftLeft(LowBits(c, KEPT), SYMBOL) < 0x4000_0000
  {
    Powers();
    Parts(c, KEPT);
    ShiftLeftIs(LowBits(c, KEPT), SYMBOL);
  }

  /** Thirty bits are enough, so the 32-bit words of the program never overflow. */
  lemma StepBound(c: nat, v: nat)
    requires c < 0x4000_0000 && v < 32
    ensures Step(GENERATOR, c, v) < 0x4000_0000
  {
    Powers();
    var low := LowBits(c, KEPT);
    ShiftedBound(c);
    XorBound(ShiftLeft(low, SYMBOL), v, WORD);
    TapsBound(ShiftRight(c, KEPT), GENERATOR, WORD);
    XorBound(Xor(ShiftLeft(low, SYMBOL), v), Taps(ShiftRight(c, KEPT), GENERATOR), WORD);
  }

  lemma {:induction false} PolyBound(c: nat, values: seq<nat>)
    requires c < 0x4000_0000 && Symbols(values)
    ensures Poly(GENERATOR, c, values) < 0x4000_0000
    decreases |values|
  {
    if values != [] {
      StepBound(c, values[0]);
      PolyBound(Step(GENERATOR, c, values[0]), values[1..]);
    }
  }

  /** The low five bits of the generators. */
  const LOW: seq<nat> := [18, 13, 26, 29, 19]

  lemma LowOfGenerator()
    ensures LowBits(0x3b6a57b2, SYMBOL) == 18 && LowBits(0x26508e6d, SYMBOL) == 13 && LowBits(0x1ea119fa, SYMBOL) == 26
    ensures LowBits(0x3d4233dd, SYMBOL) == 29 && LowBits(0x2a1462b3, SYMBOL) == 19
  {
    Powers();
    PartsAreQuotients(0x3b6a57b2, SYMBOL);
    PartsAreQuotients(0x26508e6d, SYMBOL);
    PartsAreQuotients(0x1ea119fa, SYMBOL);
    PartsAreQuotients(0x3d4233dd, SYMBOL);
    PartsAreQuotients(0x2a1462b3, SYMBOL);
  }

  lemma {:induction false} TapsLow(top: nat, g: seq<nat>, low: seq<nat>)
    requires |g| == |low| && forall i :: 0 <= i < |g| ==> LowBits(g[i], SYMBOL) == low[i]
    ensures LowBits(Taps(top, g), SYMBOL) == Taps(top, low)
    decreases |g|
  {
    LowOfZero(SYMBOL);
    if g != [] {
      TapsLow(top / 2, g[1..], low[1..]);
      XorLowBits(Tap(top, g[0]), Taps(top / 2, g[1..]), SYMBOL);
    }
  }

  lemma {:induction false} LowOfZero(k: nat)
    ensures LowBits(0, k) == 0
  {
    if k > 0 {
      LowOfZero(k - 1);
    }
  }

  predicate Bit(a: nat, j: nat)
  {
    ShiftRight(a, j) % 2 == 1
  }

  lemma BitXor(a: nat, b: nat, j: nat)
    ensures Bit(Xor(a, b), j) == (Bit(a, j) != Bit(b, j))
  {
    XorShiftRight(a, b, j);
    XorStep(ShiftRight(a, j), ShiftRight(b, j));
  }

  lemma {:induction false} BitOfZero(j: nat)
    ensures !Bit(0, j)
  {
    if j > 0 {
      BitOfZero(j - 1);
    }
  }

  lemma TapsFive(top: nat, a: nat, b: nat, c: nat, d: nat, e: nat)
    ensures Taps(top, [a, b, c, d, e]) == Xor(Tap(top, a), Xor(Tap(top / 2, b),
              Xor(Tap(top / 2 / 2, c), Xor(Tap(top / 2 / 2 / 2, d), Xor(Tap(top / 2 / 2 / 2 / 2, e), 0)))))
  {
    var h, q := top / 2, top / 2 / 2;
    assert [a, b, c, d, e][1..] == [b, c, d, e] && [b, c, d, e][1..] == [c, d, e] && [c, d, e][1..] == [d, e];
    assert [d, e][1..] == [e] && [e][1..] == [];
    assert Taps(q / 2 / 2, [e]) == Xor(Tap(q / 2 / 2, e), 0);
    assert Taps(q / 2, [d, e]) == Xor(Tap(q / 2, d), Xor(Tap(q / 2 / 2, e), 0));
    assert Taps(q, [c, d, e]) == Xor(Tap(q, c), Taps(q / 2, [d, e]));
    assert Taps(h, [b, c, d, e]) == Xor(Tap(h, b), Taps(q, [c, d, e]));
  }

  predicate OddCount(p: bool, q: bool, r: bool, s: bool, t: bool)
  {
    p != (q != (r != (s != t)))
  }

  /** One bit of five taps, by the bits of the top that pick them. */
  lemma BitOfTaps(top: nat, a: nat, b: nat, c: nat, d: nat, e: nat, j: nat)
    ensures Bit(Taps(top, [a, b, c, d, e]), j) ==
            OddCount(top % 2 == 1 && Bit(a, j), top / 2 % 2 == 1 && Bit(b, j), top / 2 / 2 % 2 == 1 && Bit(c, j),
                     top / 2 / 2 / 2 % 2 == 1 && Bit(d, j), top / 2 / 2 / 2 / 2 % 2 == 1 && Bit(e, j))
  {
    BitOfZero(j);
    TapsFive(top, a, b, c, d, e);
    var x4 := Xor(Tap(top / 2 / 2 / 2 / 2, e), 0);
    var x3 := Xor(Tap(top / 2 / 2 / 2, d), x4);
    var x2 := Xor(Tap(top / 2 / 2, c), x3);
    var x1 := Xor(Tap(top / 2, b), x2);
    BitXor(Tap(top / 2 / 2 / 2 / 2, e), 0, j);
    BitXor(Tap(top / 2 / 2 / 2, d), x4, j);
    BitXor(Tap(top / 2 / 2, c), x3, j);
    BitXor(Tap(top / 2, b), x2, j);
    BitXor(Tap(top, a), x1, j);
  }

  lemma BitsOf(a: nat)
    ensures Bit(a, 0) == (a % 2 == 1) && Bit(a, 1) == (a / 2 % 2 == 1) && Bit(a, 2) == (a / 2 / 2 % 2 == 1)
    ensures Bit(a, 3) == (a / 2 / 2 / 2 % 2 == 1) && Bit(a, 4) == (a / 2 / 2 / 2 / 2 % 2 == 1)
  {
  }

  /** Independent: no nonzero choice of them cancels out. */
  lemma LowIndependent(top: nat)
    requires top < 32 && Taps(top, LOW) == 0
    ensures top == 0
  {
    BitsOf(18);
    BitsOf(13);
    BitsOf(26);
    BitsOf(29);
    BitsOf(19);
    BitsOf(0);
    BitOfTaps(top, 18, 13, 26, 29, 19, 0);
    BitOfTaps(top, 18, 13, 26, 29, 19, 1);
    BitOfTaps(top, 18, 13, 26, 29, 19, 2);
    BitOfTaps(top, 18, 13, 26, 29, 19, 3);
    BitOfTaps(top, 18, 13, 26, 29, 19, 4);
  }

  /** Feeding a zero symbol loses nothing: only the zero word goes to zero. */
  lemma StepKeepsDifference(c: nat)
    requires c < 0x4000_0000 && Step(GENERATOR, c, 0) == 0
    ensures c == 0
  {
    Powers();
    var low, top := LowBits(c, KEPT), ShiftRight(c, KEPT);
    Parts(c, KEPT);
    PartsAreQuotients(c, KEPT);
    ShiftLeftIs(low, SYMBOL);
    XorComm(ShiftLeft(low, SYMBOL), 0);
    XorZeroEqual(ShiftLeft(low, SYMBOL), Taps(top, GENERATOR));
    TopIsZero(low, top);
    TapsZero(GENERATOR);
  }

  /** Shifted symbols have five zero bits at the end, which only the zero choice of taps has. */
  lemma TopIsZero(low: nat, top: nat)
    requires top < 32 && Taps(top, GENERATOR) == 32 * low
    ensures top == 0
  {
    Powers();
    LowOfGenerator();
    TapsLow(top, GENERATOR, LOW);
    PartsAreQuotients(32 * low, SYMBOL);
    DivModUnique(32 * low, 32, low, 0);
    LowIndependent(top);
  }

  function Zeros(n: nat): seq<nat>
  {
    seq(n, _ => 0)
  }

  lemma {:induction false} ZerosKeepDifference(c: nat, n: nat)
    requires c < 0x4000_0000 && Poly(GENERATOR, c, Zeros(n)) == 0
    ensures c == 0
    decreases n
  {
    if n > 0 {
      assert Zeros(n)[1..] == Zeros(n - 1);
      StepBound(c, 0);
      ZerosKeepDifference(Step(GENERATOR, c, 0), n - 1);
      StepKeepsDifference(c);
    }
  }

  // ---------- six symbols fill a word ----------

  /** The numeral the symbols spell, most significant first. */
  function Spelled(values: seq<nat>): nat
  {
    if values == [] then 0 else 32 * Spelled(values[..|values| - 1]) + values[|values| - 1]
  }

  function Room(n: nat): nat
  {
    if n == 0 then 1 else 32 * Room(n - 1)
  }

  lemma {:induction false} SpelledBound(values: seq<nat>)
    requires Symbols(values)
    ensures Spelled(values) < Room(|values|)
  {
    if values != [] {
      SpelledBound(values[..|values| - 1]);
    }
  }

  lemma {:induction false} PolySpells(g: seq<nat>, values: seq<nat>)
    requires Symbols(values) && |values| <= 6
    ensures Poly(g, 0, values) == Spelled(values)
  {
    if values != [] {
      var front, last := values[..|values| - 1], values[|values| - 1];
      PolySpells(g, front);
      SpelledBound(front);
      RoomBelow(|front|);
      StepSmall(g, Spelled(front), last);
      assert values == front + [last];
      PolyConcat(g, 0, front, [last]);
    }
  }

  lemma RoomBelow(n: nat)
    requires n <= 5
    ensures Room(n) <= 0x200_0000
  {
    assert Room(1) == 32 && Room(2) == 0x400 && Room(3) == 0x8000 && Room(4) == 0x10_0000 && Room(5) == 0x200_0000;
  }

  lemma {:induction false} SpelledZero(values: seq<nat>)
    requires Spelled(values) == 0
    ensures values == Zeros(|values|)
  {
    if values != [] {
      SpelledZero(values[..|values| - 1]);
      assert values == values[..|values| - 1] + [0];
    }
  }

  // ---------- differences ----------

  lemma {:induction false} XorAllZeros(xs: seq<nat>)
    ensures XorAll(Zeros(|xs|), xs) == xs && XorAll(xs, xs) == Zeros(|xs|)
  {
    if xs != [] {
      assert Zeros(|xs|)[1..] == Zeros(|xs| - 1);
      XorSelf(xs[0]);
      XorAllZeros(xs[1..]);
      assert Zeros(|xs|) == [0] + Zeros(|xs| - 1);
    }
  }

  lemma {:induction false} XorAllSymbols(xs: seq<nat>, ys: seq<nat>)
    requires |xs| == |ys| && Symbols(xs) && Symbols(ys)
    ensures Symbols(XorAll(xs, ys))
  {
    if xs != [] {
      Powers();
      XorBound(xs[0], ys[0], SYMBOL);
      XorAllSymbols(xs[1..], ys[1..]);
    }
  }

  lemma {:induction false} XorAllEqual(xs: seq<nat>, ys: seq<nat>)
    requires |xs| == |ys| && XorAll(xs, ys) == Zeros(|xs|)
    ensures xs == ys
  {
    if xs != [] {
      assert XorAll(xs, ys)[0] == 0;
      XorZeroEqual(xs[0], ys[0]);
      assert XorAll(xs, ys)[1..] == XorAll(xs[1..], ys[1..]);
      assert Zeros(|xs|)[1..] == Zeros(|xs| - 1);
      XorAllEqual(xs[1..], ys[1..]);
      assert xs == [xs[0]] + xs[1..] && ys == [ys[0]] + ys[1..];
    }
  }

  /** Two words that differ still differ after the same symbols. */
  lemma SuffixKeepsDifference(a: nat, b: nat, q: seq<nat>)
    requires a < 0x4000_0000 && b < 0x4000_0000 && a != b
    ensures Poly(GENERATOR, a, q) != Poly(GENERATOR, b, q)
  {
    Powers();
    XorBound(a, b, WORD);
    PolyLinear(GENERATOR, a, b, q, q);
    XorAllZeros(q);
    if Poly(GENERATOR, a, q) == Poly(GENERATOR, b, q) {
      XorSelf(Poly(GENERATOR, a, q));
      ZerosKeepDifference(Xor(a, b), |q|);
      XorZeroEqual(a, b);
    }
  }

  /** Up to six symbols that differ give words that differ. */
  lemma BurstMakesDifference(c: nat, m: seq<nat>, m': seq<nat>)
    requires |m| == |m'| <= 6 && Symbols(m) && Symbols(m') && m != m'
    ensures Poly(GENERATOR, c, m) != Poly(GENERATOR, c, m')
  {
    var d := XorAll(m, m');
    PolyLinear(GENERATOR, c, c, m, m');
    XorSelf(c);
    XorAllSymbols(m, m');
    PolySpells(GENERATOR, d);
    if Poly(GENERATOR, c, m) == Poly(GENERATOR, c, m') {
      XorSelf(Poly(GENERATOR, c, m));
      SpelledZero(d);
      XorAllEqual(m, m');
    }
  }

  /** Any change confined to six symbols in a row changes the checksum word, so at most one of the two verifies. */
  lemma BurstIsDetected(p: seq<nat>, m: seq<nat>, m': seq<nat>, q: seq<nat>)
    requires Symbols(p) && Symbols(m) && Symbols(m') && |m| == |m'| <= 6 && m != m'
    ensures Poly(GENERATOR, 1, p + m + q) != Poly(GENERATOR, 1, p + m' + q)
  {
    var c := Poly(GENERATOR, 1, p);
    PolyConcat(GENERATOR, 1, p + m, q);
    PolyConcat(GENERATOR, 1, p, m);
    PolyConcat(GENERATOR, 1, p + m', q);
    PolyConcat(GENERATOR, 1, p, m');
    PolyBound(1, p);
    PolyBound(c, m);
    PolyBound(c, m');
    BurstMakesDifference(c, m, m');
    SuffixKeepsDifference(Poly(GENERATOR, c, m), Poly(GENERATOR, c, m'), q);
  }

  lemma SameResidueSameBurst(e: seq<nat>, p: seq<nat>, m: seq<nat>, m': seq<nat>, q: seq<nat>)
    requires Symbols(e) && Symbols(p) && Symbols(m) && Symbols(m') && |m| == |m'| <= 6
    requires Residue(e + (p + m + q)) == Residue(e + (p + m' + q))
    ensures m == m'
  {
    assert e + p + m + q == e + (p + m + q) && e + p + m' + q == e + (p + m' + q);
    if m != m' {
      BurstIsDetected(e + p, m, m', q);
    }
  }

  // ---------- creating a checksum ----------

  /** Six symbols of a word. */
  function SymbolsOf(r: nat): (s: seq<nat>)
    requires r < 0x4000_0000
    ensures |s| == 6 && Symbols(s)
  {
    [r / 0x200_0000 % 32, r / 0x10_0000 % 32, r / 0x8000 % 32, r / 0x400 % 32, r / 0x20 % 32, r % 32]
  }

  lemma SymbolsSpell(r: nat)
    requires r < 0x4000_0000
    ensures Spelled(SymbolsOf(r)) == r
  {
    SpelledSix(r / 0x200_0000 % 32, r / 0x10_0000 % 32, r / 0x8000 % 32, r / 0x400 % 32, r / 0x20 % 32, r % 32);
    SixDigits(r);
  }

  lemma SixDigits(r: nat)
    requires r < 0x4000_0000
    ensures 32 * (32 * (32 * (32 * (32 * (r / 0x200_0000 % 32) + r / 0x10_0000 % 32) + r / 0x8000 % 32)
                 + r / 0x400 % 32) + r / 0x20 % 32) + r % 32 == r
  {
    assert r / 0x20 / 0x20 == r / 0x400 && r / 0x400 / 0x20 == r / 0x8000;
    assert r / 0x8000 / 0x20 == r / 0x10_0000 && r / 0x10_0000 / 0x20 == r / 0x200_0000;
  }

  lemma SpelledSix(a: nat, b: nat, c: nat, d: nat, e: nat, f: nat)
    ensures Spelled([a, b, c, d, e, f]) == 32 * (32 * (32 * (32 * (32 * a + b) + c) + d) + e) + f
  {
    assert [a, b, c, d, e, f][..5] == [a, b, c, d, e] && [a, b, c, d, e][..4] == [a, b, c, d];
    assert [a, b, c, d][..3] == [a, b, c] && [a, b, c][..2] == [a, b] && [a, b][..1] == [a];
    assert Spelled([a]) == a;
    assert Spelled([a, b]) == 32 * a + b;
    assert Spelled([a, b, c]) == 32 * (32 * a + b) + c;
    assert Spelled([a, b, c, d]) == 32 * (32 * (32 * a + b) + c) + d;
  }

  function Residue(values: seq<nat>): nat
  {
    Poly(GENERATOR, 1, values)
  }

  /** `create_checksum` for the expanded prefix and data. */
  function Checksum(values: seq<nat>, constant: nat): (s: seq<nat>)
    requires Symbols(values) && constant < 0x4000_0000
    ensures |s| == 6 && Symbols(s)
  {
    assert Symbols(values + Zeros(6));
    PolyBound(1, values + Zeros(6));
    Powers();
    XorBound(Residue(values + Zeros(6)), constant, WORD);
    SymbolsOf(Xor(Residue(values + Zeros(6)), constant))
  }

  /** What is created verifies under the same constant. */
  lemma ChecksumVerifies(values: seq<nat>, constant: nat)
    requires Symbols(values) && constant < 0x4000_0000
    ensures Residue(values + Checksum(values, constant)) == constant
  {
    var c, s := Residue(values), Checksum(values, constant);
    var z := Residue(values + Zeros(6));
    PolyConcat(GENERATOR, 1, values, Zeros(6));
    PolyConcat(GENERATOR, 1, values, s);
    PolyBound(1, values + Zeros(6));
    Powers();
    XorBound(z, constant, WORD);
    SymbolsSpell(Xor(z, constant));
    PolySpells(GENERATOR, s);
    XorAllZeros(s);
    PolyLinear(GENERATOR, c, 0, Zeros(6), s);
    XorComm(c, 0);
    XorCancel(z, constant);
  }

  // ---------- the loops ----------

  lemma {:induction false} ShiftRightNext(a: nat, i: nat)
    ensures ShiftRight(a, i + 1) == ShiftRight(a, i) / 2
    decreases i
  {
    if i > 0 {
      ShiftRightNext(a / 2, i - 1);
    }
  }

  method PolymodStep(c: nat, v: nat) returns (checksum: nat)
    ensures checksum == Step(GENERATOR, c, v)
  {
    var top := ShiftRight(c, KEPT);
    checksum := Xor(ShiftLeft(LowBits(c, KEPT), SYMBOL), v);
    assert GENERATOR[0..] == GENERATOR;
    for i := 0 to 5
      invariant Xor(checksum, Taps(ShiftRight(top, i), GENERATOR[i..])) == Step(GENERATOR, c, v)
    {
      assert GENERATOR[i..][1..] == GENERATOR[i + 1..];
      ShiftRightNext(top, i);
      XorAssoc(checksum, Tap(ShiftRight(top, i), GENERATOR[i]), Taps(ShiftRight(top, i + 1), GENERATOR[i + 1..]));
      XorComm(checksum, 0);
      if ShiftRight(top, i) % 2 == 1 {
        checksum := Xor(checksum, GENERATOR[i]);
      }
    }
    XorComm(checksum, 0);
  }

  method Polymod(values: seq<nat>) returns (checksum: nat)
    ensures checksum == Residue(values)
  {
    checksum := 1;
    assert values[0..] == values;
    for k := 0 to |values|
      invariant Poly(GENERATOR, checksum, values[k..]) == Residue(values)
    {
      assert values[k..][1..] == values[k + 1..];
      checksum := PolymodStep(checksum, values[k]);
    }
  }
}
