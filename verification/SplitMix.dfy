/**
 The SplitMix64 generator both samplers use
 (crates/soroban-failure-rpc/examples/survey_failures.rs:161-181 and
 crates/soroban-failure-rpc/examples/pilot_report.rs:98-109). A `u64` is an
 integer below 2^64, and its arithmetic is written out modulo 2^64.
 */
module SplitMix {
  import opened Common
  import opened Soroban

  const TWO64: nat := 0x1_0000_0000_0000_0000

  // ----------------------------------------------------------- bits of an integer

  /** Exclusive or, bit by bit. */
  function Xor(a: nat, b: nat): nat {
    if a == 0 && b == 0 then 0 else (a + b) % 2 + 2 * Xor(a / 2, b / 2)
  }

  /** `a >> k`. */
  function Shr(a: nat, k: nat): nat
    decreases k
  {
    if k == 0 then a else Shr(a / 2, k - 1)
  }

  lemma {:induction false} XorZero(a: nat)
    ensures Xor(a, 0) == a && Xor(0, a) == a && Xor(a, a) == 0
  {
    if a > 0 {
      XorZero(a / 2);
    }
  }

  lemma XorHalves(a: nat, b: nat)
    ensures Xor(a, b) / 2 == Xor(a / 2, b / 2) && Xor(a, b) % 2 == (a + b) % 2
  {
    if a == 0 && b == 0 {
    } else {
      var low, high := (a + b) % 2, Xor(a / 2, b / 2);
      assert (low + 2 * high) / 2 == high && (low + 2 * high) % 2 == low;
    }
  }

  lemma Parity(x: nat, y: nat, a: nat, b: nat, c: nat)
    requires x % 2 == (a + b) % 2 && y % 2 == (b + c) % 2
    ensures (x + c) % 2 == (a + y) % 2
  {
  }

  lemma {:induction false} XorAssoc(a: nat, b: nat, c: nat)
    ensures Xor(Xor(a, b), c) == Xor(a, Xor(b, c))
    decreases a + b + c
  {
    if a + b + c == 0 {
      XorZero(0);
    } else {
      XorAssoc(a / 2, b / 2, c / 2);
      XorHalves(a, b);
      XorHalves(b, c);
      hide Xor;
      Parity(Xor(a, b), Xor(b, c), a, b, c);
      SplitBits(Xor(Xor(a, b), c), Xor(a, Xor(b, c)), Xor(a, b), c, a, Xor(b, c));
    }
  }

  lemma SplitBits(x: nat, y: nat, a: nat, b: nat, c: nat, d: nat)
    requires x == Xor(a, b) && y == Xor(c, d)
    requires (a + b) % 2 == (c + d) % 2 && Xor(a / 2, b / 2) == Xor(c / 2, d / 2)
    ensures x == y
  {
    XorHalves(a, b);
    XorHalves(c, d);
    hide Xor;
    assert x == 2 * (x / 2) + x % 2 && y == 2 * (y / 2) + y % 2;
  }

  lemma {:induction false} ShrXor(a: nat, b: nat, k: nat)
    ensures Shr(Xor(a, b), k) == Xor(Shr(a, k), Shr(b, k))
    decreases k
  {
    if k > 0 {
      XorHalves(a, b);
      ShrXor(a / 2, b / 2, k - 1);
    }
  }

  lemma {:induction false} ShrTwice(a: nat, j: nat, k: nat)
    ensures Shr(Shr(a, j), k) == Shr(a, j + k)
    decreases j
  {
    if j > 0 {
      ShrTwice(a / 2, j - 1, k);
    }
  }

  lemma {:induction false} XorBelow(a: nat, b: nat, k: nat)
    requires a < Pow2(k) && b < Pow2(k)
    ensures Xor(a, b) < Pow2(k)
    decreases k
  {
    if k > 0 {
      XorBelow(a / 2, b / 2, k - 1);
      XorHalves(a, b);
    }
  }

  lemma {:induction false} ShrAway(a: nat, k: nat)
    requires a < Pow2(k)
    ensures Shr(a, k) == 0
    decreases k
  {
    if k > 0 {
      ShrAway(a / 2, k - 1);
    }
  }

  lemma {:induction false} ShrBelow(a: nat, k: nat)
    ensures Shr(a, k) <= a
    decreases k
  {
    if k > 0 {
      ShrBelow(a / 2, k - 1);
    }
  }

  lemma {:induction false} ZeroShr(k: nat)
    ensures Shr(0, k) == 0
  {
    if k > 0 {
      ZeroShr(k - 1);
    }
  }

  lemma {:induction false} Pow2Add(j: nat, k: nat)
    ensures Pow2(j + k) == Pow2(j) * Pow2(k)
  {
    if j > 0 {
      Pow2Add(j - 1, k);
      assert Pow2(j + k) == 2 * (Pow2(j - 1) * Pow2(k));
    }
  }

  lemma Pow2Of64()
    ensures Pow2(64) == TWO64
  {
    assert Pow2(8) == 256 by {
      assert Pow2(4) == 16;
    }
    Pow2Add(8, 8);
    Pow2Add(16, 16);
    Pow2Add(32, 32);
    hide Pow2;
  }

  // ------------------------------------------------------------------ one draw

  function Fold(z: U64, k: nat): U64 {
    XorIsU64(z, Shr(z, k), k);
    Xor(z, Shr(z, k))
  }

  lemma XorIsU64(z: U64, w: nat, k: nat)
    requires w == Shr(z, k)
    ensures Xor(z, w) < TWO64
  {
    ShrBelow(z, k);
    Pow2Of64();
    hide Pow2;
    XorBelow(z, w, 64);
  }

  function Times(z: U64, factor: nat): U64 {
    z * factor % 0x1_0000_0000_0000_0000
  }

  function Advance(state: U64): U64 {
    (state + 0x9e37_79b9_7f4a_7c15) % 0x1_0000_0000_0000_0000
  }

  /** The number drawn from a state. */
  function Mix(state: U64): U64 {
    var a := Times(Fold(state, 30), 0xbf58_476d_1ce4_e5b9);
    var b := Times(Fold(a, 27), 0x94d0_49bb_1331_11eb);
    Fold(b, 31)
  }

  class Generator {
    var state: U64

    constructor (seed: U64)
      ensures state == seed
    {
      state := seed;
    }

    method Next() returns (r: U64)
      modifies this
      ensures state == Advance(old(state)) && r == Mix(state)
    {
      hide Xor, Shr;
      state := (state + 0x9e37_79b9_7f4a_7c15) % 0x1_0000_0000_0000_0000;
      var z := state;
      z := Fold(z, 30) * 0xbf58_476d_1ce4_e5b9 % 0x1_0000_0000_0000_0000;
      z := Fold(z, 27) * 0x94d0_49bb_1331_11eb % 0x1_0000_0000_0000_0000;
      r := Fold(z, 31);
    }
  }

  // ------------------------------------------------------- mixing loses nothing

  /** Undoes `Fold`, if three shifts by `k` leave nothing. */
  function Unfold(w: U64, k: nat): U64 {
    UnfoldIsU64(w, k);
    Xor(Xor(w, Shr(w, k)), Shr(w, k + k))
  }

  lemma UnfoldIsU64(w: U64, k: nat)
    ensures Xor(Xor(w, Shr(w, k)), Shr(w, k + k)) < TWO64
  {
    XorIsU64(w, Shr(w, k), k);
    ShrBelow(w, k + k);
    Pow2Of64();
    hide Pow2, Xor, Shr;
    XorBelow(Xor(w, Shr(w, k)), Shr(w, k + k), 64);
  }

  /** `(z ^ a) ^ (a ^ b) ^ (b ^ 0)` is `z`. */
  lemma Telescope(z: nat, a: nat, b: nat)
    ensures Xor(Xor(Xor(z, a), Xor(a, b)), b) == z
    ensures Xor(Xor(Xor(z, a), b), Xor(Xor(a, b), 0)) == z
  {
    hide Xor;
    XorZero(z);
    XorZero(a);
    XorZero(b);
    XorZero(Xor(a, b));
    XorAssoc(Xor(z, a), Xor(a, b), b);
    XorAssoc(a, b, b);
    XorAssoc(z, a, a);
    XorAssoc(Xor(z, a), b, Xor(a, b));
    XorAssoc(b, a, b);
    XorSwap(a, b);
  }

  lemma {:induction false} XorSwap(a: nat, b: nat)
    ensures Xor(a, b) == Xor(b, a)
  {
    if a + b > 0 {
      XorSwap(a / 2, b / 2);
    }
  }

  lemma ThreeShifts(z: U64, k: nat)
    requires 3 * k >= 64
    ensures Shr(Shr(z, k), k) == Shr(z, k + k) && Shr(Shr(z, k + k), k) == 0
    ensures Shr(Shr(z, k), k + k) == 0 && Shr(Shr(z, k + k), k + k) == 0
  {
    Pow2Of64();
    hide Shr, Pow2;
    ShrAway(z, 64);
    ShrTwice(z, 64, 3 * k - 64);
    ZeroShr(3 * k - 64);
    ZeroShr(k);
    ShrTwice(z, k, k);
    ShrTwice(z, k + k, k);
    ShrTwice(z, k, k + k);
    ShrTwice(Shr(z, k + k), k, k);
  }

  lemma Folding(z: U64, k: nat)
    requires 3 * k >= 64
    ensures Unfold(Fold(z, k), k) == z && Fold(Unfold(z, k), k) == z
  {
    hide Xor, Shr;
    var a, b := Shr(z, k), Shr(z, k + k);
    ThreeShifts(z, k);
    XorZero(b);
    Telescope(z, a, b);
    ShrXor(z, a, k);
    ShrXor(z, a, k + k);
    ShrXor(Xor(z, a), b, k);
  }

  lemma ModIs(x: int, q: int, r: U64)
    requires x == q * 0x1_0000_0000_0000_0000 + r
    ensures x % 0x1_0000_0000_0000_0000 == r
  {
  }

  /** Multiplying by a factor and then by its inverse gives back the number. */
  lemma Multiplying(z: U64, factor: nat, inverse: nat, carry: nat)
    requires factor * inverse == carry * 0x1_0000_0000_0000_0000 + 1
    ensures Times(Times(z, factor), inverse) == z
  {
    var product := z * factor;
    var q, t := product / 0x1_0000_0000_0000_0000, product % 0x1_0000_0000_0000_0000;
    calc {
      t * inverse;
      (z * factor - q * 0x1_0000_0000_0000_0000) * inverse;
      z * (factor * inverse) - q * inverse * 0x1_0000_0000_0000_0000;
      z * (carry * 0x1_0000_0000_0000_0000 + 1) - q * inverse * 0x1_0000_0000_0000_0000;
      (z * carry - q * inverse) * 0x1_0000_0000_0000_0000 + z;
    }
    ModIs(t * inverse, z * carry - q * inverse, z);
  }

  lemma Multiplying1(z: U64)
    ensures Times(Times(z, 0xbf58_476d_1ce4_e5b9), 0x96de_1b17_3f11_9089) == z
    ensures Times(Times(z, 0x96de_1b17_3f11_9089), 0xbf58_476d_1ce4_e5b9) == z
  {
    hide Times;
    Multiplying(z, 0xbf58_476d_1ce4_e5b9, 0x96de_1b17_3f11_9089, 0x70c3_bca7_8f27_f46c);
    Multiplying(z, 0x96de_1b17_3f11_9089, 0xbf58_476d_1ce4_e5b9, 0x70c3_bca7_8f27_f46c);
  }

  lemma Multiplying2(z: U64)
    ensures Times(Times(z, 0x94d0_49bb_1331_11eb), 0x3196_42b2_d24d_8ec3) == z
    ensures Times(Times(z, 0x3196_42b2_d24d_8ec3), 0x94d0_49bb_1331_11eb) == z
  {
    hide Times;
    Multiplying(z, 0x94d0_49bb_1331_11eb, 0x3196_42b2_d24d_8ec3, 0x1cd3_36ed_a85f_1453);
    Multiplying(z, 0x3196_42b2_d24d_8ec3, 0x94d0_49bb_1331_11eb, 0x1cd3_36ed_a85f_1453);
  }

  function Unmix(r: U64): U64 {
    var b := Times(Unfold(r, 31), 0x3196_42b2_d24d_8ec3);
    var a := Times(Unfold(b, 27), 0x96de_1b17_3f11_9089);
    Unfold(a, 30)
  }

  /** `Mix` is a bijection of the 64-bit states onto the 64-bit outputs. */
  lemma MixIsABijection(z: U64)
    ensures Unmix(Mix(z)) == z
    ensures Mix(Unmix(z)) == z
  {
    hide Fold, Unfold, Times;
    var a := Times(Fold(z, 30), 0xbf58_476d_1ce4_e5b9);
    var b := Times(Fold(a, 27), 0x94d0_49bb_1331_11eb);
    Folding(z, 30);
    Multiplying1(Fold(z, 30));
    Folding(a, 27);
    Multiplying2(Fold(a, 27));
    Folding(b, 31);
    var c := Times(Unfold(z, 31), 0x3196_42b2_d24d_8ec3);
    var d := Times(Unfold(c, 27), 0x96de_1b17_3f11_9089);
    Folding(z, 31);
    Multiplying2(Unfold(z, 31));
    Folding(c, 27);
    Multiplying1(Unfold(c, 27));
    Folding(d, 30);
  }

  lemma MixDistinguishes(x: U64, y: U64)
    ensures Mix(x) == Mix(y) <==> x == y
  {
    MixIsABijection(x);
    MixIsABijection(y);
    hide Mix, Unmix;
  }

  /** Multiplying by a number that has an inverse loses nothing. */
  lemma TimesDistinguishes(x: U64, y: U64, factor: nat, inverse: nat, carry: nat)
    requires factor * inverse == carry * 0x1_0000_0000_0000_0000 + 1
    ensures Times(x, factor) == Times(y, factor) <==> x == y
  {
    hide Times;
    Multiplying(x, factor, inverse, carry);
    Multiplying(y, factor, inverse, carry);
  }

  // ------------------------------------------------------------------ the period

  /** The state after `n` draws. */
  function After(seed: U64, n: nat): U64 {
    if n == 0 then seed else Advance(After(seed, n - 1))
  }

  /** The number drawn at position `n`. */
  function Output(seed: U64, n: nat): U64 {
    Mix(After(seed, n + 1))
  }

  lemma {:induction false} AfterIs(seed: U64, n: nat) returns (wraps: nat)
    ensures seed + n * 0x9e37_79b9_7f4a_7c15 == wraps * 0x1_0000_0000_0000_0000 + After(seed, n)
  {
    if n == 0 {
      wraps := 0;
    } else {
      wraps := AfterIs(seed, n - 1);
      var next := After(seed, n - 1) + 0x9e37_79b9_7f4a_7c15;
      wraps := wraps + next / 0x1_0000_0000_0000_0000;
    }
  }

  /** From some seed, draw `n` gives the number. */
  lemma {:induction false} SeedFor(n: nat, draw: U64) returns (seed: U64)
    ensures Output(seed, n) == draw
  {
    MixIsABijection(draw);
    hide Mix, Unmix;
    seed := SeedReaching(n + 1, Unmix(draw));
  }

  lemma {:induction false} SeedReaching(n: nat, state: U64) returns (seed: U64)
    ensures After(seed, n) == state
  {
    if n == 0 {
      seed := state;
    } else {
      var before := (state + 0x1_0000_0000_0000_0000 - 0x9e37_79b9_7f4a_7c15) % 0x1_0000_0000_0000_0000;
      seed := SeedReaching(n - 1, before);
      assert Advance(before) == state;
    }
  }

  /** A state comes back exactly when the step has been added a multiple of 2^64 times. */
  lemma StatesRepeat(seed: U64, i: nat, j: nat)
    requires i <= j
    ensures After(seed, i) == After(seed, j) <==> (j - i) % 0x1_0000_0000_0000_0000 == 0
  {
    var a := AfterIs(seed, i);
    var b := AfterIs(seed, j);
    var d := j - i;
    var x, y := After(seed, i), After(seed, j);
    assert d * 0x9e37_79b9_7f4a_7c15 == (b - a) * 0x1_0000_0000_0000_0000 + y - x;
    hide After;
    if x == y {
      var carry := 0x957b_bf35_006e_d677;
      assert d * (0x9e37_79b9_7f4a_7c15 * 0xf1de_83e1_9937_733d)
          == (b - a) * 0xf1de_83e1_9937_733d * 0x1_0000_0000_0000_0000;
      assert d == ((b - a) * 0xf1de_83e1_9937_733d - d * carry) * 0x1_0000_0000_0000_0000;
      ModIs(d, (b - a) * 0xf1de_83e1_9937_733d - d * carry, 0);
    }
    if d % 0x1_0000_0000_0000_0000 == 0 {
      var q := d / 0x1_0000_0000_0000_0000;
      assert y - x == (q * 0x9e37_79b9_7f4a_7c15 - (b - a)) * 0x1_0000_0000_0000_0000;
    }
  }

  /**
   From any seed, two draws are equal exactly when a multiple of 2^64 draws lies
   between them: nothing repeats sooner.
   */
  lemma OutputsRepeatAtThePeriod(seed: U64, i: nat, j: nat)
    requires i <= j
    ensures Output(seed, i) == Output(seed, j) <==> (j - i) % 0x1_0000_0000_0000_0000 == 0
  {
    hide Mix, After;
    StatesRepeat(seed, i + 1, j + 1);
    MixDistinguishes(After(seed, i + 1), After(seed, j + 1));
    assert (j + 1) - (i + 1) == j - i;
  }
}
