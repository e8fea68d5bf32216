/** The seeded generator behind the fixed-seed Number radix samples, on 64-bit words. */
module SplitMix {
  import opened Arithmetic
  import opened Schema

  const WORDS: int := 0x1_0000_0000_0000_0000
  const GAMMA: u64 := 0x9e37_79b9_7f4a_7c15

  function Wrap(x: nat): u64 { x % WORDS }

  // ------------------------------------------------------- words as bits

  /** Bitwise exclusive or. */
  function Xor(x: nat, y: nat): nat
    decreases x + y
  {
    if x == 0 && y == 0 then 0 else 2 * Xor(x / 2, y / 2) + (x + y) % 2
  }

  /** Shift right. */
  function Shr(x: nat, shift: nat): (r: nat)
    ensures r <= x
  {
    if shift == 0 then x else Shr(x / 2, shift - 1)
  }

  function Power(n: nat): nat { if n == 0 then 1 else 2 * Power(n - 1) }

  lemma {:induction false} XorBelow(x: nat, y: nat, n: nat)
    requires x < Power(n) && y <= x
    ensures Xor(x, y) < Power(n)
  {
    if n > 0 { XorBelow(x / 2, y / 2, n - 1); }
  }

  lemma PowerWords()
    ensures Power(64) == WORDS
  {
    assert Power(8) == 0x100 && Power(16) == 0x1_0000 && Power(24) == 0x100_0000 && Power(32) == 0x1_0000_0000;
    assert Power(40) == 0x100_0000_0000 && Power(48) == 0x1_0000_0000_0000 && Power(56) == 0x100_0000_0000_0000;
  }

  /** A word combined with itself shifted right. */
  function XorShift(x: u64, shift: nat): u64 {
    PowerWords();
    XorBelow(x, Shr(x, shift), 64);
    Xor(x, Shr(x, shift))
  }

  lemma {:induction false} PowerPositive(k: nat)
    ensures Power(k) > 0
  {
    if k > 0 { PowerPositive(k - 1); }
  }

  /** Shifting right divides by a power of two. */
  lemma {:induction false} ShrDivides(x: nat, k: nat)
    ensures Power(k) > 0 && Shr(x, k) == x / Power(k)
  {
    PowerPositive(k);
    if k > 0 {
      PowerPositive(k - 1);
      ShrDivides(x / 2, k - 1);
      DivideTwice(x, 2, Power(k - 1));
    }
  }

  function Bit(x: nat, i: nat): nat { Shr(x, i) % 2 }

  lemma XorHalf(x: nat, y: nat)
    ensures Xor(x, y) / 2 == Xor(x / 2, y / 2) && Xor(x, y) % 2 == (x + y) % 2
  {
    var z := Xor(x / 2, y / 2);
    assert Xor(x, y) == 2 * z + (x + y) % 2;
    DivideUniquely(Xor(x, y), 2, z, (x + y) % 2);
  }

  lemma BitNext(x: nat, i: nat)
    ensures Bit(x, i + 1) == Bit(x / 2, i) && Bit(x, 0) == x % 2
  {}

  lemma ParitySum(x: nat, y: nat)
    ensures (x + y) % 2 == (x % 2 + y % 2) % 2
  {}

  /** Exclusive or, bit by bit. */
  lemma {:induction false} XorBit(x: nat, y: nat, i: nat)
    ensures Bit(Xor(x, y), i) == (Bit(x, i) + Bit(y, i)) % 2
    decreases i
  {
    var z, w := Xor(x, y), Xor(x / 2, y / 2);
    assert z / 2 == w && z % 2 == (x + y) % 2 by { XorHalf(x, y); }
    if i == 0 {
      ParitySum(x, y);
      BitNext(z, 0);
      BitNext(x, 0);
      BitNext(y, 0);
    } else {
      XorBit(x / 2, y / 2, i - 1);
      BitNext(z, i - 1);
      BitNext(x, i - 1);
      BitNext(y, i - 1);
    }
  }

  lemma {:induction false} ShrAdd(x: nat, i: nat, j: nat)
    ensures Shr(Shr(x, j), i) == Shr(x, i + j)
    decreases j
  {
    if j > 0 { ShrAdd(x / 2, i, j - 1); }
  }

  /** Bit `i` of a word combined with itself shifted right is the sum, without carry, of its
      bits `i` and `i + shift`. */
  lemma XorShiftBit(x: u64, shift: nat, i: nat)
    ensures Bit(XorShift(x, shift), i) == (Bit(x, i) + Bit(x, i + shift)) % 2
  {
    XorBit(x, Shr(x, shift), i);
    ShrAdd(x, i, shift);
  }

  lemma {:induction false} ShrHalves(x: nat, shift: nat)
    ensures Shr(x, shift) / 2 == Shr(x / 2, shift)
  {
    if shift > 0 { ShrHalves(x / 2, shift - 1); }
  }

  lemma XorStep(x: nat, x': nat, y: nat, y': nat)
    requires Xor(x, x') == Xor(y, y')
    ensures Xor(x / 2, x' / 2) == Xor(y / 2, y' / 2) && (x + x') % 2 == (y + y') % 2
  {}

  lemma SameBits(x: nat, y: nat, common: nat)
    requires x / 2 == y / 2 && (x + common) % 2 == (y + common) % 2
    ensures x == y
  {}

  /** Shift-xor by at least one bit is injective: equal results have equal halves, and then
      equal lowest bits. */
  lemma {:induction false} XorShiftInjective(x: nat, y: nat, shift: nat)
    requires shift > 0 && Xor(x, Shr(x, shift)) == Xor(y, Shr(y, shift))
    ensures x == y
    decreases x + y
  {
    if x > 0 || y > 0 {
      ShrHalves(x, shift);
      ShrHalves(y, shift);
      XorStep(x, Shr(x, shift), y, Shr(y, shift));
      XorShiftInjective(x / 2, y / 2, shift);
      SameBits(x, y, Shr(x, shift));
    }
  }

  // ------------------------------------------------------- odd factors

  /** A factor with an inverse modulo 2^64 keeps words apart. */
  lemma FactorInjective(x: int, y: int, factor: int, inverse: int, carry: int)
    requires factor * inverse == 1 + carry * WORDS
    requires -WORDS < x - y < WORDS && (x * factor) % WORDS == (y * factor) % WORDS
    ensures x == y
  {
    var d, t := x - y, (x * factor) / WORDS - (y * factor) / WORDS;
    assert d * factor == t * WORDS;
    calc {
      d + d * carry * WORDS;
      d * (1 + carry * WORDS);
      d * (factor * inverse);
      (d * factor) * inverse;
      (t * WORDS) * inverse;
      (t * inverse) * WORDS;
    }
    assert d == (t * inverse - d * carry) * WORDS;
    SmallMultiple(d, t * inverse - d * carry);
  }

  lemma SmallMultiple(d: int, m: int)
    requires d == m * WORDS && -WORDS < d < WORDS
    ensures d == 0
  {}

  // ------------------------------------------------------- the generator

  /** The output function, with wrapping multiplication. */
  function Mix(state: u64): u64 {
    var a := Wrap(XorShift(state, 30) * 0xbf58_476d_1ce4_e5b9);
    var b := Wrap(XorShift(a, 27) * 0x94d0_49bb_1331_11eb);
    XorShift(b, 31)
  }

  lemma FirstRound(x: u64, y: u64)
    requires Wrap(XorShift(x, 30) * 0xbf58_476d_1ce4_e5b9) == Wrap(XorShift(y, 30) * 0xbf58_476d_1ce4_e5b9)
    ensures x == y
  {
    var p, q := XorShift(x, 30), XorShift(y, 30);
    FactorInjective(p, q, 0xbf58_476d_1ce4_e5b9, 0x96de_1b17_3f11_9089, 8125545580553827436);
    XorShiftInjective(x, y, 30);
  }

  lemma SecondRound(x: u64, y: u64)
    requires Wrap(XorShift(x, 27) * 0x94d0_49bb_1331_11eb) == Wrap(XorShift(y, 27) * 0x94d0_49bb_1331_11eb)
    ensures x == y
  {
    var p, q := XorShift(x, 27), XorShift(y, 27);
    FactorInjective(p, q, 0x94d0_49bb_1331_11eb, 0x3196_42b2_d24d_8ec3, 2077064247507883091);
    XorShiftInjective(x, y, 27);
  }

  /** The output function is injective on the whole 64-bit state space. */
  lemma MixInjective(s: u64, t: u64)
    requires Mix(s) == Mix(t)
    ensures s == t
  {
    var a, a' := Wrap(XorShift(s, 30) * 0xbf58_476d_1ce4_e5b9), Wrap(XorShift(t, 30) * 0xbf58_476d_1ce4_e5b9);
    var b, b' := Wrap(XorShift(a, 27) * 0x94d0_49bb_1331_11eb), Wrap(XorShift(a', 27) * 0x94d0_49bb_1331_11eb);
    XorShiftInjective(b, b', 31);
    SecondRound(a, a');
    FirstRound(s, t);
  }

  function StateAfter(seed: u64, k: nat): u64 { Wrap(seed + k * GAMMA) }

  /** The draw with index `k`, counting from zero. */
  function Draw(seed: u64, k: nat): u64 { Mix(StateAfter(seed, k + 1)) }

  /** The successive states and the successive draws from one seed. */
  type States = nat -> u64
  type Draws = nat -> u64

  function StatesOf(seed: u64): States { k => StateAfter(seed, k) }

  function DrawsOf(seed: u64): Draws { k => Draw(seed, k) }

  ghost predicate Advances(seed: u64, states: States) {
    forall k: nat {:trigger StateAfter(seed, k)} :: states(k) == StateAfter(seed, k)
  }

  ghost predicate Generates(seed: u64, draws: Draws) {
    forall k: nat {:trigger Draw(seed, k)} :: draws(k) == Draw(seed, k)
  }

  class SplitMix64 {
    var state: u64

    constructor (seed: u64)
      ensures state == seed == StateAfter(seed, 0)
    {
      state := seed;
    }

    /** One draw: the state advances by the odd increment and its new value is mixed. */
    method Next(ghost seed: u64, ghost states: States, ghost draws: Draws, ghost k: nat) returns (value: u64)
      requires Advances(seed, states) && Generates(seed, draws) && state == states(k)
      modifies this
      ensures state == states(k + 1)
      ensures value == draws(k)
    {
      assert states(k) == StateAfter(seed, k) && states(k + 1) == StateAfter(seed, k + 1);
      assert draws(k) == Draw(seed, k);
      StateNext(seed, k);
      state := Wrap(state + GAMMA);
      value := state;
      value := Wrap(XorShift(value, 30) * 0xbf58_476d_1ce4_e5b9);
      value := Wrap(XorShift(value, 27) * 0x94d0_49bb_1331_11eb);
      value := XorShift(value, 31);
    }
  }

  lemma StateNext(seed: u64, k: nat)
    ensures Wrap(StateAfter(seed, k) + GAMMA) == StateAfter(seed, k + 1)
  {
    WrapAdd(seed + k * GAMMA, GAMMA);
    assert seed + (k + 1) * GAMMA == seed + k * GAMMA + GAMMA;
  }

  lemma WrapAdd(x: nat, y: nat)
    ensures Wrap(Wrap(x) + y) == Wrap(x + y)
  {
    AddMultiple(Wrap(x) + y, WORDS, x / WORDS);
  }

  lemma StatesDistinct(seed: u64, j: nat, k: nat)
    requires j < k < j + WORDS
    ensures StateAfter(seed, j) != StateAfter(seed, k)
  {
    if StateAfter(seed, j) == StateAfter(seed, k) {
      var d := (seed + k * GAMMA) / WORDS - (seed + j * GAMMA) / WORDS;
      assert (k - j) * GAMMA == d * WORDS;
      MultipleModulo(d);
      FactorInjective(k - j, 0, GAMMA, 0xf1de_83e1_9937_733d, 10771413168148108919);
    }
  }

  lemma MultipleModulo(d: int)
    ensures (d * WORDS) % WORDS == 0
  {}

  /** Over the full period of 2^64 draws no output repeats, whatever the seed. */
  lemma DrawsDistinct(seed: u64, j: nat, k: nat)
    requires j < k < WORDS
    ensures Draw(seed, j) != Draw(seed, k)
  {
    if Draw(seed, j) == Draw(seed, k) {
      MixInjective(StateAfter(seed, j + 1), StateAfter(seed, k + 1));
      StatesDistinct(seed, j + 1, k + 1);
    }
  }
}
