/** The deterministic generator behind schema-driven response synthesis: splitmix64
    (crates/rift-cluster-spec/src/digest.rs).

    A machine word is a number below 2^64.  Wrapping addition and multiplication reduce modulo
    2^64; exclusive or and the logical right shift are defined on the binary digits.
 */
module SplitMix {

  const TWO_64: nat := 0x1_0000_0000_0000_0000
  const INCREMENT: nat := 0x9E37_79B9_7F4A_7C15
  const FIRST: nat := 0xBF58_476D_1CE4_E5B9
  const SECOND: nat := 0x94D0_49BB_1331_11EB

  // The inverses of the three odd constants modulo 2^64.
  const INCREMENT_INVERSE: nat := 0xF1DE_83E1_9937_733D
  const FIRST_INVERSE: nat := 0x96DE_1B17_3F11_9089
  const SECOND_INVERSE: nat := 0x3196_42B2_D24D_8EC3

  type Word = n: nat | n < TWO_64

  /** Bitwise exclusive or. */
  function Xor(a: nat, b: nat): nat
    decreases a + b
  {
    if a == 0 then b
    else if b == 0 then a
    else 2 * Xor(a / 2, b / 2) + if a % 2 == b % 2 then 0 else 1
  }

  /** Logical right shift: drop the `k` lowest bits. */
  function Shr(a: nat, k: nat): nat
    decreases k
  {
    if k == 0 then a else Shr(a / 2, k - 1)
  }

  // ---- the algebra of exclusive or ----

  /** One binary digit at a time, with no special case for zero. */
  lemma {:induction false} XorDigits(a: nat, b: nat)
    ensures Xor(a, b) == 2 * Xor(a / 2, b / 2) + if a % 2 == b % 2 then 0 else 1
  {
    if a == 0 { assert Xor(0, b / 2) == b / 2; }
  }

  lemma {:induction false} XorCommutes(a: nat, b: nat)
    ensures Xor(a, b) == Xor(b, a)
    decreases a + b
  {
    if a != 0 && b != 0 { XorCommutes(a / 2, b / 2); }
  }

  lemma {:induction false} XorHalves(a: nat, b: nat)
    ensures Xor(a, b) / 2 == Xor(a / 2, b / 2)
    ensures Xor(a, b) % 2 == if a % 2 == b % 2 then 0 else 1
  {
    XorDigits(a, b);
  }

  lemma {:induction false} XorParity(a: nat, b: nat, c: nat)
    ensures Xor(Xor(a, b), c) % 2 == Xor(a, Xor(b, c)) % 2
  {
    XorHalves(a, b); XorHalves(Xor(a, b), c);
    XorHalves(b, c); XorHalves(a, Xor(b, c));
  }

  lemma {:induction false} XorNextDigit(a: nat, b: nat, c: nat)
    ensures Xor(Xor(a, b), c) / 2 == Xor(Xor(a / 2, b / 2), c / 2)
    ensures Xor(a, Xor(b, c)) / 2 == Xor(a / 2, Xor(b / 2, c / 2))
  {
    XorHalves(a, b); XorHalves(Xor(a, b), c);
    XorHalves(b, c); XorHalves(a, Xor(b, c));
  }

  lemma {:induction false} XorAssociates(a: nat, b: nat, c: nat)
    ensures Xor(Xor(a, b), c) == Xor(a, Xor(b, c))
    decreases a + b + c
  {
    if a != 0 && b != 0 && c != 0 {
      XorParity(a, b, c);
      XorNextDigit(a, b, c);
      XorAssociates(a / 2, b / 2, c / 2);
      SameDigits(Xor(Xor(a, b), c), Xor(a, Xor(b, c)));
    } else {
      XorCommutes(a, 0); XorCommutes(Xor(a, b), 0);
    }
  }

  lemma SameDigits(a: nat, b: nat)
    requires a / 2 == b / 2 && a % 2 == b % 2
    ensures a == b
  {}

  lemma {:induction false} XorCancels(a: nat)
    ensures Xor(a, a) == 0
  {
    if a != 0 { XorCancels(a / 2); }
  }

  lemma {:induction false} ShrDistributes(a: nat, b: nat, k: nat)
    ensures Shr(Xor(a, b), k) == Xor(Shr(a, k), Shr(b, k))
    decreases k
  {
    if k > 0 {
      XorHalves(a, b);
      ShrDistributes(a / 2, b / 2, k - 1);
    }
  }

  lemma {:induction false} ShrAdds(a: nat, j: nat, k: nat)
    ensures Shr(Shr(a, j), k) == Shr(a, j + k)
    decreases j
  {
    if j > 0 { ShrAdds(a / 2, j - 1, k); }
  }

  ghost function Pow2(n: nat): nat {
    if n == 0 then 1 else 2 * Pow2(n - 1)
  }

  lemma {:induction false} XorBounded(a: nat, b: nat, bits: nat)
    requires a < Pow2(bits) && b < Pow2(bits)
    ensures Xor(a, b) < Pow2(bits)
    decreases bits
  {
    if bits > 0 && a != 0 && b != 0 { XorBounded(a / 2, b / 2, bits - 1); }
  }

  lemma {:induction false} ShrBounded(a: nat, k: nat)
    ensures Shr(a, k) <= a
    decreases k
  {
    if k > 0 { ShrBounded(a / 2, k - 1); }
  }

  lemma {:induction false} ShrRunsOut(a: nat, bits: nat, k: nat)
    requires a < Pow2(bits) && bits <= k
    ensures Shr(a, k) == 0
    decreases k
  {
    if k > 0 { ShrRunsOut(a / 2, if bits == 0 then 0 else bits - 1, k - 1); }
  }

  lemma SixtyFourBits()
    ensures Pow2(64) == TWO_64
  {
    assert Pow2(8) == 256;
    assert Pow2(16) == 0x1_0000 by { assert Pow2(12) == 0x1000; }
    assert Pow2(32) == 0x1_0000_0000 by { assert Pow2(20) == 0x10_0000; assert Pow2(24) == 0x100_0000; assert Pow2(28) == 0x1000_0000; }
    assert Pow2(48) == 0x1_0000_0000_0000 by {
      assert Pow2(36) == 0x10_0000_0000; assert Pow2(40) == 0x100_0000_0000; assert Pow2(44) == 0x1000_0000_0000;
    }
    assert Pow2(52) == 0x10_0000_0000_0000; assert Pow2(56) == 0x100_0000_0000_0000; assert Pow2(60) == 0x1000_0000_0000_0000;
  }

  // ---- the mixing step ----

  function XorShift(z: Word, k: nat): (r: Word)
  {
    SixtyFourBits(); ShrBounded(z, k); XorBounded(z, Shr(z, k), 64);
    Xor(z, Shr(z, k))
  }

  /** Undoes `XorShift` for any shift of at least 22 bits. */
  function XorUnshift(z: Word, k: nat): (r: Word)
  {
    SixtyFourBits(); ShrBounded(z, k); ShrBounded(z, 2 * k);
    XorBounded(z, Shr(z, k), 64); XorBounded(Xor(z, Shr(z, k)), Shr(z, 2 * k), 64);
    Xor(Xor(z, Shr(z, k)), Shr(z, 2 * k))
  }

  /** The shifts of a word: past the third there is nothing left. */
  lemma {:induction false} Shifts(z: Word, k: nat)
    requires k >= 22
    ensures Shr(Shr(z, k), k) == Shr(z, 2 * k) && Shr(Shr(z, 2 * k), k) == 0 && Shr(Shr(z, k), 2 * k) == 0
  {
    SixtyFourBits();
    ShrRunsOut(z, 64, 3 * k);
    ShrAdds(z, k, k); ShrAdds(z, 2 * k, k); ShrAdds(z, k, 2 * k);
  }

  /** `(z ^ (z >> k)) ^ (z >> 2k)` shifted by `k` telescopes against itself. */
  lemma {:induction false} XorShiftInverts(z: Word, k: nat)
    requires k >= 22
    ensures XorUnshift(XorShift(z, k), k) == z
    ensures XorShift(XorUnshift(z, k), k) == z
  {
    var z1, z2 := Shr(z, k), Shr(z, 2 * k);
    Shifts(z, k);
    ShrDistributes(z, z1, k);
    ShrDistributes(z, z1, 2 * k);
    ShrDistributes(Xor(z, z1), z2, k);
    XorCommutes(z2, 0);
    Telescopes(z, z1, z2);
  }

  lemma Telescopes(a: nat, b: nat, c: nat)
    ensures Xor(Xor(Xor(a, b), Xor(b, c)), c) == a
    ensures Xor(Xor(Xor(a, b), c), Xor(Xor(b, c), 0)) == a
  {
    XorAssociates(a, b, Xor(b, c));
    XorAssociates(b, b, c);
    XorCancels(b);
    XorAssociates(a, c, c);
    XorCancels(c);
    XorCommutes(a, 0);
    XorAssociates(a, b, c);
    XorAssociates(a, Xor(b, c), Xor(b, c));
    XorCancels(Xor(b, c));
    XorCommutes(Xor(b, c), 0);
  }

  function WrappingAdd(a: Word, b: Word): Word { (a + b) % TWO_64 }
  function WrappingMul(a: Word, b: Word): Word { a * b % TWO_64 }

  lemma Unmultiply(a: Word, c: nat, d: nat, q: nat)
    requires c * d == 1 + q * TWO_64
    ensures (a * c % TWO_64) * d % TWO_64 == a
  {
    var k := a * c / TWO_64;
    assert a * c % TWO_64 == a * c - k * TWO_64;
    calc {
      (a * c - k * TWO_64) * d;
      a * c * d - k * TWO_64 * d;
      { assert a * c * d == a * (c * d); }
      a * (1 + q * TWO_64) - k * TWO_64 * d;
      { assert a * (q * TWO_64) == TWO_64 * (a * q); assert k * TWO_64 * d == TWO_64 * (k * d); }
      a + TWO_64 * (a * q) - TWO_64 * (k * d);
      a + TWO_64 * (a * q - k * d);
    }
    ModOfMultiple(a, a * q - k * d);
  }

  lemma ModOfMultiple(a: Word, m: int)
    ensures (a + TWO_64 * m) % TWO_64 == a
  {}

  /** Multiplying by one of the three constants and then by its inverse changes nothing. */
  lemma MultipliersInvert(a: Word)
    ensures WrappingMul(WrappingMul(a, FIRST), FIRST_INVERSE) == a
    ensures WrappingMul(WrappingMul(a, FIRST_INVERSE), FIRST) == a
    ensures WrappingMul(WrappingMul(a, SECOND), SECOND_INVERSE) == a
    ensures WrappingMul(WrappingMul(a, SECOND_INVERSE), SECOND) == a
    ensures WrappingMul(WrappingMul(a, INCREMENT), INCREMENT_INVERSE) == a
    ensures WrappingMul(WrappingMul(a, INCREMENT_INVERSE), INCREMENT) == a
  {
    Unmultiply(a, FIRST, FIRST_INVERSE, FIRST * FIRST_INVERSE / TWO_64);
    Unmultiply(a, FIRST_INVERSE, FIRST, FIRST * FIRST_INVERSE / TWO_64);
    Unmultiply(a, SECOND, SECOND_INVERSE, SECOND * SECOND_INVERSE / TWO_64);
    Unmultiply(a, SECOND_INVERSE, SECOND, SECOND * SECOND_INVERSE / TWO_64);
    Unmultiply(a, INCREMENT, INCREMENT_INVERSE, INCREMENT * INCREMENT_INVERSE / TWO_64);
    Unmultiply(a, INCREMENT_INVERSE, INCREMENT, INCREMENT * INCREMENT_INVERSE / TWO_64);
  }

  /** The mixing step applied to each state: the body of `next_u64` after the addition. */
  function Mix(state: Word): Word {
    var a := WrappingMul(XorShift(state, 30), FIRST);
    var b := WrappingMul(XorShift(a, 27), SECOND);
    XorShift(b, 31)
  }

  function Unmix(word: Word): Word {
    var b := WrappingMul(XorUnshift(word, 31), SECOND_INVERSE);
    var a := WrappingMul(XorUnshift(b, 27), FIRST_INVERSE);
    XorUnshift(a, 30)
  }

  /** The mixing step is a bijection on 64-bit words. */
  lemma MixIsABijection(word: Word)
    ensures Unmix(Mix(word)) == word
    ensures Mix(Unmix(word)) == word
  {
    var a := WrappingMul(XorShift(word, 30), FIRST);
    var b := WrappingMul(XorShift(a, 27), SECOND);
    XorShiftInverts(b, 31);
    MultipliersInvert(XorShift(a, 27));
    XorShiftInverts(a, 27);
    MultipliersInvert(XorShift(word, 30));
    XorShiftInverts(word, 30);

    var d := WrappingMul(XorUnshift(word, 31), SECOND_INVERSE);
    var c := WrappingMul(XorUnshift(d, 27), FIRST_INVERSE);
    XorShiftInverts(c, 30);
    MultipliersInvert(XorUnshift(d, 27));
    XorShiftInverts(d, 27);
    MultipliersInvert(XorUnshift(word, 31));
    XorShiftInverts(word, 31);
  }

  // ---- the sequence ----

  /** The state after `n` draws from `seed`. */
  function State(seed: Word, n: nat): Word {
    if n == 0 then seed else WrappingAdd(State(seed, n - 1), INCREMENT)
  }

  /** The output of draw number `n` from `seed`, counting from zero. */
  function Draw(seed: Word, n: nat): Word {
    Mix(State(seed, n + 1))
  }

  lemma {:induction false} StateClosedForm(seed: Word, n: nat)
    ensures State(seed, n) == (seed + n * INCREMENT) % TWO_64
  {
    if n > 0 {
      StateClosedForm(seed, n - 1);
      var before := seed + (n - 1) * INCREMENT;
      assert before + INCREMENT == seed + n * INCREMENT;
      ModAbsorbs(before, INCREMENT);
    }
  }

  lemma ModAbsorbs(a: nat, b: nat)
    ensures (a % TWO_64 + b) % TWO_64 == (a + b) % TWO_64
  {
    var q := a / TWO_64;
    assert a == a % TWO_64 + TWO_64 * q;
    var r := (a + b) / TWO_64;
    assert a % TWO_64 + b == (a + b) % TWO_64 + TWO_64 * (r - q);
    ModOfMultiple((a + b) % TWO_64, r - q);
  }

  /** How many draws after the first take `seed` to `state`: the increment is odd, so it divides
      every difference modulo 2^64. */
  function Steps(seed: Word, state: Word): Word {
    WrappingMul((state + TWO_64 - seed + TWO_64 - INCREMENT) % TWO_64, INCREMENT_INVERSE)
  }

  lemma StepsReach(seed: Word, state: Word)
    ensures State(seed, Steps(seed, state) + 1) == state
  {
    var n := Steps(seed, state);
    var distance := (state + TWO_64 - seed + TWO_64 - INCREMENT) % TWO_64;
    MultipliersInvert(distance);
    assert n * INCREMENT % TWO_64 == distance;
    calc {
      State(seed, n + 1);
      { StateClosedForm(seed, n + 1); }
      (seed + (n + 1) * INCREMENT) % TWO_64;
      { ModAbsorbs(n * INCREMENT, seed + INCREMENT); }
      (distance + seed + INCREMENT) % TWO_64;
      { ModAbsorbs(state + TWO_64 - seed + TWO_64 - INCREMENT, seed + INCREMENT); }
      (state + TWO_64 + TWO_64) % TWO_64;
      { ModOfMultiple(state, 2); }
      state;
    }
  }

  /** The position below 2^64 at which `out` is drawn from `seed`. */
  function DrawNumber(seed: Word, out: Word): Word {
    Steps(seed, Unmix(out))
  }

  /** Every 64-bit word is drawn, from any seed, at a position below 2^64. */
  lemma EveryWordIsDrawn(seed: Word, out: Word)
    ensures Draw(seed, DrawNumber(seed, out)) == out
  {
    StepsReach(seed, Unmix(out));
    MixIsABijection(out);
  }

  lemma MulAbsorbs(n: nat, c: nat)
    ensures n * c % TWO_64 == (n % TWO_64) * c % TWO_64
  {
    var q := n / TWO_64;
    var low := (n % TWO_64) * c;
    assert n * c == low + TWO_64 * (q * c) by {
      assert n == n % TWO_64 + TWO_64 * q;
      assert n * c == (n % TWO_64) * c + TWO_64 * q * c;
    }
    ModAbsorbs(low, TWO_64 * (q * c));
    ModOfMultiple(low % TWO_64, q * c);
  }

  lemma DistanceTravelled(seed: Word, n: nat)
    ensures (State(seed, n + 1) + TWO_64 - seed + TWO_64 - INCREMENT) % TWO_64 == n * INCREMENT % TWO_64
  {
    StateClosedForm(seed, n + 1);
    var total := seed + (n + 1) * INCREMENT;
    ModAbsorbs(total, TWO_64 - seed + TWO_64 - INCREMENT);
    assert total + TWO_64 - seed + TWO_64 - INCREMENT == n * INCREMENT + TWO_64 * 2;
    ModAbsorbs(n * INCREMENT, TWO_64 * 2);
    ModOfMultiple(n * INCREMENT % TWO_64, 2);
  }

  lemma StepsOfState(seed: Word, n: nat)
    ensures Steps(seed, State(seed, n + 1)) == n % TWO_64
  {
    DistanceTravelled(seed, n);
    MulAbsorbs(n, INCREMENT);
    MultipliersInvert(n % TWO_64);
  }

  /** The position a word was drawn at, read back modulo the period. */
  lemma DrawNumberOfDraw(seed: Word, n: nat)
    ensures DrawNumber(seed, Draw(seed, n)) == n % TWO_64
  {
    var state := State(seed, n + 1);
    MixIsABijection(state);
    StepsOfState(seed, n);
  }

  /** Exact period: two draws from one seed are equal exactly when their positions agree modulo
      2^64.  So no output repeats within any 2^64 consecutive draws, and the 2^64-th repeats. */
  lemma DrawsRepeatExactlyEvery64Bits(seed: Word, i: nat, j: nat)
    ensures Draw(seed, i) == Draw(seed, j) <==> i % TWO_64 == j % TWO_64
  {
    DrawNumberOfDraw(seed, i);
    DrawNumberOfDraw(seed, j);
    EveryWordIsDrawn(seed, Draw(seed, i));
    EveryWordIsDrawn(seed, Draw(seed, j));
  }

  ghost predicate DrawnAt(seed: Word, out: Word, start: nat, n: nat) {
    start <= n < start + TWO_64 && Draw(seed, n) == out
  }

  lemma DrawnSomewhere(seed: Word, out: Word, start: nat) returns (n: nat)
    ensures DrawnAt(seed, out, start, n)
  {
    var residue := DrawNumber(seed, out);
    n := FirstInWindow(start, residue);
    EveryWordIsDrawn(seed, out);
    assert residue % TWO_64 == residue by { ModOfMultiple(residue, 0); }
    DrawsRepeatExactlyEvery64Bits(seed, n, residue);
  }

  lemma DrawnOnce(seed: Word, out: Word, start: nat, m: nat, n: nat)
    requires DrawnAt(seed, out, start, m) && DrawnAt(seed, out, start, n)
    ensures m == n
  {
    DrawsRepeatExactlyEvery64Bits(seed, m, n);
    SameWindow(start, m, n);
  }

  /** Any 2^64 consecutive draws are every 64-bit word, each exactly once. */
  lemma WindowIsAPermutation(seed: Word, start: nat, out: Word)
    ensures exists n :: DrawnAt(seed, out, start, n)
    ensures forall m, n :: DrawnAt(seed, out, start, m) && DrawnAt(seed, out, start, n) ==> m == n
  {
    var n := DrawnSomewhere(seed, out, start);
    forall m, n | DrawnAt(seed, out, start, m) && DrawnAt(seed, out, start, n) ensures m == n {
      DrawnOnce(seed, out, start, m, n);
    }
  }

  /** The one position in the window that is congruent to `residue`. */
  ghost function FirstInWindow(start: nat, residue: Word): (n: nat)
    ensures start <= n < start + TWO_64
    ensures n % TWO_64 == residue
  {
    var base := start - start % TWO_64;
    assert base == TWO_64 * (start / TWO_64);
    ModOfMultiple(residue, start / TWO_64);
    ModOfMultiple(residue, start / TWO_64 + 1);
    if start % TWO_64 <= residue then base + residue else base + TWO_64 + residue
  }

  lemma SameWindow(start: nat, m: nat, n: nat)
    requires start <= m < start + TWO_64 && start <= n < start + TWO_64
    requires m % TWO_64 == n % TWO_64
    ensures m == n
  {}

  /** The generator: one word of state, advanced by every draw. */
  class Rng {
    var state: Word
    ghost const seed: Word
    ghost var drawn: nat

    ghost predicate Valid()
      reads this
    {
      state == State(seed, drawn)
    }

    constructor (start: Word)
      ensures Valid() && seed == start && drawn == 0 && state == start
    {
      state, seed, drawn := start, start, 0;
    }

    method NextU64() returns (out: Word)
      requires Valid()
      modifies this
      ensures Valid() && drawn == old(drawn) + 1
      ensures out == Draw(seed, old(drawn))
    {
      state := WrappingAdd(state, INCREMENT);
      var z := state;
      z := WrappingMul(XorShift(z, 30), FIRST);
      z := WrappingMul(XorShift(z, 27), SECOND);
      out := XorShift(z, 31);
      drawn := drawn + 1;
    }

    /** A value in `0..n`, drawn only when there is one. */
    method Below(n: Word) returns (out: Word)
      requires Valid()
      modifies this
      ensures Valid()
      ensures n == 0 ==> out == 0 && drawn == old(drawn)
      ensures n > 0 ==> out < n && drawn == old(drawn) + 1 && out == Draw(seed, old(drawn)) % n
    {
      if n == 0 { return 0; }
      var word := NextU64();
      out := word % n;
    }
  }
}
