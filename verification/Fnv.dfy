/** The 64-bit FNV-1a fold. */
module Fnv {
  import opened Bytes

  const MODULUS: nat := 0x1_0000_0000_0000_0000
  const PRIME: nat := 0x100_0000_01b3
  const OFFSET: nat := 0xcbf2_9ce4_8422_2325

  /** The inverse of the prime modulo 2^64, and the quotient that shows it. */
  const INVERSE: nat := 0xce96_5057_aff6_957b
  const QUOTIENT: nat := 0xce_9650_590f

  type u64 = s: nat | s < MODULUS

  // ----- exclusive or

  function Xor(a: nat, b: nat): nat {
    if a == 0 then b
    else if b == 0 then a
    else 2 * Xor(a / 2, b / 2) + (a % 2 + b % 2) % 2
  }

  function Pow2(k: nat): nat {
    if k == 0 then 1 else 2 * Pow2(k - 1)
  }

  lemma {:induction false} XorBelow(a: nat, b: nat, k: nat)
    requires a < Pow2(k) && b < Pow2(k)
    ensures Xor(a, b) < Pow2(k)
  {
    if a == 0 || b == 0 {
    } else {
      XorBelow(a / 2, b / 2, k - 1);
    }
  }

  lemma XorZero(a: nat)
    ensures Xor(a, 0) == a && Xor(0, a) == a
  {
  }

  /** One step of the recursion, zero operands included. */
  lemma XorStep(a: nat, b: nat)
    ensures Xor(a, b) == 2 * Xor(a / 2, b / 2) + (a % 2 + b % 2) % 2
  {
    XorZero(a / 2);
    XorZero(b / 2);
  }

  lemma BitTwice(y: nat, a: nat, b: nat)
    requires a < 2 && b < 2
    ensures (2 * y + (a + b) % 2) / 2 == y
    ensures ((2 * y + (a + b) % 2) % 2 + b) % 2 == a
  {
  }

  /** Twice is not at all. */
  lemma {:induction false} XorUndoes(a: nat, b: nat)
    ensures Xor(Xor(a, b), b) == a
    decreases a + b
  {
    if a != 0 || b != 0 {
      XorUndoes(a / 2, b / 2);
      XorStep(a, b);
      XorStep(Xor(a, b), b);
      hide Xor;
      BitTwice(Xor(a / 2, b / 2), a % 2, b % 2);
    }
  }

  lemma {:induction false} XorSymmetric(a: nat, b: nat)
    ensures Xor(a, b) == Xor(b, a)
  {
    if a == 0 || b == 0 {
    } else {
      XorSymmetric(a / 2, b / 2);
    }
  }

  /** The bit of `a` that counts `2^k`. */
  function Bit(a: nat, k: nat): nat
    decreases k
  {
    if k == 0 then a % 2 else Bit(a / 2, k - 1)
  }

  /** A bit is set exactly when it is set in one of the two operands and not in the other. */
  lemma {:induction false} XorBits(a: nat, b: nat, k: nat)
    ensures Bit(Xor(a, b), k) == (Bit(a, k) + Bit(b, k)) % 2
    decreases k
  {
    XorStep(a, b);
    hide Xor;
    BitTwice(Xor(a / 2, b / 2), a % 2, b % 2);
    if k > 0 {
      XorBits(a / 2, b / 2, k - 1);
    }
  }

  // ----- wrapping multiplication by the prime

  lemma PrimeHasInverse()
    ensures PRIME * INVERSE == 1 + QUOTIENT * MODULUS
  {
  }

  lemma MultipleBelow(x: int, q: int)
    requires x == q * MODULUS && 0 - MODULUS < x < MODULUS
    ensures x == 0
  {
  }

  /** The prime is odd, so no two states share a product modulo 2^64. */
  lemma TimesPrimeInjective(x: u64, y: u64)
    requires (x * PRIME) % MODULUS == (y * PRIME) % MODULUS
    ensures x == y
  {
    var k := (x * PRIME) / MODULUS - (y * PRIME) / MODULUS;
    assert (x - y) * PRIME == k * MODULUS;
    PrimeHasInverse();
    assert (x - y) * PRIME * INVERSE == k * MODULUS * INVERSE;
    assert (x - y) == (k * INVERSE - (x - y) * QUOTIENT) * MODULUS;
    MultipleBelow(x - y, k * INVERSE - (x - y) * QUOTIENT);
  }

  // ----- the fold

  function Step(s: u64, b: byte): (r: u64) {
    (Xor(s, b) * PRIME) % MODULUS
  }

  function Fold(s: u64, bytes: Str): (r: u64) {
    if bytes == [] then s else Step(Fold(s, bytes[..|bytes| - 1]), bytes[|bytes| - 1])
  }

  method Fnv1a(state: u64, bytes: Str) returns (r: u64)
    ensures r == Fold(state, bytes)
  {
    r := state;
    for i := 0 to |bytes|
      invariant r == Fold(state, bytes[..i])
    {
      assert bytes[..i + 1][..i] == bytes[..i];
      var mixed := Xor(r, bytes[i]);
      r := (mixed * PRIME) % MODULUS;
    }
    assert bytes[..|bytes|] == bytes;
  }

  /** Fed piece by piece or all at once, the state is the same. */
  lemma {:induction false} FoldConcat(s: u64, a: Str, b: Str)
    ensures Fold(s, a + b) == Fold(Fold(s, a), b)
  {
    if b == [] {
      assert a + b == a;
    } else {
      FoldConcat(s, a, b[..|b| - 1]);
      assert (a + b)[..|a + b| - 1] == a + b[..|b| - 1];
    }
  }

  lemma StateFits(s: u64, b: byte)
    ensures Xor(s, b) < MODULUS
  {
    assert Pow2(64) == MODULUS by {
      assert Pow2(8) == 0x100;
      assert Pow2(16) == 0x1_0000;
      assert Pow2(24) == 0x100_0000;
      assert Pow2(32) == 0x1_0000_0000;
      assert Pow2(40) == 0x100_0000_0000;
      assert Pow2(48) == 0x1_0000_0000_0000;
      assert Pow2(56) == 0x100_0000_0000_0000;
    }
    XorBelow(s, b, 64);
  }

  /** For one byte, distinct states stay distinct. */
  lemma StepInjectiveInState(s: u64, t: u64, b: byte)
    requires Step(s, b) == Step(t, b)
    ensures s == t
  {
    StateFits(s, b);
    StateFits(t, b);
    TimesPrimeInjective(Xor(s, b), Xor(t, b));
    XorUndoes(s, b);
    XorUndoes(t, b);
  }

  /** From one state, distinct bytes give distinct states. */
  lemma StepInjectiveInByte(s: u64, b: byte, c: byte)
    requires Step(s, b) == Step(s, c)
    ensures b == c
  {
    StateFits(s, b);
    StateFits(s, c);
    TimesPrimeInjective(Xor(s, b), Xor(s, c));
    XorSymmetric(s, b);
    XorSymmetric(s, c);
    XorUndoes(b, s);
    XorUndoes(c, s);
  }

  lemma {:induction false} FoldInjective(s: u64, t: u64, bytes: Str)
    requires Fold(s, bytes) == Fold(t, bytes)
    ensures s == t
  {
    if bytes == [] {
    } else {
      var init, last := bytes[..|bytes| - 1], bytes[|bytes| - 1];
      StepInjectiveInState(Fold(s, init), Fold(t, init), last);
      FoldInjective(s, t, init);
    }
  }

  /** Two inputs that differ in exactly one byte never hash alike. */
  lemma OneByteMatters(s: u64, before: Str, b: byte, c: byte, after: Str)
    requires b != c
    ensures Fold(s, before + [b] + after) != Fold(s, before + [c] + after)
  {
    FoldConcat(s, before + [b], after);
    FoldConcat(s, before + [c], after);
    FoldConcat(s, before, [b]);
    FoldConcat(s, before, [c]);
    var t := Fold(s, before);
    assert Fold(t, [b]) == Step(t, b) && Fold(t, [c]) == Step(t, c) by {
      assert [b][..0] == [] && [c][..0] == [];
    }
    if Fold(s, before + [b] + after) == Fold(s, before + [c] + after) {
      FoldInjective(Step(t, b), Step(t, c), after);
      StepInjectiveInByte(t, b, c);
    }
  }

  /** From each state to the next: the byte is mixed in first, then the product is cut to 64 bits. */
  lemma {:induction false} FoldSteps(s: u64, bytes: Str) returns (states: seq<u64>)
    ensures |states| == |bytes| + 1 && states[0] == s && states[|bytes|] == Fold(s, bytes)
    ensures forall i :: 0 <= i < |bytes| ==>
      states[i + 1] == (Xor(states[i], bytes[i]) * 0x100_0000_01b3) % 0x1_0000_0000_0000_0000
  {
    if bytes == [] {
      states := [s];
    } else {
      hide Xor;
      states := FoldSteps(s, bytes[..|bytes| - 1]);
      states := states + [Fold(s, bytes)];
    }
  }

  lemma FirstMix()
    ensures Xor(0xcbf2_9ce4_8422_2325, 97) == 0xcbf2_9ce4_8422_2344
  {
    hide *;
    XorStep(0xcbf2_9ce4_8422_2325, 97);
    XorStep(0x65f9_4e72_4211_1192, 48);
    XorStep(0x32fc_a739_2108_88c9, 24);
    XorStep(0x197e_539c_9084_4464, 12);
    XorStep(0xcbf_29ce_4842_2232, 6);
    XorStep(0x65f_94e7_2421_1119, 3);
    XorStep(0x32f_ca73_9210_888c, 1);
    XorZero(0x197_e539_c908_4446);
  }

  lemma FirstProduct()
    ensures (0xcbf2_9ce4_8422_2344 * 0x100_0000_01b3) % 0x1_0000_0000_0000_0000 == 0xaf63_dc4c_8601_ec8c
  {
  }

  lemma FoldOne(s: u64, b: byte)
    ensures Fold(s, []) == s && Fold(s, [b]) == (Xor(s, b) * 0x100_0000_01b3) % 0x1_0000_0000_0000_0000
  {
    hide Xor;
    assert [b][..0] == [];
  }

  /** The published 64-bit values of the empty text and of "a". */
  lemma KnownValues()
    ensures Fold(OFFSET, []) == 0xcbf2_9ce4_8422_2325
    ensures Fold(OFFSET, [97]) == 0xaf63_dc4c_8601_ec8c
  {
    hide Xor, Fold;
    FoldOne(OFFSET, 97);
    FirstMix();
    FirstProduct();
  }
}
