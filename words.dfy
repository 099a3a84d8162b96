/** Unsigned machine words. A 32-bit word is a natural below 2^32, a 64-bit
    word is kept as its two 32-bit halves, and XOR is the bitwise operation
    defined one bit at a time. */
module Words {

  const Two32: nat := 0x1_0000_0000

  type Word32 = x: nat | x < Two32

  /** An unsigned 64-bit word as its low and high 32-bit halves. */
  datatype Word64 = Word64(lo: Word32, hi: Word32) {
    /** The word's unsigned value. */
    function Value(): (n: nat)
      ensures n < Two32 * Two32
    {
      lo + Two32 * hi
    }
  }

  /** The XOR of the lowest bits of `a` and `b`. */
  function Bit(a: nat, b: nat): nat
  {
    if a % 2 == b % 2 then 0 else 1
  }

  /** Bitwise exclusive or of two naturals: the lowest bits are XORed, then the rest. */
  function Xor(a: nat, b: nat): nat
    decreases a + b
  {
    if a == 0 && b == 0 then 0 else Bit(a, b) + 2 * Xor(a / 2, b / 2)
  }

  function Pow2(n: nat): (p: nat)
    ensures p > 0
  {
    if n == 0 then 1 else 2 * Pow2(n - 1)
  }

  lemma HalveTwice(r: nat, q: nat)
    requires r < 2
    ensures (r + 2 * q) % 2 == r && (r + 2 * q) / 2 == q
  {
  }

  /** The recursion of `Xor` read as an equation that also holds at zero,
      splitting the result into its lowest bit and the rest. */
  lemma {:induction false} XorUnfold(a: nat, b: nat)
    ensures Xor(a, b) == Bit(a, b) + 2 * Xor(a / 2, b / 2)
    ensures Xor(a, b) % 2 == Bit(a, b) && Xor(a, b) / 2 == Xor(a / 2, b / 2)
  {
    if a == 0 && b == 0 {
      assert Xor(a / 2, b / 2) == 0;
    }
    HalveTwice(Bit(a, b), Xor(a / 2, b / 2));
  }

  /** XOR of two n-bit numbers is an n-bit number. */
  lemma {:induction false} XorBound(a: nat, b: nat, n: nat)
    requires a < Pow2(n) && b < Pow2(n)
    ensures Xor(a, b) < Pow2(n)
    decreases n
  {
    if n > 0 {
      XorBound(a / 2, b / 2, n - 1);
      XorUnfold(a, b);
    } else {
      assert a == 0 && b == 0;
    }
  }

  lemma {:induction false} Pow2Add(m: nat, n: nat)
    ensures Pow2(m + n) == Pow2(m) * Pow2(n)
    decreases m
  {
    if m > 0 {
      Pow2Add(m - 1, n);
    }
  }

  lemma Pow2Of32()
    ensures Pow2(32) == Two32
  {
    assert Pow2(8) == 256;
    Pow2Add(8, 8);
    Pow2Add(16, 16);
  }

  /** The XOR of two 32-bit words, which is again a 32-bit word. */
  function Xor32(a: Word32, b: Word32): (r: Word32)
  {
    Pow2Of32();
    XorBound(a, b, 32);
    Xor(a, b)
  }

  function Xor64(a: Word64, b: Word64): Word64
  {
    Word64(Xor32(a.lo, b.lo), Xor32(a.hi, b.hi))
  }

  lemma {:induction false} XorCommutes(a: nat, b: nat)
    ensures Xor(a, b) == Xor(b, a)
    decreases a + b
  {
    if a != 0 || b != 0 {
      XorCommutes(a / 2, b / 2);
    }
  }

  lemma {:induction false} XorAssociates(a: nat, b: nat, c: nat)
    ensures Xor(Xor(a, b), c) == Xor(a, Xor(b, c))
    decreases a + b + c
  {
    if a != 0 || b != 0 || c != 0 {
      var x, y := Xor(a, b), Xor(b, c);
      XorUnfold(a, b);
      XorUnfold(b, c);
      XorUnfold(x, c);
      XorUnfold(a, y);
      XorAssociates(a / 2, b / 2, c / 2);
      assert x / 2 == Xor(a / 2, b / 2) && y / 2 == Xor(b / 2, c / 2);
      assert Bit(x, c) == Bit(a, y);
    }
  }

  lemma {:induction false} XorSelf(a: nat)
    ensures Xor(a, a) == 0
    decreases a
  {
    if a != 0 {
      XorSelf(a / 2);
    }
  }

  /** XOR is zero exactly on equal arguments. */
  lemma {:induction false} XorZeroIff(a: nat, b: nat)
    ensures Xor(a, b) == 0 <==> a == b
    decreases a + b
  {
    if a == b {
      XorSelf(a);
    } else if a != 0 || b != 0 {
      XorUnfold(a, b);
      XorZeroIff(a / 2, b / 2);
    }
  }

  /** Regrouping four XORed words: the identity behind the agreement of the folds. */
  lemma XorInterchange(a: nat, b: nat, c: nat, d: nat)
    ensures Xor(Xor(a, b), Xor(c, d)) == Xor(Xor(a, c), Xor(b, d))
  {
    calc {
      Xor(Xor(a, b), Xor(c, d));
      { XorAssociates(a, b, Xor(c, d)); }
      Xor(a, Xor(b, Xor(c, d)));
      { XorAssociates(b, c, d); }
      Xor(a, Xor(Xor(b, c), d));
      { XorCommutes(b, c); }
      Xor(a, Xor(Xor(c, b), d));
      { XorAssociates(c, b, d); }
      Xor(a, Xor(c, Xor(b, d)));
      { XorAssociates(a, c, Xor(b, d)); }
      Xor(Xor(a, c), Xor(b, d));
    }
  }
}
