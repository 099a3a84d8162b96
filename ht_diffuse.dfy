/** The XOR folds that narrow a wide digest to the index width of the table. */
module HtDiffuse {
  import opened Words

  /** `diffuse64_32`: the two 32-bit halves XORed together; the fold is
      zero exactly when the halves are equal. */
  function Diffuse64To32(h: Word64): (r: Word32)
    ensures r == 0 <==> h.lo == h.hi
  {
    XorZeroIff(h.lo, h.hi);
    Xor32(h.lo, h.hi)
  }

  /** `diffuse128_64`: the two 64-bit words XORed together; the fold is zero
      exactly when the words are equal. */
  function Diffuse128To64(h1: Word64, h2: Word64): (r: Word64)
    ensures r == Word64(0, 0) <==> h1 == h2
  {
    XorZeroIff(h1.lo, h2.lo);
    XorZeroIff(h1.hi, h2.hi);
    Xor64(h1, h2)
  }

  /** `diffuse128_32`: each word folded to 32 bits, then the two folds
      XORed; the result is zero exactly when the two folds agree. */
  function Diffuse128To32(h1: Word64, h2: Word64): (r: Word32)
    ensures r == 0 <==> Diffuse64To32(h1) == Diffuse64To32(h2)
  {
    XorZeroIff(Diffuse64To32(h1), Diffuse64To32(h2));
    Xor32(Diffuse64To32(h1), Diffuse64To32(h2))
  }

  /** The fold does not depend on which half is read first, so the byte order
      behind the pointer cast that splits the word does not matter. */
  lemma Diffuse64To32IgnoresHalfOrder(h: Word64)
    ensures Diffuse64To32(Word64(h.hi, h.lo)) == Diffuse64To32(h)
  {
    XorCommutes(h.lo, h.hi);
  }

  /** Folding 128 -> 32 directly equals folding 128 -> 64 and then 64 -> 32. */
  lemma DiffuseFoldsAgree(h1: Word64, h2: Word64)
    ensures Diffuse128To32(h1, h2) == Diffuse64To32(Diffuse128To64(h1, h2))
  {
    XorInterchange(h1.lo, h1.hi, h2.lo, h2.hi);
  }

  /** Neither 128-bit fold depends on the order of the two words. */
  lemma DiffuseWordOrder(h1: Word64, h2: Word64)
    ensures Diffuse128To64(h1, h2) == Diffuse128To64(h2, h1)
    ensures Diffuse128To32(h1, h2) == Diffuse128To32(h2, h1)
  {
    XorCommutes(h1.lo, h2.lo);
    XorCommutes(h1.hi, h2.hi);
    XorCommutes(Diffuse64To32(h1), Diffuse64To32(h2));
  }

  /** Equal halves cancel: a word whose halves agree folds to zero, and the
      two 128-bit folds of a repeated word are zero. */
  lemma {:induction false} DiffuseCancels(h: Word64, w: Word32)
    ensures Diffuse64To32(Word64(w, w)) == 0
    ensures Diffuse128To64(h, h) == Word64(0, 0)
    ensures Diffuse128To32(h, h) == 0
  {
    XorSelf(w);
    XorSelf(h.lo);
    XorSelf(h.hi);
    XorSelf(Diffuse64To32(h));
  }
}
