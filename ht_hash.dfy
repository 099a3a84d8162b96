/** Hash abstraction: `ht_hash` (digest of a key at the
    table's width, continuing from a prefix state when one is given) and
    `ht_index` (digest to bucket). */
module HtHash {
  import opened HtApi
  import opened SpookyContract
  import opened Words
  import opened HtDiffuse

  /** The digest union `ht_hash_t`, tagged by the member `ht_hash` writes. */
  datatype Digest = D32(h32: Word32) | D64(h64: Word64) | D128(h1: Word64, h2: Word64)

  /** The member of the union each width writes and `ht_index` reads. */
  predicate DigestFits(size: HashSize, d: Digest)
  {
    match size
    case HashSize32 | HashSize64Diffuse32 | HashSize128Diffuse32 => d.D32?
    case HashSize64 | HashSize128Diffuse64 => d.D64?
    case HashSize128 => d.D128?
  }

  /** The two words of `final` applied to a clone of the prefix state after it
      absorbed the key: the prefix path of `ht_hash`, which ignores the seed. */
  function Continue(h: Spooky, prefix: SpookyState, key: Bytes): (Word64, Word64)
  {
    h.final(Absorb(prefix, key))
  }

  /** `ht_hash`: the digest of `key` at width `size`, from the table's seed when
      `prefix` is None, else continuing from the prefix state. */
  function Hash(h: Spooky, size: HashSize, seed: Seed, key: Bytes, prefix: Option<SpookyState>): (d: Digest)
    ensures DigestFits(size, d)
  {
    match size
    case HashSize32 =>
      if prefix.None? then D32(h.hash32(key, seed.S32()))
      else D32(Continue(h, prefix.value, key).0.lo)
    case HashSize64 =>
      if prefix.None? then D64(h.hash64(key, seed.S64()))
      else D64(Continue(h, prefix.value, key).0)
    case HashSize64Diffuse32 =>
      var w := if prefix.None? then h.hash64(key, seed.S64()) else Continue(h, prefix.value, key).0;
      D32(Diffuse64To32(w))
    case HashSize128 =>
      var (w1, w2) := if prefix.None? then h.hash128(key, seed.w0, seed.w1) else Continue(h, prefix.value, key);
      D128(w1, w2)
    case HashSize128Diffuse64 =>
      var (w1, w2) := if prefix.None? then h.hash128(key, seed.w0, seed.w1) else Continue(h, prefix.value, key);
      D64(Diffuse128To64(w1, w2))
    case HashSize128Diffuse32 =>
      var (w1, w2) := if prefix.None? then h.hash128(key, seed.w0, seed.w1) else Continue(h, prefix.value, key);
      D32(Diffuse128To32(w1, w2))
  }

  /** `ht_index`: the digest member selected by the width, reduced modulo the
      table length; the undiffused 128-bit width uses the second word. */
  function Index(size: HashSize, length: nat, d: Digest): (i: nat)
    requires length > 0 && DigestFits(size, d)
    ensures i < length
  {
    match size
    case HashSize32 | HashSize64Diffuse32 | HashSize128Diffuse32 => d.h32 % length
    case HashSize64 | HashSize128Diffuse64 => d.h64.Value() % length
    case HashSize128 => d.h2.Value() % length
  }

  /** Without diffusion the 128-bit digest is indexed by its second word alone:
      digests that share it share a bucket, whatever their first word. */
  lemma Index128UsesSecondWord(length: nat, a1: Word64, a2: Word64, b: Word64)
    requires length > 0
    ensures Index(HashSize128, length, D128(a1, b)) == Index(HashSize128, length, D128(a2, b))
  {
  }

  /** The bucket a key hashes to: `ht_index(ht, ht_hash(ht, key, prefix))`. */
  function Bucket(h: Spooky, size: HashSize, seed: Seed, length: nat, key: Bytes, prefix: Option<SpookyState>): (i: nat)
    requires length > 0
    ensures i < length
  {
    Index(size, length, Hash(h, size, seed, key, prefix))
  }

  /** With a prefix state, the bucket depends only on what the state has
      absorbed followed by the key: hashing `key` from a state that absorbed `a`
      lands where hashing `b + key` from a state that absorbed `a` minus `b`
      would, whatever the table's seed. */
  lemma {:induction false} BucketOfPrefixIsBucketOfConcatenation(
    h: Spooky, size: HashSize, seed1: Seed, seed2: Seed, length: nat,
    st: SpookyState, b: Bytes, key: Bytes)
    requires length > 0
    ensures Bucket(h, size, seed1, length, key, Some(Absorb(st, b)))
         == Bucket(h, size, seed2, length, b + key, Some(st))
  {
    AbsorbTwice(st, b, key);
  }
}
