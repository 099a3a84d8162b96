/** The contract of the external SpookyHash library, which the table only
    composes. Its mixing is not modelled: the four hash entry points are
    arbitrary functions supplied with the table, and an incremental state is
    described by the seeds it was initialised with and the bytes it has
    absorbed so far. */
module SpookyContract {
  import opened Words

  newtype Byte = x: int | 0 <= x < 256
  type Bytes = seq<Byte>

  /** An incremental hash state: the seed pair given to `spookyhash_init`
      and every byte passed to `spookyhash_update` since. */
  datatype SpookyState = SpookyState(seed1: Word64, seed2: Word64, absorbed: Bytes)

  /** `spookyhash_init(state, seed1, seed2)`: nothing absorbed yet. */
  function Init(seed1: Word64, seed2: Word64): (st: SpookyState)
    ensures st.absorbed == [] && st.seed1 == seed1 && st.seed2 == seed2
  {
    SpookyState(seed1, seed2, [])
  }

  /** `spookyhash_update(state, bytes, n)`: the state has absorbed `bytes` after
      what it held before, and keeps its seeds. */
  function Absorb(st: SpookyState, bytes: Bytes): (r: SpookyState)
    ensures r.seed1 == st.seed1 && r.seed2 == st.seed2
    ensures |r.absorbed| == |st.absorbed| + |bytes|
    ensures r.absorbed[..|st.absorbed|] == st.absorbed && r.absorbed[|st.absorbed|..] == bytes
  {
    st.(absorbed := st.absorbed + bytes)
  }

  /** Absorbing in two steps is absorbing the concatenation in one: what makes
      a cloned prefix state a valid continuation point. */
  lemma AbsorbTwice(st: SpookyState, a: Bytes, b: Bytes)
    ensures Absorb(Absorb(st, a), b) == Absorb(st, a + b)
  {
    assert st.absorbed + a + b == st.absorbed + (a + b);
  }

  /** The library's entry points: one-shot hashes at the three widths and the
      finalisation of an incremental state to its two 64-bit words. */
  datatype Spooky = Spooky(
    hash32: (Bytes, Word32) -> Word32,
    hash64: (Bytes, Word64) -> Word64,
    hash128: (Bytes, Word64, Word64) -> (Word64, Word64),
    final: SpookyState -> (Word64, Word64))
}
