/** The public vocabulary of the table library: hash-width selectors,
    status codes, seed material and the function pointers a caller hands
    to the table (destructors and the iteration visitor). */
module HtApi {
  import opened Words

  datatype Option<T> = None | Some(value: T)

  /** The six hash-width selectors; `Selector` gives the integer the C enum uses. */
  datatype HashSize =
    | HashSize32
    | HashSize64
    | HashSize64Diffuse32
    | HashSize128
    | HashSize128Diffuse64
    | HashSize128Diffuse32

  function Selector(h: HashSize): (n: int)
    ensures n in {32, 64, 65, 128, 129, 130}
  {
    match h
    case HashSize32 => 32
    case HashSize64 => 64
    case HashSize64Diffuse32 => 65
    case HashSize128 => 128
    case HashSize128Diffuse64 => 129
    case HashSize128Diffuse32 => 130
  }

  /** Reads an integer back as a selector; only the six enum values are accepted. */
  function SelectorOf(n: int): (r: Option<HashSize>)
    ensures r.Some? <==> n in {32, 64, 65, 128, 129, 130}
  {
    if n == 32 then Some(HashSize32)
    else if n == 64 then Some(HashSize64)
    else if n == 65 then Some(HashSize64Diffuse32)
    else if n == 128 then Some(HashSize128)
    else if n == 129 then Some(HashSize128Diffuse64)
    else if n == 130 then Some(HashSize128Diffuse32)
    else None
  }

  /** The selector values and the enum constructors are in one-to-one correspondence. */
  lemma SelectorRoundTrip(h: HashSize, n: int)
    ensures SelectorOf(Selector(h)) == Some(h)
    ensures SelectorOf(n).Some? ==> Selector(SelectorOf(n).value) == n
  {
  }

  /** Status outcomes of the table and prefix operations. */
  datatype Status =
    | Success
    | NullTable
    | NullKey
    | NullValue
    | NullIterator
    | NullPrefix
    | KeyAlreadyInUse
    | KeyNotInUse
    | CannotScaleFixedLengthTable
    | NonpositiveLength

  /** The integer each status has in the C enumeration: success is 0 and the
      others follow in declaration order. */
  function Code(s: Status): (c: int)
    ensures 0 <= c <= 9
    ensures c == 0 <==> s == Success
  {
    match s
    case Success => 0
    case NullTable => 1
    case NullKey => 2
    case NullValue => 3
    case NullIterator => 4
    case NullPrefix => 5
    case KeyAlreadyInUse => 6
    case KeyNotInUse => 7
    case CannotScaleFixedLengthTable => 8
    case NonpositiveLength => 9
  }

  /** Distinct statuses have distinct codes. */
  lemma CodesDistinct(s: Status, t: Status)
    ensures Code(s) == Code(t) ==> s == t
  {
  }

  /** The seed union: `s128` is two 64-bit words, `s64` aliases the first word
      and `s32` its low half (the layout of a little-endian machine). */
  datatype Seed = Seed(w0: Word64, w1: Word64) {
    function S32(): Word32 { w0.lo }
    function S64(): Word64 { w0 }
  }

  /** An opaque value pointer; `Null` is the null pointer. */
  type Handle = nat
  const Null: Handle := 0

  /** A function pointer supplied by the caller, by name: the null pointer,
      the library's own `ht_vacuous_free`, the C library's `free`, or a
      caller-defined function. */
  datatype Callback = NoCallback | VacuousFree | Free | User(id: nat)
}
