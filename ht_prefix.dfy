/** Prefix lifecycle: a prefix holds its own copy of some leading key bytes
    and a hash state that has absorbed exactly those bytes, so that hashing a
    key "after" the prefix costs only the key's own bytes. */
module HtPrefix {
  import opened HtApi
  import opened Words
  import opened SpookyContract

  /** The state `ht_create_prefix` starts from: `spookyhash_init(h, 0, 0)`. */
  function InitialState(): (st: SpookyState)
    ensures st.absorbed == []
  {
    Init(Word64(0, 0), Word64(0, 0))
  }

  /** The prefix invariant: the state started from the seed-0 init and has
      absorbed exactly the prefix bytes. */
  ghost predicate Absorbs(bytes: Bytes, state: SpookyState)
  {
    state == Absorb(InitialState(), bytes)
  }

  class Prefix {
    var bytes: Bytes
    var state: SpookyState

    ghost predicate Valid()
      reads this
    {
      Absorbs(bytes, state)
    }

    /** `ht_create_prefix`: copies the bytes and absorbs them into a fresh
        seed-0 state. */
    constructor (keyPrefix: Bytes)
      ensures bytes == keyPrefix && state.absorbed == keyPrefix
      ensures Valid()
    {
      var h := InitialState();
      h := Absorb(h, keyPrefix);
      bytes := keyPrefix;
      state := h;
    }

    /** A prefix made of copies of the given bytes and state. */
    constructor Copy(bytes: Bytes, state: SpookyState)
      ensures this.bytes == bytes && this.state == state
    {
      this.bytes := bytes;
      this.state := state;
    }

    /** `ht_clone_prefix`: a new prefix with equal bytes and an equal state,
        sharing nothing with this one. */
    method Clone() returns (p: Prefix)
      ensures fresh(p)
      ensures p.bytes == bytes && p.state == state
      ensures Valid() ==> p.Valid()
    {
      p := new Prefix.Copy(bytes, state);
    }

    /** `ht_append_prefix`: clones this prefix, then absorbs the appendage into
        the clone's state and appends it to the clone's bytes. This prefix is
        left as it was. */
    method Append(appendage: Bytes) returns (p: Prefix)
      ensures fresh(p)
      ensures p.bytes == bytes + appendage
      ensures p.state == Absorb(state, appendage)
      ensures Valid() ==> p.Valid()
    {
      p := Clone();
      p.state := Absorb(p.state, appendage);
      p.bytes := p.bytes + appendage;
      if Valid() {
        AbsorbTwice(InitialState(), bytes, appendage);
      }
    }
  }

  /** `ht_destroy_prefix`: refuses the null pointer; releasing the bytes and
      the state is not modelled. */
  method DestroyPrefix(prefix: Prefix?) returns (status: Status)
    ensures status == Success <==> prefix != null
    ensures prefix == null ==> status == NullPrefix
  {
    if prefix == null {
      return NullPrefix;
    }
    status := Success;
  }

  /** `ht_prefix_key`: a copy of the accumulated prefix bytes and their length;
      the null pointer is refused. */
  method PrefixKey(prefix: Prefix?) returns (status: Status, key: Bytes, length: nat)
    ensures prefix == null ==> status == NullPrefix && key == [] && length == 0
    ensures prefix != null ==> status == Success && key == prefix.bytes && length == |key|
  {
    if prefix == null {
      return NullPrefix, [], 0;
    }
    key := prefix.bytes;
    length := |key|;
    status := Success;
  }

  /** A valid prefix extended by `a` absorbs what a prefix created from the
      concatenated bytes absorbs: appending is the same as creating anew. */
  lemma AppendedStateIsCreatedState(bytes: Bytes, a: Bytes)
    ensures Absorbs(bytes + a, Absorb(Absorb(InitialState(), bytes), a))
  {
    AbsorbTwice(InitialState(), bytes, a);
  }
}
