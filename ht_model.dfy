/** The table as a value: its configuration, its bucket chains, its entry
    counter and the record of destructor calls, with one transition function
    per operation. The class in HtTable is proved to follow these functions;
    the lemmas in HtProperties are stated about them. */
module HtModel {
  import opened HtApi
  import opened SpookyContract
  import opened HtHash
  import opened HtKeys

  /** One stored association (`ht_entry_t`); the key length is `|key|`. */
  datatype Entry = Entry(key: Bytes, value: Handle, valueLength: nat)

  /** A call the table makes into a caller-supplied destructor. */
  datatype Event =
    | ValueDestroyed(fn: Callback, value: Handle, extra: Handle)
    | ExtraDestroyed(fn: Callback, extra: Handle)

  /** What `ht_create_full` fixes for the table's lifetime, together with the
      hash library it is linked against. */
  datatype Config = Config(
    spooky: Spooky,
    hashSize: HashSize,
    seed: Seed,
    extra: Handle,
    destroyValue: Callback,
    destroyExtra: Callback)

  /** What the operations change: the bucket chains (whose number is the
      table length), `num_of_entries`, and the destructor calls made so far. */
  datatype State = State(buckets: seq<seq<Entry>>, count: nat, log: seq<Event>)

  /** The optional prefix argument of the `_with_prefix` operations, read as
      its bytes and its hash state. */
  datatype PrefixArg = NoPrefix | WithPrefix(bytes: Bytes, state: SpookyState)

  datatype Outcome = Outcome(state: State, status: Status)

  datatype Visit = Visit(value: Handle, valueLength: nat, key: Bytes, keyLength: nat, index: nat)

  function PrefixState(p: PrefixArg): Option<SpookyState>
  {
    if p.NoPrefix? then None else Some(p.state)
  }

  /** The key `ht_add_with_prefix` stores: the prefix bytes, then the key. */
  function StoredKey(key: Bytes, p: PrefixArg): (r: Bytes)
  {
    if p.NoPrefix? then key else p.bytes + key
  }

  /** The bucket an operation on `key` with prefix `p` works in. */
  function BucketOf(c: Config, s: State, key: Bytes, p: PrefixArg): (i: nat)
    requires |s.buckets| > 0
    ensures i < |s.buckets|
  {
    Bucket(c.spooky, c.hashSize, c.seed, |s.buckets|, key, PrefixState(p))
  }

  /** The position `ht_v_find` stops at: the first entry of the chain whose
      key matches `key`, if any. */
  function FirstMatch(chain: seq<Entry>, key: Bytes): (r: Option<nat>)
    ensures r.Some? ==> r.value < |chain| && KeysMatch(chain[r.value].key, key)
    ensures r.Some? ==> forall j :: 0 <= j < r.value ==> !KeysMatch(chain[j].key, key)
    ensures r.None? ==> forall j :: 0 <= j < |chain| ==> !KeysMatch(chain[j].key, key)
  {
    if chain == [] then None
    else if KeysMatch(chain[0].key, key) then Some(0)
    else match FirstMatch(chain[1..], key)
      case None => None
      case Some(j) => Some(j + 1)
  }

  /** The entry `ht_v_find` returns from a chain. */
  function Find(chain: seq<Entry>, key: Bytes): (r: Option<Entry>)
  {
    match FirstMatch(chain, key)
    case None => None
    case Some(j) => Some(chain[j])
  }

  /** The entry a lookup of `key` with prefix `p` finds: the key is hashed
      with the prefix state but compared without the prefix bytes. */
  function Lookup(c: Config, s: State, key: Bytes, p: PrefixArg): Option<Entry>
    requires |s.buckets| > 0
  {
    Find(s.buckets[BucketOf(c, s, key, p)], key)
  }

  /** Every entry, bucket after bucket and each chain from head to tail. */
  function Flatten(bs: seq<seq<Entry>>): seq<Entry>
  {
    if bs == [] then [] else Flatten(bs[..|bs| - 1]) + bs[|bs| - 1]
  }

  function EmptyBuckets(n: nat): (bs: seq<seq<Entry>>)
    ensures |bs| == n && forall i :: 0 <= i < n ==> bs[i] == []
  {
    seq(n, _ => [])
  }

  /** No two of the entries have matching keys. */
  predicate KeysDistinct(chain: seq<Entry>)
  {
    forall j, k :: 0 <= j < k < |chain| ==> !KeysMatch(chain[j].key, chain[k].key)
  }

  /** Every value among the entries is a non-null pointer. */
  predicate ValuesSet(chain: seq<Entry>)
  {
    forall j :: 0 <= j < |chain| ==> chain[j].value != Null
  }

  /** A destructor call is made through a non-null function on a non-null
      pointer. */
  predicate CallValid(ev: Event)
  {
    && ev.fn != NoCallback
    && match ev
       case ValueDestroyed(_, value, _) => value != Null
       case ExtraDestroyed(_, extra) => extra != Null
  }

  predicate CallsValid(log: seq<Event>)
  {
    forall i :: 0 <= i < |log| ==> CallValid(log[i])
  }

  /** What every operation preserves: the table has a bucket, the counter is
      never below the number of reachable entries, no chain holds two matching
      keys, no stored value is null, and no destructor call so far went
      through a null function or was given a null pointer. */
  predicate Inv(s: State)
  {
    && |s.buckets| > 0
    && s.count >= |Flatten(s.buckets)|
    && (forall i :: 0 <= i < |s.buckets| ==> KeysDistinct(s.buckets[i]))
    && (forall i :: 0 <= i < |s.buckets| ==> ValuesSet(s.buckets[i]))
    && CallsValid(s.log)
  }

  /** The calls `ht_v_destroy` makes when it releases `e`: the value
      destructor, when there is one and the value is not null. */
  function DestroyEvents(c: Config, e: Entry): (r: seq<Event>)
  {
    if e.value != Null && c.destroyValue != NoCallback then [ValueDestroyed(c.destroyValue, e.value, c.extra)] else []
  }

  function DestroyAllEvents(c: Config, es: seq<Entry>): seq<Event>
  {
    if es == [] then [] else DestroyAllEvents(c, es[..|es| - 1]) + DestroyEvents(c, es[|es| - 1])
  }

  /** `ht_create_full`: no table for length 0, otherwise `length` empty buckets. */
  function Create(length: nat): Option<State>
  {
    if length == 0 then None else Some(State(EmptyBuckets(length), 0, []))
  }

  /** `ht_add_with_prefix`. */
  function Add(c: Config, s: State, value: Handle, valueLength: nat, key: Option<Bytes>, p: PrefixArg): (o: Outcome)
    requires |s.buckets| > 0
  {
    if key.None? then Outcome(s, NullKey)
    else if value == Null then Outcome(s, NullValue)
    else
      var i := BucketOf(c, s, key.value, p);
      var stored := StoredKey(key.value, p);
      if FirstMatch(s.buckets[i], stored).Some? then Outcome(s, KeyAlreadyInUse)
      else Outcome(Link(s, i, Entry(stored, value, valueLength)), Success)
  }

  /** `ht_v_append` of a new entry to chain `i`, with the increment of the
      counter that goes with it. */
  function Link(s: State, i: nat, e: Entry): State
    requires i < |s.buckets|
  {
    s.(buckets := s.buckets[i := s.buckets[i] + [e]], count := s.count + 1)
  }

  /** The in-place overwrite shared by the two update operations. */
  function Overwrite(s: State, i: nat, j: nat, value: Handle, valueLength: nat): State
    requires i < |s.buckets| && j < |s.buckets[i]|
  {
    var b := s.buckets[i][j := s.buckets[i][j].(value := value, valueLength := valueLength)];
    s.(buckets := s.buckets[i := b])
  }

  /** `ht_update_with_prefix`: overwrite a matching entry, or append one
      whose key is the raw key. */
  function Update(c: Config, s: State, value: Handle, valueLength: nat, key: Option<Bytes>, p: PrefixArg): (o: Outcome)
    requires |s.buckets| > 0
  {
    if key.None? then Outcome(s, NullKey)
    else if value == Null then Outcome(s, NullValue)
    else
      var i := BucketOf(c, s, key.value, p);
      match FirstMatch(s.buckets[i], key.value)
      case Some(j) => Outcome(Overwrite(s, i, j, value, valueLength), Success)
      case None => Outcome(Link(s, i, Entry(key.value, value, valueLength)), Success)
  }

  /** `ht_update_strict_with_prefix`: overwrite a matching entry, never insert. */
  function UpdateStrict(c: Config, s: State, value: Handle, valueLength: nat, key: Option<Bytes>, p: PrefixArg): (o: Outcome)
    requires |s.buckets| > 0
  {
    if key.None? then Outcome(s, NullKey)
    else if value == Null then Outcome(s, NullValue)
    else
      var i := BucketOf(c, s, key.value, p);
      match FirstMatch(s.buckets[i], key.value)
      case Some(j) => Outcome(Overwrite(s, i, j, value, valueLength), Success)
      case None => Outcome(s, KeyNotInUse)
  }

  /** The length of a chain is at most the number of all entries. */
  lemma {:induction false} FlattenCoversBucket(bs: seq<seq<Entry>>, i: nat)
    requires i < |bs|
    ensures |Flatten(bs)| >= |bs[i]|
    decreases |bs|
  {
    if i < |bs| - 1 {
      FlattenCoversBucket(bs[..|bs| - 1], i);
    }
  }

  /** The removal of entry `j` of chain `i`: at the head the whole chain is
      dropped, elsewhere the entry alone is unlinked; the entry is released
      and the counter decremented. */
  function Unlink(c: Config, s: State, i: nat, j: nat): State
    requires i < |s.buckets| && j < |s.buckets[i]| && s.count >= |Flatten(s.buckets)|
  {
    FlattenCoversBucket(s.buckets, i);
    var b := s.buckets[i];
    var b' := if j == 0 then [] else b[..j] + b[j + 1..];
    State(s.buckets[i := b'], s.count - 1, s.log + DestroyEvents(c, b[j]))
  }

  /** `ht_remove_with_prefix`. */
  function Remove(c: Config, s: State, key: Option<Bytes>, p: PrefixArg): (o: Outcome)
    requires |s.buckets| > 0 && s.count >= |Flatten(s.buckets)|
  {
    if key.None? then Outcome(s, NullKey)
    else
      var i := BucketOf(c, s, key.value, p);
      match FirstMatch(s.buckets[i], key.value)
      case None => Outcome(s, KeyNotInUse)
      case Some(j) => Outcome(Unlink(c, s, i, j), Success)
  }

  /** `ht_clear_table`: every entry released, every bucket empty, counter 0. */
  function Clear(c: Config, s: State): State
  {
    State(EmptyBuckets(|s.buckets|), 0, s.log + DestroyAllEvents(c, Flatten(s.buckets)))
  }

  /** One step of `ht_resize_table`: `ht_add` of the old entry without a prefix,
      whatever its outcome, then `ht_v_destroy` of the old entry. */
  function Migrate(c: Config, s: State, e: Entry): (r: State)
    requires |s.buckets| > 0
    ensures |r.buckets| == |s.buckets|
  {
    var added := Add(c, s, e.value, e.valueLength, Some(e.key), NoPrefix).state;
    added.(log := added.log + DestroyEvents(c, e))
  }

  function MigrateAll(c: Config, s: State, es: seq<Entry>): (r: State)
    requires |s.buckets| > 0
    ensures |r.buckets| == |s.buckets|
  {
    if es == [] then s else Migrate(c, MigrateAll(c, s, es[..|es| - 1]), es[|es| - 1])
  }

  /** `ht_resize_table`: a new array of `length` empty buckets, the counter kept
      as it was, then every old entry migrated in bucket-then-chain order. */
  function Resize(c: Config, s: State, length: nat): (r: State)
    requires length > 0
    ensures |r.buckets| == length
  {
    MigrateAll(c, State(EmptyBuckets(length), s.count, s.log), Flatten(s.buckets))
  }

  function ChainVisits(chain: seq<Entry>, index: nat): seq<Visit>
  {
    seq(|chain|, j requires 0 <= j < |chain| => Visit(chain[j].value, chain[j].valueLength, chain[j].key, |chain[j].key|, index))
  }

  /** The calls `ht_iterate` makes on its visitor, in order. */
  function Visits(bs: seq<seq<Entry>>): seq<Visit>
  {
    if bs == [] then [] else Visits(bs[..|bs| - 1]) + ChainVisits(bs[|bs| - 1], |bs| - 1)
  }

  /** `ht_destroy`: the table cleared, then the context destructor called when
      both it and the context are set. */
  function Destroy(c: Config, s: State): State
  {
    var cleared := Clear(c, s);
    if c.extra != Null && c.destroyExtra != NoCallback
    then cleared.(log := cleared.log + [ExtraDestroyed(c.destroyExtra, c.extra)])
    else cleared
  }
}
