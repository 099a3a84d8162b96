/** The table object `ht_t`: an array of bucket chains and an entry counter
    updated in place. Every operation is proved to take the table from one
    model state to the next as the transition functions of HtModel say. The
    public operations (add, update, update_strict, remove, clear and resize)
    are also proved to keep the invariant `Inv`; `Destroy` and the
    single-step helpers are proved only to follow their transitions. */
module HtTable {
  import opened HtApi
  import opened SpookyContract
  import opened HtKeys
  import opened HtHash
  import opened HtModel
  import opened HtPrefix
  import opened HtProperties

  /** The prefix argument as the operations read it; the null pointer is no
      prefix. */
  function ArgOf(prefix: Prefix?): PrefixArg
    reads prefix
  {
    if prefix == null then NoPrefix else WithPrefix(prefix.bytes, prefix.state)
  }

  /** `ht_v_find`: walk a chain from its head and stop at the first entry whose
      key compares equal to `key`. */
  method FindEntry(chain: seq<Entry>, key: Bytes) returns (r: Option<nat>)
    ensures r == FirstMatch(chain, key)
  {
    var j := 0;
    while j < |chain|
      invariant j <= |chain|
      invariant forall m :: 0 <= m < j ==> !KeysMatch(chain[m].key, key)
    {
      if Compare(chain[j].key, key) == 0 {
        return Some(j);
      }
      j := j + 1;
    }
    return None;
  }

  class Table {
    const spooky: Spooky
    const hashSize: HashSize
    const seed: Seed
    const extra: Handle
    const destroyValue: Callback
    const destroyExtra: Callback
    /** The bucket array; its length is the table length. */
    var buckets: array<seq<Entry>>
    /** `num_of_entries`. */
    var numOfEntries: nat
    /** The destructor calls made so far. */
    var log: seq<Event>

    function Configuration(): Config
    {
      Config(spooky, hashSize, seed, extra, destroyValue, destroyExtra)
    }

    function Model(): State
      reads this, buckets
    {
      State(buckets[..], numOfEntries, log)
    }

    ghost predicate Valid()
      reads this, buckets
    {
      Inv(Model())
    }

    /** The part of `ht_create_full` after the length check: `length` empty
        buckets, a zero count, and the other arguments stored as given. */
    constructor Init(length: nat, hashSize: HashSize, seed: Seed, extra: Handle, destroyValue: Callback, destroyExtra: Callback, spooky: Spooky)
      requires length > 0
      ensures Valid() && fresh(buckets)
      ensures Model() == Create(length).value
      ensures this.hashSize == hashSize && this.seed == seed && this.extra == extra
      ensures this.destroyValue == destroyValue && this.destroyExtra == destroyExtra && this.spooky == spooky
    {
      this.hashSize := hashSize;
      this.seed := seed;
      this.extra := extra;
      this.destroyValue := destroyValue;
      this.destroyExtra := destroyExtra;
      this.spooky := spooky;
      var table := new seq<Entry>[length];
      for i := 0 to length
        invariant forall k :: 0 <= k < i ==> table[k] == []
      {
        table[i] := [];
      }
      buckets := table;
      numOfEntries := 0;
      log := [];
      new;
      assert buckets[..] == EmptyBuckets(length);
      FlattenEmptyBuckets(length);
    }

    /** The bucket an operation on `key` under `prefix` works in. */
    method IndexOf(key: Bytes, prefix: Prefix?) returns (index: nat)
      requires buckets.Length > 0
      ensures index == BucketOf(Configuration(), Model(), key, ArgOf(prefix))
    {
      index := Bucket(spooky, hashSize, seed, buckets.Length, key, PrefixState(ArgOf(prefix)));
    }

    /** `ht_add_with_prefix`. */
    method AddWithPrefix(value: Handle, valueLength: nat, key: Option<Bytes>, prefix: Prefix?) returns (status: Status)
      requires Valid()
      modifies this, buckets
      ensures Valid() && buckets == old(buckets)
      ensures var o := HtModel.Add(Configuration(), old(Model()), value, valueLength, key, ArgOf(prefix));
        Model() == o.state && status == o.status
    {
      ghost var s0 := Model();
      if key.None? {
        return NullKey;
      }
      if value == Null {
        return NullValue;
      }
      var index := IndexOf(key.value, prefix);
      var stored := StoredKey(key.value, ArgOf(prefix));
      var found := FindEntry(buckets[index], stored);
      if found.Some? {
        return KeyAlreadyInUse;
      }
      var e := Entry(stored, value, valueLength);
      LinkEntry(index, e);
      LinkPreservesInv(s0, index, e);
      status := Success;
    }

    /** `ht_update_with_prefix`. */
    method UpdateWithPrefix(value: Handle, valueLength: nat, key: Option<Bytes>, prefix: Prefix?) returns (status: Status)
      requires Valid()
      modifies this, buckets
      ensures Valid() && buckets == old(buckets)
      ensures var o := HtModel.Update(Configuration(), old(Model()), value, valueLength, key, ArgOf(prefix));
        Model() == o.state && status == o.status
    {
      ghost var s0 := Model();
      if key.None? {
        return NullKey;
      }
      if value == Null {
        return NullValue;
      }
      var index := IndexOf(key.value, prefix);
      var found := FindEntry(buckets[index], key.value);
      if found.Some? {
        OverwriteEntry(index, found.value, value, valueLength);
        OverwritePreservesInv(s0, index, found.value, value, valueLength);
      } else {
        var e := Entry(key.value, value, valueLength);
        LinkEntry(index, e);
        LinkPreservesInv(s0, index, e);
      }
      status := Success;
    }

    /** `ht_update_strict_with_prefix`. */
    method UpdateStrictWithPrefix(value: Handle, valueLength: nat, key: Option<Bytes>, prefix: Prefix?) returns (status: Status)
      requires Valid()
      modifies this, buckets
      ensures Valid() && buckets == old(buckets)
      ensures var o := HtModel.UpdateStrict(Configuration(), old(Model()), value, valueLength, key, ArgOf(prefix));
        Model() == o.state && status == o.status
    {
      ghost var s0 := Model();
      if key.None? {
        return NullKey;
      }
      if value == Null {
        return NullValue;
      }
      var index := IndexOf(key.value, prefix);
      var found := FindEntry(buckets[index], key.value);
      if found.None? {
        return KeyNotInUse;
      }
      OverwriteEntry(index, found.value, value, valueLength);
      OverwritePreservesInv(s0, index, found.value, value, valueLength);
      status := Success;
    }

    /** `ht_get_with_prefix`. With `withDestination` false (a null
        destination) only the status reports whether the key is in use, and
        the outputs stay null and zero. */
    method GetWithPrefix(key: Option<Bytes>, withDestination: bool, prefix: Prefix?) returns (status: Status, value: Handle, valueLength: nat)
      requires Valid()
      ensures key.None? ==> status == NullKey && value == Null && valueLength == 0
      ensures key.Some? ==>
        var found := Lookup(Configuration(), Model(), key.value, ArgOf(prefix));
        && (status == Success <==> found.Some?)
        && (found.None? ==> status == KeyNotInUse && value == Null && valueLength == 0)
        && (found.Some? && withDestination ==> value == found.value.value && valueLength == found.value.valueLength)
        && (!withDestination ==> value == Null && valueLength == 0)
    {
      value, valueLength := Null, 0;
      if key.None? {
        return NullKey, value, valueLength;
      }
      var index := IndexOf(key.value, prefix);
      var found := FindEntry(buckets[index], key.value);
      if found.None? {
        return KeyNotInUse, value, valueLength;
      }
      if withDestination {
        value := buckets[index][found.value].value;
        valueLength := buckets[index][found.value].valueLength;
      }
      status := Success;
    }

    /** `ht_get_copy_with_prefix`: like the get, but the destination receives
        a new buffer of `valueLength` bytes filled by `strncpy` from the stored
        value, whose bytes `contents` gives. */
    method GetCopyWithPrefix(key: Option<Bytes>, withDestination: bool, prefix: Prefix?, contents: Handle -> Bytes)
      returns (status: Status, copy: Option<Bytes>, valueLength: nat)
      requires Valid()
      ensures key.None? ==> status == NullKey && copy.None? && valueLength == 0
      ensures key.Some? ==>
        var found := Lookup(Configuration(), Model(), key.value, ArgOf(prefix));
        && (status == Success <==> found.Some?)
        && (found.None? ==> status == KeyNotInUse && copy.None? && valueLength == 0)
        && (found.Some? && withDestination ==>
              && copy == Some(Strncpy(contents(found.value.value), found.value.valueLength))
              && valueLength == found.value.valueLength)
        && (!withDestination ==> copy.None? && valueLength == 0)
    {
      copy, valueLength := None, 0;
      if key.None? {
        return NullKey, copy, valueLength;
      }
      var index := IndexOf(key.value, prefix);
      var found := FindEntry(buckets[index], key.value);
      if found.None? {
        return KeyNotInUse, copy, valueLength;
      }
      if withDestination {
        var e := buckets[index][found.value];
        copy := Some(Strncpy(contents(e.value), e.valueLength));
        valueLength := e.valueLength;
      }
      status := Success;
    }

    /** `ht_remove_with_prefix`. */
    method RemoveWithPrefix(key: Option<Bytes>, prefix: Prefix?) returns (status: Status)
      requires Valid()
      modifies this, buckets
      ensures Valid() && buckets == old(buckets)
      ensures var o := HtModel.Remove(Configuration(), old(Model()), key, ArgOf(prefix));
        Model() == o.state && status == o.status
    {
      ghost var s0 := Model();
      if key.None? {
        return NullKey;
      }
      var index := IndexOf(key.value, prefix);
      var found := FindEntry(buckets[index], key.value);
      if found.None? {
        return KeyNotInUse;
      }
      UnlinkEntry(index, found.value);
      UnlinkPreservesInv(Configuration(), s0, index, found.value);
      status := Success;
    }

    /** `ht_v_append` of a new entry to chain `index`, and the increment of
        the counter that follows it in `ht_add_with_prefix` and
        `ht_update_with_prefix`. */
    method LinkEntry(index: nat, e: Entry)
      requires index < buckets.Length
      modifies this, buckets
      ensures buckets == old(buckets)
      ensures Model() == Link(old(Model()), index, e)
    {
      buckets[index] := buckets[index] + [e];
      numOfEntries := numOfEntries + 1;
    }

    /** The overwrite of entry `j` of chain `index` in both update
        operations: the value and its length replaced, the key kept, and the
        old value not released. */
    method OverwriteEntry(index: nat, j: nat, value: Handle, valueLength: nat)
      requires index < buckets.Length && j < |buckets[index]|
      modifies buckets
      ensures Model() == Overwrite(old(Model()), index, j, value, valueLength)
    {
      buckets[index] := buckets[index][j := buckets[index][j].(value := value, valueLength := valueLength)];
    }

    /** The unlinking step of `ht_remove_with_prefix`: a head match drops the
        whole chain, any other match is unlinked alone; then the entry is
        released and the counter decremented. */
    method UnlinkEntry(index: nat, j: nat)
      requires index < buckets.Length && j < |buckets[index]| && numOfEntries >= |Flatten(buckets[..])|
      modifies this, buckets
      ensures buckets == old(buckets)
      ensures Model() == HtModel.Unlink(Configuration(), old(Model()), index, j)
    {
      var chain := buckets[index];
      FlattenCoversBucket(buckets[..], index);
      if j == 0 {
        buckets[index] := [];
      } else {
        buckets[index] := chain[..j] + chain[j + 1..];
      }
      ReleaseEntry(chain[j]);
      numOfEntries := numOfEntries - 1;
    }

    /** `ht_v_destroy`: the entry's value passed to the value destructor,
        when both are set. */
    method ReleaseEntry(e: Entry)
      modifies this
      ensures log == old(log) + DestroyEvents(Configuration(), e)
      ensures buckets == old(buckets) && numOfEntries == old(numOfEntries)
    {
      if e.value != Null && destroyValue != NoCallback {
        log := log + [ValueDestroyed(destroyValue, e.value, extra)];
      }
    }

    /** The walk of one chain from head to tail releasing every entry. */
    method ReleaseChain(chain: seq<Entry>)
      modifies this
      ensures log == old(log) + DestroyAllEvents(Configuration(), chain)
      ensures buckets == old(buckets) && numOfEntries == old(numOfEntries)
    {
      var j := 0;
      while j < |chain|
        invariant j <= |chain|
        invariant log == old(log) + DestroyAllEvents(Configuration(), chain[..j])
        invariant buckets == old(buckets) && numOfEntries == old(numOfEntries)
      {
        assert chain[..j + 1][..j] == chain[..j];
        ReleaseEntry(chain[j]);
        j := j + 1;
      }
      assert chain[..j] == chain;
    }

    /** `ht_clear_table`: each chain released from head to tail, bucket by
        bucket, then the count set to zero. */
    method ClearTable() returns (status: Status)
      requires Valid()
      modifies this, buckets
      ensures Valid() && buckets == old(buckets)
      ensures Model() == HtModel.Clear(Configuration(), old(Model())) && status == Success
    {
      ghost var s0 := Model();
      ReleaseAllChains();
      numOfEntries := 0;
      ClearPreservesInv(Configuration(), s0);
      status := Success;
    }

    /** The walk of `ht_clear_table`: bucket by bucket, each chain released
        from head to tail and its bucket emptied. */
    method ReleaseAllChains()
      modifies this, buckets
      ensures buckets == old(buckets) && numOfEntries == old(numOfEntries)
      ensures buckets[..] == EmptyBuckets(buckets.Length)
      ensures log == old(log) + DestroyAllEvents(Configuration(), Flatten(old(buckets[..])))
    {
      ghost var bs, log0 := buckets[..], log;
      var i := 0;
      assert buckets[..] == EmptyBuckets(0) + bs[0..];
      while i < buckets.Length
        invariant i <= buckets.Length == |bs|
        invariant buckets == old(buckets) && numOfEntries == old(numOfEntries)
        invariant buckets[..] == EmptyBuckets(i) + bs[i..]
        invariant log == log0 + DestroyAllEvents(Configuration(), Flatten(bs[..i]))
      {
        ReleaseBucket(i, bs, log0);
        i := i + 1;
      }
      assert bs[..i] == bs && bs[i..] == [];
      assert EmptyBuckets(i) + bs[i..] == EmptyBuckets(i);
    }

    /** One bucket of `ht_clear_table`: its chain released from head to
        tail and the bucket emptied, after the buckets before it. */
    method ReleaseBucket(i: nat, ghost bs: seq<seq<Entry>>, ghost log0: seq<Event>)
      requires i < buckets.Length == |bs|
      requires buckets[..] == EmptyBuckets(i) + bs[i..]
      requires log == log0 + DestroyAllEvents(Configuration(), Flatten(bs[..i]))
      modifies this, buckets
      ensures buckets == old(buckets) && numOfEntries == old(numOfEntries)
      ensures buckets[..] == EmptyBuckets(i + 1) + bs[i + 1..]
      ensures log == log0 + DestroyAllEvents(Configuration(), Flatten(bs[..i + 1]))
    {
      assert buckets[i] == bs[i] by {
        assert buckets[..][i] == (EmptyBuckets(i) + bs[i..])[i];
      }
      ReleaseChain(buckets[i]);
      ReleaseStep(Configuration(), log0, bs, i);
      buckets[i] := [];
      EmptyPrefixStep(bs, i);
    }

    /** The walk of `ht_resize_table` over one old chain: each entry added
        again without a prefix, whatever the outcome, then released. */
    method MigrateChain(chain: seq<Entry>, ghost start: State, ghost done: seq<Entry>)
      requires Valid() && |start.buckets| > 0 && Model() == MigrateAll(Configuration(), start, done)
      modifies this, buckets
      ensures Valid() && buckets == old(buckets)
      ensures Model() == MigrateAll(Configuration(), start, done + chain)
    {
      MigrateAllChainEnds(Configuration(), start, done, chain);
      var j := 0;
      while j < |chain|
        invariant j <= |chain| && buckets == old(buckets)
        invariant Model() == MigrateAll(Configuration(), start, done + chain[..j])
        invariant Valid()
      {
        MigrateNext(chain, j, start, done);
        j := j + 1;
      }
    }

    /** Entry `j` of an old chain migrated after the entries before it. */
    method MigrateNext(chain: seq<Entry>, j: nat, ghost start: State, ghost done: seq<Entry>)
      requires Valid() && j < |chain| && |start.buckets| > 0
      requires Model() == MigrateAll(Configuration(), start, done + chain[..j])
      modifies this, buckets
      ensures Valid() && buckets == old(buckets)
      ensures Model() == MigrateAll(Configuration(), start, done + chain[..j + 1])
    {
      MigrateEntry(chain[j]);
      MigrateAllStep(Configuration(), start, done, chain, j);
    }

    /** One step of `ht_resize_table`: `ht_add` of an old entry, whatever its
        outcome, then `ht_v_destroy` of it. */
    method MigrateEntry(e: Entry)
      requires Valid()
      modifies this, buckets
      ensures Valid() && buckets == old(buckets)
      ensures Model() == Migrate(Configuration(), old(Model()), e)
    {
      ghost var s0 := Model();
      var _ := AddWithPrefix(e.value, e.valueLength, Some(e.key), null);
      ReleaseEntry(e);
      MigratePreservesInv(Configuration(), s0, e);
    }

    /** `ht_resize_table`: a new array of `length` empty buckets replaces the
        old one, then every old entry, bucket by bucket and head to tail, is
        added again without a prefix and then released. */
    method ResizeTable(length: nat) returns (status: Status)
      requires Valid() && length > 0
      modifies this
      ensures Valid() && fresh(buckets)
      ensures Model() == HtModel.Resize(Configuration(), old(Model()), length) && status == Success
    {
      ghost var s0 := Model();
      ghost var start := State(EmptyBuckets(length), s0.count, s0.log);
      var ot := buckets;
      var nt := new seq<Entry>[length];
      for k := 0 to length
        invariant forall m :: 0 <= m < k ==> nt[m] == []
        modifies nt
      {
        nt[k] := [];
      }
      buckets := nt;
      assert Model() == start && Flatten(s0.buckets[..0]) == [] by {
        assert nt[..] == EmptyBuckets(length);
        assert s0.buckets[..0] == [];
      }
      FlattenEmptyBuckets(length);
      var i := 0;
      while i < ot.Length
        invariant i <= ot.Length
        invariant buckets == nt && fresh(nt) && ot[..] == s0.buckets
        invariant Model() == MigrateAll(Configuration(), start, Flatten(s0.buckets[..i]))
        invariant Valid()
        modifies this, nt
      {
        MigrateChain(ot[i], start, Flatten(s0.buckets[..i]));
        FlattenStep(s0.buckets, i);
        i := i + 1;
      }
      assert s0.buckets[..i] == s0.buckets;
      status := Success;
    }

    /** `ht_iterate`: the visitor called on every entry, bucket by bucket and
        head to tail; a null visitor is refused. The calls made are returned. */
    method Iterate(visitor: Callback) returns (status: Status, visits: seq<Visit>)
      requires Valid()
      ensures visitor == NoCallback ==> status == NullIterator && visits == []
      ensures visitor != NoCallback ==> status == Success && visits == Visits(buckets[..])
    {
      visits := [];
      if visitor == NoCallback {
        return NullIterator, visits;
      }
      var i := 0;
      while i < buckets.Length
        invariant i <= buckets.Length
        invariant visits == Visits(buckets[..i])
      {
        var chain := buckets[i];
        ghost var done := visits;
        var j := 0;
        while j < |chain|
          invariant j <= |chain|
          invariant visits == done + ChainVisits(chain, i)[..j]
        {
          visits := visits + [Visit(chain[j].value, chain[j].valueLength, chain[j].key, |chain[j].key|, i)];
          j := j + 1;
        }
        assert buckets[..i + 1][..i] == buckets[..i];
        assert ChainVisits(chain, i)[..j] == ChainVisits(chain, i);
        i := i + 1;
      }
      assert buckets[..i] == buckets[..];
      status := Success;
    }

    /** `ht_destroy`: the table cleared, then the context released through
        its destructor when both are set. */
    method Destroy()
      requires Valid()
      modifies this, buckets
      ensures Model() == HtModel.Destroy(Configuration(), old(Model()))
    {
      var _ := ClearTable();
      if extra != Null && destroyExtra != NoCallback {
        log := log + [ExtraDestroyed(destroyExtra, extra)];
      }
    }

    /** `ht_add`: the prefixed form with a null prefix. */
    method Add(value: Handle, valueLength: nat, key: Option<Bytes>) returns (status: Status)
      requires Valid()
      modifies this, buckets
      ensures Valid() && buckets == old(buckets)
      ensures var o := HtModel.Add(Configuration(), old(Model()), value, valueLength, key, NoPrefix);
        Model() == o.state && status == o.status
    {
      status := AddWithPrefix(value, valueLength, key, null);
    }

    /** `ht_update`: the prefixed form with a null prefix. */
    method Update(value: Handle, valueLength: nat, key: Option<Bytes>) returns (status: Status)
      requires Valid()
      modifies this, buckets
      ensures Valid() && buckets == old(buckets)
      ensures var o := HtModel.Update(Configuration(), old(Model()), value, valueLength, key, NoPrefix);
        Model() == o.state && status == o.status
    {
      status := UpdateWithPrefix(value, valueLength, key, null);
    }

    /** `ht_update_strict`: the prefixed form with a null prefix. */
    method UpdateStrict(value: Handle, valueLength: nat, key: Option<Bytes>) returns (status: Status)
      requires Valid()
      modifies this, buckets
      ensures Valid() && buckets == old(buckets)
      ensures var o := HtModel.UpdateStrict(Configuration(), old(Model()), value, valueLength, key, NoPrefix);
        Model() == o.state && status == o.status
    {
      status := UpdateStrictWithPrefix(value, valueLength, key, null);
    }

    /** `ht_get`: the prefixed form with a null prefix. */
    method Get(key: Option<Bytes>, withDestination: bool) returns (status: Status, value: Handle, valueLength: nat)
      requires Valid()
      ensures key.None? ==> status == NullKey && value == Null && valueLength == 0
      ensures key.Some? ==>
        var found := Lookup(Configuration(), Model(), key.value, NoPrefix);
        && (status == Success <==> found.Some?)
        && (found.None? ==> status == KeyNotInUse && value == Null && valueLength == 0)
        && (found.Some? && withDestination ==> value == found.value.value && valueLength == found.value.valueLength)
        && (!withDestination ==> value == Null && valueLength == 0)
    {
      status, value, valueLength := GetWithPrefix(key, withDestination, null);
    }

    /** `ht_get_copy`: the prefixed form with a null prefix. */
    method GetCopy(key: Option<Bytes>, withDestination: bool, contents: Handle -> Bytes)
      returns (status: Status, copy: Option<Bytes>, valueLength: nat)
      requires Valid()
      ensures key.None? ==> status == NullKey && copy.None? && valueLength == 0
      ensures key.Some? ==>
        var found := Lookup(Configuration(), Model(), key.value, NoPrefix);
        && (status == Success <==> found.Some?)
        && (found.None? ==> status == KeyNotInUse && copy.None? && valueLength == 0)
        && (found.Some? && withDestination ==>
              && copy == Some(Strncpy(contents(found.value.value), found.value.valueLength))
              && valueLength == found.value.valueLength)
        && (!withDestination ==> copy.None? && valueLength == 0)
    {
      status, copy, valueLength := GetCopyWithPrefix(key, withDestination, null, contents);
    }

    /** `ht_remove`: the prefixed form with a null prefix. */
    method Remove(key: Option<Bytes>) returns (status: Status)
      requires Valid()
      modifies this, buckets
      ensures Valid() && buckets == old(buckets)
      ensures var o := HtModel.Remove(Configuration(), old(Model()), key, NoPrefix);
        Model() == o.state && status == o.status
    {
      status := RemoveWithPrefix(key, null);
    }
  }

  /** `ht_create_full`: no table for length 0; otherwise a table of `length`
      empty buckets with the given settings. */
  method CreateFull(length: nat, hashSize: HashSize, seed: Seed, extra: Handle, destroyValue: Callback, destroyExtra: Callback, spooky: Spooky)
    returns (t: Table?)
    ensures t == null <==> length == 0
    ensures t != null ==>
      && fresh(t) && fresh(t.buckets) && t.Valid()
      && t.Model() == Create(length).value
      && t.Configuration() == Config(spooky, hashSize, seed, extra, destroyValue, destroyExtra)
  {
    if length == 0 {
      return null;
    }
    t := new Table.Init(length, hashSize, seed, extra, destroyValue, destroyExtra, spooky);
  }

  /** `ht_create`: values released with the library's free wrapper, no
      context, and `free` as the context destructor. */
  method CreateTable(length: nat, hashSize: HashSize, seed: Seed, spooky: Spooky) returns (t: Table?)
    ensures t == null <==> length == 0
    ensures t != null ==>
      && fresh(t) && fresh(t.buckets) && t.Valid()
      && t.Model() == Create(length).value
      && t.Configuration() == Config(spooky, hashSize, seed, Null, VacuousFree, Free)
  {
    t := CreateFull(length, hashSize, seed, Null, VacuousFree, Free, spooky);
  }
}
