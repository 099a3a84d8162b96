/** What the table operations of HtModel promise, one partner lemma per
    operation: the invariant each preserves and what a later lookup finds. */
module HtProperties {
  import opened HtApi
  import opened SpookyContract
  import opened Words
  import opened HtKeys
  import opened HtModel

  // ---------------------------------------------------------------------
  // Chains
  // ---------------------------------------------------------------------

  /** The first match depends only on the keys of the chain. */
  lemma FirstMatchSameKeys(a: seq<Entry>, b: seq<Entry>, key: Bytes)
    requires |a| == |b| && forall j :: 0 <= j < |a| ==> a[j].key == b[j].key
    ensures FirstMatch(a, key) == FirstMatch(b, key)
  {
    match FirstMatch(a, key)
    case None =>
    case Some(m) => assert KeysMatch(b[m].key, key);
  }

  /** Appending an entry whose key does not match leaves a search unchanged. */
  lemma FindAppendOther(chain: seq<Entry>, e: Entry, key: Bytes)
    requires !KeysMatch(e.key, key)
    ensures Find(chain + [e], key) == Find(chain, key)
  {
    var b := chain + [e];
    match FirstMatch(chain, key)
    case None =>
      assert forall j :: 0 <= j < |b| ==> !KeysMatch(b[j].key, key);
    case Some(m) =>
      assert KeysMatch(b[m].key, key);
  }

  /** Appending a matching entry to a chain with no match makes it the result. */
  lemma FindAppendNew(chain: seq<Entry>, e: Entry, key: Bytes)
    requires FirstMatch(chain, key).None? && KeysMatch(e.key, key)
    ensures Find(chain + [e], key) == Some(e)
  {
    var b := chain + [e];
    assert KeysMatch(b[|chain|].key, key);
  }

  /** Unlinking an entry that does not match leaves a search unchanged. */
  lemma FindRemoveOther(chain: seq<Entry>, j: nat, key: Bytes)
    requires j < |chain| && !KeysMatch(chain[j].key, key)
    ensures Find(chain[..j] + chain[j + 1..], key) == Find(chain, key)
  {
    var b := chain[..j] + chain[j + 1..];
    assert forall m :: 0 <= m < j ==> b[m] == chain[m];
    assert forall m :: j <= m < |b| ==> b[m] == chain[m + 1];
    match FirstMatch(chain, key)
    case None =>
      assert forall m :: 0 <= m < |b| ==> !KeysMatch(b[m].key, key);
    case Some(m) =>
      if m < j {
        assert KeysMatch(b[m].key, key);
      } else {
        assert KeysMatch(b[m - 1].key, key);
      }
  }

  /** Unlinking the first match from a chain without two matching keys leaves
      no match. */
  lemma FindRemoveFirst(chain: seq<Entry>, key: Bytes)
    requires KeysDistinct(chain) && FirstMatch(chain, key).Some?
    ensures var j := FirstMatch(chain, key).value; Find(chain[..j] + chain[j + 1..], key).None?
  {
    var j := FirstMatch(chain, key).value;
    var b := chain[..j] + chain[j + 1..];
    forall m | j < m < |chain|
      ensures !KeysMatch(chain[m].key, key)
    {
      KeysMatchIsEquivalence(chain[j].key, key, chain[m].key);
      KeysMatchIsEquivalence(chain[m].key, key, key);
    }
    assert forall m :: 0 <= m < |b| ==> !KeysMatch(b[m].key, key) by {
      assert forall m :: 0 <= m < j ==> b[m] == chain[m];
      assert forall m :: j <= m < |b| ==> b[m] == chain[m + 1];
    }
  }

  // ---------------------------------------------------------------------
  // All entries
  // ---------------------------------------------------------------------

  lemma {:induction false} FlattenUpdate(bs: seq<seq<Entry>>, i: nat, b: seq<Entry>)
    requires i < |bs|
    ensures |Flatten(bs[i := b])| == |Flatten(bs)| - |bs[i]| + |b|
    decreases |bs|
  {
    var n := |bs| - 1;
    if i < n {
      assert bs[i := b][..n] == bs[..n][i := b];
      FlattenUpdate(bs[..n], i, b);
    } else {
      assert bs[i := b][..n] == bs[..n];
    }
  }

  lemma {:induction false} FlattenEmptyBuckets(n: nat)
    ensures Flatten(EmptyBuckets(n)) == []
  {
    if n > 0 {
      assert EmptyBuckets(n)[..n - 1] == EmptyBuckets(n - 1);
      FlattenEmptyBuckets(n - 1);
    }
  }

  /** The entries of the first `i + 1` buckets are those of the first `i`
      followed by the chain of bucket `i`. */
  lemma FlattenStep(bs: seq<seq<Entry>>, i: nat)
    requires i < |bs|
    ensures Flatten(bs[..i + 1]) == Flatten(bs[..i]) + bs[i]
  {
    assert bs[..i + 1][..i] == bs[..i];
  }

  /** Emptying the first bucket not yet emptied extends the emptied prefix. */
  lemma EmptyPrefixStep(bs: seq<seq<Entry>>, i: nat)
    requires i < |bs|
    ensures (EmptyBuckets(i) + bs[i..])[i := []] == EmptyBuckets(i + 1) + bs[i + 1..]
  {
    var l, r := (EmptyBuckets(i) + bs[i..])[i := []], EmptyBuckets(i + 1) + bs[i + 1..];
    assert forall k :: 0 <= k < |l| ==> l[k] == r[k];
  }

  /** With no null value in any chain, there is none among all the entries. */
  lemma {:induction false} FlattenValuesSet(bs: seq<seq<Entry>>)
    requires forall i :: 0 <= i < |bs| ==> ValuesSet(bs[i])
    ensures ValuesSet(Flatten(bs))
  {
    if bs != [] {
      var n := |bs| - 1;
      FlattenValuesSet(bs[..n]);
      assert ValuesSet(bs[n]);
    }
  }

  /** Replacing one chain by a chain without matching keys or null values,
      with a count still not below the number of entries and a log of valid
      calls, keeps the invariant. */
  lemma ReplaceChainPreservesInv(s: State, i: nat, b: seq<Entry>, count: nat, log: seq<Event>)
    requires Inv(s) && i < |s.buckets|
    requires KeysDistinct(b) && ValuesSet(b) && CallsValid(log)
    requires count >= |Flatten(s.buckets)| - |s.buckets[i]| + |b|
    ensures Inv(State(s.buckets[i := b], count, log))
  {
    FlattenUpdate(s.buckets, i, b);
  }

  /** Appending an entry with a non-null value whose key matches none of the
      chain's keeps the chain free of matching keys and null values. */
  lemma AppendKeepsChain(b: seq<Entry>, e: Entry)
    requires KeysDistinct(b) && ValuesSet(b) && FirstMatch(b, e.key).None? && e.value != Null
    ensures KeysDistinct(b + [e]) && ValuesSet(b + [e])
  {
    var b' := b + [e];
    assert forall m :: 0 <= m < |b| ==> b'[m] == b[m];
  }

  // ---------------------------------------------------------------------
  // Destructor calls
  // ---------------------------------------------------------------------

  /** Releasing entries calls the value destructor once per entry when there
      is one, never otherwise, and never through null or on null. */
  lemma {:induction false} DestroyAllEventsCount(c: Config, es: seq<Entry>)
    requires ValuesSet(es)
    ensures CallsValid(DestroyAllEvents(c, es))
    ensures forall i :: 0 <= i < |DestroyAllEvents(c, es)| ==> DestroyAllEvents(c, es)[i].ValueDestroyed?
    ensures |DestroyAllEvents(c, es)| == if c.destroyValue == NoCallback then 0 else |es|
  {
    if es != [] {
      DestroyAllEventsCount(c, es[..|es| - 1]);
    }
  }

  /** With a value destructor set, releasing entries with non-null values
      makes one call per entry, in order: call `k` receives the value of
      entry `k`. */
  lemma {:induction false} DestroyAllEventsAt(c: Config, es: seq<Entry>)
    requires c.destroyValue != NoCallback && ValuesSet(es)
    ensures |DestroyAllEvents(c, es)| == |es|
    ensures forall k :: 0 <= k < |es| ==> DestroyAllEvents(c, es)[k] == ValueDestroyed(c.destroyValue, es[k].value, c.extra)
  {
    if es != [] {
      var n := |es| - 1;
      var pre := es[..n];
      assert ValuesSet(pre) by {
        assert forall k :: 0 <= k < n ==> pre[k] == es[k];
      }
      DestroyAllEventsAt(c, pre);
      assert forall k :: 0 <= k < n ==> pre[k] == es[k];
    }
  }

  /** Releasing two runs of entries is releasing the first, then the second. */
  lemma {:induction false} DestroyAllEventsAppend(c: Config, a: seq<Entry>, b: seq<Entry>)
    ensures DestroyAllEvents(c, a + b) == DestroyAllEvents(c, a) + DestroyAllEvents(c, b)
    decreases |b|
  {
    if b != [] {
      var n := |b| - 1;
      assert (a + b)[..|a + b| - 1] == a + b[..n];
      DestroyAllEventsAppend(c, a, b[..n]);
    } else {
      assert a + b == a;
    }
  }

  /** Extending a log by two runs of calls is extending it by their
      concatenation. */
  lemma LogExtends(log: seq<Event>, first: seq<Event>, second: seq<Event>, both: seq<Event>)
    requires first + second == both
    ensures (log + first) + second == log + both
  {
    assert (log + first) + second == log + (first + second);
  }

  /** Releasing the chain of bucket `i` after those of the buckets before it
      releases the entries of the first `i + 1` buckets. */
  lemma ReleaseStep(c: Config, log: seq<Event>, bs: seq<seq<Entry>>, i: nat)
    requires i < |bs|
    ensures (log + DestroyAllEvents(c, Flatten(bs[..i]))) + DestroyAllEvents(c, bs[i])
         == log + DestroyAllEvents(c, Flatten(bs[..i + 1]))
  {
    FlattenStep(bs, i);
    DestroyAllEventsAppend(c, Flatten(bs[..i]), bs[i]);
    LogExtends(log, DestroyAllEvents(c, Flatten(bs[..i])), DestroyAllEvents(c, bs[i]),
      DestroyAllEvents(c, Flatten(bs[..i + 1])));
  }

  /** Each released entry's value is passed to the value destructor. */
  lemma {:induction false} DestroyAllEventsHas(c: Config, es: seq<Entry>, k: nat)
    requires k < |es| && es[k].value != Null && c.destroyValue != NoCallback
    ensures ValueDestroyed(c.destroyValue, es[k].value, c.extra) in DestroyAllEvents(c, es)
  {
    if k < |es| - 1 {
      DestroyAllEventsHas(c, es[..|es| - 1], k);
    }
  }

  // ---------------------------------------------------------------------
  // ht_create_full
  // ---------------------------------------------------------------------

  /** A table exists exactly for a positive length; it then has that many
      empty buckets, a zero count, no destructor calls, and finds nothing. */
  lemma CreateIsEmpty(c: Config, length: nat)
    ensures Create(length).None? <==> length == 0
    ensures length > 0 ==>
      var s := Create(length).value;
      && Inv(s) && |s.buckets| == length && s.count == 0 && s.log == []
      && Flatten(s.buckets) == []
      && forall key, p :: Lookup(c, s, key, p).None?
  {
    FlattenEmptyBuckets(length);
  }

  // ---------------------------------------------------------------------
  // Null arguments
  // ---------------------------------------------------------------------

  /** A null key, or a null value where one is stored, is refused with its
      own status and the table is left as it was. */
  lemma NullArgumentsRejected(c: Config, s: State, value: Handle, valueLength: nat, key: Option<Bytes>, p: PrefixArg)
    requires Inv(s)
    ensures key.None? ==>
      && Add(c, s, value, valueLength, key, p) == Outcome(s, NullKey)
      && Update(c, s, value, valueLength, key, p) == Outcome(s, NullKey)
      && UpdateStrict(c, s, value, valueLength, key, p) == Outcome(s, NullKey)
      && Remove(c, s, key, p) == Outcome(s, NullKey)
    ensures key.Some? && value == Null ==>
      && Add(c, s, value, valueLength, key, p) == Outcome(s, NullValue)
      && Update(c, s, value, valueLength, key, p) == Outcome(s, NullValue)
      && UpdateStrict(c, s, value, valueLength, key, p) == Outcome(s, NullValue)
  {
  }

  // ---------------------------------------------------------------------
  // ht_add_with_prefix
  // ---------------------------------------------------------------------

  /** Linking an entry with a non-null value whose key matches none of its
      chain keeps the invariant. */
  lemma LinkPreservesInv(s: State, i: nat, e: Entry)
    requires Inv(s) && i < |s.buckets| && FirstMatch(s.buckets[i], e.key).None? && e.value != Null
    ensures Inv(Link(s, i, e))
  {
    AppendKeepsChain(s.buckets[i], e);
    ReplaceChainPreservesInv(s, i, s.buckets[i] + [e], s.count + 1, s.log);
  }

  lemma AddPreservesInv(c: Config, s: State, value: Handle, valueLength: nat, key: Option<Bytes>, p: PrefixArg)
    requires Inv(s)
    ensures Inv(Add(c, s, value, valueLength, key, p).state)
  {
    if key.Some? && value != Null {
      var i := BucketOf(c, s, key.value, p);
      var e := Entry(StoredKey(key.value, p), value, valueLength);
      if FirstMatch(s.buckets[i], e.key).None? {
        LinkPreservesInv(s, i, e);
      }
    }
  }

  /** Without a prefix: the add succeeds exactly when the key is not in use,
      and the key then finds the new entry; otherwise nothing changes. */
  lemma AddThenGet(c: Config, s: State, value: Handle, valueLength: nat, key: Bytes)
    requires Inv(s) && value != Null
    ensures var o := Add(c, s, value, valueLength, Some(key), NoPrefix);
      && (o.status == Success <==> Lookup(c, s, key, NoPrefix).None?)
      && (o.status == Success ==>
            && Lookup(c, o.state, key, NoPrefix) == Some(Entry(key, value, valueLength))
            && o.state.count == s.count + 1
            && |Flatten(o.state.buckets)| == |Flatten(s.buckets)| + 1
            && o.state.log == s.log)
      && (o.status != Success ==> o.status == KeyAlreadyInUse && o.state == s)
  {
    var o := Add(c, s, value, valueLength, Some(key), NoPrefix);
    var i := BucketOf(c, s, key, NoPrefix);
    if o.status == Success {
      var e := Entry(key, value, valueLength);
      KeysMatchIsEquivalence(key, key, key);
      FindAppendNew(s.buckets[i], e, key);
      FlattenUpdate(s.buckets, i, s.buckets[i] + [e]);
    }
  }

  /** Under any prefix: the add succeeds exactly when the stored key (prefix
      bytes, then key) matches no entry of the bucket the prefixed hash picks;
      the stored entry is then found there, the count and the number of
      entries grow by one and no destructor is called; otherwise the status
      is key-in-use and nothing changes. */
  lemma AddStatus(c: Config, s: State, value: Handle, valueLength: nat, key: Bytes, p: PrefixArg)
    requires Inv(s) && value != Null
    ensures var o := Add(c, s, value, valueLength, Some(key), p);
      var i, stored := BucketOf(c, s, key, p), StoredKey(key, p);
      && (o.status == Success <==> Find(s.buckets[i], stored).None?)
      && (o.status == Success ==>
            && Find(o.state.buckets[i], stored) == Some(Entry(stored, value, valueLength))
            && o.state.count == s.count + 1
            && |Flatten(o.state.buckets)| == |Flatten(s.buckets)| + 1
            && o.state.log == s.log)
      && (o.status != Success ==> o.status == KeyAlreadyInUse && o.state == s)
  {
    var o := Add(c, s, value, valueLength, Some(key), p);
    var i, stored := BucketOf(c, s, key, p), StoredKey(key, p);
    if o.status == Success {
      var e := Entry(stored, value, valueLength);
      KeysMatchIsEquivalence(stored, stored, stored);
      FindAppendNew(s.buckets[i], e, stored);
      FlattenUpdate(s.buckets, i, s.buckets[i] + [e]);
    }
  }

  /** An add changes only the target bucket, by appending one entry at its
      tail, and a lookup of any key that does not match the stored key, under
      any prefix, finds what it found before. */
  lemma AddKeepsOtherKeys(c: Config, s: State, value: Handle, valueLength: nat, key: Bytes, p: PrefixArg, other: Bytes, q: PrefixArg)
    requires Inv(s) && !KeysMatch(StoredKey(key, p), other)
    ensures var o := Add(c, s, value, valueLength, Some(key), p);
      && |o.state.buckets| == |s.buckets|
      && Lookup(c, o.state, other, q) == Lookup(c, s, other, q)
      && (o.status == Success ==>
            var i := BucketOf(c, s, key, p);
            && o.state.buckets[i] == s.buckets[i] + [Entry(StoredKey(key, p), value, valueLength)]
            && forall j :: 0 <= j < |s.buckets| && j != i ==> o.state.buckets[j] == s.buckets[j])
  {
    var o := Add(c, s, value, valueLength, Some(key), p);
    if o.status == Success {
      LinkKeepsLookups(c, s, BucketOf(c, s, key, p), Entry(StoredKey(key, p), value, valueLength), other, q);
    }
  }

  /** A key added under a non-empty prefix is stored as prefix and key, so a
      lookup of the same key under the same prefix never finds it. */
  lemma PrefixedAddIsNotFound(c: Config, s: State, value: Handle, valueLength: nat, key: Bytes, bytes: Bytes, st: SpookyState)
    requires Inv(s) && |bytes| > 0
    ensures var p := WithPrefix(bytes, st);
      Lookup(c, Add(c, s, value, valueLength, Some(key), p).state, key, p) == Lookup(c, s, key, p)
  {
    AddKeepsOtherKeys(c, s, value, valueLength, key, WithPrefix(bytes, st), key, WithPrefix(bytes, st));
  }

  /** Adding the same key twice under the same prefix: the second add is
      refused and changes nothing. */
  lemma AddTwiceFails(c: Config, s: State, v1: Handle, l1: nat, v2: Handle, l2: nat, key: Bytes, p: PrefixArg)
    requires Inv(s) && v1 != Null && v2 != Null
    requires Add(c, s, v1, l1, Some(key), p).status == Success
    ensures var s1 := Add(c, s, v1, l1, Some(key), p).state;
      Add(c, s1, v2, l2, Some(key), p) == Outcome(s1, KeyAlreadyInUse)
  {
    var s1 := Add(c, s, v1, l1, Some(key), p).state;
    AddStatus(c, s, v1, l1, key, p);
    AddPreservesInv(c, s, v1, l1, Some(key), p);
    AddStatus(c, s1, v2, l2, key, p);
  }

  // ---------------------------------------------------------------------
  // ht_update_with_prefix and ht_update_strict_with_prefix
  // ---------------------------------------------------------------------

  lemma OverwritePreservesInv(s: State, i: nat, j: nat, value: Handle, valueLength: nat)
    requires Inv(s) && i < |s.buckets| && j < |s.buckets[i]| && value != Null
    ensures Inv(Overwrite(s, i, j, value, valueLength))
  {
    var b := s.buckets[i][j := s.buckets[i][j].(value := value, valueLength := valueLength)];
    assert forall m :: 0 <= m < |b| ==> b[m].key == s.buckets[i][m].key;
    ReplaceChainPreservesInv(s, i, b, s.count, s.log);
  }

  lemma UpdatePreservesInv(c: Config, s: State, value: Handle, valueLength: nat, key: Option<Bytes>, p: PrefixArg)
    requires Inv(s)
    ensures Inv(Update(c, s, value, valueLength, key, p).state)
    ensures Inv(UpdateStrict(c, s, value, valueLength, key, p).state)
  {
    if key.Some? && value != Null {
      var i := BucketOf(c, s, key.value, p);
      match FirstMatch(s.buckets[i], key.value)
      case Some(j) =>
        OverwritePreservesInv(s, i, j, value, valueLength);
      case None =>
        LinkPreservesInv(s, i, Entry(key.value, value, valueLength));
    }
  }

  /** An update always succeeds on a non-null key and value, under any
      prefix, and the same key under the same prefix then finds the new value:
      a matching entry is overwritten in place, at its own position, otherwise
      an entry with the raw key is appended to the chain; no other bucket
      changes; the count grows only when the key was not in use, and no
      destructor is called, so an overwritten value is not released. */
  lemma UpdateThenGet(c: Config, s: State, value: Handle, valueLength: nat, key: Bytes, p: PrefixArg)
    requires Inv(s) && value != Null
    ensures var o := Update(c, s, value, valueLength, Some(key), p);
      var i := BucketOf(c, s, key, p);
      var b := s.buckets[i];
      && o.status == Success
      && |o.state.buckets| == |s.buckets|
      && (forall m :: 0 <= m < |s.buckets| && m != i ==> o.state.buckets[m] == s.buckets[m])
      && o.state.buckets[i] == (if FirstMatch(b, key).Some?
                                then b[FirstMatch(b, key).value := b[FirstMatch(b, key).value].(value := value, valueLength := valueLength)]
                                else b + [Entry(key, value, valueLength)])
      && (var found := Lookup(c, o.state, key, p);
          found.Some? && found.value.value == value && found.value.valueLength == valueLength
          && KeysMatch(found.value.key, key))
      && o.state.count == s.count + (if Lookup(c, s, key, p).None? then 1 else 0)
      && o.state.log == s.log
  {
    var o := Update(c, s, value, valueLength, Some(key), p);
    var i := BucketOf(c, s, key, p);
    match FirstMatch(s.buckets[i], key)
    case Some(j) =>
      var b := o.state.buckets[i];
      FirstMatchSameKeys(s.buckets[i], b, key);
    case None =>
      KeysMatchIsEquivalence(key, key, key);
      FindAppendNew(s.buckets[i], Entry(key, value, valueLength), key);
  }

  /** An update changes no lookup of a key that does not match its own. */
  lemma UpdateKeepsOtherKeys(c: Config, s: State, value: Handle, valueLength: nat, key: Bytes, p: PrefixArg, other: Bytes, q: PrefixArg)
    requires Inv(s) && !KeysMatch(key, other)
    ensures Lookup(c, Update(c, s, value, valueLength, Some(key), p).state, other, q) == Lookup(c, s, other, q)
    ensures Lookup(c, UpdateStrict(c, s, value, valueLength, Some(key), p).state, other, q) == Lookup(c, s, other, q)
  {
    if value != Null {
      var i := BucketOf(c, s, key, p);
      match FirstMatch(s.buckets[i], key)
      case Some(j) => OverwriteKeepsLookups(c, s, i, j, value, valueLength, key, other, q);
      case None => LinkKeepsLookups(c, s, i, Entry(key, value, valueLength), other, q);
    }
  }

  /** Overwriting the first match of `key` changes no search for a key that
      does not match it. */
  lemma OverwriteKeepsFind(b: seq<Entry>, j: nat, value: Handle, valueLength: nat, key: Bytes, other: Bytes)
    requires FirstMatch(b, key) == Some(j) && !KeysMatch(key, other)
    ensures Find(b[j := b[j].(value := value, valueLength := valueLength)], other) == Find(b, other)
  {
    var b' := b[j := b[j].(value := value, valueLength := valueLength)];
    FirstMatchSameKeys(b, b', other);
    if FirstMatch(b, other) == Some(j) {
      KeysMatchIsEquivalence(key, b[j].key, other);
      KeysMatchIsEquivalence(b[j].key, key, key);
    }
  }

  lemma OverwriteKeepsLookups(c: Config, s: State, i: nat, j: nat, value: Handle, valueLength: nat, key: Bytes, other: Bytes, q: PrefixArg)
    requires 0 < |s.buckets| && i < |s.buckets| && FirstMatch(s.buckets[i], key) == Some(j) && !KeysMatch(key, other)
    ensures Lookup(c, Overwrite(s, i, j, value, valueLength), other, q) == Lookup(c, s, other, q)
  {
    OverwriteKeepsFind(s.buckets[i], j, value, valueLength, key, other);
  }

  /** Linking an entry whose key does not match `other` changes no lookup of
      `other`. */
  lemma LinkKeepsLookups(c: Config, s: State, i: nat, e: Entry, other: Bytes, q: PrefixArg)
    requires 0 < |s.buckets| && i < |s.buckets| && !KeysMatch(e.key, other)
    ensures Lookup(c, Link(s, i, e), other, q) == Lookup(c, s, other, q)
  {
    FindAppendOther(s.buckets[i], e, other);
  }

  /** Without a prefix, updating a key that is not in use is adding it. */
  lemma UpdateAbsentIsAdd(c: Config, s: State, value: Handle, valueLength: nat, key: Bytes)
    requires Inv(s) && Lookup(c, s, key, NoPrefix).None?
    ensures Update(c, s, value, valueLength, Some(key), NoPrefix) == Add(c, s, value, valueLength, Some(key), NoPrefix)
  {
  }

  /** A strict update refuses exactly the keys that are not in use, and
      changes nothing then; otherwise it is an update. It never inserts. */
  lemma UpdateStrictNeverInserts(c: Config, s: State, value: Handle, valueLength: nat, key: Bytes, p: PrefixArg)
    requires Inv(s) && value != Null
    ensures var o := UpdateStrict(c, s, value, valueLength, Some(key), p);
      && (o.status == KeyNotInUse <==> Lookup(c, s, key, p).None?)
      && (o.status == KeyNotInUse ==> o.state == s)
      && (o.status != KeyNotInUse ==> o == Update(c, s, value, valueLength, Some(key), p))
      && o.state.count == s.count
      && |Flatten(o.state.buckets)| == |Flatten(s.buckets)|
  {
    var i := BucketOf(c, s, key, p);
    match FirstMatch(s.buckets[i], key)
    case Some(j) =>
      var b := s.buckets[i][j := s.buckets[i][j].(value := value, valueLength := valueLength)];
      FlattenUpdate(s.buckets, i, b);
    case None =>
  }

  // ---------------------------------------------------------------------
  // ht_remove_with_prefix
  // ---------------------------------------------------------------------

  /** Unlinking one entry, or emptying the chain, keeps a chain free of
      matching keys and of null values. */
  lemma UnlinkKeepsChain(b: seq<Entry>, j: nat)
    requires j < |b| && KeysDistinct(b) && ValuesSet(b)
    ensures var b' := if j == 0 then [] else b[..j] + b[j + 1..];
      KeysDistinct(b') && ValuesSet(b') && |b'| <= |b| - 1
  {
    var b' := b[..j] + b[j + 1..];
    assert forall m :: 0 <= m < j ==> b'[m] == b[m];
    assert forall m :: j <= m < |b'| ==> b'[m] == b[m + 1];
  }

  /** Unlinking any entry keeps the invariant. */
  lemma UnlinkPreservesInv(c: Config, s: State, i: nat, j: nat)
    requires Inv(s) && i < |s.buckets| && j < |s.buckets[i]|
    ensures Inv(Unlink(c, s, i, j))
  {
    var b := s.buckets[i];
    var b' := if j == 0 then [] else b[..j] + b[j + 1..];
    UnlinkKeepsChain(b, j);
    FlattenCoversBucket(s.buckets, i);
    var log := s.log + DestroyEvents(c, b[j]);
    assert CallsValid(log);
    ReplaceChainPreservesInv(s, i, b', s.count - 1, log);
  }

  lemma RemovePreservesInv(c: Config, s: State, key: Option<Bytes>, p: PrefixArg)
    requires Inv(s)
    ensures Inv(Remove(c, s, key, p).state)
  {
    if key.Some? {
      var i := BucketOf(c, s, key.value, p);
      match FirstMatch(s.buckets[i], key.value)
      case None =>
      case Some(j) => UnlinkPreservesInv(c, s, i, j);
    }
  }

  /** A remove succeeds exactly when the key is in use; then the key is no
      longer found, the count drops by one and the removed value is released;
      otherwise nothing changes. */
  lemma RemoveThenGet(c: Config, s: State, key: Bytes, p: PrefixArg)
    requires Inv(s)
    ensures var o := Remove(c, s, Some(key), p);
      && (o.status == Success <==> Lookup(c, s, key, p).Some?)
      && (o.status == Success ==>
            && Lookup(c, o.state, key, p).None?
            && o.state.count == s.count - 1
            && o.state.log == s.log + DestroyEvents(c, Lookup(c, s, key, p).value))
      && (o.status != Success ==> o.status == KeyNotInUse && o.state == s)
  {
    var i := BucketOf(c, s, key, p);
    if FirstMatch(s.buckets[i], key).Some? {
      FindRemoveFirst(s.buckets[i], key);
    }
  }

  /** Unlinking the first match of `key` alone changes no search for a key
      that does not match it. */
  lemma UnlinkKeepsFind(b: seq<Entry>, j: nat, key: Bytes, other: Bytes)
    requires FirstMatch(b, key) == Some(j) && !KeysMatch(key, other)
    ensures Find(b[..j] + b[j + 1..], other) == Find(b, other)
  {
    if KeysMatch(b[j].key, other) {
      KeysMatchIsEquivalence(key, b[j].key, other);
      KeysMatchIsEquivalence(b[j].key, key, key);
    }
    FindRemoveOther(b, j, other);
  }

  /** Removing a match that is not the head of its chain unlinks that entry
      alone: the rest of the chain keeps its order, no other bucket changes,
      there is one entry fewer, and every other key is found as before. */
  lemma RemoveNonHeadKeepsOthers(c: Config, s: State, key: Bytes, p: PrefixArg, other: Bytes, q: PrefixArg)
    requires Inv(s) && !KeysMatch(key, other)
    requires FirstMatch(s.buckets[BucketOf(c, s, key, p)], key).Some?
    requires FirstMatch(s.buckets[BucketOf(c, s, key, p)], key).value > 0
    ensures var r := Remove(c, s, Some(key), p).state;
      var i := BucketOf(c, s, key, p);
      var b := s.buckets[i];
      var j := FirstMatch(b, key).value;
      && |r.buckets| == |s.buckets|
      && r.buckets[i] == b[..j] + b[j + 1..]
      && (forall m :: 0 <= m < |s.buckets| && m != i ==> r.buckets[m] == s.buckets[m])
      && |Flatten(r.buckets)| == |Flatten(s.buckets)| - 1
      && Lookup(c, r, other, q) == Lookup(c, s, other, q)
  {
    var i := BucketOf(c, s, key, p);
    var b := s.buckets[i];
    var j := FirstMatch(b, key).value;
    FlattenUpdate(s.buckets, i, b[..j] + b[j + 1..]);
    UnlinkKeepsFind(b, j, key, other);
  }

  /** Removing the head of a chain empties the whole chain, so every key of
      that bucket is lost, while the count drops by one only: the count then
      exceeds the number of entries by as many more as the chain lost besides
      the removed one. */
  lemma RemoveHeadDropsChain(c: Config, s: State, key: Bytes, p: PrefixArg)
    requires Inv(s) && FirstMatch(s.buckets[BucketOf(c, s, key, p)], key) == Some(0)
    ensures var i := BucketOf(c, s, key, p);
      var r := Remove(c, s, Some(key), p).state;
      && |r.buckets| == |s.buckets|
      && r.buckets[i] == []
      && (forall m :: 0 <= m < |s.buckets| && m != i ==> r.buckets[m] == s.buckets[m])
      && r.count == s.count - 1
      && r.count - |Flatten(r.buckets)| == s.count - |Flatten(s.buckets)| + |s.buckets[i]| - 1
      && forall other, q :: BucketOf(c, s, other, q) == i ==> Lookup(c, r, other, q).None?
  {
    var i := BucketOf(c, s, key, p);
    FlattenUpdate(s.buckets, i, []);
  }

  // ---------------------------------------------------------------------
  // ht_clear_table and ht_destroy
  // ---------------------------------------------------------------------

  lemma ClearPreservesInv(c: Config, s: State)
    requires Inv(s)
    ensures Inv(Clear(c, s))
  {
    FlattenEmptyBuckets(|s.buckets|);
    FlattenValuesSet(s.buckets);
    DestroyAllEventsCount(c, Flatten(s.buckets));
  }

  /** The calls clear makes: with a value destructor, one per entry in
      bucket-then-chain order, each on that entry's value; without one,
      none. */
  lemma ClearLog(c: Config, s: State)
    requires Inv(s)
    ensures var l, n := Clear(c, s).log, |Flatten(s.buckets)|;
      && CallsValid(l)
      && l[..|s.log|] == s.log
      && (forall i :: |s.log| <= i < |l| ==> l[i].ValueDestroyed?)
      && (c.destroyValue == NoCallback ==> l == s.log)
      && (c.destroyValue != NoCallback ==>
            && |l| == |s.log| + n
            && forall k :: 0 <= k < n ==> l[|s.log| + k] == ValueDestroyed(c.destroyValue, Flatten(s.buckets)[k].value, c.extra))
  {
    var es := DestroyAllEvents(c, Flatten(s.buckets));
    FlattenValuesSet(s.buckets);
    DestroyAllEventsCount(c, Flatten(s.buckets));
    if c.destroyValue != NoCallback {
      DestroyAllEventsAt(c, Flatten(s.buckets));
    }
    var l := Clear(c, s).log;
    assert forall i :: |s.log| <= i < |l| ==> l[i] == es[i - |s.log|];
  }

  /** Clearing keeps the length, empties every bucket, zeroes the count and,
      when there is a value destructor, passes it each entry's value once, in
      bucket-then-chain order; without one it calls nothing. */
  lemma ClearEmpties(c: Config, s: State)
    requires Inv(s)
    ensures var r := Clear(c, s);
      && Inv(r)
      && |r.buckets| == |s.buckets| && r.count == 0 && Flatten(r.buckets) == []
      && (forall key, p :: Lookup(c, r, key, p).None?)
      && r.log[..|s.log|] == s.log
      && (c.destroyValue == NoCallback ==> r.log == s.log)
      && (c.destroyValue != NoCallback ==>
            && |r.log| == |s.log| + |Flatten(s.buckets)|
            && forall k :: 0 <= k < |Flatten(s.buckets)| ==>
                 r.log[|s.log| + k] == ValueDestroyed(c.destroyValue, Flatten(s.buckets)[k].value, c.extra))
  {
    FlattenEmptyBuckets(|s.buckets|);
    ClearPreservesInv(c, s);
    ClearLog(c, s);
  }

  /** Destroying passes each entry's value once to the value destructor, in
      bucket-then-chain order (when there is one), and then the context once
      to its destructor (when both are set), and never calls a null function
      or passes a null pointer. */
  lemma DestroyReleasesAll(c: Config, s: State)
    requires Inv(s)
    ensures var r := Destroy(c, s);
      var n, extra := |Flatten(s.buckets)|, c.extra != Null && c.destroyExtra != NoCallback;
      && CallsValid(r.log)
      && r.log[..|s.log|] == s.log
      && |r.log| == |s.log| + (if c.destroyValue == NoCallback then 0 else n) + (if extra then 1 else 0)
      && (c.destroyValue != NoCallback ==>
            forall k :: 0 <= k < n ==> r.log[|s.log| + k] == ValueDestroyed(c.destroyValue, Flatten(s.buckets)[k].value, c.extra))
      && (extra ==> r.log[|r.log| - 1] == ExtraDestroyed(c.destroyExtra, c.extra))
      && (forall i :: |s.log| <= i < |r.log| && r.log[i].ExtraDestroyed? ==> i == |r.log| - 1)
  {
    ClearLog(c, s);
    var cl, r := Clear(c, s), Destroy(c, s);
    if c.extra != Null && c.destroyExtra != NoCallback {
      assert r.log == cl.log + [ExtraDestroyed(c.destroyExtra, c.extra)];
      assert forall i :: 0 <= i < |cl.log| ==> r.log[i] == cl.log[i];
      assert CallsValid(r.log) by {
        forall i | 0 <= i < |r.log|
          ensures CallValid(r.log[i])
        {
          if i < |cl.log| {
            assert r.log[i] == cl.log[i];
          }
        }
      }
    } else {
      assert r == cl;
    }
  }

  // ---------------------------------------------------------------------
  // ht_resize_table
  // ---------------------------------------------------------------------

  /** Every entry of every bucket is one of `es`. */
  predicate Within(bs: seq<seq<Entry>>, es: seq<Entry>)
  {
    forall i, x :: 0 <= i < |bs| && x in bs[i] ==> x in es
  }

  /** One migration step keeps the invariant and raises the count by at most
      one. */
  lemma MigratePreservesInv(c: Config, s: State, e: Entry)
    requires Inv(s)
    ensures var r := Migrate(c, s, e);
      && Inv(r)
      && r.log == s.log + DestroyEvents(c, e)
      && s.count <= r.count <= s.count + 1
  {
    AddPreservesInv(c, s, e.value, e.valueLength, Some(e.key), NoPrefix);
  }

  /** Migrating one more entry of a chain is one more migration step. */
  lemma MigrateAllStep(c: Config, s: State, done: seq<Entry>, chain: seq<Entry>, j: nat)
    requires |s.buckets| > 0 && j < |chain|
    ensures Migrate(c, MigrateAll(c, s, done + chain[..j]), chain[j]) == MigrateAll(c, s, done + chain[..j + 1])
  {
    assert (done + chain[..j + 1])[..|done| + j] == done + chain[..j];
  }

  /** Migrating none of a chain is migrating nothing more; migrating all of
      it is migrating the chain. */
  lemma MigrateAllChainEnds(c: Config, s: State, done: seq<Entry>, chain: seq<Entry>)
    requires |s.buckets| > 0
    ensures MigrateAll(c, s, done + chain[..0]) == MigrateAll(c, s, done)
    ensures MigrateAll(c, s, done + chain[..|chain|]) == MigrateAll(c, s, done + chain)
  {
    assert done + chain[..0] == done;
    assert chain[..|chain|] == chain;
  }

  /** Migrating entries keeps the invariant, releases each migrated entry
      once, and raises the count by at most one per entry. */
  lemma {:induction false} MigrateAllPreservesInv(c: Config, s: State, es: seq<Entry>)
    requires Inv(s)
    ensures var r := MigrateAll(c, s, es);
      && Inv(r)
      && r.log == s.log + DestroyAllEvents(c, es)
      && s.count <= r.count <= s.count + |es|
    decreases |es|
  {
    if es != [] {
      var n := |es| - 1;
      MigrateAllPreservesInv(c, s, es[..n]);
      MigratePreservesInv(c, MigrateAll(c, s, es[..n]), es[n]);
    }
  }

  /** Migrating into empty buckets puts nothing in them but migrated entries. */
  lemma {:induction false} MigrateAllWithin(c: Config, s: State, es: seq<Entry>)
    requires |s.buckets| > 0 && s.buckets == EmptyBuckets(|s.buckets|)
    ensures Within(MigrateAll(c, s, es).buckets, es)
    decreases |es|
  {
    if es != [] {
      var n := |es| - 1;
      var r' := MigrateAll(c, s, es[..n]);
      MigrateAllWithin(c, s, es[..n]);
      var r := MigrateAll(c, s, es);
      forall i, x | 0 <= i < |r.buckets| && x in r.buckets[i]
        ensures x in es
      {
        if x !in r'.buckets[i] {
          assert x == es[n];
        } else {
          assert x in es[..n];
        }
      }
    }
  }

  /** A chain made of entries of `pre` holds no key that matches `key` when
      no key of `pre` does. */
  lemma NoEarlierMatch(chain: seq<Entry>, pre: seq<Entry>, key: Bytes)
    requires forall k :: 0 <= k < |pre| ==> !KeysMatch(pre[k].key, key)
    requires forall x :: x in chain ==> x in pre
    ensures FirstMatch(chain, key).None?
  {
    forall j | 0 <= j < |chain|
      ensures !KeysMatch(chain[j].key, key)
    {
      assert chain[j] in pre;
    }
  }

  /** Migrating the last of `es`, after the others, adds it and loses none
      of the others, when no two keys of `es` match. */
  lemma MigrateStep(c: Config, r: State, pre: seq<Entry>, es: seq<Entry>)
    requires es != [] && pre == es[..|es| - 1]
    requires Inv(r) && KeysDistinct(es) && es[|es| - 1].value != Null
    requires Within(r.buckets, pre)
    requires forall k :: 0 <= k < |pre| ==> Lookup(c, r, pre[k].key, NoPrefix) == Some(pre[k])
    ensures var r' := Migrate(c, r, es[|es| - 1]);
      && r'.count == r.count + 1
      && |Flatten(r'.buckets)| == |Flatten(r.buckets)| + 1
      && forall k :: 0 <= k < |es| ==> Lookup(c, r', es[k].key, NoPrefix) == Some(es[k])
  {
    var n := |es| - 1;
    var e := es[n];
    assert forall k :: 0 <= k < |pre| ==> !KeysMatch(pre[k].key, e.key) by {
      assert forall k :: 0 <= k < |pre| ==> pre[k] == es[k];
    }
    NoEarlierMatch(r.buckets[BucketOf(c, r, e.key, NoPrefix)], pre, e.key);
    AddThenGet(c, r, e.value, e.valueLength, e.key);
    forall k | 0 <= k < |es|
      ensures Lookup(c, Migrate(c, r, e), es[k].key, NoPrefix) == Some(es[k])
    {
      if k < n {
        assert es[k] == pre[k];
        KeysMatchIsEquivalence(e.key, es[k].key, es[k].key);
        AddKeepsOtherKeys(c, r, e.value, e.valueLength, e.key, NoPrefix, es[k].key, NoPrefix);
      }
    }
  }

  /** Migrating entries with pairwise non-matching keys into empty buckets
      adds every one of them: each is found afterwards, and the count grows
      by their number. */
  lemma {:induction false} MigrateAllKeepsEntries(c: Config, s: State, es: seq<Entry>)
    requires Inv(s) && s.buckets == EmptyBuckets(|s.buckets|)
    requires KeysDistinct(es) && ValuesSet(es)
    ensures var r := MigrateAll(c, s, es);
      && r.count == s.count + |es|
      && |Flatten(r.buckets)| == |es|
      && forall k :: 0 <= k < |es| ==> Lookup(c, r, es[k].key, NoPrefix) == Some(es[k])
    decreases |es|
  {
    if es == [] {
      FlattenEmptyBuckets(|s.buckets|);
    } else {
      assert KeysDistinct(es[..|es| - 1]) && ValuesSet(es[..|es| - 1]);
      MigrateAllKeepsEntries(c, s, es[..|es| - 1]);
      MigrateAllPreservesInv(c, s, es[..|es| - 1]);
      MigrateAllWithin(c, s, es[..|es| - 1]);
      MigrateStep(c, MigrateAll(c, s, es[..|es| - 1]), es[..|es| - 1], es);
    }
  }

  /** A resize gives the table the new length, keeps the invariant, puts only
      old entries in the new buckets, and releases every old value, including
      those it has just re-added: with a value destructor set, every value
      left in the table has already been passed to it. */
  lemma ResizeReleasesEveryValue(c: Config, s: State, length: nat)
    requires Inv(s) && length > 0
    ensures var r := Resize(c, s, length);
      && Inv(r) && |r.buckets| == length
      && r.log == s.log + DestroyAllEvents(c, Flatten(s.buckets))
      && Within(r.buckets, Flatten(s.buckets))
      && (c.destroyValue != NoCallback ==>
            forall i, x :: 0 <= i < length && x in r.buckets[i] ==> ValueDestroyed(c.destroyValue, x.value, c.extra) in r.log)
  {
    var es := Flatten(s.buckets);
    var s0 := State(EmptyBuckets(length), s.count, s.log);
    FlattenEmptyBuckets(length);
    MigrateAllPreservesInv(c, s0, es);
    MigrateAllWithin(c, s0, es);
    FlattenValuesSet(s.buckets);
    var r := Resize(c, s, length);
    if c.destroyValue != NoCallback {
      forall i, x | 0 <= i < length && x in r.buckets[i]
        ensures ValueDestroyed(c.destroyValue, x.value, c.extra) in r.log
      {
        assert x in es;
        var k :| 0 <= k < |es| && es[k] == x;
        DestroyAllEventsHas(c, es, k);
      }
    }
  }

  /** When no two entries of the table have matching keys, a resize keeps
      every association and the number of entries, but the count, which it
      never resets, grows by that number again. */
  lemma ResizeKeepsEntries(c: Config, s: State, length: nat)
    requires Inv(s) && length > 0 && KeysDistinct(Flatten(s.buckets))
    ensures var r := Resize(c, s, length);
      && |Flatten(r.buckets)| == |Flatten(s.buckets)|
      && r.count == s.count + |Flatten(s.buckets)|
      && r.count - |Flatten(r.buckets)| == s.count
      && forall k :: 0 <= k < |Flatten(s.buckets)| ==>
           Lookup(c, r, Flatten(s.buckets)[k].key, NoPrefix) == Some(Flatten(s.buckets)[k])
  {
    var s0 := State(EmptyBuckets(length), s.count, s.log);
    FlattenEmptyBuckets(length);
    FlattenValuesSet(s.buckets);
    MigrateAllKeepsEntries(c, s0, Flatten(s.buckets));
  }

  /** Appending to a chain does not move a match it already has. */
  lemma FirstMatchAppendKept(chain: seq<Entry>, e: Entry, key: Bytes)
    requires FirstMatch(chain, key).Some?
    ensures FirstMatch(chain + [e], key) == FirstMatch(chain, key)
  {
    var b, m := chain + [e], FirstMatch(chain, key).value;
    assert KeysMatch(b[m].key, key);
    assert forall j :: 0 <= j < m ==> b[j] == chain[j];
  }

  /** One migration step raises the count and the number of entries alike. */
  lemma MigrateCount(c: Config, s: State, e: Entry)
    requires |s.buckets| > 0
    ensures var r := Migrate(c, s, e);
      r.count + |Flatten(s.buckets)| == s.count + |Flatten(r.buckets)|
  {
    var i := BucketOf(c, s, e.key, NoPrefix);
    FlattenUpdate(s.buckets, i, s.buckets[i] + [Entry(e.key, e.value, e.valueLength)]);
  }

  /** Migrating entries raises the count by exactly the number of entries
      it adds to the buckets, whatever their keys. */
  lemma {:induction false} MigrateAllCount(c: Config, s: State, es: seq<Entry>)
    requires |s.buckets| > 0
    ensures var r := MigrateAll(c, s, es);
      r.count + |Flatten(s.buckets)| == s.count + |Flatten(r.buckets)|
    decreases |es|
  {
    if es != [] {
      var n := |es| - 1;
      MigrateAllCount(c, s, es[..n]);
      MigrateCount(c, MigrateAll(c, s, es[..n]), es[n]);
    }
  }

  /** A key found without a prefix is still found after a migration step. */
  lemma MigrateKeepsFound(c: Config, s: State, e: Entry, key: Bytes)
    requires |s.buckets| > 0 && Lookup(c, s, key, NoPrefix).Some?
    ensures Lookup(c, Migrate(c, s, e), key, NoPrefix).Some?
  {
    var i, j := BucketOf(c, s, e.key, NoPrefix), BucketOf(c, s, key, NoPrefix);
    var r := Migrate(c, s, e);
    assert BucketOf(c, r, key, NoPrefix) == j;
    if e.value != Null && FirstMatch(s.buckets[i], e.key).None? && i == j {
      FirstMatchAppendKept(s.buckets[j], Entry(e.key, e.value, e.valueLength), key);
    }
  }

  /** After its migration step an entry's key is found without a prefix:
      either it was added, or a matching key was there already. */
  lemma MigrateFindsKey(c: Config, s: State, e: Entry)
    requires |s.buckets| > 0 && e.value != Null
    ensures Lookup(c, Migrate(c, s, e), e.key, NoPrefix).Some?
  {
    var i := BucketOf(c, s, e.key, NoPrefix);
    assert BucketOf(c, Migrate(c, s, e), e.key, NoPrefix) == i;
    if FirstMatch(s.buckets[i], e.key).None? {
      KeysMatchIsEquivalence(e.key, e.key, e.key);
      FindAppendNew(s.buckets[i], Entry(e.key, e.value, e.valueLength), e.key);
    }
  }

  /** A migration step keeps every key found so far and adds its own. */
  lemma MigrateFindsMore(c: Config, pre: State, done: seq<Entry>, e: Entry)
    requires |pre.buckets| > 0 && e.value != Null
    requires forall k :: 0 <= k < |done| ==> Lookup(c, pre, done[k].key, NoPrefix).Some?
    ensures forall k :: 0 <= k < |done + [e]| ==> Lookup(c, Migrate(c, pre, e), (done + [e])[k].key, NoPrefix).Some?
  {
    forall k | 0 <= k < |done + [e]|
      ensures Lookup(c, Migrate(c, pre, e), (done + [e])[k].key, NoPrefix).Some?
    {
      if k < |done| {
        MigrateKeepsFound(c, pre, e, done[k].key);
      } else {
        MigrateFindsKey(c, pre, e);
      }
    }
  }

  /** After migrating entries with non-null values, the key of every one of
      them is found without a prefix, whatever the keys. */
  lemma {:induction false} MigrateAllFindsAll(c: Config, s: State, es: seq<Entry>)
    requires |s.buckets| > 0 && ValuesSet(es)
    ensures forall k :: 0 <= k < |es| ==> Lookup(c, MigrateAll(c, s, es), es[k].key, NoPrefix).Some?
    decreases |es|
  {
    if es != [] {
      var n := |es| - 1;
      assert ValuesSet(es[..n]);
      MigrateAllFindsAll(c, s, es[..n]);
      MigrateFindsMore(c, MigrateAll(c, s, es[..n]), es[..n], es[n]);
      assert es[..n] + [es[n]] == es;
    }
  }

  /** For every table, matching keys or not: a resize raises the count by
      exactly the number of entries it re-adds, which is the number of
      entries the new buckets hold, and every old key is found afterwards
      without a prefix. */
  lemma ResizeCountsReadded(c: Config, s: State, length: nat)
    requires Inv(s) && length > 0
    ensures var r := Resize(c, s, length);
      && r.count == s.count + |Flatten(r.buckets)|
      && |Flatten(r.buckets)| <= |Flatten(s.buckets)|
      && forall k :: 0 <= k < |Flatten(s.buckets)| ==>
           Lookup(c, r, Flatten(s.buckets)[k].key, NoPrefix).Some?
  {
    var es := Flatten(s.buckets);
    var s0 := State(EmptyBuckets(length), s.count, s.log);
    FlattenEmptyBuckets(length);
    FlattenValuesSet(s.buckets);
    MigrateAllCount(c, s0, es);
    MigrateAllFindsAll(c, s0, es);
    MigrateAllPreservesInv(c, s0, es);
  }

  // ---------------------------------------------------------------------
  // One key in two buckets
  // ---------------------------------------------------------------------

  /** A hash library under which the unprefixed 64-bit hash of every key is 0
      and the prefixed one is 1. */
  function SplitSpooky(): Spooky
  {
    Spooky(
      (key, seed) => 0,
      (key, seed) => Word64(0, 0),
      (key, seed1, seed2) => (Word64(0, 0), Word64(0, 0)),
      st => (Word64(1, 0), Word64(0, 0)))
  }

  /** A 64-bit table over that library whose values are released with `free`. */
  function SplitConfig(): Config
  {
    Config(SplitSpooky(), HashSize64, Seed(Word64(0, 0), Word64(0, 0)), Null, Free, NoCallback)
  }

  /** A prefix of one byte, its state having absorbed exactly that byte. */
  function OneBytePrefix(): PrefixArg
  {
    WithPrefix([0x70], Absorb(Init(Word64(0, 0), Word64(0, 0)), [0x70]))
  }

  /** Two buckets after `ht_update_with_prefix` of key `k` under a prefix and
      then `ht_update` of the same key without one. */
  function TwoCopies(): State
  {
    var s1 := Update(SplitConfig(), State(EmptyBuckets(2), 0, []), 7, 1, Some([0x6b]), OneBytePrefix()).state;
    Update(SplitConfig(), s1, 8, 1, Some([0x6b]), NoPrefix).state
  }

  /** The entries of two buckets are those of the first, then the second. */
  lemma FlattenTwo(a: seq<Entry>, b: seq<Entry>)
    ensures Flatten([a, b]) == a + b
  {
    assert [a][..0] == [];
    assert Flatten([a]) == [] + a == a;
    assert [a, b][..1] == [a];
  }

  /** What the two updates leave behind: the unprefixed copy in bucket 0, the
      prefixed one in bucket 1, and a count of 2. */
  lemma TwoCopiesState()
    ensures TwoCopies() == State([[Entry([0x6b], 8, 1)], [Entry([0x6b], 7, 1)]], 2, [])
  {
    var c, k := SplitConfig(), [0x6b];
    var s0 := State(EmptyBuckets(2), 0, []);
    assert s0.buckets == [[], []];
    assert BucketOf(c, s0, k, OneBytePrefix()) == 1;
    var s1 := Update(c, s0, 7, 1, Some(k), OneBytePrefix()).state;
    assert s1 == Link(s0, 1, Entry(k, 7, 1));
    assert [] + [Entry(k, 7, 1)] == [Entry(k, 7, 1)];
    assert s1.buckets == [[], [Entry(k, 7, 1)]];
    assert BucketOf(c, s1, k, NoPrefix) == 0;
    assert TwoCopies() == Link(s1, 0, Entry(k, 8, 1));
    assert [] + [Entry(k, 8, 1)] == [Entry(k, 8, 1)];
  }

  /** The two-bucket state keeps the invariant, yet its two entries have
      matching keys. */
  lemma TwoCopiesInv()
    ensures var k: Bytes := [0x6b];
      var s := State([[Entry(k, 8, 1)], [Entry(k, 7, 1)]], 2, []);
      Inv(s) && !KeysDistinct(Flatten(s.buckets))
  {
    var k: Bytes := [0x6b];
    var e8, e7 := Entry(k, 8, 1), Entry(k, 7, 1);
    var s := State([[e8], [e7]], 2, []);
    FlattenTwo([e8], [e7]);
    assert Flatten(s.buckets) == [e8] + [e7] == [e8, e7];
    KeysMatchIsEquivalence(k, k, k);
    assert KeysMatch(Flatten(s.buckets)[0].key, Flatten(s.buckets)[1].key);
  }

  /** In the two-bucket state each copy is found by the lookup that hashes
      the way it was stored. */
  lemma TwoCopiesLookups()
    ensures var c, k: Bytes := SplitConfig(), [0x6b];
      var s := State([[Entry(k, 8, 1)], [Entry(k, 7, 1)]], 2, []);
      && Lookup(c, s, k, NoPrefix) == Some(Entry(k, 8, 1))
      && Lookup(c, s, k, OneBytePrefix()) == Some(Entry(k, 7, 1))
  {
    var c, k: Bytes := SplitConfig(), [0x6b];
    var s := State([[Entry(k, 8, 1)], [Entry(k, 7, 1)]], 2, []);
    KeysMatchIsEquivalence(k, k, k);
    assert BucketOf(c, s, k, NoPrefix) == 0;
    assert BucketOf(c, s, k, OneBytePrefix()) == 1;
  }

  /** The invariant allows, and the operations reach, one key stored in two
      buckets: the prefixed update hashes the key from the prefix state but
      stores the raw key, so an unprefixed update of the key, hashed from
      the seed, can miss it and insert it again elsewhere. Each copy is found
      by the lookup that hashes the way it was stored. */
  lemma UpdateCanStoreKeyTwice()
    ensures var c, s, k := SplitConfig(), TwoCopies(), [0x6b];
      && Create(2) == Some(State(EmptyBuckets(2), 0, []))
      && Inv(s)
      && s.buckets == [[Entry(k, 8, 1)], [Entry(k, 7, 1)]] && s.count == 2
      && !KeysDistinct(Flatten(s.buckets))
      && Lookup(c, s, k, NoPrefix) == Some(Entry(k, 8, 1))
      && Lookup(c, s, k, OneBytePrefix()) == Some(Entry(k, 7, 1))
  {
    TwoCopiesState();
    TwoCopiesInv();
    TwoCopiesLookups();
  }

  /** A hash library whose unprefixed 64-bit hash sends the key `a NUL y`
      to bucket 1 of two and every other key to bucket 0. */
  function NulSpooky(): Spooky
  {
    Spooky(
      (key, seed) => 0,
      (key, seed) => if key == [0x61, 0, 0x79] then Word64(1, 0) else Word64(0, 0),
      (key, seed1, seed2) => (Word64(0, 0), Word64(0, 0)),
      st => (Word64(0, 0), Word64(0, 0)))
  }

  function NulConfig(): Config
  {
    Config(NulSpooky(), HashSize64, Seed(Word64(0, 0), Word64(0, 0)), Null, Free, NoCallback)
  }

  /** Two buckets after `ht_add` of `a NUL x` and then of `a NUL y`. */
  function TwoNulKeys(): State
  {
    var s1 := Add(NulConfig(), State(EmptyBuckets(2), 0, []), 7, 1, Some([0x61, 0, 0x78]), NoPrefix).state;
    Add(NulConfig(), s1, 8, 1, Some([0x61, 0, 0x79]), NoPrefix).state
  }

  /** Both plain adds succeed, one key in each bucket, although the keys
      match. */
  lemma TwoNulKeysState()
    ensures var c, a, b: Bytes := NulConfig(), [0x61, 0, 0x78], [0x61, 0, 0x79];
      var s0 := State(EmptyBuckets(2), 0, []);
      var o1 := Add(c, s0, 7, 1, Some(a), NoPrefix);
      var o2 := Add(c, o1.state, 8, 1, Some(b), NoPrefix);
      && o1.status == Success && o2.status == Success
      && o2.state == TwoNulKeys()
      && TwoNulKeys() == State([[Entry(a, 7, 1)], [Entry(b, 8, 1)]], 2, [])
  {
    var c, a, b: Bytes := NulConfig(), [0x61, 0, 0x78], [0x61, 0, 0x79];
    var s0 := State(EmptyBuckets(2), 0, []);
    assert s0.buckets == [[], []];
    assert BucketOf(c, s0, a, NoPrefix) == 0;
    var s1 := Add(c, s0, 7, 1, Some(a), NoPrefix).state;
    assert s1 == Link(s0, 0, Entry(a, 7, 1));
    assert [] + [Entry(a, 7, 1)] == [Entry(a, 7, 1)];
    assert s1.buckets == [[Entry(a, 7, 1)], []];
    assert BucketOf(c, s1, b, NoPrefix) == 1;
    assert TwoNulKeys() == Link(s1, 1, Entry(b, 8, 1));
    assert [] + [Entry(b, 8, 1)] == [Entry(b, 8, 1)];
  }

  /** The state those adds leave keeps the invariant, yet its two keys
      match. */
  lemma TwoNulKeysInv()
    ensures var a, b: Bytes := [0x61, 0, 0x78], [0x61, 0, 0x79];
      var s := State([[Entry(a, 7, 1)], [Entry(b, 8, 1)]], 2, []);
      && KeysMatch(a, b) && Inv(s) && !KeysDistinct(Flatten(s.buckets))
  {
    var a, b: Bytes := [0x61, 0, 0x78], [0x61, 0, 0x79];
    var ea, eb := Entry(a, 7, 1), Entry(b, 8, 1);
    var s := State([[ea], [eb]], 2, []);
    KeysMatchIgnoresBytesAfterNul(a, b, 1);
    FlattenTwo([ea], [eb]);
    assert Flatten(s.buckets) == [ea] + [eb] == [ea, eb];
    assert KeysMatch(Flatten(s.buckets)[0].key, Flatten(s.buckets)[1].key);
  }

  /** Keys that match because they agree up to a NUL can still hash to
      different buckets, so two plain adds, without any prefix, store both:
      the table keeps the invariant but its keys are not pairwise distinct. */
  lemma AddCanStoreMatchingKeysTwice()
    ensures var a, b: Bytes := [0x61, 0, 0x78], [0x61, 0, 0x79];
      var s := TwoNulKeys();
      && KeysMatch(a, b)
      && s.buckets == [[Entry(a, 7, 1)], [Entry(b, 8, 1)]] && s.count == 2
      && Inv(s) && !KeysDistinct(Flatten(s.buckets))
  {
    TwoNulKeysState();
    TwoNulKeysInv();
  }

  /** Migrating two entries is migrating the first, then the second. */
  lemma MigrateAllTwo(c: Config, s: State, a: Entry, b: Entry)
    requires |s.buckets| > 0
    ensures MigrateAll(c, s, [a, b]) == Migrate(c, Migrate(c, s, a), b)
  {
    assert [a, b][..1] == [a];
    assert [a][..0] == [];
    assert MigrateAll(c, s, [a]) == Migrate(c, MigrateAll(c, s, []), a);
    assert MigrateAll(c, s, [a, b]) == Migrate(c, MigrateAll(c, s, [a]), b);
  }

  /** Re-adding the first copy into one empty bucket succeeds, then
      releases it. */
  lemma MigrateFirstCopy()
    ensures var e8 := Entry([0x6b], 8, 1);
      Migrate(SplitConfig(), State([[]], 2, []), e8) == State([[e8]], 3, [ValueDestroyed(Free, 8, Null)])
  {
    var c, k: Bytes := SplitConfig(), [0x6b];
    var s0, e8 := State([[]], 2, []), Entry(k, 8, 1);
    assert BucketOf(c, s0, k, NoPrefix) == 0;
    assert Add(c, s0, 8, 1, Some(k), NoPrefix).state == Link(s0, 0, e8);
    assert [] + [e8] == [e8];
  }

  /** Re-adding the second copy is refused, as its key matches the first;
      it is released all the same. */
  lemma MigrateSecondCopy()
    ensures var e8, e7 := Entry([0x6b], 8, 1), Entry([0x6b], 7, 1);
      var m := State([[e8]], 3, [ValueDestroyed(Free, 8, Null)]);
      Migrate(SplitConfig(), m, e7) == m.(log := m.log + [ValueDestroyed(Free, 7, Null)])
  {
    var c, k: Bytes := SplitConfig(), [0x6b];
    var e8, e7 := Entry(k, 8, 1), Entry(k, 7, 1);
    var m := State([[e8]], 3, [ValueDestroyed(Free, 8, Null)]);
    assert BucketOf(c, m, k, NoPrefix) == 0;
    KeysMatchIsEquivalence(k, k, k);
    assert FirstMatch([e8], k) == Some(0);
    assert Add(c, m, 7, 1, Some(k), NoPrefix).state == m;
  }

  /** Resizing that table to one bucket keeps only the first copy in
      bucket-then-chain order, the second add being refused; it still passes
      both values to `free`, and the count, which it never resets, grows by
      one only, for the one entry it re-added. */
  lemma ResizeKeepsFirstCopy()
    ensures var s, k := TwoCopies(), [0x6b];
      var r := Resize(SplitConfig(), s, 1);
      && Inv(r)
      && r.buckets == [[Entry(k, 8, 1)]]
      && r.count == s.count + 1 == 3
      && r.log == [ValueDestroyed(Free, 8, Null), ValueDestroyed(Free, 7, Null)]
  {
    var c, k: Bytes := SplitConfig(), [0x6b];
    var e8, e7 := Entry(k, 8, 1), Entry(k, 7, 1);
    TwoCopiesState();
    var s := TwoCopies();
    FlattenTwo([e8], [e7]);
    assert Flatten(s.buckets) == [e8, e7];
    assert EmptyBuckets(1) == [[]];
    var s0 := State([[]], 2, []);
    assert Resize(c, s, 1) == MigrateAll(c, s0, [e8, e7]);
    MigrateAllTwo(c, s0, e8, e7);
    MigrateFirstCopy();
    MigrateSecondCopy();
    assert [ValueDestroyed(Free, 8, Null)] + [ValueDestroyed(Free, 7, Null)]
        == [ValueDestroyed(Free, 8, Null), ValueDestroyed(Free, 7, Null)];
    assert Flatten([[e8]]) == [e8] by {
      assert [[e8]][..0] == [];
      assert [] + [e8] == [e8];
    }
  }

  // ---------------------------------------------------------------------
  // ht_iterate
  // ---------------------------------------------------------------------

  /** The visitor is called once per entry, in bucket-then-chain order, with
      that entry's value, value length, key and key length, and the index of
      a bucket holding it. */
  lemma {:induction false} VisitsFollowEntries(bs: seq<seq<Entry>>)
    ensures |Visits(bs)| == |Flatten(bs)|
    ensures forall k :: 0 <= k < |Visits(bs)| ==>
      var v, e := Visits(bs)[k], Flatten(bs)[k];
      && v.value == e.value && v.valueLength == e.valueLength
      && v.key == e.key && v.keyLength == |e.key|
      && v.index < |bs| && e in bs[v.index]
  {
    if bs != [] {
      var n := |bs| - 1;
      VisitsFollowEntries(bs[..n]);
      forall k | 0 <= k < |Visits(bs)|
        ensures var v, e := Visits(bs)[k], Flatten(bs)[k];
          && v.value == e.value && v.valueLength == e.valueLength
          && v.key == e.key && v.keyLength == |e.key|
          && v.index < |bs| && e in bs[v.index]
      {
        var m := |Flatten(bs[..n])|;
        if k < m {
          assert Visits(bs)[k] == Visits(bs[..n])[k];
          assert Flatten(bs)[k] == Flatten(bs[..n])[k];
          assert bs[..n][Visits(bs)[k].index] == bs[Visits(bs)[k].index];
        } else {
          assert Visits(bs)[k] == ChainVisits(bs[n], n)[k - m];
          assert Flatten(bs)[k] == bs[n][k - m];
        }
      }
    }
  }

  /** Entry `m` of bucket `i` is visited at its place in bucket-then-chain
      order, and the index passed with it is `i`, the bucket being walked. */
  lemma {:induction false} VisitsReportWalkedBucket(bs: seq<seq<Entry>>, i: nat, m: nat)
    requires i < |bs| && m < |bs[i]|
    ensures |Flatten(bs[..i])| + m < |Visits(bs)|
    ensures Visits(bs)[|Flatten(bs[..i])| + m]
      == Visit(bs[i][m].value, bs[i][m].valueLength, bs[i][m].key, |bs[i][m].key|, i)
    decreases |bs|
  {
    var n := |bs| - 1;
    VisitsFollowEntries(bs[..n]);
    if i < n {
      VisitsReportWalkedBucket(bs[..n], i, m);
      assert bs[..n][..i] == bs[..i];
    }
  }
}
