# ht: a separate-chaining hash table over SpookyHash, modelled in Dafny

The modelled library is a C hash table keyed by byte strings. A table
(`ht_t`) owns an array of bucket chains and a counter `num_of_entries`, and
holds a hash width, a seed, an opaque context pointer (`extra`) and two
caller-supplied destructors: one for values, one for the context. A key is
hashed with SpookyHash at one of six widths (32, 64, 128 bits, or 64 or 128
bits XOR-folded to a narrower width). The digest is reduced modulo the table
length to pick a bucket. Keys are compared with `strncmp` after a length
check. A *prefix* caches a SpookyHash state that has already absorbed some
leading key bytes, so that keys sharing that prefix are hashed from there.

The project has these modules:

- `Words` (words.dfy): unsigned 32- and 64-bit words, with XOR defined bit by bit.
- `HtDiffuse` (ht_diffuse.dfy): the three XOR folds.
- `HtApi` (ht_api.dfy): hash-width selectors, status codes, the seed union, value handles and function pointers.
- `SpookyContract` (spooky.dfy): the external hash library as a contract.
  - The one-shot hashes and `final` are arbitrary functions supplied with the table.
  - An incremental state is its seeds plus the bytes it has absorbed.
- `HtHash` (ht_hash.dfy): `ht_hash` and `ht_index`.
- `HtKeys` (ht_keys.dfy): key comparison (`ht_v_compare`, i.e. `strncmp` up to the first NUL) and the `strncpy` that `ht_get_copy` uses.
- `HtPrefix` (ht_prefix.dfy): the prefix object as a class: create, clone, append, destroy, prefix_key.
- `HtModel` (ht_model.dfy): the table as a value. It has:
  - a state holding the chains, the counter and a log of the destructor calls made;
  - one transition function per operation;
  - the invariant `Inv`.
- `HtProperties` (ht_properties.dfy): lemmas about the transition functions. Most operations have a preserved invariant, and each has a lookup-after lemma or a reference equation.
- `HtTable` (ht_table.dfy): the table object `ht_t` as a class.
  - Its fields are the bucket array (`array<seq<Entry>>`), the counter and the log.
  - Its methods mirror the C loops.
  - Every mutating method is proved to move the object from state `s` to the transition function's result on `s`.
  - The public operations (add, update, update_strict, remove, clear and resize) are also proved to keep `Inv`. `Destroy` and the single-step helpers (`LinkEntry`, `OverwriteEntry`, `UnlinkEntry`, `ReleaseEntry`, `ReleaseChain`) are proved only to follow their transition functions.
  - The convenience macros are methods that pass a null prefix.

The model keeps the library's behaviour as written, including its surprising
parts. The lemmas state these precisely:

- Key matching stops at the first NUL byte. So any two keys of equal length that agree up to and including a NUL match (compare equal), whatever follows it (`KeysMatchIgnoresBytesAfterNul`). The hash reads every byte, though, so such keys may land in different buckets.
- Two plain `ht_add` calls, without any prefix, can therefore store two matching keys, one in each bucket (`AddCanStoreMatchingKeysTwice`).
- `ht_get_copy` copies with `strncpy`. So a value with a non-NUL byte after its first NUL is never copied faithfully: the copy is NUL from the first NUL on (`StrncpyDropsBytesAfterNul`).
- `ht_add_with_prefix` stores the prefix bytes followed by the key. The lookups and `ht_update*` compare the raw key. So a key added under a non-empty prefix is never found again under that prefix (`PrefixedAddIsNotFound`).
- Removing the head entry of a chain empties the whole chain, but the counter drops by one only (`RemoveHeadDropsChain`).
- `ht_update_with_prefix` picks the bucket from the prefixed hash but stores and compares the raw key. So the same key can sit in two buckets at once: once from a prefixed update and once from an unprefixed one (`UpdateCanStoreKeyTwice`). With the NUL route above, this is a second way to store matching keys. `Inv` allows both, so it does not imply that the keys of a table are pairwise distinct.
- A resize of such a table keeps only the first copy, passes both values to the value destructor and raises the counter by one, from 2 to 3, although the table now holds one entry (`ResizeKeepsFirstCopy`).
- `ht_resize_table` never resets the counter, so for every table it grows by the number of entries the resize re-adds, and every old key is found afterwards (`ResizeCountsReadded`). When no two keys match, every entry is re-added with its value, so the counter grows by the number of entries again (`ResizeKeepsEntries`).
- `ht_resize_table` also passes every migrated value to the value destructor, including values it has just re-added (`ResizeReleasesEveryValue`).
- Overwriting a value in an update calls no destructor (`UpdateThenGet`).

The counter is therefore only ever *at least* the number of reachable
entries, and that is the form `Inv` keeps.

## Model

| member | source | states |
|---|---|---|
| HtDiffuse.Diffuse64To32 | ht_spookyhash.c:41-53 | the 64-to-32 fold is zero exactly when the two halves are equal |
| HtDiffuse.Diffuse128To64 | ht_spookyhash.c:55-65 | the 128-to-64 fold is zero exactly when the two words are equal |
| HtDiffuse.Diffuse128To32 | ht_spookyhash.c:67-79 | the 128-to-32 fold is zero exactly when the two words fold to the same 32 bits |
| HtDiffuse.Diffuse64To32IgnoresHalfOrder | ht_spookyhash.c:41-53 | the 64-to-32 fold XORs the two 32-bit halves and does not depend on which half is read first |
| HtDiffuse.DiffuseFoldsAgree | ht_spookyhash.c:55-79 | folding 128 bits to 32 equals folding 128 to 64 and then 64 to 32 |
| HtDiffuse.DiffuseWordOrder | ht_spookyhash.c:55-79 | neither 128-bit fold depends on the order of its two words |
| HtDiffuse.DiffuseCancels | ht_spookyhash.c:41-79 | equal halves or equal words fold to zero, as XOR does |
| HtApi.Selector | ht.h:13-21 | every width selector is one of 32, 64, 65, 128, 129, 130 |
| HtApi.SelectorOf | ht.h:13-21 | an integer is accepted as a selector exactly when it is one of the six enum values |
| HtApi.SelectorRoundTrip | ht.h:13-21 | selectors and their integers are in one-to-one correspondence |
| HtApi.Code | ht.h:23-35 | status codes lie in 0..9 and only success has code 0 |
| HtApi.CodesDistinct | ht.h:23-35 | distinct statuses have distinct codes |
| SpookyContract.Init | ht_spookyhash.c:930 | an initialised state keeps its seeds and has absorbed nothing |
| SpookyContract.Absorb | ht_spookyhash.c:931 | an update appends the given bytes to what the state has absorbed and keeps the seeds |
| SpookyContract.AbsorbTwice | ht_spookyhash.c:975 | absorbing `a` and then `b` equals absorbing `a + b` |
| HtHash.Continue | ht_spookyhash.c:155-160 | defines the prefix path: `final` on the prefix state after it absorbed the key; `BucketOfPrefixIsBucketOfConcatenation` states its meaning |
| HtHash.Hash | ht_spookyhash.c:130-264 | the digest is written in the union member that the width selects |
| HtHash.Index | ht_spookyhash.c:266-295 | for every width the index is below the table length |
| HtHash.Index128UsesSecondWord | ht_spookyhash.c:289-291 | at the undiffused 128-bit width the bucket depends on the second word only |
| HtHash.Bucket | ht_spookyhash.c:511-513 | the bucket of a key is below the table length |
| HtHash.BucketOfPrefixIsBucketOfConcatenation | ht_spookyhash.c:155-160 | hashing a key from a prefix state that absorbed `b` equals hashing `b + key` from the state before `b`, whatever the seed |
| HtKeys.CLength | ht_spookyhash.c:318 | the C-string length is the position of the first NUL, or the whole length |
| HtKeys.Strncmp | ht_spookyhash.c:318 | `strncmp`'s result, reduced to its sign |
| HtKeys.StrncmpZeroIff | ht_spookyhash.c:318 | `strncmp` over the full common length is zero exactly when the two strings agree up to the first NUL |
| HtKeys.Compare | ht_spookyhash.c:297-319 | defines `ht_v_compare`: -1 for different lengths, else `strncmp` over the length; `StrncmpZeroIff` and `KeysMatchIff` state its meaning |
| HtKeys.KeysMatch | ht_spookyhash.c:297-319 | defines key equality as a zero comparison; `KeysMatchIff` and `KeysMatchIsEquivalence` state its meaning |
| HtKeys.KeysMatchIff | ht_spookyhash.c:297-319 | two keys match exactly when they have equal lengths and equal bytes before the first NUL |
| HtKeys.KeysMatchIsEquivalence | ht_spookyhash.c:297-319 | key matching is reflexive, symmetric and transitive |
| HtKeys.NulFreeKeysMatchIffEqual | ht_spookyhash.c:313-318 | for NUL-free keys, matching is byte equality |
| HtKeys.KeysMatchIgnoresBytesAfterNul | ht_spookyhash.c:313-318 | any two keys of equal length that agree up to and including a NUL at the same position match, whatever bytes follow; a key and the same key with a NUL appended never match |
| HtKeys.Strncpy | ht_spookyhash.c:726 | the copy has the requested length, holds the source up to its first NUL and is NUL-padded after it |
| HtKeys.StrncpyFaithfulIff | ht_spookyhash.c:726 | the copy equals the stored bytes exactly when every byte after the first NUL is NUL |
| HtKeys.StrncpyDropsBytesAfterNul | ht_spookyhash.c:726 | for any value with a non-NUL byte after its first NUL, the copy is NUL from the first NUL on and so differs from the stored bytes |
| HtPrefix.InitialState | ht_spookyhash.c:930 | a new prefix starts from a state that has absorbed nothing |
| HtPrefix.Prefix.constructor | ht_spookyhash.c:917-940 | a created prefix holds a copy of the bytes and a seed-0 state that has absorbed exactly them |
| HtPrefix.Prefix.Copy | ht_spookyhash.c:942-963 | the clone helper: a prefix holding exactly the given bytes and state; it does not require the state to have absorbed the bytes, so it can build a prefix that is not `Valid` |
| HtPrefix.Prefix.Clone | ht_spookyhash.c:942-963 | a clone is a new object with equal bytes and an equal state, and is valid if the original is |
| HtPrefix.Prefix.Append | ht_spookyhash.c:965-984 | an appended prefix is new and holds `bytes + appendage` with a state that absorbed the appendage too; the original is unchanged |
| HtPrefix.DestroyPrefix | ht_spookyhash.c:986-998 | destroying succeeds exactly for a non-null prefix and refuses null with the null-prefix status |
| HtPrefix.PrefixKey | ht_spookyhash.c:1000-1017 | returns the prefix bytes and their length, or the null-prefix status for null |
| HtPrefix.AppendedStateIsCreatedState | ht.h:264-270 | appending to a valid prefix gives the state a prefix created from the concatenated bytes would have |
| HtModel.FirstMatch | ht_spookyhash.c:344-368 | the search result is the first chain position whose key matches, and none when no key matches |
| HtModel.EmptyBuckets | ht_spookyhash.c:458-461 | the new bucket array has the requested length and every bucket is empty |
| HtModel.StoredKey | ht_spookyhash.c:519-531 | defines the stored key: the prefix bytes followed by the key, or the key alone; `PrefixedAddIsNotFound` states its consequence |
| HtModel.Find | ht_spookyhash.c:344-368 | defines the chain search as the entry at `FirstMatch` |
| HtModel.Lookup | ht_spookyhash.c:650-689 | defines a lookup: `Find` of the raw key in the bucket chosen by the (prefixed) hash; `AddThenGet`, `UpdateThenGet` and `RemoveThenGet` state its meaning |
| HtModel.DestroyEvents | ht_spookyhash.c:321-342 | defines the calls of releasing one entry: the value destructor on its value when both are set; `DestroyAllEventsAt` states their meaning |
| HtModel.Create | ht_spookyhash.c:421-464 | defines creation: no table for length 0, else empty buckets; `CreateIsEmpty` states its meaning |
| HtModel.Add | ht_spookyhash.c:496-554 | defines add; `AddStatus`, `AddThenGet`, `AddKeepsOtherKeys` and `AddPreservesInv` state its meaning |
| HtModel.Link | ht_spookyhash.c:550-551 | defines appending an entry at the tail of a chain and counting it; `LinkPreservesInv` and `LinkKeepsLookups` state its meaning |
| HtModel.Overwrite | ht_spookyhash.c:595-601 | defines replacing a value and its length in place; `OverwritePreservesInv` and `OverwriteKeepsLookups` state its meaning |
| HtModel.Update | ht_spookyhash.c:556-604 | defines update; `UpdateThenGet`, `UpdateKeepsOtherKeys` and `UpdatePreservesInv` state its meaning |
| HtModel.UpdateStrict | ht_spookyhash.c:606-648 | defines update_strict; `UpdateStrictNeverInserts` states its meaning |
| HtModel.Unlink | ht_spookyhash.c:764-792 | defines unlinking (at the head, dropping the chain), releasing and uncounting one entry; `UnlinkPreservesInv` and `UnlinkKeepsFind` state its meaning |
| HtModel.Remove | ht_spookyhash.c:734-793 | defines remove; `RemoveThenGet`, `RemoveNonHeadKeepsOthers` and `RemoveHeadDropsChain` state its meaning |
| HtModel.Clear | ht_spookyhash.c:795-824 | defines clear; `ClearEmpties` states its meaning |
| HtModel.Migrate | ht_spookyhash.c:855-863 | keeps the number of buckets; `MigratePreservesInv` and `MigrateStep` state its meaning |
| HtModel.MigrateAll | ht_spookyhash.c:847-867 | keeps the number of buckets; `MigrateAllPreservesInv` and `MigrateAllKeepsEntries` state its meaning |
| HtModel.Resize | ht_spookyhash.c:826-872 | the result has the requested number of buckets; `ResizeReleasesEveryValue`, `ResizeKeepsEntries` and `ResizeKeepsFirstCopy` state the rest |
| HtModel.Visits | ht_spookyhash.c:874-912 | defines the visit sequence; `VisitsFollowEntries` states its meaning |
| HtModel.Destroy | ht_spookyhash.c:466-490 | defines destroy as clear followed by the context release; `DestroyReleasesAll` states its meaning |
| HtProperties.DestroyAllEventsCount | ht_spookyhash.c:321-342 | releasing entries calls the value destructor once per entry when it is set, and never when it is null; no call goes through null or gets a null value |
| HtProperties.CreateIsEmpty | ht_spookyhash.c:421-464 | a table exists exactly for a positive length, and it then has that many empty buckets, count 0, no calls made and no key found |
| HtProperties.NullArgumentsRejected | ht_spookyhash.c:507-509 | a null key gives the null-key status, and a null value gives the null-value status, in add, update, update_strict and remove; the table is unchanged |
| HtProperties.AddPreservesInv | ht_spookyhash.c:496-554 | add keeps the invariant |
| HtProperties.LinkPreservesInv | ht_spookyhash.c:550-551 | appending an entry with a non-null value and a key not matching any in its chain, and counting it, keeps the invariant |
| HtProperties.AppendKeepsChain | ht_spookyhash.c:372-394 | appending such an entry at the tail keeps the chain free of matching keys and null values |
| HtProperties.LinkKeepsLookups | ht_spookyhash.c:550-551 | appending an entry changes no lookup of a key that does not match its key |
| HtProperties.AddThenGet | ht_spookyhash.c:496-554 | without a prefix, add succeeds exactly when the key is not in use; the key then finds the new entry, and the count and the number of entries both grow by one; otherwise the status is key-in-use and nothing changes |
| HtProperties.AddKeepsOtherKeys | ht_spookyhash.c:541-552 | add appends at the tail of the target chain only, leaves every other bucket alone, and changes no lookup of a non-matching key under any prefix |
| HtProperties.PrefixedAddIsNotFound | ht_spookyhash.c:519-531 | a key added under a non-empty prefix is stored as prefix plus key, so the same key under the same prefix does not find it |
| HtProperties.AddStatus | ht_spookyhash.c:496-554 | under any prefix, add succeeds exactly when the stored key (prefix plus key) matches no key of the bucket chosen by the prefixed hash; on success that chain then finds the new entry, the count and the number of entries grow by one and no destructor is called; otherwise the status is key-in-use and nothing changes |
| HtProperties.AddTwiceFails | ht.h:100-103 | under any prefix, a second add of a key just added is refused and changes nothing |
| HtProperties.UpdatePreservesInv | ht_spookyhash.c:556-648 | update and update_strict keep the invariant |
| HtProperties.OverwritePreservesInv | ht_spookyhash.c:595-601 | replacing a value and its length in place, with a non-null value, keeps the invariant |
| HtProperties.OverwriteKeepsFind | ht_spookyhash.c:595-601 | overwriting the first match of a key changes no chain search for a key that does not match it |
| HtProperties.OverwriteKeepsLookups | ht_spookyhash.c:595-601 | overwriting the first match of a key changes no lookup of a non-matching key under any prefix |
| HtProperties.UpdateThenGet | ht_spookyhash.c:556-604 | update always succeeds; a matching entry has its value and length overwritten in place at its own position, otherwise an entry with the raw key is appended to the chain; no other bucket changes; the key under the same prefix then finds the new value and length; the count grows only if the key was absent; no destructor is called |
| HtProperties.UpdateKeepsOtherKeys | ht_spookyhash.c:556-648 | update and update_strict change no lookup of a non-matching key |
| HtProperties.UpdateAbsentIsAdd | ht.h:117-120 | without a prefix, updating an absent key is adding it |
| HtProperties.UpdateStrictNeverInserts | ht_spookyhash.c:606-648 | update_strict refuses exactly the absent keys and then changes nothing; otherwise it equals update; it never changes the count or the number of entries |
| HtProperties.RemovePreservesInv | ht_spookyhash.c:734-793 | remove keeps the invariant |
| HtProperties.UnlinkPreservesInv | ht_spookyhash.c:764-792 | unlinking any entry (or, at the head, emptying its chain), releasing it and decrementing the count keeps the invariant |
| HtProperties.UnlinkKeepsChain | ht_spookyhash.c:764-792 | a chain with one entry unlinked, or emptied, stays free of matching keys and null values and is shorter |
| HtProperties.UnlinkKeepsFind | ht_spookyhash.c:776-786 | unlinking the first match of a key alone changes no chain search for a key that does not match it |
| HtProperties.RemoveThenGet | ht_spookyhash.c:734-793 | remove succeeds exactly when the key is in use; the key is then not found, the count drops by one and the removed value is released; otherwise the status is key-not-in-use and nothing changes |
| HtProperties.RemoveNonHeadKeepsOthers | ht_spookyhash.c:776-790 | removing a match that is not the head of its chain splices out exactly that entry, keeping the rest of the chain in order; no other bucket changes; one entry fewer and no other key's lookup changes |
| HtProperties.RemoveHeadDropsChain | ht_spookyhash.c:764-774 | removing a chain head empties the whole bucket and changes no other bucket, so no key of that bucket is found, yet the count drops by one only |
| HtProperties.ClearPreservesInv | ht_spookyhash.c:795-824 | clear keeps the invariant |
| HtProperties.ReleaseStep | ht_spookyhash.c:805-819 | releasing the buckets before `i` and then bucket `i` makes the calls of releasing the buckets up to and including `i` |
| HtProperties.EmptyPrefixStep | ht_spookyhash.c:818 | emptying bucket `i` after the buckets before it extends the emptied prefix by one |
| HtProperties.DestroyAllEventsAt | ht_spookyhash.c:321-342 | with the value destructor set, releasing entries makes exactly one call per entry, and call `k` releases the value of entry `k` |
| HtProperties.ClearLog | ht_spookyhash.c:795-824 | clear only appends to the log, only value-destructor calls, all valid; none without a destructor, otherwise one per entry with call `k` releasing the value of the `k`-th entry in bucket-then-chain order |
| HtProperties.ClearEmpties | ht_spookyhash.c:795-824 | clear keeps the invariant and the length, empties every bucket, zeroes the count and finds no key; it keeps the earlier calls and appends nothing without a value destructor, otherwise exactly one call per entry, call `k` releasing the value of the `k`-th entry in bucket-then-chain order |
| HtProperties.DestroyReleasesAll | ht_spookyhash.c:466-490 | destroy keeps the earlier calls, then releases each entry's value once, in bucket-then-chain order, when the value destructor is set, then the context once, last, when it and its destructor are set; no call goes through null or gets null |
| HtProperties.MigrateAllPreservesInv | ht_spookyhash.c:847-867 | the re-adding loop keeps the invariant, releases every migrated entry, and raises the count by at most one per entry |
| HtProperties.MigratePreservesInv | ht_spookyhash.c:855-863 | one re-add and release keeps the invariant, appends exactly that entry's destructor call, and raises the count by zero or one |
| HtProperties.MigrateAllChainEnds | ht_spookyhash.c:851-866 | migrating none of a chain is migrating nothing more, and migrating all of it is migrating the chain |
| HtProperties.MigrateAllStep | ht_spookyhash.c:851-866 | migrating entry `j` of a chain after the entries before it is migrating the chain up to and including `j` |
| HtProperties.MigrateStep | ht_spookyhash.c:855-863 | re-adding one entry whose key matches no earlier entry adds it and loses no earlier entry |
| HtProperties.MigrateAllKeepsEntries | ht_spookyhash.c:847-867 | re-adding entries whose keys pairwise do not match finds every one afterwards and raises the count by their number |
| HtProperties.ResizeReleasesEveryValue | ht_spookyhash.c:826-872 | resize sets the new length and keeps the invariant; it puts only old entries in the new buckets and passes every old value, even the ones it keeps, to the value destructor |
| HtProperties.MigrateCount | ht_spookyhash.c:855-863 | one re-add and release raises the count and the number of entries alike |
| HtProperties.MigrateAllCount | ht_spookyhash.c:847-867 | the re-adding loop raises the count by exactly the number of entries it adds, whatever the keys |
| HtProperties.FirstMatchAppendKept | ht_spookyhash.c:372-394 | appending at the tail does not move an existing first match |
| HtProperties.MigrateKeepsFound | ht_spookyhash.c:855-863 | a key found without a prefix is still found after one re-add and release |
| HtProperties.MigrateFindsKey | ht_spookyhash.c:855-863 | after re-adding an entry with a non-null value, its key is found without a prefix, added or already there |
| HtProperties.MigrateFindsMore | ht_spookyhash.c:855-863 | a re-add and release of an entry with a non-null value keeps every key found so far and adds its own |
| HtProperties.MigrateAllFindsAll | ht_spookyhash.c:847-867 | after the re-adding loop over entries with non-null values, every one of their keys is found without a prefix |
| HtProperties.ResizeCountsReadded | ht_spookyhash.c:826-872 | for every table satisfying the invariant, matching keys or not: the count grows by exactly the number of entries the new buckets hold, that number is at most the old number of entries, and every old key is found without a prefix |
| HtProperties.ResizeKeepsEntries | ht_spookyhash.c:826-872 | when no two keys match, resize keeps every association and the number of entries, but the count grows by that number again |
| HtProperties.UpdateCanStoreKeyTwice | ht_spookyhash.c:556-604 | there is a hash function and a prefix for which a prefixed update then an unprefixed update of one key leave that key in two buckets; the state keeps the invariant, its keys are not pairwise distinct, and each lookup finds a different value |
| HtProperties.TwoCopiesState | ht_spookyhash.c:556-604 | the two updates of that example give exactly the two one-entry buckets, count 2 and no destructor calls |
| HtProperties.TwoCopiesInv | ht_spookyhash.c:556-604 | that state satisfies the invariant although its keys are not pairwise distinct |
| HtProperties.TwoCopiesLookups | ht_spookyhash.c:650-689 | in that state the unprefixed lookup finds value 8 and the prefixed lookup finds value 7 |
| HtProperties.TwoNulKeysState | ht_spookyhash.c:496-554 | under a hash separating `a NUL x` from `a NUL y`, two plain adds both succeed and put one entry in each of two buckets, count 2 |
| HtProperties.TwoNulKeysInv | ht_spookyhash.c:313-318 | the two-bucket state holding `a NUL x` and `a NUL y` satisfies the invariant, though the keys match and so are not pairwise distinct |
| HtProperties.AddCanStoreMatchingKeysTwice | ht_spookyhash.c:496-554 | that state holds two matching keys, keeps the invariant, and its keys are not pairwise distinct |
| HtProperties.MigrateAllTwo | ht_spookyhash.c:847-867 | migrating two entries is migrating the first and then the second |
| HtProperties.MigrateFirstCopy | ht_spookyhash.c:855-863 | resizing that state to one bucket first re-adds the value-8 entry and releases value 8 |
| HtProperties.MigrateSecondCopy | ht_spookyhash.c:855-863 | the re-add of the value-7 copy is then refused and value 7 is released anyway |
| HtProperties.ResizeKeepsFirstCopy | ht_spookyhash.c:826-872 | resizing that state to one bucket keeps the invariant and only the value-8 entry, raises the count from 2 to 3 and releases value 8 then value 7 |
| HtProperties.VisitsFollowEntries | ht_spookyhash.c:874-912 | iterate calls the visitor once per entry in bucket-then-chain order, with that entry's value, lengths, key and the index of a bucket holding it |
| HtProperties.VisitsReportWalkedBucket | ht_spookyhash.c:874-912 | entry `m` of bucket `i` is visited at position (entries of the buckets before `i`) + `m`, with its value, lengths, key and the index `i` of the bucket being walked |
| HtTable.FindEntry | ht_spookyhash.c:344-368 | the chain walk returns the first matching position |
| HtTable.Table.Init | ht_spookyhash.c:445-463 | a new table has `length` empty buckets, count 0, and the settings as given |
| HtTable.Table.IndexOf | ht_spookyhash.c:511-513 | the index computed for a key is the model's bucket for it |
| HtTable.Table.AddWithPrefix | ht_spookyhash.c:496-554 | the object moves to the add transition's result, keeps the invariant, and returns its status |
| HtTable.Table.UpdateWithPrefix | ht_spookyhash.c:556-604 | the object moves to the update transition's result, keeps the invariant, and returns its status |
| HtTable.Table.UpdateStrictWithPrefix | ht_spookyhash.c:606-648 | the object moves to the update_strict transition's result, keeps the invariant, and returns its status |
| HtTable.Table.GetWithPrefix | ht_spookyhash.c:650-689 | succeeds exactly when the key is found; the value and its length are written only when a destination is given; the table is not changed |
| HtTable.Table.GetCopyWithPrefix | ht_spookyhash.c:691-732 | like get, but the destination receives a `strncpy` copy of the stored value, of the stored length |
| HtTable.Table.RemoveWithPrefix | ht_spookyhash.c:734-793 | the object moves to the remove transition's result, keeps the invariant, and returns its status |
| HtTable.Table.LinkEntry | ht_spookyhash.c:550-551 | the object moves to the state with the entry appended at the tail of the chain and the count raised by one |
| HtTable.Table.OverwriteEntry | ht_spookyhash.c:595-601 | the object moves to the state with that entry's value and length replaced and nothing released |
| HtTable.Table.UnlinkEntry | ht_spookyhash.c:764-792 | the object moves to the state with the entry unlinked (the whole chain at the head), the entry released and the count lowered by one |
| HtTable.Table.ReleaseEntry | ht_spookyhash.c:321-342 | releasing an entry records the value destructor call when the destructor and the value are set |
| HtTable.Table.ReleaseChain | ht_spookyhash.c:809-816 | walking a chain releases its entries head to tail |
| HtTable.Table.ClearTable | ht_spookyhash.c:795-824 | the object moves to the clear transition's result and keeps the invariant |
| HtTable.Table.ReleaseAllChains | ht_spookyhash.c:805-819 | every bucket ends empty and the log grows by the release of every old entry, bucket by bucket, head to tail; the count is untouched |
| HtTable.Table.ReleaseBucket | ht_spookyhash.c:807-818 | one bucket released and emptied after the ones before it, extending the emptied prefix and the release log by that bucket |
| HtTable.Table.MigrateChain | ht_spookyhash.c:849-866 | each entry of an old chain is added again without a prefix and then released |
| HtTable.Table.MigrateNext | ht_spookyhash.c:851-866 | after migrating entry `j` of a chain the object is the migration of the entries before it and entry `j` |
| HtTable.Table.MigrateEntry | ht_spookyhash.c:855-863 | the object moves to the migration step's result: the entry added again without a prefix, whatever the outcome, then released; the invariant is kept |
| HtTable.Table.ResizeTable | ht_spookyhash.c:826-872 | the object gets a new bucket array and moves to the resize transition's result, keeping the invariant |
| HtTable.Table.Iterate | ht_spookyhash.c:874-912 | a null visitor is refused; otherwise the visits are the model's visit sequence of the buckets |
| HtTable.Table.Destroy | ht_spookyhash.c:466-490 | the object moves to the destroy transition's result |
| HtTable.Table.Add | ht.h:114-115 | `ht_add` is add with a null prefix |
| HtTable.Table.Update | ht.h:131-132 | `ht_update` is update with a null prefix |
| HtTable.Table.UpdateStrict | ht.h:148-149 | `ht_update_strict` is update_strict with a null prefix |
| HtTable.Table.Get | ht.h:167-168 | `ht_get` is get with a null prefix |
| HtTable.Table.GetCopy | ht.h:187-188 | `ht_get_copy` is get_copy with a null prefix |
| HtTable.Table.Remove | ht.h:201-202 | `ht_remove` is remove with a null prefix |
| HtTable.CreateFull | ht_spookyhash.c:421-464 | no table for length 0; otherwise a fresh valid table whose model is the empty table of that length, with the given settings |
| HtTable.CreateTable | ht_spookyhash.c:410-419 | `ht_create` is `ht_create_full` with no context, the library's free wrapper for values and `free` for the context |

## Left out

- Memory management. `malloc`, `free` and `realloc` are not modelled, and neither are the leaks: the key leaked on a refused add, the prefix struct kept by `ht_destroy_prefix`, and the old value not released by an update. Keys, prefix bytes and copies are values, and values are opaque handles.
- Destructor calls are recorded in a log rather than run. A callback is a name, not arbitrary code.
- The internals of SpookyHash are not modelled. Its one-shot hashes and `final` are arbitrary functions, and a state is its seeds plus the bytes it absorbed; `spookyhash.h` is not part of this model.
- A null table pointer (the null-table status, and the early return of `ht_destroy`) is not modelled, because the methods are called on an object.
- The null-pointer checks inside `ht_v_compare` are not modelled, because the entries it is given are never null.
- `size_t` widths are not modelled. Lengths and counts are unbounded naturals, so wrap-around of `num_of_entries` or of a length product cannot occur.
- A resize to length 0 is excluded by a precondition, because the C code then takes a remainder modulo zero.
- Hash-width values outside the enum are not representable.
- The union `ht_seed_t` is read with a little-endian layout: `s32` is the low half of the first word.
- The iterator body is not run. `Iterate` returns the sequence of calls it would make.
- `HtKeys.Strncmp`: only the sign of `strncmp` is kept, not its magnitude, because only its comparison with zero is used.
- `HtKeys.Strncpy`: a source shorter than the requested length and without a NUL is read as if a NUL followed it; the C call would read past the value.
- Two walks are subsumed by sequence operations on the chain: the predecessor walk of `ht_remove_with_prefix` and the tail walk of `ht_v_append`.
- The separate `table_length` field is not kept; the table length is the length of the bucket array, which the source keeps equal to it.
- On key equality the code is followed: lengths must be equal, and `strncmp` stops at the first NUL. The documentation speaks of keys simply being equal.
- `Inv`: the counter is only proved to be at least the number of reachable entries, not equal to it, because removing a chain head and resizing both break equality in the source.
