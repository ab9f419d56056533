# Chained hash table (ankurs/Hash-Table), modelled in Dafny

The system is a fixed-capacity chained hash table in C. A table holds
256 bucket heads (`store_house`), an ownership mode (`MODE_COPY` or
`MODE_VALUEREF`) and a counter `key_count`. Each bucket heads a singly
linked chain of elements. An element holds a copied key, the key length,
a value and the value length. In COPY mode the value is a table-owned copy
of the caller's bytes. In VALUEREF mode it is the caller's own pointer: the
table borrows it and must never free it.

Every operation picks the bucket with the `HASH` macro: the first four key
bytes read as an `int`, plus the key length, modulo 256. It then walks that
bucket's chain. `add` appends at the tail and does not check for duplicate
keys. `lookup`, `has_key` and `remove` act on the first element in chain
order whose length and bytes both match.

Layout:

- `hashtable_h.dfy` (module `HashTableH`, from `hashtable.h`): the element
  layout and the mode, `Prefix` (the `*(int *)key` read), the routing used
  by the table (`Hash`) and the macro exactly as written (`HashAsWritten`),
  with C's truncating `%` and the casts to `int` and `size_t` spelled out.
- `chains.dfy` (module `Chains`): chains as sequences, head first. It holds
  the matching rule (`Matches`, `FirstMatch`), the inner
  length-skipping walk, unlinking and the bucket-order flattening that
  `get_keys` and teardown follow. It also holds the as-written walk of
  `has_key` and `remove` and the as-written unlink.
- `elements.dfy` (module `Elements`): building an element inside `add`
  (allocation outcomes are an input), and destroying one. Destruction
  is given both as written and in an ownership-aware form.
- `hashtable.dfy` (module `HashTable`): the class `Table`. Its
  `storeHouse` is an `array` of 256 chains and its `keyCount` is updated in
  place. `Valid()` says that `keyCount` is the total number of chained
  elements, that each element is well formed for the mode, and that each
  element of four or more key bytes sits in the bucket its key hashes to.
  The class has the constructor, `Add`, `Remove`, `Lookup`, `HasKey`,
  `GetKeys`, `Delete` (teardown) and the `HT_*` macros.
- `demo.dfy` (module `Demo`): client runs over the table. `MainScenario`
  is the run of `main.c`. The other methods cover a forced bucket collision,
  duplicate keys, and the two modes.

`main.c:19-20` inserts and removes key 102 with key length 1 as well as value
length 1. The key is hashed on all four bytes of the caller's `int`, but only
one byte is copied. The model follows the code here: a caller's key is a byte
buffer together with a `keyLen` no larger than the buffer.

The table's defects are modelled twice (see Findings). One member states
what the code does, with a lemma that shows an input where it goes wrong.
A corrected member states the evident intent, and the table uses the
corrected one.

## Model

| member | source | states |
|---|---|---|
| HashTableH.Prefix | hashtable.h:7 | the `*(int *)x` read of the key's first four bytes always lies in the 32-bit signed range |
| HashTableH.PrefixOfIntBytes | hashtable.h:7 | reading back the four little-endian bytes of any C `int` gives that `int`, so an `int` key is routed on its own value |
| HashTableH.Hash | hashtable.h:6-7 | the bucket the table uses, (prefix + key_len) reduced modulo HASH_LEN, is always one of the 256 heads |
| HashTableH.CRem | hashtable.h:7 | C's `%`: the remainder lies strictly inside (-m, m) and takes the dividend's sign; it is 0 when m divides the dividend, the Euclidean remainder for a non-negative dividend, and the Euclidean remainder minus m otherwise |
| HashTableH.HashAsWritten | hashtable.h:7 | the macro as written, `(size_t)((prefix + (int)len) % 256)`, yields some `size_t` |
| HashTableH.ToInt | hashtable.h:7 | `(int)y`: the result is a C int; a length up to INT_MAX is kept, and a length between INT_MAX and 2^32 - 1 wraps to that length minus 2^32 |
| HashTableH.ToSizeT | hashtable.h:7 | `(size_t)`: the result is at most SIZE_MAX; a non-negative int is kept, and a negative int down to -2^64 becomes that int plus 2^64 (so -1 becomes SIZE_MAX) |
| HashTableH.HashAsWrittenInRange | hashtable.h:6-7 | when key_len is at most INT_MAX (so `(int)` keeps it) and the signed sum is non-negative, the macro's index is below 256 and equals the table's bucket |
| HashTableH.HashAsWrittenOutOfRange | hashtable.h:7 | for key bytes FF FF FF FF (prefix -1) and length 0 the macro yields SIZE_MAX, far outside the 256 heads |
| HashTableH.HashIgnoresTail | hashtable.h:7 | two keys with the same first four bytes and the same length land in the same bucket, whatever their other bytes |
| HashTableH.HashOfStoredKey | hashtable.h:7 | the element's copy of a key of four or more bytes routes to the bucket the caller's key was routed to |
| Chains.FirstMatch | hashtable.c:165-184 | the first position in chain order whose length and bytes match: it matches, no earlier element does, and it is the chain length when nothing matches |
| Chains.FirstMatchUnique | hashtable.c:165-184 | any position with those two properties is the first match |
| Chains.SkipToLength | hashtable.c:135-139 | the inner walk stops at the first element at or after `t` whose key_len equals the given length, or at the end |
| Chains.Unlink | hashtable.c:144 | unlinking removes exactly one element: the others keep their order, and the multiset loses exactly that element |
| Chains.FlattenUpdate | hashtable.c:106 | replacing one chain changes the total element count by the difference in that chain's length, which keeps key_count right across add and remove |
| Chains.FlattenEmpty | hashtable.c:26 | the element sequence is empty exactly when every bucket is empty |
| Chains.FlattenMembers | hashtable.c:223-244 | an element is in the bucket-order enumeration exactly when it is in some bucket |
| Chains.FirstMatchAppend | hashtable.c:102-118 | appending at the tail never moves an existing first match; only a chain without one can have the new element as its match |
| Chains.FirstMatchAfterUnlink | hashtable.c:140-149 | removing an element that does not answer to a key leaves that key's lookup result and its presence unchanged |
| Chains.StepAsWritten | hashtable.c:199-213 | one pass of the has_key/remove outer loop: it skips elements of other lengths, and it either stops on a match, stops at the chain end, or ends on an element of the right length with other bytes without moving past it |
| Chains.ScanAsWritten | hashtable.c:133-151 | the as-written walk from the bucket head: a reported position holds a match with no element of the right length before it, and an absence means no element of the chain has the right length |
| Chains.RemoveChainAsWritten | hashtable.c:126-153 | remove as written on one bucket: when it removes, it deletes the first match, and leaves the chain unchanged when that match is the head and unlinks it otherwise; when it reports a miss, nothing matches; when it loops, there is no match or the first element of the right length comes before the match |
| Chains.StepAsWrittenStalls | hashtable.c:199-213 | once a has_key/remove pass ends on an element with the right length but other bytes, the next pass ends at the same element: the loop never exits |
| Chains.ScanAsWrittenAgrees | hashtable.c:133-151 | the as-written walk, when it stops, reports the first match or its absence; it diverges exactly when the first element of the right length has other bytes |
| Chains.UnlinkAsWritten | hashtable.c:131-144 | for a head match, `prev->next = temp->next` leaves the chain read from the bucket as long as before, with the freed head still first; for any other match exactly that one element leaves the chain |
| Chains.RemoveHeadDangles | hashtable.c:131-147 | removing a key held by the bucket head leaves the deleted element as head, one more element than the decremented key_count allows |
| Chains.ScanDivergesExample | hashtable.c:133-151 | a one-element chain with key 01 02 03 04 and a removal or has_key of 01 02 03 05 (length 4) never terminates, although nothing matches |
| Elements.NewEntry | hashtable.c:50-100 | add builds no element exactly when the element or key allocation fails, or the value allocation does in COPY mode; otherwise the key is a copy of `key_len` bytes, and the value is a byte copy in COPY mode or the caller's pointer in VALUEREF mode |
| Elements.ElementDeleteAsWritten | hashtable.c:14-20 | the destructor as written leaks nothing, but it frees the caller's memory whenever the value is borrowed |
| Elements.ElementDelete | hashtable.c:14-20 | ownership-aware destruction never frees caller memory and never leaks a buffer the table owns |
| Elements.DeleteAsWrittenFreesCallerValue | hashtable.c:17-18 | for a VALUEREF element the as-written destructor frees the caller's value, while the ownership-aware one frees only the key |
| Elements.DeleteAgreesInCopyMode | hashtable.c:17-19 | for a COPY element both destructors release the same buffers |
| Elements.Releases | hashtable.c:37-42 | destroying elements one by one yields one release per element, in order, none freeing caller memory and none leaking |
| HashTable.MatchesOnlyInOwnBucket | hashtable.c:102-118 | an element matching a key of four or more bytes can only sit in that key's bucket, so a miss in that bucket is a miss in every bucket |
| HashTable.Table.constructor | hashtable.c:23-29 | a new table has all 256 buckets empty, key_count 0 and the given mode |
| HashTable.Table.Add | hashtable.c:47-120 | on success the new element is the tail of bucket HASH(key, key_len), no other bucket changes, key_count rises by 1 and 0 is returned; on allocation failure -1 is returned and nothing changes; the table invariant is kept |
| HashTable.Table.Remove | hashtable.c:122-154 | the first match in the key's bucket is unlinked from its place (head or not) and destroyed, key_count drops by 1 and 0 is returned; without a match -1 is returned and nothing changes |
| HashTable.Table.Lookup | hashtable.c:156-187 | returns the value of the first match in chain order, or NULL when there is none, and changes nothing |
| HashTable.Table.HasKey | hashtable.c:189-216 | returns 1 exactly when some element of the key's bucket matches, which is exactly when lookup finds a value, and 0 otherwise; changes nothing |
| HashTable.Table.GetKeys | hashtable.c:218-246 | delivers the keys of all elements, buckets 0 to 255 and each chain head to tail, with none omitted, and a count equal to key_count |
| HashTable.Table.Delete | hashtable.c:31-45 | teardown empties every bucket and destroys every element exactly once, in bucket and chain order, freeing no caller memory and leaking no owned buffer |
| HashTable.Table.HtAdd | hashtable.h:42 | HT_ADD passes sizeof of key and value as the lengths, so the stored key is the whole key object |
| HashTable.Table.HtRemove | hashtable.h:44 | HT_REMOVE removes the first match of the whole key object |
| HashTable.Table.HtLookup | hashtable.h:46 | HT_LOOKUP returns the value of the first element holding exactly the key object's bytes, or NULL |
| HashTable.Table.HtHasKey | hashtable.h:48 | HT_HAS_KEY is 1 exactly when an element of the key's bucket holds exactly the key object's bytes |
| HashTable.GetKeysAsWritten | hashtable.c:218-246 | get_keys as written returns the element count, but the caller's `keys` variable stays as it was, and the lost array holds element records |
| HashTable.GetKeysAsWrittenLosesResult | hashtable.c:222-234 | on a one-element table, called as main.c does with NULL, the count is 1 but the caller still holds NULL, while the intended result is that element's key |
| Demo.AddIntKeys | main.c:12-18 | after the 100 `HT_ADD`s of keys 2..101, key_count is 100 and every key is 4 bytes long |
| Demo.MainScenario | main.c:6-38 | in the main.c run, key_count is 100, then 101, then 100; has_key then gives 0, lookup gives NULL, and get_keys counts 100 |
| Demo.CollisionScenario | hashtable.c:102-118 | two keys with the same first four bytes and length share a bucket and are each found; removing one (the bucket head, so through the corrected `Table.Remove`) leaves the other retrievable |
| Demo.DuplicateScenario | hashtable.c:102-118 | a second add of a present key adds a second element; lookup returns the first value until the first copy is removed (the bucket head, so through the corrected `Table.Remove`), then the second |
| Demo.ModeScenario | hashtable.c:56-96 | lookup returns a table-owned byte copy in COPY mode and the caller's pointer in VALUEREF mode; a failed value allocation leaves the table empty with -1 |

## Findings

| source | as written | input that shows it | evidently intended | confidence | as-written member | corrected member |
|---|---|---|---|---|---|---|
| hashtable.c:131-147 | for a head match `prev == temp`, so `prev->next = temp->next` does nothing and `store_house[hash]` keeps pointing at the freed element | a bucket whose head holds the removed key | the bucket head becomes the removed element's successor | high, not executed | Chains.RemoveHeadDangles | HashTable.Table.Remove |
| hashtable.c:133-151 | in remove, an element with the right length but other bytes is compared again and again, because `temp` is not advanced | chain [key 01 02 03 04], remove 01 02 03 05 with length 4 | advance past the mismatch, as lookup does at hashtable.c:181 | high, not executed | Chains.ScanDivergesExample | HashTable.Table.Remove |
| hashtable.c:199-213 | has_key has the same loop without an advance on a byte mismatch | chain [key 01 02 03 04], has_key 01 02 03 05 with length 4 | advance past the mismatch and return 0 when the chain ends | high, not executed | Chains.StepAsWrittenStalls | HashTable.Table.HasKey |
| hashtable.c:17-18 | `free(element->value)` runs in every mode, freeing caller memory in VALUEREF mode (teardown at :41 and remove at :145) | any VALUEREF element that is removed or torn down | free the value only when the table owns it | high, not executed | Elements.DeleteAsWrittenFreesCallerValue | Elements.ElementDelete |
| hashtable.c:222-234 | the array is assigned to the by-value parameter `keys` and filled with element pointers, so the caller never sees it | main.c:36-37 on any non-empty table: `keys` stays NULL | hand the keys to the caller | high, not executed | HashTable.GetKeysAsWrittenLosesResult | HashTable.Table.GetKeys |
| hashtable.h:7 | a negative `int` sum gives a negative remainder, and the cast to `size_t` turns it into a huge index | key bytes FF FF FF FF, key_len 0: index SIZE_MAX | an index in [0, 256) for every key | high, not executed | HashTableH.HashAsWrittenOutOfRange | HashTableH.Hash |

## Left out

- Chains are sequences, not linked nodes. Node identity, `next` pointers and the `prev` pointer of remove are not modelled. The tail walk of add (hashtable.c:111-115) therefore becomes an append.
- `malloc`, `calloc`, `free` and `memcpy` are not modelled. Allocation outcomes are the `Alloc` input. The buffers that add frees on its failure path (hashtable.c:68-78, 93) are not tracked; the model only states that the table is unchanged.
- hash_table_new does not check its own `calloc` (hashtable.c:26-27): on failure it writes through NULL. The model assumes the allocation succeeds. The final `free(table)` (hashtable.c:44) is not modelled, and `Delete` leaves `keyCount` as it was.
- hash_table_get_keys does not check its own `calloc` (hashtable.c:222): on failure with a non-empty table it writes through NULL. `Table.GetKeys` takes no allocation outcome and assumes the allocation succeeds.
- HashTableH.Prefix: reading four bytes from a key shorter than four bytes is undefined behaviour in C; the model reads the missing bytes as zero. Little-endian byte order is assumed.
- HashTableH.HashAsWritten: the signed addition `prefix + (int)key_len` can overflow, which is undefined behaviour; the model adds without bounds.
- HashTable.Table.Valid: the placement invariant covers only keys of four or more bytes. A shorter key was routed on caller bytes that the element does not keep.
- `key_count` is a `nat`; `size_t` wrap-around cannot occur at any table size that fits in memory.
- A mode outside the enum (hashtable.c:56 and :82 both fail) cannot be expressed, because `Mode` has exactly the two values.
- HashTable.Table.Lookup: a NULL value pointer stored in VALUEREF mode comes back as NULL, and the C caller cannot tell it from not-found. The model returns `Some(Borrowed(0))`.
- `Remove` returns, besides the status, what destroying the element released. `GetKeys` returns the keys themselves (byte sequences) rather than pointers to them.
- The `INFO`/`LOG` macros and the `#ifdef DEBUG` counting in get_keys are diagnostics only. The `printf` output of main.c is left out too.
- Concurrency: the table is single-threaded.
