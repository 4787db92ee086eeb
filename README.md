# Append-only cuckoo hash map and varint length, in Dafny

This project models two pieces of the C++ library `libe`:

- `e::ao_hash_map` (e/ao_hash_map.h), an append-only two-way cuckoo hash map;
- `e::varint_length` (e/varint.h), the length of the base-128 varint encoding.

**The hash map.** The map has two tables of equal size. The size is 0, or a power of two of at least 8. Each table is an array of buckets of four (key, value) nodes. A node whose key is the sentinel `EMPTY` is a free slot. A key belongs to one bucket in each table, named by that table's index function. `put` makes up to 128 attempts; each that finds both buckets full evicts a pair and carries it on. The pair still carried after the last attempt, whose key may differ from the key being put, goes to an overflow array. The map is filled by one writer through `put` and then read through `get` and `mod`.

Module `Buckets` (buckets.dfy) holds the pure logic of one bucket: insert, search, eviction and the overflow array's keys. It also views a set of occupied nodes as a map from keys to values.

Module `AoHash` (ao_hash_map.dfy) holds the class `AoHashMap`. Its six mutable fields match the C++ members:

| field | C++ member |
|---|---|
| `tableSize` | `m_table_size` |
| `table1`, `table2` | `m_table1`, `m_table2` |
| `arraySize` | `m_array_size` |
| `overflow` | `m_array` |
| `elements` | `m_elements` |

The tables are `array<seq<Node>>`. Each bucket is a four-element sequence, updated slot by slot as the C++ code does.

The template parameters become constructor parameters (`const` fields):

- `EMPTY` becomes `empty`.
- `V()` becomes `zero`.
- `H` becomes `hash`.
- `e::lookup3_64` becomes `mix`.
- `e::compat::hash<uint64_t>` becomes `mix2`.

The abstraction is built from these definitions:

- `Valid()` states the invariants every operation keeps:
  - every bucket is well formed: its occupied slots form a prefix and no key repeats;
  - every key sits in the bucket its index function names;
  - the overflow array holds each key at most once;
  - the size is 0 or a power of two of at least 8;
  - `table1` and `table2` are different arrays, even when nothing is allocated and the source has two null pointers. Without this, an update of one table could change the other, and the two table maps could not be reasoned about apart.
- `Map1()` and `Map2()` give the contents of each table as a map.
- `Keys()` is the set of keys the map holds.
- `Find(k)` is the value a lookup should return. Table 1 takes precedence over table 2, which takes precedence over the overflow array.
- `Nodes()` is the set of (key, value) pairs the tables and the overflow array store.

`Put` is proved to keep `Valid()`, to leave each array either in place or freshly allocated, so that puts can follow one another, to add exactly `k` to `Keys()`, and to leave `Find(k) == Some(v)`. It stores no pair that was not stored before except `(k, v)`. So the lookup of every other key is unchanged, provided all its stored copies had one value. A put of a key that table 1 already holds overwrites it there, leaves table 2 and the overflow array alone, and leaves the element count unchanged. `Get` and `Mod` are proved to return what `Lookup` computes. `LookupIsFind` proves that this is `Find`, for every key other than `EMPTY`.

**A key can be stored more than once.** `put` fills the table-1 bucket whenever it has room, without first looking for `k` in the table-2 bucket or the overflow array (e/ao_hash_map.h:164-171). A resize also never moves overflow entries. So the same key can be stored in more than one place, and `m_elements` can over-count. The model does not claim that each key is stored once or that `elements` counts the distinct keys. `Find` gives the lookup order's precedence instead.

**varint_length.** `Length(v)` is the number of base-128 digits of `v`. `VarintLength` is the shifting loop of the C++ function, proved equal to `Length`. Lemmas state that:

- the length is the least `n >= 1` with `v < 2^(7n)`;
- the length is monotone in `v`;
- the length is bounded by `VARINT_32_MAX_SIZE` (5) and `VARINT_64_MAX_SIZE` (10), and these bounds are reached.

## Model

| member | source | states |
|---|---|---|
| Varint.Length | e/varint.h:57-68 | The encoding length is at least 1, and it is 1 exactly when the value is below 128. |
| Varint.VarintLength | e/varint.h:57-68 | The loop's count equals `Length(v)` for every 64-bit `v` and lies between 1 and VARINT_64_MAX_SIZE. |
| Varint.LengthIsLeastFit | e/varint.h:57-68 | For `n >= 1`, `v < 128^n` exactly when `Length(v) <= n`: the length is the least number of 7-bit groups that hold `v`. |
| Varint.LengthFits | e/varint.h:57-68 | `v` fits in `7 * Length(v)` bits, and for lengths above 1 it does not fit in one group fewer. |
| Varint.LengthMonotone | e/varint.h:57-68 | A larger value never has a shorter encoding. |
| Varint.Length64Bound | e/varint.h:23 | Every value below 2^64 encodes in at most VARINT_64_MAX_SIZE = 10 bytes, and 2^64-1 needs all 10. |
| Varint.Length32Bound | e/varint.h:22 | Every value below 2^32 encodes in at most VARINT_32_MAX_SIZE = 5 bytes, and 2^32-1 needs all 5. |
| Buckets.FindKey | e/ao_hash_map.h:363-377 | A slot found holds the key and no earlier slot does; when none is found, no slot holds it. |
| Buckets.BucketPutOverwrites | e/ao_hash_map.h:345-351 | When slot `i` of a well-formed bucket holds `k`, the bucket put overwrites that slot's value and reports an overwrite. |
| Buckets.BucketPutInserts | e/ao_hash_map.h:345-358 | When the bucket lacks `k` and `i` is its first EMPTY slot, the put stores `(k, v)` in slot `i` and reports an insert. |
| Buckets.BucketPut | e/ao_hash_map.h:340-361 | The bucket put fails exactly when every slot holds a key other than `k` and EMPTY, and then the bucket is unchanged. |
| Buckets.BucketPutInsertsWhenAbsent | e/ao_hash_map.h:345-358 | A put into a well-formed bucket that does not fail reports an insert exactly when no slot held the key, and an overwrite exactly when one did. |
| Buckets.BucketPutEffect | e/ao_hash_map.h:340-361 | A successful put keeps the bucket well formed; its occupied nodes become the old ones without key `k`, plus `(k, v)`. |
| Buckets.Evict | e/ao_hash_map.h:379-396 | The new bucket has `(k, v)` in slot 0. The multiset of the bucket's nodes plus the handed-back node is unchanged. |
| Buckets.EvictFromFull | e/ao_hash_map.h:379-396 | On a full bucket without `k`: the result is well formed, the handed-back node was in the bucket, and the occupied nodes lose slot 3's node and gain `(k, v)`. |
| Buckets.PairsUpdate | e/ao_hash_map.h:345-358 | Storing `(c, cv)` at key `c` of a table's map adds no pair but `(c, cv)`, and `(c, cv)` is then a pair of the map. |
| Buckets.PairsEvict | e/ao_hash_map.h:379-396 | Replacing the pair of `p` by `(c, cv)` adds no pair but `(c, cv)`, and the handed-back pair of `p` was a pair of the map. |
| Buckets.ArrayOverwrite | e/ao_hash_map.h:176-183 | Overwriting the value of a key the overflow array holds keeps its key set and key uniqueness; the search then finds the key at that index, and the array's nodes gain no node but the new one. |
| Buckets.ArrayPrepend | e/ao_hash_map.h:184-188 | Putting a new key's node in front of the overflow array keeps keys unique, adds just that key and just that node, and the search finds it at index 0. |
| AoHash.AoHashMap.constructor | e/ao_hash_map.h:132-141 | A new map has no tables, no overflow array and no elements. It is valid, holds no key, and no search finds anything. |
| AoHash.AoHashMap.Index | e/ao_hash_map.h:310-327 | Both index functions name a bucket below the table size. |
| AoHash.AoHashMap.IndexAfterDoubling | e/ao_hash_map.h:310-327 | A key's index in the doubled table, reduced modulo the old size, is its old index. |
| AoHash.AoHashMap.BucketOf | e/ao_hash_map.h:329-338 | There is no bucket exactly when the tables are unallocated; otherwise the bucket is below the size. |
| AoHash.AoHashMap.EmptyBucket | e/ao_hash_map.h:85-101 | A freshly allocated bucket is well formed and has no occupied slot. |
| AoHash.AoHashMap.TableHome | e/ao_hash_map.h:192-236 | A table holds a non-EMPTY key exactly when the search of the key's home bucket finds it, and then with that slot's value. |
| AoHash.AoHashMap.TablePut | e/ao_hash_map.h:340-361 | A successful bucket put into a key's home bucket keeps the table valid and updates the table's map at that key. |
| AoHash.AoHashMap.TablePutInserts | e/ao_hash_map.h:340-361 | A bucket put into a key's home bucket that does not fail reports an insert, and so counts one more element, exactly when the table's map lacked the key. |
| AoHash.AoHashMap.TableEvict | e/ao_hash_map.h:379-396 | Evicting from the full home bucket of a key the table lacks keeps the table valid. The handed-back pair was in the table and its key is neither EMPTY nor the new key. The table's map loses that key and gains the new pair. |
| AoHash.AoHashMap.GrownSizePow2 | e/ao_hash_map.h:402 | The new size, 8 from 0 and otherwise twice the old size, is again a power of two of at least 8. |
| AoHash.AoHashMap.RehashStart | e/ao_hash_map.h:415-417 | A new table of empty buckets, with nothing moved yet, satisfies the rehash invariant. |
| AoHash.AoHashMap.RehashStep | e/ao_hash_map.h:419-431 | Each rehash put inserts, as the assert at line 430 demands: the target bucket has a free slot and lacks the key. The invariant then moves past that slot. |
| AoHash.AoHashMap.RehashNextBucket | e/ao_hash_map.h:419-425 | At the first EMPTY slot, or past the last slot, the scan moves on to the next old bucket. |
| AoHash.AoHashMap.RehashDone | e/ao_hash_map.h:417-438 | After every old bucket has been scanned, the new table is valid at the grown size and holds exactly the old table's entries. |
| AoHash.AoHashMap.PutInBucket | e/ao_hash_map.h:340-361 | The bucket becomes what the bucket put computes; the result is true exactly when it did not fail; the element count grows by one exactly on an insert. |
| AoHash.AoHashMap.ModBucket | e/ao_hash_map.h:363-377 | The slot found is the first slot holding the key. |
| AoHash.AoHashMap.Cuckoo | e/ao_hash_map.h:379-396 | On a bucket with occupied slots 1-3, the bucket becomes the evicted bucket and the node from slot 3 is handed back. |
| AoHash.AoHashMap.ResizeTable | e/ao_hash_map.h:408-439 | The result is a fresh table of the grown size that is valid and holds exactly the old table's entries; the element count is unchanged. |
| AoHash.AoHashMap.RehashBucket | e/ao_hash_map.h:417-433 | Scanning one old bucket moves the rehash invariant to the next bucket and leaves the element count unchanged. |
| AoHash.AoHashMap.Resize | e/ao_hash_map.h:398-406 | Both tables get fresh arrays of the size line 402 computes, 8 from 0 and otherwise twice the old size. Both table maps, the overflow array and the element count are unchanged, and the map stays valid. |
| AoHash.AoHashMap.MakeRoomAtArrayHead | e/ao_hash_map.h:441-459 | The overflow array is replaced by a fresh one, one slot longer, holding a free node followed by the old nodes; nothing else changes. |
| AoHash.AoHashMap.LoadExceedsIsExact | e/ao_hash_map.h:298-308 | `LoadExceeds(num, den)`, the division-free test, holds exactly when the exact value of `load_factor()` exceeds `num / den`. That value, which `LoadFactor` defines, is 1 without tables and otherwise the element count over two table sizes plus the array size. |
| AoHash.AoHashMap.NeedsGrowth | e/ao_hash_map.h:155-157 | The test computed without division holds exactly when the tables are unallocated, the load factor exceeds 0.9, or it exceeds 0.75 from attempt 64 on. |
| AoHash.AoHashMap.SlotIn | e/ao_hash_map.h:329-377 | A slot found in a table lies in the key's home bucket and holds the key. |
| AoHash.AoHashMap.Lookup | e/ao_hash_map.h:216-236 | A location found is a slot of the map holding the key; with none found, no overflow slot holds the key. |
| AoHash.AoHashMap.SlotInIsMapIn | e/ao_hash_map.h:196-200 | For a non-EMPTY key, the search of one table finds it exactly when the table's map holds it, and then with its value. |
| AoHash.AoHashMap.LookupIsFind | e/ao_hash_map.h:192-236 | For a non-EMPTY key, the lookup finds a location exactly when the map holds the key, and the value there is `Find(k)`. Otherwise `Find(k)` is none. |
| AoHash.FindInHeld | e/ao_hash_map.h:192-236 | The lookup of a non-EMPTY key succeeds exactly when a table or the overflow array holds the key, and the value found is one stored with it. |
| AoHash.FindKept | e/ao_hash_map.h:149-190 | When a put adds no key but `k` and no pair but `(k, v)`, the lookup of each other key whose stored copies had one value is unchanged. |
| AoHash.PairsAfterPut | e/ao_hash_map.h:164-171 | Putting the carried pair into one table, as the bucket put does, adds no stored pair but the carried one. |
| AoHash.PairsAfterEvict | e/ao_hash_map.h:172-173 | An eviction adds no stored pair but the carried one, and the pair it hands back was stored. |
| AoHash.AoHashMap.Mod | e/ao_hash_map.h:216-236 | The table-1 bucket, then the table-2 bucket, then the overflow scan find exactly the lookup's location. |
| AoHash.AoHashMap.Get | e/ao_hash_map.h:192-214 | The result is true exactly when the lookup finds the key; the value is the one at that location; otherwise the caller's value is left unchanged. |
| AoHash.AoHashMap.Reset | e/ao_hash_map.h:238-256 | The map has no tables and no overflow slots, it is valid and holds no key, and the element count is unchanged. |
| AoHash.AoHashMap.Swap | e/ao_hash_map.h:258-268 | Each of the six fields is exchanged with the other map's. Both maps stay valid and exchange their key sets. |
| AoHash.AoHashMap.SwapDistinct | e/ao_hash_map.h:258-268 | The same exchange for two distinct maps. |
| AoHash.AoHashMap.CopyTables | e/ao_hash_map.h:276-287 | The copy loops give fresh tables holding the source tables' buckets, slot for slot. |
| AoHash.AoHashMap.CopyArray | e/ao_hash_map.h:289-294 | The copy loop gives a fresh overflow array holding the source's nodes, in order. |
| AoHash.AoHashMap.CopyFrom | e/ao_hash_map.h:270-296 | For another map: fresh tables and a fresh overflow array with that map's contents, its sizes and its element count; the map is valid and holds that map's keys. For the map itself: the reset's zero sizes are read back, so the map ends valid and empty, with its element count kept. |
| AoHash.AoHashMap.CopyContents | e/ao_hash_map.h:275-295 | The copying part of copy_from, after the reset: the sizes, the count and every slot are those the other map had, which may be this map itself. |
| AoHash.AoHashMap.SameContents | e/ao_hash_map.h:270-296 | Two maps of one kind whose tables and overflow arrays hold the same nodes are equally valid and hold the same keys. |
| AoHash.AoHashMap.PutInTable | e/ao_hash_map.h:164-171 | On success the table's map is updated at the key, and the count grows by one exactly when the table lacked the key. On failure the home bucket holds four other keys, the table lacks the key, and nothing changes. |
| AoHash.AoHashMap.EvictInTable | e/ao_hash_map.h:172-173 | The table's map loses the handed-back key, which it held with the handed-back value, and gains the carried pair; the other table is unchanged. |
| AoHash.AoHashMap.PlaceInTables | e/ao_hash_map.h:161-171 | On success either table 1's map is updated at the key, or table 1 lacks it and table 2's map is updated; the count grows by one exactly when that table lacked the key. On failure both home buckets are full of other keys and nothing changes. |
| AoHash.AoHashMap.PlacedAfterPlacing | e/ao_hash_map.h:164-171 | Placing the carried pair leaves `k` with value `v` in table 1, or else in table 2. The tables' keys gain just the carried key, their pairs gain no pair but the carried one, and the count grows by at most one. |
| AoHash.AoHashMap.CarryingAfterEvict | e/ao_hash_map.h:172-174 | After an eviction, `k` is still either carried with value `v` or held by exactly one table with value `v`. The tables' keys plus the new carried key are the old ones plus the old carried key, and no pair is stored or carried that was not before. |
| AoHash.AoHashMap.GrowIfNeeded | e/ao_hash_map.h:155-160 | The tables grow exactly when they are unallocated, loaded above 0.9, or loaded above 0.75 from attempt 64 on. Both table maps are unchanged. |
| AoHash.AoHashMap.PlaceOrEvict | e/ao_hash_map.h:161-174 | Either the carried pair is put into table 1, or into table 2 when table 1 lacks its key, with the exact new maps and count; or neither table held the key, the table the attempt's parity names swaps the handed-back pair, which it held, for the carried pair, the other table and the count are unchanged, and the handed-back key is not EMPTY. |
| AoHash.AoHashMap.Attempt | e/ao_hash_map.h:153-175 | One attempt leaves the tables allocated, valid and no smaller, and leaves the overflow array alone. Stated on the maps before the attempt, the tables change exactly as PlaceOrEvict states. |
| AoHash.AoHashMap.PutInTables | e/ao_hash_map.h:153-175 | After up to 128 attempts, either `k` is placed with value `v`, or a non-EMPTY pair is still carried. The tables' keys, counting the carried key, gain exactly `k`; their pairs, counting the carried pair, gain no pair but `(k, v)`. A key table 1 held is overwritten there at the first attempt, with the count and table 2 unchanged. Each table is left in place or freshly allocated. |
| AoHash.AoHashMap.PutPair | e/ao_hash_map.h:153-189 | The attempts and then the overflow array for a pair still carried: `k` is found with value `v`, no key is lost and only `k` is added, and no pair is stored that was not stored before except `(k, v)`. A key table 1 held is overwritten there, with table 2, the overflow array and the count unchanged. Each array is left in place or freshly allocated. |
| AoHash.AoHashMap.OverwriteInArray | e/ao_hash_map.h:176-183 | The scan overwrites the carried key's value in the first slot holding the key exactly when the overflow array holds it, keeping the keys; otherwise the array is unchanged. |
| AoHash.AoHashMap.PutInOverflow | e/ao_hash_map.h:176-189 | The overflow array becomes the old one with the first slot holding the carried key overwritten, or, without one, with the pair in a new slot at its head. It gains just the carried key. Its size and the element count grow by one exactly when the key was new. The array is the old one or a fresh one. |
| AoHash.AoHashMap.PutLeftover | e/ao_hash_map.h:176-189 | The carried pair is stored in the overflow array as PutInOverflow states, and the tables' pairs are unchanged. Afterwards `k` is found with value `v`, and the keys gain just the carried key. The overflow array is the old one or a fresh one; the table arrays and their size stay in place. |
| AoHash.AoHashMap.Put | e/ao_hash_map.h:149-190 | `put` always returns true and keeps the map valid. The tables are allocated afterwards and never shrink. No key is lost and only `k` is added; `k` is then found with value `v`. The lookup of every other key whose stored copies had one value is unchanged. A put of a key table 1 held overwrites it there, with table 2, the overflow array and the count unchanged; otherwise the count grows by at most one. Each array is left in place or freshly allocated. |

## Left out

- e/lockfree_fifo.h is not part of this model. Its point is a lock-free queue whose correctness is about concurrency.
- error.cc is not part of this model. It only formats messages.
- The varint encode and decode routines and their forwarders have no bodies in e/varint.h, so they are not modelled.
- `H`, `e::lookup3_64` and `e::compat::hash<uint64_t>` are constructor parameters of type `K -> bv64` and `bv64 -> bv64`. Their definitions, in e/lookup3.h and e/compat.h, are not part of this model.
- Concurrent readers after setup are modelled as sequential calls.
- Memory management is not modelled:
  - `new` and `delete` become fresh Dafny arrays;
  - the destructor (e/ao_hash_map.h:143-147) is left out;
  - `reset` deletes the arrays but leaves `m_table1`, `m_table2` and `m_array` addressing them, so a later `put` or the destructor deletes them again. The model's `Reset` gives fresh empty arrays instead.
- 64-bit wrap-around of `m_table_size * 2`, `m_array_size` and `m_elements` is not modelled. The model uses unbounded naturals.
- Index: computes `hash % size` where the source computes `hash & (size - 1)`. The two agree because the size is a power of two, but that equality is not proved.
- LoadExceedsIsExact: the source computes the load factor in `double` and compares it with 0.9 and 0.75. The model compares exact rationals, so double rounding is left out.
- NeedsGrowth: states the growth test on the exact load factor, for the same reason.
- Mod: returns the location (which table, bucket and slot, or which overflow index) instead of the address of the value. Writes through that address are not modelled.
- Get: the caller's output variable is passed in as `prior` and returned unchanged when the key is absent.
- Put: requires `k != EMPTY`. The code relies on it: `cuckoo` (e/ao_hash_map.h:392) would put EMPTY into slot 0 ahead of occupied slots, and the next resize stops a bucket's scan at the first EMPTY slot (e/ao_hash_map.h:422), dropping those slots.
- Put: the element count is tied to the keys only where the code keeps them in step. A put of a key table 1 holds keeps the count. A repeated put can raise it, for example: when table 1 lacks `k`, table 2 or the overflow array holds it, and its table-1 bucket has room; when only the overflow array holds `k` and its table-2 bucket has room; or when only the overflow array holds `k`, both its buckets are full, and the eviction chain ends in a free slot or in a new overflow slot. Then `m_elements` over-counts a key stored twice, so the model does not tie the count to the number of keys.
- Put: the lookup of another key is proved unchanged only when all its stored copies had one value. Otherwise it can change: a stale copy of a key in table 2, evicted at an odd attempt (e/ao_hash_map.h:173), is carried on and put back into table 1 (e/ao_hash_map.h:164). There the bucket put overwrites the newer table-1 copy with it (e/ao_hash_map.h:347-350), so a later lookup returns the stale value.
- PutInTables: the tables after the loop are bounded by pair inclusion, not given exactly; Attempt gives each attempt's maps exactly.
- Put: `attempt & 1` is written `attempt % 2`. The source's single loop body is split across the methods PutPair, PutInTables, Attempt, GrowIfNeeded, PlaceOrEvict, PlaceInTables, PutInTable, EvictInTable and PutLeftover.
- ResizeTable: the `bucket **` out-parameter becomes a returned array that the caller stores.
- Swap: requires both maps to be valid and of the same kind: the same `EMPTY`, `V()` and hash functions, as two instances of one template are. Swapping a map with itself is the identity; the model branches on it explicitly.
- CopyFrom: like Swap, requires the other map to be valid and of the same kind.
- CopyFrom: copies both tables in one loop, as the source does, but writes whole nodes, where the source assigns key and value one after the other.
