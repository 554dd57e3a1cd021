# Chained hash table from `int` keys to `int` values

This project models and verifies the `HashTable` class of
`hashtable_implementation.cpp`. It is a separate-chaining hash table. An
array of `capacity` buckets holds one doubly linked chain of `(key, value)`
nodes per bucket, and a counter `size` drives the load factor:

- `insert` updates a key's node in place or appends a new node at the tail
  of its chain. It then bumps `size` and doubles the table when
  `size / capacity > 0.75`.
- `remove` unlinks the key's node, decrements `size` and halves the table
  when `size > 0 && size / capacity < 0.25`.
- `find` scans one chain and returns the value, or `-1` when the key is
  absent.
- `resize` allocates a fresh array of empty chains, resets `size` to 0 and
  inserts every old node again.

The Dafny files:

- `hashing.dfy` (module `Hashing`): the multiplicative hash. The constant
  A = 0.618033 is the exact decimal fraction 618033 / 10^6, so every step is
  exact integer arithmetic. `SourceHash` is the formula as written, with
  C++ truncation toward zero. `Hash` is the corrected index the table uses.
- `chains.dfy` (module `Chains`): a chain is a `seq<Node>` from head (index
  0) to tail. The `prev`/`next` links are the sequence order. The functions
  `Lookup`, `Put` and `Remove` specify the chain walks of `find`, `insert`
  and `remove`.
- `hash_table.dfy` (module `HashTables`): the class `HashTable`.
  - `buckets: array<Chain>`, `capacity` and `size` are the source's fields
    `table`, `capacity` and `size`.
  - The ghost field `contents: map<int, int>` is the map the table stands
    for.
  - The invariant `Valid()` states six things:
    - `capacity == buckets.Length >= 1`;
    - every key sits in the bucket its hash selects;
    - no chain holds a key twice;
    - the chain lookup of every key agrees with `contents`;
    - the chains hold `|contents|` nodes in all, and `|contents| <= size`;
    - `4 * size <= 3 * capacity`.
  - Each method walks its chain with the source's `while` loop and updates
    the array in place.
  - `InsertEntry` and `RemoveEntry` state the new bucket array in terms of
    `Put` and `Remove`. `Insert` and `Remove` state the new state through
    `contents`, `size`, `capacity` and whether the array was replaced.
- `scenarios.dfy` (module `Scenarios`): client programs that use the table
  only through its contracts. One replays the `main` driver; the others show
  a grow, a shrink, the `size` counter on repeated updates, and the
  insert/find and remove/find round trips.

Two behaviours of the code are kept as written:

- `size` is incremented on every `insert`, including one that only rewrites
  the value of a present key (hashtable_implementation.cpp:98). It is
  therefore an upper bound on the number of entries rather than their count.
  `resize` recounts it exactly.
- The re-insertion inside `resize` calls the public `insert`
  (hashtable_implementation.cpp:48), whose load check could in principle
  call `resize` again. `ReinsertChain` proves that the check never fires
  while rehashing.

The hash is the one place where the model departs from the code. As
written, it yields a negative index for most negative keys (see
"## Findings"). `SourceHash` keeps that formula, and the table indexes its
buckets with the corrected `Hash`.

## Model

| member | source | states |
|---|---|---|
| `Hashing.TruncDiv` | hashtable_implementation.cpp:27-28 | The `(int)` cast rounds toward zero: the remainder has the sign of the dividend and is smaller than the divisor in magnitude |
| `Hashing.SourceHash` | hashtable_implementation.cpp:25-29 | The index as written lies strictly between `-capacity` and `capacity`, and is non-negative for a non-negative key |
| `Hashing.Hash` | hashtable_implementation.cpp:25-29 | The corrected index takes the fractional part in [0, 1) and always lies in `[0, capacity)` |
| `Hashing.HashAgreesOnNonNegativeKeys` | hashtable_implementation.cpp:25-29 | On every non-negative key the corrected index equals the index as written |
| `Hashing.SourceHashNegativeForNegativeKey` | hashtable_implementation.cpp:25-29 | At capacity 8, key -1 gets index -4 as written (out of the array) and 3 corrected, while key -13 happens to get 0 as written |
| `Chains.Put` | hashtable_implementation.cpp:82-95 | Insert-or-update adds exactly the key to the chain's keys, and adds one node exactly when the key was new |
| `Chains.Remove` | hashtable_implementation.cpp:111-123 | Unlinking never adds a key, and removes one node exactly when the key was present |
| `Chains.Lookup` | hashtable_implementation.cpp:139-146 | The value of the first node holding the key, scanning from the head; the scan succeeds exactly when some node holds the key (its values are pinned by `LookupAt`) |
| `Chains.LookupAt` | hashtable_implementation.cpp:139-142 | In a chain without duplicates, scanning for a node's key returns that node's value |
| `Chains.LookupPut` | hashtable_implementation.cpp:82-95 | After insert-or-update the key maps to the new value and every other key's lookup is unchanged |
| `Chains.PutAt` | hashtable_implementation.cpp:85-91 | Updating a present key rewrites its first node in place: same length and same order, one node's value changed |
| `Chains.PutAbsent` | hashtable_implementation.cpp:82-95 | Inserting a new key appends one node at the tail and leaves the rest of the chain untouched |
| `Chains.PutDistinct` | hashtable_implementation.cpp:85-95 | Insert-or-update never creates a duplicate key in a chain |
| `Chains.RemoveAt` | hashtable_implementation.cpp:111-123 | Unlinking the first node holding the key splices exactly that node out |
| `Chains.LookupRemove` | hashtable_implementation.cpp:111-125 | After unlinking, the key is not found and every other key's lookup is unchanged |
| `Chains.RemoveDistinct` | hashtable_implementation.cpp:115-123 | Unlinking keeps the chain free of duplicates |
| `Chains.RemoveAbsent` | hashtable_implementation.cpp:111-115 | Removing a key the chain does not hold leaves the chain unchanged |
| `HashTables.FirstMatch` | hashtable_implementation.cpp:111-113 | The chain walk of `remove` stops at the first node holding the key, and runs off the end exactly when no node holds it |
| `HashTables.EmptyBuckets` | hashtable_implementation.cpp:40-42 | The fill loop yields a fresh array of the requested length whose buckets are all empty |
| `HashTables.RepresentsEmpty` | hashtable_implementation.cpp:57-62 | All-empty buckets stand for the empty map |
| `HashTables.RepresentsKeys` | hashtable_implementation.cpp:108-115 | A key is stored exactly when it occurs in the chain of its own bucket |
| `HashTables.RepresentsUnique` | hashtable_implementation.cpp:85-95 | No key occurs at two positions anywhere in the table |
| `HashTables.RepresentsPut` | hashtable_implementation.cpp:78-98 | Insert-or-update in the key's bucket stands for the map update `m[key := value]`, and keeps every bucket invariant |
| `HashTables.RepresentsRemove` | hashtable_implementation.cpp:107-125 | Unlinking in the key's bucket stands for the map removal `m - {key}`, and keeps every bucket invariant |
| `HashTables.HashTable.constructor` | hashtable_implementation.cpp:57-62 | A new table has the given capacity (8 by default), all buckets empty, `size == 0` and no entries |
| `HashTables.HashTable.InsertEntry` | hashtable_implementation.cpp:78-98 | Before the load check, `insert` changes only the key's bucket, by `Put`. The map becomes `old[key := value]` and `size` grows by exactly 1, whether the key was new or updated |
| `HashTables.HashTable.Insert` | hashtable_implementation.cpp:78-104 | Full `insert`: the map becomes `old[key := value]`. The table doubles and `size` becomes the entry count exactly when `4 * (size + 1) > 3 * capacity`; otherwise `size` grows by 1 on the same array |
| `HashTables.HashTable.Clear` | hashtable_implementation.cpp:33-42 | The first half of `resize`: a fresh empty array of the new capacity, `size` reset to 0 |
| `HashTables.HashTable.ReinsertChain` | hashtable_implementation.cpp:45-51 | Re-inserting one old chain extends the rehashed part of the old map by that bucket, and `insert`'s load check never fires while doing so |
| `HashTables.HashTable.Resize` | hashtable_implementation.cpp:32-53 | After `resize(n)` the map is unchanged, `capacity == n`, `size` equals the number of distinct entries, and the load invariant holds |
| `HashTables.HashTable.RemoveEntry` | hashtable_implementation.cpp:107-125 | Before the shrink check, `remove` changes only the key's bucket, by `Remove`. A present key leaves the map and `size` drops by 1; an absent key changes nothing |
| `HashTables.HashTable.Remove` | hashtable_implementation.cpp:107-132 | Full `remove`: the map becomes `old - {key}`. The table halves and `size` becomes the entry count exactly when the key was present and `0 < size - 1` and `4 * (size - 1) < capacity`. For an absent key, buckets, `size` and capacity are unchanged |
| `HashTables.HashTable.Find` | hashtable_implementation.cpp:135-147 | Returns the key's stored value, or -1 when the key is absent, and modifies nothing |
| `HashTables.ShrinkFits` | hashtable_implementation.cpp:128-130 | The shrink condition forces `capacity > 4`. The halved capacity stays at least 2 and still holds every entry within the 0.75 load factor |
| `HashTables.RehashStep` | hashtable_implementation.cpp:46-50 | Each node the rehash re-inserts carries a not-yet-rehashed key of the old map with its value |
| `HashTables.RehashChainDone` | hashtable_implementation.cpp:45-51 | After walking old bucket `i`, every old key of bucket `i` has been re-inserted |
| `HashTables.RehashDone` | hashtable_implementation.cpp:44-51 | After the last old bucket, the rehashed part is the whole old map |
| `Scenarios.Fill` | hashtable_implementation.cpp:167-171 | Insertions into an empty table below the grow threshold keep the capacity and the array, count one per call, and store every inserted pair |
| `Scenarios.FindAll` | hashtable_implementation.cpp:135-147 | Repeated lookups report each key's stored value or -1 |
| `Scenarios.DriverScenario` | hashtable_implementation.cpp:164-183 | The driver: in a table built with the default capacity 8, after inserting keys 10..50 and removing 30, `find(30)` is -1 and `find(40)` is 400 |
| `Scenarios.GrowScenario` | hashtable_implementation.cpp:98-103 | The seventh insertion into 8 buckets doubles the table to 16, and every key keeps its value |
| `Scenarios.ShrinkScenario` | hashtable_implementation.cpp:125-130 | Removing one of two keys from 8 buckets halves the table to 4, and the other key keeps its value |
| `Scenarios.RepeatedUpdateScenario` | hashtable_implementation.cpp:89-103 | Four updates of one key in 4 buckets count as four insertions and double the table to 8. The rehash recounts `size` to 1 and the last value is found |
| `Scenarios.InsertThenFind` | hashtable_implementation.cpp:78-147 | After `insert(k, v)`, `find(k)` returns `v`, whether or not the insertion grew the table |
| `Scenarios.RemoveThenFind` | hashtable_implementation.cpp:107-147 | After `remove(k)`, `find(k)` returns -1, whether or not the removal shrank the table |

## Left out

- `display` (hashtable_implementation.cpp:150-160): console output only.
- The destructor (hashtable_implementation.cpp:65-75) and all `new`/`delete` of nodes and arrays. Memory is not modelled, so neither is the leak of the old nodes in `resize`, which frees only the array.
- The `prev` links (hashtable_implementation.cpp:94, 116-123): a chain is a sequence, so its links are its order.
- Allocation failure.
- `Hashing.SourceHash`: models the hash in exact fixed-point arithmetic, not in `float`. It does not capture rounding of `key * A` for large keys, where `float` has too few bits to keep the fraction.
- The table indexes its buckets with the corrected `Hashing.Hash`, not with `Hashing.SourceHash`. As written, most negative keys index outside the array, which C++ leaves undefined, so the behaviour of the source on negative keys is not modelled beyond the index it computes.
- The load tests `(float)size / capacity > 0.75` and `< 0.25` are the exact integer inequalities `4 * size > 3 * capacity` and `4 * size < capacity`. `float` rounding of the quotient is not modelled.
- 32-bit overflow of `int` keys, values, `size` and `capacity * 2`: integers here are unbounded.
- A non-positive initial capacity: the constructor requires `initialCapacity >= 1`.
- `HashTables.HashTable.Find`: returns -1 for an absent key, as the source does. A stored value of -1 is therefore indistinguishable from a missing key, and the contract says exactly that.

## Findings

| source | as written | input that shows it | evidently intended | confidence | as-written member | corrected member |
|---|---|---|---|---|---|---|
| hashtable_implementation.cpp:27-28 | The fractional part `key * A - (int)(key * A)` has the sign of the key, so `(int)(capacity * fracPart)` can be negative, and is for most negative keys (key -13 at capacity 8 happens to give 0) | key -1 at capacity 8: the fraction is -0.618033 and the index is `(int)(-4.944264) == -4`, outside `table[0..7]` | an index in `[0, capacity)` for every key, e.g. from the fractional part taken in [0, 1) | high (not executed) | `Hashing.SourceHashNegativeForNegativeKey` | `Hashing.Hash` |
