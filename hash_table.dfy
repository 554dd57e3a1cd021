/** The separate-chaining hash table from int keys to int values.

    `buckets` is the source's `table`: one chain per bucket, `capacity` of
    them. `size` is the source's counter, which `insert` bumps on every call,
    including one that only rewrites the value of an existing key, so it is an
    upper bound on the number of stored entries rather than their count. The
    ghost field `contents` is the map the table stands for. */
module HashTables {
  import opened Chains
  import Hashing

  const DefaultCapacity := 8

  /** The number of nodes in all chains together. */
  ghost function TotalEntries(bs: seq<Chain>): nat {
    if bs == [] then 0 else |bs[0]| + TotalEntries(bs[1..])
  }

  /** Replacing one chain changes the node count by the difference in length. */
  lemma {:induction false} TotalEntriesUpdate(bs: seq<Chain>, i: int, c: Chain)
    requires 0 <= i < |bs|
    ensures TotalEntries(bs[i := c]) == TotalEntries(bs) - |bs[i]| + |c|
  {
    if i > 0 {
      TotalEntriesUpdate(bs[1..], i - 1, c);
      assert bs[i := c][1..] == bs[1..][i - 1 := c];
    }
  }

  /** A bucket array of empty chains holds no node. */
  lemma {:induction false} TotalEntriesEmpty(bs: seq<Chain>)
    requires forall i :: 0 <= i < |bs| ==> bs[i] == []
    ensures TotalEntries(bs) == 0
  {
    if bs != [] {
      TotalEntriesEmpty(bs[1..]);
    }
  }

  /** A map restricted to fewer keys has no more entries. */
  lemma SubmapSize(small: map<int, int>, large: map<int, int>)
    requires small.Keys <= large.Keys
    ensures |small| <= |large|
  {
    assert large.Keys == small.Keys + (large.Keys - small.Keys);
  }

  /** A fresh bucket array of `n` empty chains (the `nullptr` fill loops of
      the constructor and of `resize`). */
  method EmptyBuckets(n: int) returns (table: array<Chain>)
    requires n >= 0
    ensures fresh(table) && table.Length == n
    ensures forall i :: 0 <= i < n ==> table[i] == []
  {
    table := new Chain[n];
    for i := 0 to n
      invariant forall t :: 0 <= t < i ==> table[t] == []
    {
      table[i] := [];
    }
  }

  /** The position of the first node holding `key`, or `|chain|` when there
      is none (the chain walk of `remove`). */
  method FirstMatch(chain: Chain, key: int) returns (j: int)
    ensures 0 <= j <= |chain|
    ensures forall t :: 0 <= t < j ==> chain[t].key != key
    ensures j < |chain| <==> key in Keys(chain)
    ensures j < |chain| ==> chain[j].key == key
  {
    j := 0;
    while j < |chain| && chain[j].key != key
      invariant 0 <= j <= |chain|
      invariant forall t :: 0 <= t < j ==> chain[t].key != key
    {
      j := j + 1;
    }
    if j == |chain| {
      KeysAbsent(chain, key);
    }
  }

  function Get(m: map<int, int>, key: int): Option<int> {
    if key in m then Some(m[key]) else None
  }

  /** The bucket sequence `bs` of capacity `cap` stands for the map `m`: each
      key sits in the bucket its hash selects, no chain holds a key twice, the
      chain lookup of every key agrees with `m`, and there are as many nodes
      as entries of `m`. */
  ghost predicate Represents(bs: seq<Chain>, cap: int, m: map<int, int>) {
    && |bs| == cap >= 1
    && (forall i :: 0 <= i < cap ==> DistinctKeys(bs[i]))
    && (forall i, k :: 0 <= i < cap && k in Keys(bs[i]) ==> Hashing.Hash(k, cap) == i)
    && (forall k :: Lookup(bs[Hashing.Hash(k, cap)], k) == Get(m, k))
    && TotalEntries(bs) == |m|
  }

  /** Empty chains stand for the empty map. */
  lemma RepresentsEmpty(bs: seq<Chain>, cap: int)
    requires |bs| == cap >= 1
    requires forall i :: 0 <= i < cap ==> bs[i] == []
    ensures Represents(bs, cap, map[])
  {
    TotalEntriesEmpty(bs);
  }

  /** A key is stored exactly when it is in the chain of its bucket. */
  lemma RepresentsKeys(bs: seq<Chain>, cap: int, m: map<int, int>, key: int)
    requires Represents(bs, cap, m)
    ensures key in m <==> key in Keys(bs[Hashing.Hash(key, cap)])
  {
    assert Lookup(bs[Hashing.Hash(key, cap)], key) == Get(m, key);
  }

  /** No key is stored twice anywhere in the table: within a chain by
      distinctness, across chains because a key only sits in its own bucket. */
  lemma RepresentsUnique(bs: seq<Chain>, cap: int, m: map<int, int>, i: int, j: int, i': int, j': int)
    requires Represents(bs, cap, m)
    requires 0 <= i < cap && 0 <= j < |bs[i]| && 0 <= i' < cap && 0 <= j' < |bs[i']|
    requires bs[i][j].key == bs[i'][j'].key
    ensures i == i' && j == j'
  {
    assert Hashing.Hash(bs[i][j].key, cap) == i;
    assert Hashing.Hash(bs[i'][j'].key, cap) == i';
  }

  /** Putting a key into the chain of its bucket stands for updating the map. */
  lemma RepresentsPut(bs: seq<Chain>, cap: int, m: map<int, int>, key: int, value: int)
    requires Represents(bs, cap, m)
    ensures var index := Hashing.Hash(key, cap);
            Represents(bs[index := Put(bs[index], key, value)], cap, m[key := value])
  {
    var index := Hashing.Hash(key, cap);
    var chain := bs[index];
    var after := bs[index := Put(chain, key, value)];
    PutDistinct(chain, key, value);
    forall k ensures Lookup(after[Hashing.Hash(k, cap)], k) == Get(m[key := value], k) {
      if Hashing.Hash(k, cap) == index {
        LookupPut(chain, key, value, k);
      }
    }
    RepresentsKeys(bs, cap, m, key);
    TotalEntriesUpdate(bs, index, Put(chain, key, value));
  }

  /** Unlinking a key from the chain of its bucket stands for removing it
      from the map. */
  lemma RepresentsRemove(bs: seq<Chain>, cap: int, m: map<int, int>, key: int)
    requires Represents(bs, cap, m)
    ensures var index := Hashing.Hash(key, cap);
            Represents(bs[index := Chains.Remove(bs[index], key)], cap, m - {key})
  {
    var index := Hashing.Hash(key, cap);
    var chain := bs[index];
    var after := bs[index := Chains.Remove(chain, key)];
    RemoveDistinct(chain, key);
    forall k ensures Lookup(after[Hashing.Hash(k, cap)], k) == Get(m - {key}, k) {
      if Hashing.Hash(k, cap) == index {
        LookupRemove(chain, key, k);
      }
    }
    RepresentsKeys(bs, cap, m, key);
    TotalEntriesUpdate(bs, index, Chains.Remove(chain, key));
  }

  class HashTable {
    var buckets: array<Chain>
    var capacity: int
    var size: int
    ghost var contents: map<int, int>

    /** The chains stand for `contents` and `size` bounds the number of
        nodes. This holds throughout a rehash as well. */
    ghost predicate WellFormed()
      reads this, buckets
    {
      capacity == buckets.Length && Represents(buckets[..], capacity, contents) && |contents| <= size
    }

    /** Between public operations the load factor `size / capacity` is at
        most 0.75. */
    ghost predicate Valid()
      reads this, buckets
    {
      WellFormed() && 4 * size <= 3 * capacity
    }

    constructor (initialCapacity: int := DefaultCapacity)
      requires initialCapacity >= 1
      ensures Valid() && fresh(buckets)
      ensures capacity == initialCapacity && size == 0 && contents == map[]
      ensures forall i :: 0 <= i < capacity ==> buckets[i] == []
    {
      var table := EmptyBuckets(initialCapacity);
      RepresentsEmpty(table[..], initialCapacity);
      buckets := table;
      capacity := initialCapacity;
      size := 0;
      contents := map[];
    }

    /** The part of `insert` before the load check: update the key's node in
        place, or append a new node at the tail of its chain; then count one
        more insertion. */
    method InsertEntry(key: int, value: int)
      requires WellFormed()
      modifies this, buckets
      ensures WellFormed()
      ensures buckets == old(buckets) && capacity == old(capacity)
      ensures contents == old(contents)[key := value]
      ensures size == old(size) + 1
      ensures var index := Hashing.Hash(key, capacity);
              buckets[..] == old(buckets[..])[index := Put(old(buckets[index]), key, value)]
    {
      var index := Hashing.Hash(key, capacity);
      var chain := buckets[index];
      if chain == [] {
        buckets[index] := [Node(key, value)];
      } else {
        var j := 0;
        while j < |chain| - 1 && chain[j].key != key
          invariant 0 <= j < |chain|
          invariant forall t :: 0 <= t < j ==> chain[t].key != key
        {
          j := j + 1;
        }
        if chain[j].key == key {
          PutAt(chain, key, value, j);
          buckets[index] := chain[j := Node(key, value)];
        } else {
          KeysAbsent(chain, key);
          PutAbsent(chain, key, value);
          buckets[index] := chain + [Node(key, value)];
        }
      }
      assert buckets[..] == old(buckets[..])[index := Put(chain, key, value)];
      size := size + 1;
      RepresentsPut(old(buckets[..]), capacity, contents, key, value);
      contents := contents[key := value];
    }

    method Insert(key: int, value: int)
      requires Valid()
      modifies this, buckets
      ensures Valid()
      ensures contents == old(contents)[key := value]
      ensures var grow := 4 * (old(size) + 1) > 3 * old(capacity);
              && capacity == (if grow then 2 * old(capacity) else old(capacity))
              && size == (if grow then |contents| else old(size) + 1)
              && (grow ==> fresh(buckets))
              && (!grow ==> buckets == old(buckets))
    {
      InsertEntry(key, value);
      if 4 * size > 3 * capacity {  // size / capacity > 0.75
        Resize(capacity * 2);
      }
    }

    /** Rebuilds the table at `newCapacity`: a fresh array of empty chains,
        `size` reset to 0, and every node of the old chains inserted again. */
    method Resize(newCapacity: int)
      requires WellFormed()
      requires newCapacity >= 1 && 4 * |contents| <= 3 * newCapacity
      modifies this
      ensures Valid() && fresh(buckets)
      ensures capacity == newCapacity
      ensures contents == old(contents) && size == |contents|
    {
      var oldTable := buckets;
      var oldCapacity := capacity;
      ghost var oldContents := contents;
      ghost var oldChains := buckets[..];

      Clear(newCapacity);
      for i := 0 to oldCapacity
        invariant WellFormed() && fresh(buckets) && capacity == newCapacity
        invariant oldTable[..] == oldChains
        invariant size == |contents|
        invariant contents == RehashedPart(oldContents, oldCapacity, i, [])
      {
        ReinsertChain(oldTable[i], oldChains, oldCapacity, oldContents, i);
      }
      RehashDone(oldContents, oldCapacity);
    }

    /** The first half of `resize`: a fresh array of `newCapacity` empty
        chains replaces the old one and `size` is reset to 0. */
    method Clear(newCapacity: int)
      requires newCapacity >= 1
      modifies this
      ensures Valid() && fresh(buckets)
      ensures capacity == newCapacity && size == 0 && contents == map[]
    {
      var table := EmptyBuckets(newCapacity);
      RepresentsEmpty(table[..], newCapacity);
      buckets := table;
      capacity := newCapacity;
      size := 0;
      contents := map[];
    }

    /** Inserts again every node of old chain `i`, head to tail (the inner
        loop of `resize`). */
    method ReinsertChain(current: Chain, ghost oldChains: seq<Chain>, ghost oldCapacity: int,
                         ghost oldContents: map<int, int>, ghost i: int)
      requires WellFormed()
      requires Represents(oldChains, oldCapacity, oldContents) && 0 <= i < oldCapacity
      requires current == oldChains[i] && 4 * |oldContents| <= 3 * capacity
      requires size == |contents| && contents == RehashedPart(oldContents, oldCapacity, i, [])
      modifies this, buckets
      ensures WellFormed() && buckets == old(buckets) && capacity == old(capacity)
      ensures size == |contents| && contents == RehashedPart(oldContents, oldCapacity, i + 1, [])
    {
      var j := 0;
      assert current[..0] == [];
      while j < |current|
        invariant 0 <= j <= |current|
        invariant WellFormed() && buckets == old(buckets) && capacity == old(capacity)
        invariant size == |contents|
        invariant contents == RehashedPart(oldContents, oldCapacity, i, current[..j])
      {
        RehashStep(oldChains, oldCapacity, oldContents, i, j);
        InsertEntry(current[j].key, current[j].value);
        SubmapSize(contents, oldContents);
        assert 4 * size <= 3 * capacity;  // the load check of insert does not fire while rehashing
        j := j + 1;
      }
      RehashChainDone(oldChains, oldCapacity, oldContents, i);
    }

    /** The part of `remove` before the shrink check: find the key's node,
        unlink it from its chain and count one insertion less. Nothing
        changes when the key is absent. */
    method RemoveEntry(key: int) returns (found: bool)
      requires WellFormed()
      modifies this, buckets
      ensures WellFormed()
      ensures buckets == old(buckets) && capacity == old(capacity)
      ensures found == (key in old(contents))
      ensures contents == old(contents) - {key}
      ensures size == if found then old(size) - 1 else old(size)
      ensures var index := Hashing.Hash(key, capacity);
              buckets[..] == old(buckets[..])[index := Chains.Remove(old(buckets[index]), key)]
      ensures !found ==> buckets[..] == old(buckets[..])
    {
      var index := Hashing.Hash(key, capacity);
      var chain := buckets[index];
      var j := FirstMatch(chain, key);
      RepresentsKeys(buckets[..], capacity, contents, key);
      found := j < |chain|;
      if found {
        RemoveAt(chain, key, j);
        RepresentsRemove(buckets[..], capacity, contents, key);
        buckets[index] := chain[..j] + chain[j + 1..];
        assert buckets[..] == old(buckets[..])[index := Chains.Remove(chain, key)];
        size := size - 1;
        contents := contents - {key};
      } else {
        RemoveAbsent(chain, key);
        assert old(buckets[..])[index := chain] == old(buckets[..]);
      }
    }

    method Remove(key: int)
      requires Valid()
      modifies this, buckets
      ensures Valid()
      ensures contents == old(contents) - {key}
      ensures var shrink := key in old(contents) && old(size) - 1 > 0 && 4 * (old(size) - 1) < old(capacity);
              && capacity == (if shrink then old(capacity) / 2 else old(capacity))
              && size == (if shrink then |contents| else if key in old(contents) then old(size) - 1 else old(size))
              && (shrink ==> fresh(buckets))
              && (!shrink ==> buckets == old(buckets))
      ensures key !in old(contents) ==> buckets[..] == old(buckets[..])
    {
      var found := RemoveEntry(key);
      if found && size > 0 && 4 * size < capacity {  // size / capacity < 0.25
        ShrinkFits(|contents|, size, capacity);
        Resize(capacity / 2);
      }
    }

    /** Scans the key's chain; -1 when the key is absent. */
    method Find(key: int) returns (value: int)
      requires Valid()
      ensures key in contents ==> value == contents[key]
      ensures key !in contents ==> value == -1
    {
      var current := buckets[Hashing.Hash(key, capacity)];
      assert Lookup(current, key) == Get(contents, key);
      var j := 0;
      while j < |current|
        invariant 0 <= j <= |current|
        invariant Lookup(current[j..], key) == Lookup(current, key)
      {
        if current[j].key == key {
          return current[j].value;
        }
        assert current[j..][1..] == current[j + 1..];
        j := j + 1;
      }
      return -1;
    }
  }

  /** The shrink target holds the remaining entries within the 0.75 load
      factor, and it never drops below 2 buckets. */
  lemma ShrinkFits(entries: int, size: int, capacity: int)
    requires 0 <= entries <= size && size > 0 && 4 * size < capacity
    ensures capacity > 4 && capacity / 2 >= 2
    ensures 4 * entries <= 3 * (capacity / 2)
  {
  }

  /** The part of the old contents already re-inserted while the rehash is at
      node `|done|` of old chain `i`: the keys of the chains before `i`, and
      the keys of chain `i` already walked. */
  ghost function RehashedPart(oldContents: map<int, int>, oldCapacity: int, i: int, done: Chain): (part: map<int, int>)
    requires oldCapacity >= 1
    ensures part.Keys <= oldContents.Keys
  {
    map k | k in oldContents && (Hashing.Hash(k, oldCapacity) < i || (Hashing.Hash(k, oldCapacity) == i && k in Keys(done)))
          :: oldContents[k]
  }

  /** The node a rehash step re-inserts carries a key of the old contents,
      with its value, that has not been re-inserted yet; re-inserting it
      extends the rehashed part by one node. */
  lemma RehashStep(oldChains: seq<Chain>, oldCapacity: int, oldContents: map<int, int>, i: int, j: int)
    requires Represents(oldChains, oldCapacity, oldContents)
    requires 0 <= i < oldCapacity && 0 <= j < |oldChains[i]|
    ensures var c := oldChains[i];
            && c[j].key !in RehashedPart(oldContents, oldCapacity, i, c[..j])
            && RehashedPart(oldContents, oldCapacity, i, c[..j])[c[j].key := c[j].value]
               == RehashedPart(oldContents, oldCapacity, i, c[..j + 1])
  {
    var c := oldChains[i];
    var n := c[j];
    assert Hashing.Hash(n.key, oldCapacity) == i;
    LookupAt(c, j);
    assert Lookup(oldChains[Hashing.Hash(n.key, oldCapacity)], n.key) == Get(oldContents, n.key);
    assert n.key in oldContents && oldContents[n.key] == n.value;
    assert forall t :: 0 <= t < j ==> c[..j][t].key != n.key;
    KeysAbsent(c[..j], n.key);
    assert c[..j + 1] == c[..j] + [n];
    RehashedExtend(oldContents, oldCapacity, i, c[..j], n);
  }

  /** Re-inserting an old entry of bucket `i` adds it to the rehashed part. */
  lemma RehashedExtend(oldContents: map<int, int>, oldCapacity: int, i: int, done: Chain, n: Node)
    requires oldCapacity >= 1
    requires n.key in oldContents && oldContents[n.key] == n.value
    requires Hashing.Hash(n.key, oldCapacity) == i
    ensures RehashedPart(oldContents, oldCapacity, i, done)[n.key := n.value]
            == RehashedPart(oldContents, oldCapacity, i, done + [n])
  {
    KeysAppend(done, n);
  }

  /** Once old chain `i` has been walked, the rehashed part covers every old
      bucket up to and including `i`. */
  lemma RehashChainDone(oldChains: seq<Chain>, oldCapacity: int, oldContents: map<int, int>, i: int)
    requires Represents(oldChains, oldCapacity, oldContents)
    requires 0 <= i < oldCapacity
    ensures RehashedPart(oldContents, oldCapacity, i, oldChains[i][..|oldChains[i]|])
            == RehashedPart(oldContents, oldCapacity, i + 1, [])
  {
    var c := oldChains[i];
    assert c[..|c|] == c;
    forall k | k in oldContents && Hashing.Hash(k, oldCapacity) == i
      ensures k in Keys(c)
    {
      RepresentsKeys(oldChains, oldCapacity, oldContents, k);
    }
  }

  /** After the last old chain, everything has been re-inserted. */
  lemma RehashDone(oldContents: map<int, int>, oldCapacity: int)
    requires oldCapacity >= 1
    ensures RehashedPart(oldContents, oldCapacity, oldCapacity, []) == oldContents
  {
  }
}
