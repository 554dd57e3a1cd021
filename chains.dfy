/** A bucket's chain of entries. The source keeps each chain as a doubly
    linked list of `Node`s; here a chain is the sequence of its nodes from head
    (index 0) to tail (the last index), so the `prev`/`next` links are the
    sequence order. The functions below are the specifications of the chain
    walks the table performs in place. */
module Chains {

  datatype Option<T> = None | Some(value: T)

  /** One entry of a chain: a key and its value. */
  datatype Node = Node(key: int, value: int)

  type Chain = seq<Node>

  /** The keys stored in a chain. */
  function Keys(c: Chain): (ks: set<int>)
    ensures forall j :: 0 <= j < |c| ==> c[j].key in ks
  {
    if c == [] then {} else {c[0].key} + Keys(c[1..])
  }

  /** Conversely, a key no node holds is not among the chain's keys. */
  lemma {:induction false} KeysAbsent(c: Chain, key: int)
    requires forall j :: 0 <= j < |c| ==> c[j].key != key
    ensures key !in Keys(c)
  {
    if c != [] {
      KeysAbsent(c[1..], key);
    }
  }

  /** No key occurs twice in the chain. */
  predicate DistinctKeys(c: Chain) {
    forall i, j :: 0 <= i < j < |c| ==> c[i].key != c[j].key
  }

  /** The value of the first node holding `key`, scanning from the head;
      the scan succeeds exactly on the chain's keys. */
  function Lookup(c: Chain, key: int): (r: Option<int>)
    ensures r.Some? <==> key in Keys(c)
  {
    if c == [] then None
    else if c[0].key == key then Some(c[0].value)
    else Lookup(c[1..], key)
  }

  /** Insert-or-update: the first node holding `key` gets the new value;
      when there is none a node is appended at the tail. */
  function Put(c: Chain, key: int, value: int): (r: Chain)
    ensures Keys(r) == Keys(c) + {key}
    ensures |r| == if key in Keys(c) then |c| else |c| + 1
  {
    if c == [] then [Node(key, value)]
    else if c[0].key == key then [Node(key, value)] + c[1..]
    else [c[0]] + Put(c[1..], key, value)
  }

  /** Unlinks the first node holding `key`; the chain is unchanged when
      there is none. */
  function Remove(c: Chain, key: int): (r: Chain)
    ensures Keys(r) <= Keys(c)
    ensures |r| == if key in Keys(c) then |c| - 1 else |c|
  {
    if c == [] then []
    else if c[0].key == key then c[1..]
    else [c[0]] + Remove(c[1..], key)
  }

  /** In a chain without duplicates, the lookup of a node's key finds that node. */
  lemma {:induction false} LookupAt(c: Chain, j: int)
    requires DistinctKeys(c) && 0 <= j < |c|
    ensures Lookup(c, c[j].key) == Some(c[j].value)
  {
    if j > 0 {
      assert c[0].key != c[j].key;
      LookupAt(c[1..], j - 1);
    }
  }

  /** After a put, the key maps to the new value and every other key is unaffected. */
  lemma {:induction false} LookupPut(c: Chain, key: int, value: int, other: int)
    ensures Lookup(Put(c, key, value), other) ==
            if other == key then Some(value) else Lookup(c, other)
  {
    if c != [] && c[0].key != key {
      LookupPut(c[1..], key, value, other);
    }
  }

  /** Putting a key already present rewrites its first node in place: the
      chain keeps its length and the order of its keys. */
  lemma {:induction false} PutAt(c: Chain, key: int, value: int, j: int)
    requires 0 <= j < |c| && c[j].key == key
    requires forall t :: 0 <= t < j ==> c[t].key != key
    ensures Put(c, key, value) == c[j := Node(key, value)]
  {
    var n := Node(key, value);
    if j == 0 {
      assert Put(c, key, value) == [n] + c[1..];
      assert [n] + c[1..] == c[0 := n];
    } else {
      var tail := c[1..];
      PutAt(tail, key, value, j - 1);
      assert Put(c, key, value) == [c[0]] + tail[j - 1 := n];
      assert [c[0]] + tail[j - 1 := n] == c[j := n];
    }
  }

  /** Putting a new key appends one node at the tail and leaves the rest alone. */
  lemma {:induction false} PutAbsent(c: Chain, key: int, value: int)
    requires key !in Keys(c)
    ensures Put(c, key, value) == c + [Node(key, value)]
  {
    if c != [] {
      PutAbsent(c[1..], key, value);
      assert [c[0]] + (c[1..] + [Node(key, value)]) == c + [Node(key, value)];
    }
  }

  /** A put never creates a duplicate key. */
  lemma {:induction false} PutDistinct(c: Chain, key: int, value: int)
    requires DistinctKeys(c)
    ensures DistinctKeys(Put(c, key, value))
  {
    if c != [] && c[0].key != key {
      PutDistinct(c[1..], key, value);
      var r := Put(c, key, value);
      assert r == [c[0]] + Put(c[1..], key, value);
      DistinctTail(c);
      forall i, j | 0 <= i < j < |r| ensures r[i].key != r[j].key {
        if i == 0 {
          assert r[j].key in Keys(Put(c[1..], key, value));
        }
      }
    } else if c != [] {
      var r := Put(c, key, value);
      DistinctTail(c);
      forall i, j | 0 <= i < j < |r| ensures r[i].key != r[j].key {
        if i == 0 {
          assert r[j] == c[j];
        }
      }
    }
  }

  /** Removing the first node holding `key` is splicing it out of the chain. */
  lemma {:induction false} RemoveAt(c: Chain, key: int, j: int)
    requires 0 <= j < |c| && c[j].key == key
    requires forall t :: 0 <= t < j ==> c[t].key != key
    ensures Remove(c, key) == c[..j] + c[j + 1..]
  {
    if j > 0 {
      var tail := c[1..];
      RemoveAt(tail, key, j - 1);
      assert tail[..j - 1] == c[1..j] && tail[j..] == c[j + 1..];
      assert [c[0]] + c[1..j] == c[..j];
    }
  }

  /** In a chain without duplicates, a removed key is gone and every other
      key keeps its value. */
  lemma {:induction false} LookupRemove(c: Chain, key: int, other: int)
    requires DistinctKeys(c)
    ensures Lookup(Remove(c, key), other) ==
            if other == key then None else Lookup(c, other)
  {
    if c != [] {
      if c[0].key == key {
        if other == key {
          DistinctTail(c);
        }
      } else {
        LookupRemove(c[1..], key, other);
      }
    }
  }

  /** Removing a node keeps the keys distinct. */
  lemma {:induction false} RemoveDistinct(c: Chain, key: int)
    requires DistinctKeys(c)
    ensures DistinctKeys(Remove(c, key))
  {
    if c != [] {
      DistinctTail(c);
      if c[0].key != key {
        RemoveDistinct(c[1..], key);
        var r := Remove(c, key);
        assert r == [c[0]] + Remove(c[1..], key);
        forall i, j | 0 <= i < j < |r| ensures r[i].key != r[j].key {
          if i == 0 {
            assert r[j].key in Keys(Remove(c[1..], key));
          }
        }
      }
    }
  }

  /** Removing a key that is not in the chain changes nothing. */
  lemma {:induction false} RemoveAbsent(c: Chain, key: int)
    requires key !in Keys(c)
    ensures Remove(c, key) == c
  {
    if c != [] {
      RemoveAbsent(c[1..], key);
    }
  }

  /** Appending a node adds its key. */
  lemma {:induction false} KeysAppend(c: Chain, n: Node)
    ensures Keys(c + [n]) == Keys(c) + {n.key}
  {
    if c != [] {
      KeysAppend(c[1..], n);
      assert (c + [n])[1..] == c[1..] + [n];
    }
  }

  /** The tail of a chain without duplicates has none either, and does not
      hold the head's key. */
  lemma DistinctTail(c: Chain)
    requires DistinctKeys(c) && c != []
    ensures DistinctKeys(c[1..]) && c[0].key !in Keys(c[1..])
  {
    assert forall j :: 0 <= j < |c| - 1 ==> c[1..][j].key == c[j + 1].key;
    KeysAbsent(c[1..], c[0].key);
  }
}
