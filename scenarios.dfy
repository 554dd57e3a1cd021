/** Client programs that use the table only through its contracts. */
module Scenarios {
  import opened HashTables

  /** Inserts every key of `keys` into an empty table, in order, with ten
      times its value; the table never grows. */
  method Fill(table: HashTable, keys: seq<int>)
    requires table.Valid() && table.size == 0 && 4 * |keys| <= 3 * table.capacity
    modifies table, table.buckets
    ensures table.Valid() && table.buckets == old(table.buckets)
    ensures table.size == |keys| && table.capacity == old(table.capacity)
    ensures forall j :: 0 <= j < |keys| ==> keys[j] in table.contents && table.contents[keys[j]] == 10 * keys[j]
  {
    for i := 0 to |keys|
      invariant table.Valid() && table.buckets == old(table.buckets)
      invariant table.size == i && table.capacity == old(table.capacity)
      invariant forall j :: 0 <= j < i ==> keys[j] in table.contents && table.contents[keys[j]] == 10 * keys[j]
    {
      assert 4 * (table.size + 1) <= 3 * table.capacity;  // no growth
      table.Insert(keys[i], 10 * keys[i]);
    }
  }

  /** The driver program: keys 10, 20, 30, 40, 50 inserted with values
      100, 200, 300, 400, 500 into a default table, key 30 removed, then
      lookups of 30 and 40. */
  method DriverScenario() returns (found30: int, found40: int)
    ensures found30 == -1
    ensures found40 == 400
  {
    var keys := [10, 20, 30, 40, 50];
    var table := new HashTable();
    Fill(table, keys);
    assert keys[3] == 40;
    table.Remove(30);
    found30 := table.Find(30);
    found40 := table.Find(40);
  }

  /** The values `Find` reports for `keys`, in order. */
  method FindAll(table: HashTable, keys: seq<int>) returns (values: seq<int>)
    requires table.Valid()
    ensures |values| == |keys|
    ensures forall j :: 0 <= j < |keys| ==>
              values[j] == if keys[j] in table.contents then table.contents[keys[j]] else -1
  {
    values := [];
    for i := 0 to |keys|
      invariant |values| == i
      invariant forall j :: 0 <= j < i ==>
                  values[j] == if keys[j] in table.contents then table.contents[keys[j]] else -1
    {
      var v := table.Find(keys[i]);
      values := values + [v];
    }
  }

  /** Seven distinct keys in a table of 8 buckets: the seventh insertion
      pushes the load factor to 7/8 > 0.75 and doubles the capacity, and
      every key keeps its value. */
  method GrowScenario() returns (capacity: int, values: seq<int>)
    ensures capacity == 16
    ensures |values| == 7 && forall j :: 0 <= j < 7 ==> values[j] == 10 * (j + 1)
  {
    var keys := [1, 2, 3, 4, 5, 6, 7];
    var table := new HashTable(8);
    var first := [1, 2, 3, 4, 5, 6];
    Fill(table, first);
    assert forall j :: 0 <= j < 6 ==> keys[j] == first[j];
    assert 4 * (table.size + 1) > 3 * table.capacity;  // growth
    table.Insert(keys[6], 10 * keys[6]);
    capacity := table.capacity;
    assert forall j :: 0 <= j < 7 ==> keys[j] in table.contents && table.contents[keys[j]] == 10 * keys[j];
    values := FindAll(table, keys);
  }

  /** Two keys in a table of 8 buckets, then one of them removed: the
      removal brings the load factor to 1/8 < 0.25 and halves the capacity,
      and the remaining key keeps its value. */
  method ShrinkScenario() returns (capacity: int, found: int)
    ensures capacity == 4
    ensures found == 20
  {
    var keys := [1, 2];
    var table := new HashTable(8);
    Fill(table, keys);
    assert keys[0] == 1 && keys[1] == 2;
    table.Remove(1);
    capacity := table.capacity;
    found := table.Find(2);
  }

  /** Rewriting one key's value four times counts as four insertions: a
      table of 4 buckets doubles to 8 although it holds a single entry, and
      the rehash then resets the counter to 1. */
  method RepeatedUpdateScenario() returns (capacity: int, size: int, found: int)
    ensures capacity == 8 && size == 1
    ensures found == 4
  {
    var table := new HashTable(4);
    table.Insert(1, 1);
    assert 1 in table.contents && |table.contents| == 1;
    table.Insert(1, 2);
    table.Insert(1, 3);
    assert 1 in table.contents && |table.contents| == 1 && table.size == 3;
    table.Insert(1, 4);
    capacity, size := table.capacity, table.size;
    found := table.Find(1);
  }

  /** After an insertion the key is found with the value just inserted,
      whether or not the insertion grew the table. */
  method InsertThenFind(table: HashTable, key: int, value: int) returns (found: int)
    requires table.Valid()
    modifies table, table.buckets
    ensures table.Valid()
    ensures found == value
  {
    table.Insert(key, value);
    found := table.Find(key);
  }

  /** After a removal the key is reported absent. */
  method RemoveThenFind(table: HashTable, key: int) returns (found: int)
    requires table.Valid()
    modifies table, table.buckets
    ensures table.Valid()
    ensures found == -1
  {
    table.Remove(key);
    found := table.Find(key);
  }
}
