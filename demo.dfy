/** Client scenarios over the table: the run of main.c, a forced bucket
    collision with duplicate keys, and the two ownership modes. */
module Demo {
  import opened HashTableH
  import opened Chains
  import opened Elements
  import opened HashTable

  /** Every allocation succeeds. */
  const ALL_OK := Alloc(true, true, true)

  /** Every element of every bucket has key length n. */
  ghost predicate AllOfLength(bs: seq<seq<Entry>>, n: nat) {
    forall b, i :: 0 <= b < |bs| && 0 <= i < |bs[b]| ==> bs[b][i].keyLen == n
  }

  /** main.c:12-18: the 4-byte keys 2..101 with the 4-byte values 100..199. */
  method AddIntKeys(table: Table)
    requires table.Valid() && table.mode == Copy && table.keyCount == 0
    modifies table, table.storeHouse
    ensures table.Valid() && table.keyCount == 100
    ensures AllOfLength(table.storeHouse[..], 4)
  {
    FlattenEmpty(table.storeHouse[..]);
    var j, val, x := 2, 100, 0;
    while x < 100
      invariant 0 <= x <= 100 && j == x + 2 && val == 100 + x
      invariant table.Valid() && table.keyCount == x
      invariant AllOfLength(table.storeHouse[..], 4)
    {
      var r := table.HtAdd(IntBytes(j), Buffer(1, IntBytes(val)), ALL_OK);
      val, j, x := val + 1, j + 1, x + 1;
    }
  }

  /** main.c:6-38: after the 100 insertions, key 102 is added with key and
      value length 1 and removed again; afterwards has_key and lookup miss
      it and get_keys reports 100 keys. */
  method MainScenario() returns (afterLoop: nat, afterExtra: nat, afterRemove: nat, found: int, looked: Option<Value>, keyTotal: nat)
    ensures afterLoop == 100 && afterExtra == 101 && afterRemove == 100
    ensures found == 0 && looked == None && keyTotal == 100
  {
    var table := new Table(Copy);
    AddIntKeys(table);
    afterLoop := table.keyCount;
    var key := IntBytes(102);
    PrefixOfIntBytes(102);
    assert Hash(key, 1) == 103;
    ghost var c := table.storeHouse[103];
    assert forall i :: 0 <= i < |c| ==> c[i].keyLen == 4;
    var r := table.Add(key, 1, Buffer(2, IntBytes(200)), 1, ALL_OK);
    afterExtra := table.keyCount;
    ghost var e := table.storeHouse[103][|c|];
    assert table.storeHouse[103] == c + [e];
    FirstMatchUnique(c, key, 1, |c|);
    FirstMatchAppend(c, e, key, 1);
    var freed;
    r, freed := table.Remove(key, 1);
    afterRemove := table.keyCount;
    assert table.storeHouse[103] == c;
    FirstMatchUnique(c, key, 1, |c|);
    found := table.HasKey(key, 1);
    looked := table.Lookup(key, 1);
    var keys;
    keys, keyTotal := table.GetKeys();
  }

  /** Two different keys with the same first four bytes and length share a
      bucket, are found independently, and removing one leaves the other.
      The removal hits the bucket head, so this runs on the corrected
      Table.Remove: as written, the bucket would keep the freed element as
      its head (and removing the second key first would never terminate,
      since the head has the same length but other bytes). */
  method CollisionScenario() returns (same: bool, v1: Option<Value>, v2: Option<Value>, afterRemove: Option<Value>)
    ensures same
    ensures v1 == Some(Owned([10])) && v2 == Some(Owned([20]))
    ensures afterRemove == Some(Owned([20]))
  {
    var table := new Table(Copy);
    var k1: seq<byte> := [1, 2, 3, 4, 5];
    var k2: seq<byte> := [1, 2, 3, 4, 6];
    assert k1[..4] == k2[..4];
    HashIgnoresTail(k1, k2, 5);
    same := Hash(k1, 5) == Hash(k2, 5);
    var h := Hash(k1, 5);
    var e1, e2 := Entry(k1, 5, Owned([10]), 1), Entry(k2, 5, Owned([20]), 1);
    assert k1 != k2 by { assert k1[4] != k2[4]; }
    var r := table.HtAdd(k1, Buffer(1, [10]), ALL_OK);
    assert Buffer(0, [10]).bytes[..1] == [10];
    assert table.storeHouse[h] == [e1];
    r := table.HtAdd(k2, Buffer(2, [20]), ALL_OK);
    assert Buffer(0, [20]).bytes[..1] == [20];
    assert table.storeHouse[h] == [e1, e2];
    v1 := table.HtLookup(k1);
    assert !Matches(e1, k2, 5);
    FirstMatchUnique([e1, e2], k2, 5, 1);
    v2 := table.HtLookup(k2);
    var freed;
    r, freed := table.HtRemove(k1);
    assert table.storeHouse[h] == [e2];
    afterRemove := table.HtLookup(k2);
  }

  /** Adding a present key again keeps the first value visible until the
      first copy is removed, after which the second one is found. The
      removal hits the bucket head, so this runs on the corrected
      Table.Remove: as written, the bucket would keep the freed element as
      its head and the next lookup would read freed memory. */
  method DuplicateScenario() returns (first: Option<Value>, dup: Option<Value>, dupAfter: Option<Value>, count: nat)
    ensures first == Some(Owned([20])) && dup == Some(Owned([20])) && dupAfter == Some(Owned([30]))
    ensures count == 1
  {
    var table := new Table(Copy);
    var k: seq<byte> := [1, 2, 3, 4, 6];
    var h := Hash(k, 5);
    var e1, e2 := Entry(k, 5, Owned([20]), 1), Entry(k, 5, Owned([30]), 1);
    var r := table.HtAdd(k, Buffer(2, [20]), ALL_OK);
    assert Buffer(0, [20]).bytes[..1] == [20];
    assert table.storeHouse[h] == [e1];
    first := table.HtLookup(k);
    r := table.HtAdd(k, Buffer(3, [30]), ALL_OK);
    assert Buffer(0, [30]).bytes[..1] == [30];
    assert table.storeHouse[h] == [e1, e2];
    dup := table.HtLookup(k);
    var freed;
    r, freed := table.HtRemove(k);
    assert table.storeHouse[h] == [e2];
    dupAfter := table.HtLookup(k);
    count := table.keyCount;
  }

  /** The same insertion in both modes: COPY mode hands back a table-owned
      copy of the bytes, VALUEREF mode the caller's own pointer; a failed
      allocation changes nothing. */
  method ModeScenario() returns (copied: Option<Value>, borrowed: Option<Value>, failed: int, countAfterFail: nat)
    ensures copied == Some(Owned([7, 8]))
    ensures borrowed == Some(Borrowed(42))
    ensures failed == -1 && countAfterFail == 0
  {
    var key: seq<byte> := [9, 9, 9, 9];
    var value := Buffer(42, [7, 8]);
    assert key[..4] == key && value.bytes[..2] == value.bytes;
    var copyTable := new Table(Copy);
    var r := copyTable.HtAdd(key, value, ALL_OK);
    copied := copyTable.HtLookup(key);
    var refTable := new Table(ValueRef);
    r := refTable.HtAdd(key, value, ALL_OK);
    borrowed := refTable.HtLookup(key);
    var third := new Table(Copy);
    failed := third.HtAdd(key, value, Alloc(true, true, false));
    countAfterFail := third.keyCount;
  }
}
