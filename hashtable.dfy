/** The table of hashtable.c: 256 bucket heads updated in place, the
    ownership mode and the element counter, with the operations create,
    add, remove, lookup, has_key, get_keys and teardown. */
module HashTable {
  import opened HashTableH
  import opened Chains
  import opened Elements

  /** An element in bucket b is where the routing puts its key. A key
      shorter than four bytes was routed on caller bytes the element does
      not keep, so only longer keys can be checked. */
  ghost predicate Placed(e: Entry, b: nat) {
    e.keyLen >= 4 ==> Hash(e.key, e.keyLen) == b
  }

  /** Every element of chain c, kept in bucket b, is well formed and placed. */
  ghost predicate ChainOk(c: seq<Entry>, b: nat, mode: Mode) {
    forall i :: 0 <= i < |c| ==> WellFormed(c[i], mode) && Placed(c[i], b)
  }

  lemma ChainOkUnlink(c: seq<Entry>, k: nat, b: nat, mode: Mode)
    requires k < |c| && ChainOk(c, b, mode)
    ensures ChainOk(Unlink(c, k), b, mode)
  {
    var r := Unlink(c, k);
    forall i | 0 <= i < |r|
      ensures WellFormed(r[i], mode) && Placed(r[i], b)
    {
      assert r[i] == c[i] || r[i] == c[i + 1];
    }
  }

  /** Placement confines a key of four or more bytes to its own bucket: an
      element that matches it can only sit in bucket Hash(key, keyLen), so
      a miss there is a miss in the whole table. */
  lemma MatchesOnlyInOwnBucket(t: Table, key: seq<byte>, keyLen: nat)
    requires t.Valid() && 4 <= keyLen <= |key|
    ensures forall b, i :: 0 <= b < HASH_LEN && 0 <= i < |t.storeHouse[b]| && Matches(t.storeHouse[b][i], key, keyLen) ==> b == Hash(key, keyLen)
    ensures var c := t.storeHouse[Hash(key, keyLen)];
      FirstMatch(c, key, keyLen) == |c| ==>
        forall b, i :: 0 <= b < HASH_LEN && 0 <= i < |t.storeHouse[b]| ==> !Matches(t.storeHouse[b][i], key, keyLen)
  {
    HashOfStoredKey(key, keyLen);
    forall b, i | 0 <= b < HASH_LEN && 0 <= i < |t.storeHouse[b]| && Matches(t.storeHouse[b][i], key, keyLen)
      ensures b == Hash(key, keyLen)
    {
      assert ChainOk(t.storeHouse[b], b, t.mode);
      assert Placed(t.storeHouse[b][i], b);
    }
  }

  class Table {
    /** store_house: the bucket heads, each chain head first. */
    const storeHouse: array<seq<Entry>>
    const mode: Mode
    var keyCount: nat

    ghost predicate Valid()
      reads this, storeHouse
    {
      && storeHouse.Length == HASH_LEN
      && keyCount == |Flatten(storeHouse[..])|
      && forall b :: 0 <= b < HASH_LEN ==> ChainOk(storeHouse[b], b, mode)
    }

    /** hash_table_new: every bucket empty, no keys, the given mode. */
    constructor (mode: Mode)
      ensures Valid() && fresh(storeHouse)
      ensures this.mode == mode && keyCount == 0
      ensures forall b :: 0 <= b < HASH_LEN ==> storeHouse[b] == []
    {
      this.mode := mode;
      storeHouse := new seq<Entry>[HASH_LEN](_ => []);
      keyCount := 0;
      new;
      FlattenEmpty(storeHouse[..]);
    }

    /** hash_table_add: on success the new element is the tail of the key's
        bucket and the count rises by one; when an allocation fails nothing
        changes and -1 is returned. Equal keys are not rejected. */
    method Add(key: seq<byte>, keyLen: nat, value: Buffer, valueLen: nat, alloc: Alloc) returns (r: int)
      requires Valid()
      requires keyLen <= |key|
      requires mode == Copy ==> valueLen <= |value.bytes|
      modifies this, storeHouse
      ensures Valid()
      ensures var h := Hash(key, keyLen);
        match NewEntry(mode, key, keyLen, value, valueLen, alloc)
        case None =>
          r == -1 && storeHouse[..] == old(storeHouse[..]) && keyCount == old(keyCount)
        case Some(e) =>
          && r == 0
          && storeHouse[..] == old(storeHouse[..])[h := old(storeHouse[h]) + [e]]
          && keyCount == old(keyCount) + 1
    {
      var h := Hash(key, keyLen);
      var element := NewEntry(mode, key, keyLen, value, valueLen, alloc);
      if element.None? {
        return -1;
      }
      var e := element.val;
      if keyLen >= 4 {
        HashOfStoredKey(key, keyLen);
      }
      FlattenUpdate(storeHouse[..], h, storeHouse[h] + [e]);
      storeHouse[h] := storeHouse[h] + [e];
      keyCount := keyCount + 1;
      return 0;
    }

    /** hash_table_remove: the first match in the key's bucket is unlinked
        and destroyed and the count drops by one; without a match -1 is
        returned and nothing changes. `freed` is what destruction released. */
    method Remove(key: seq<byte>, keyLen: nat) returns (r: int, freed: seq<Release>)
      requires Valid()
      requires keyLen <= |key|
      modifies this, storeHouse
      ensures Valid()
      ensures var h := Hash(key, keyLen);
        var c := old(storeHouse[h]);
        var k := FirstMatch(c, key, keyLen);
        if k < |c| then
          && r == 0 && freed == [ElementDelete(c[k])]
          && storeHouse[..] == old(storeHouse[..])[h := Unlink(c, k)]
          && keyCount == old(keyCount) - 1
        else
          && r == -1 && freed == []
          && storeHouse[..] == old(storeHouse[..]) && keyCount == old(keyCount)
    {
      var h := Hash(key, keyLen);
      var c := storeHouse[h];
      if c == [] {
        return -1, [];
      }
      var t := 0;
      while t < |c|
        invariant 0 <= t <= |c|
        invariant forall j :: 0 <= j < t ==> !Matches(c[j], key, keyLen)
      {
        while t < |c| && c[t].keyLen != keyLen
          invariant t <= |c|
          invariant forall j :: 0 <= j < t ==> !Matches(c[j], key, keyLen)
        {
          t := t + 1;
        }
        if t < |c| {
          if c[t].key == key[..keyLen] {
            FirstMatchUnique(c, key, keyLen, t);
            FlattenUpdate(storeHouse[..], h, Unlink(c, t));
            ChainOkUnlink(c, t, h, mode);
            freed := [ElementDelete(c[t])];
            storeHouse[h] := Unlink(c, t);
            keyCount := keyCount - 1;
            return 0, freed;
          }
          t := t + 1;
        }
      }
      FirstMatchUnique(c, key, keyLen, |c|);
      return -1, [];
    }

    /** hash_table_lookup: the value of the first match in chain order, or
        NULL; the table is not changed. */
    method Lookup(key: seq<byte>, keyLen: nat) returns (r: Option<Value>)
      requires Valid()
      requires keyLen <= |key|
      ensures var c := storeHouse[Hash(key, keyLen)];
        var k := FirstMatch(c, key, keyLen);
        r == if k < |c| then Some(c[k].value) else None
    {
      var c := storeHouse[Hash(key, keyLen)];
      if c == [] {
        return None;
      }
      var t := 0;
      while t < |c|
        invariant 0 <= t <= |c|
        invariant forall j :: 0 <= j < t ==> !Matches(c[j], key, keyLen)
      {
        while t < |c| && c[t].keyLen != keyLen
          invariant t <= |c|
          invariant forall j :: 0 <= j < t ==> !Matches(c[j], key, keyLen)
        {
          t := t + 1;
        }
        if t < |c| {
          if c[t].key == key[..keyLen] {
            FirstMatchUnique(c, key, keyLen, t);
            return Some(c[t].value);
          } else {
            t := t + 1;
          }
        }
      }
      FirstMatchUnique(c, key, keyLen, |c|);
      return None;
    }

    /** hash_table_has_key: 1 exactly when some element of the key's bucket
        matches (so exactly when lookup finds one), otherwise 0. */
    method HasKey(key: seq<byte>, keyLen: nat) returns (r: int)
      requires Valid()
      requires keyLen <= |key|
      ensures var c := storeHouse[Hash(key, keyLen)];
        (r == 1 <==> FirstMatch(c, key, keyLen) < |c|) && (r == 0 || r == 1)
      ensures r == 1 <==> exists e :: e in storeHouse[Hash(key, keyLen)] && Matches(e, key, keyLen)
    {
      var c := storeHouse[Hash(key, keyLen)];
      if c == [] {
        return 0;
      }
      var t := 0;
      while t < |c|
        invariant 0 <= t <= |c|
        invariant forall j :: 0 <= j < t ==> !Matches(c[j], key, keyLen)
      {
        while t < |c| && c[t].keyLen != keyLen
          invariant t <= |c|
          invariant forall j :: 0 <= j < t ==> !Matches(c[j], key, keyLen)
        {
          t := t + 1;
        }
        if t < |c| {
          if c[t].key == key[..keyLen] {
            FirstMatchUnique(c, key, keyLen, t);
            return 1;
          }
          t := t + 1;
        }
      }
      FirstMatchUnique(c, key, keyLen, |c|);
      return 0;
    }

    /** hash_table_get_keys, delivering its result: the keys of all elements,
        bucket 0 to 255 and head to tail within a bucket, and their number,
        which is key_count. */
    method GetKeys() returns (keys: seq<seq<byte>>, count: nat)
      requires Valid()
      ensures keys == KeysOf(Flatten(storeHouse[..]))
      ensures count == |keys| == keyCount
      ensures forall b, e :: 0 <= b < HASH_LEN && e in storeHouse[b] ==> e.key in keys
    {
      keys, count := [], 0;
      var i := 0;
      while i < HASH_LEN
        invariant 0 <= i <= HASH_LEN
        invariant keys == KeysOf(Flatten(storeHouse[..i]))
        invariant count == |keys|
      {
        var c := storeHouse[i];
        var j := 0;
        while j < |c|
          invariant 0 <= j <= |c|
          invariant keys == KeysOf(Flatten(storeHouse[..i]) + c[..j])
          invariant count == |keys|
        {
          KeysOfAppend(Flatten(storeHouse[..i]) + c[..j], c[j]);
          assert Flatten(storeHouse[..i]) + c[..j + 1] == Flatten(storeHouse[..i]) + c[..j] + [c[j]];
          keys := keys + [c[j].key];
          count := count + 1;
          j := j + 1;
        }
        FlattenPrefix(storeHouse[..], i);
        assert c[..j] == c;
        i := i + 1;
      }
      assert storeHouse[..i] == storeHouse[..];
      forall b, e | 0 <= b < HASH_LEN && e in storeHouse[b]
        ensures e.key in keys
      {
        assert e in storeHouse[..][b];
        FlattenMembers(storeHouse[..], e);
        var p :| 0 <= p < |Flatten(storeHouse[..])| && Flatten(storeHouse[..])[p] == e;
        assert keys[p] == e.key;
      }
    }

    /** HT_ADD: hash_table_add with both lengths taken as sizeof of the
        pointed-to objects, here the lengths of their byte images. */
    method HtAdd(key: seq<byte>, value: Buffer, alloc: Alloc) returns (r: int)
      requires Valid()
      modifies this, storeHouse
      ensures Valid()
      ensures var h := Hash(key, |key|);
        match NewEntry(mode, key, |key|, value, |value.bytes|, alloc)
        case None =>
          r == -1 && storeHouse[..] == old(storeHouse[..]) && keyCount == old(keyCount)
        case Some(e) =>
          && r == 0 && e.key == key && e.valueLen == |value.bytes|
          && storeHouse[..] == old(storeHouse[..])[h := old(storeHouse[h]) + [e]]
          && keyCount == old(keyCount) + 1
    {
      assert key[..|key|] == key;
      r := Add(key, |key|, value, |value.bytes|, alloc);
    }

    /** HT_REMOVE: hash_table_remove with key_len = sizeof(*key). */
    method HtRemove(key: seq<byte>) returns (r: int, freed: seq<Release>)
      requires Valid()
      modifies this, storeHouse
      ensures Valid()
      ensures var h := Hash(key, |key|);
        var c := old(storeHouse[h]);
        var k := FirstMatch(c, key, |key|);
        if k < |c| then
          && r == 0 && freed == [ElementDelete(c[k])]
          && storeHouse[..] == old(storeHouse[..])[h := Unlink(c, k)]
          && keyCount == old(keyCount) - 1
        else
          && r == -1 && freed == []
          && storeHouse[..] == old(storeHouse[..]) && keyCount == old(keyCount)
    {
      r, freed := Remove(key, |key|);
    }

    /** HT_LOOKUP: hash_table_lookup with key_len = sizeof(*key); the match
        holds exactly the same key bytes. */
    method HtLookup(key: seq<byte>) returns (r: Option<Value>)
      requires Valid()
      ensures var c := storeHouse[Hash(key, |key|)];
        var k := FirstMatch(c, key, |key|);
        r == if k < |c| then Some(c[k].value) else None
      ensures r.Some? ==> exists e :: e in storeHouse[Hash(key, |key|)] && e.key == key && e.value == r.val
    {
      assert key[..|key|] == key;
      r := Lookup(key, |key|);
    }

    /** HT_HAS_KEY: hash_table_has_key with key_len = sizeof(*key). */
    method HtHasKey(key: seq<byte>) returns (r: int)
      requires Valid()
      ensures r == 1 <==> exists e :: e in storeHouse[Hash(key, |key|)] && e.keyLen == |key| && e.key == key
      ensures r == 0 || r == 1
    {
      assert key[..|key|] == key;
      r := HasKey(key, |key|);
    }

    /** hash_table_delete: every bucket is emptied by popping its head until
        none is left; each element is destroyed once, in bucket and chain
        order, releasing what the table owns and nothing the caller owns. */
    method Delete() returns (freed: seq<Release>)
      requires Valid()
      modifies storeHouse
      ensures forall b :: 0 <= b < HASH_LEN ==> storeHouse[b] == []
      ensures freed == Releases(Flatten(old(storeHouse[..])))
      ensures forall i :: 0 <= i < |freed| ==> !FreesCallerMemory(freed[i]) && !Leaks(freed[i])
    {
      ghost var before := storeHouse[..];
      freed := [];
      var i := 0;
      while i < HASH_LEN
        invariant 0 <= i <= HASH_LEN
        invariant forall b :: 0 <= b < i ==> storeHouse[b] == []
        invariant forall b :: i <= b < HASH_LEN ==> storeHouse[b] == before[b]
        invariant freed == Releases(Flatten(before[..i]))
      {
        ghost var d := 0;
        while storeHouse[i] != []
          invariant 0 <= d <= |before[i]|
          invariant storeHouse[i] == before[i][d..]
          invariant forall b :: 0 <= b < i ==> storeHouse[b] == []
          invariant forall b :: i < b < HASH_LEN ==> storeHouse[b] == before[b]
          invariant freed == Releases(Flatten(before[..i]) + before[i][..d])
          decreases |storeHouse[i]|
        {
          var temp := storeHouse[i][0];
          storeHouse[i] := storeHouse[i][1..];
          ReleasesAppend(Flatten(before[..i]) + before[i][..d], temp);
          assert before[i][..d + 1] == before[i][..d] + [temp];
          freed := freed + [ElementDelete(temp)];
          d := d + 1;
        }
        FlattenPrefix(before, i);
        assert before[i][..d] == before[i];
        i := i + 1;
      }
      assert before[..i] == before;
    }
  }


  /** What hash_table_get_keys as written leaves behind: the count it
      returns, the caller's `keys` variable (the routine only reassigned its
      own copy of it) and what the routine's array was filled with. */
  datatype KeysOutcome = KeysOutcome(count: nat, callersKeys: Option<seq<seq<byte>>>, filled: seq<Entry>)

  /** hashtable.c:218-246 as written: the array goes to the by-value
      parameter and is filled with elements, not keys. */
  function GetKeysAsWritten(bs: seq<seq<Entry>>, callersKeys: Option<seq<seq<byte>>>): (r: KeysOutcome)
    ensures r.callersKeys == callersKeys
    ensures r.count == |r.filled| && KeysOf(r.filled) == KeysOf(Flatten(bs))
  {
    KeysOutcome(|Flatten(bs)|, callersKeys, Flatten(bs))
  }

  /** The call of main.c:36-37 on a table holding one element: the count is
      1, yet the caller's `keys` is still NULL, and the lost array held the
      element record where its key was meant. */
  lemma GetKeysAsWrittenLosesResult(e: Entry)
    ensures var bs := seq(HASH_LEN, b => if b == 0 then [e] else []);
      var r := GetKeysAsWritten(bs, None);
      && r.count == 1 && r.callersKeys.None? && r.filled == [e]
      && KeysOf(Flatten(bs)) == [e.key]
  {
    var bs := seq(HASH_LEN, b => if b == 0 then [e] else []);
    assert Flatten(bs[..1]) == [e] by {
      assert bs[..1][..0] == [];
    }
    var i := 1;
    while i < HASH_LEN
      invariant 1 <= i <= HASH_LEN
      invariant Flatten(bs[..i]) == [e]
    {
      FlattenPrefix(bs, i);
      i := i + 1;
    }
    assert bs[..HASH_LEN] == bs;
  }
}
