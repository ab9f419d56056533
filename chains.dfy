/** Bucket chains as sequences of elements, head first: the matching rule
    shared by lookup, has_key and remove, the enumeration order, unlinking,
    and the chain walks of hashtable.c as the source writes them. */
module Chains {
  import opened HashTableH

  /** An element answers to (key, keyLen) when its length equals keyLen and
      its stored bytes equal the first keyLen bytes of the caller's key. */
  predicate Matches(e: Entry, key: seq<byte>, keyLen: nat)
    requires keyLen <= |key|
  {
    e.keyLen == keyLen && e.key == key[..keyLen]
  }

  /** The position of the first matching element in chain order, or |c|
      when none matches. */
  function FirstMatch(c: seq<Entry>, key: seq<byte>, keyLen: nat): (k: nat)
    requires keyLen <= |key|
    ensures k <= |c|
    ensures k < |c| ==> Matches(c[k], key, keyLen)
    ensures forall j :: 0 <= j < k ==> !Matches(c[j], key, keyLen)
  {
    if c == [] then 0
    else if Matches(c[0], key, keyLen) then 0
    else 1 + FirstMatch(c[1..], key, keyLen)
  }

  /** The inner `while (temp && temp->key_len != key_len)` walk: from position
      t, the first element whose length is keyLen, or |c|. */
  function SkipToLength(c: seq<Entry>, keyLen: nat, t: nat): (k: nat)
    requires t <= |c|
    ensures t <= k <= |c|
    ensures k < |c| ==> c[k].keyLen == keyLen
    ensures forall j :: t <= j < k ==> c[j].keyLen != keyLen
    decreases |c| - t
  {
    if t == |c| then t
    else if c[t].keyLen == keyLen then t
    else SkipToLength(c, keyLen, t + 1)
  }

  /** Removing the element at position k, keeping the order of the others. */
  function Unlink(c: seq<Entry>, k: nat): (r: seq<Entry>)
    requires k < |c|
    ensures |r| == |c| - 1
    ensures forall j :: 0 <= j < |r| ==> r[j] == if j < k then c[j] else c[j + 1]
    ensures multiset(r) + multiset{c[k]} == multiset(c)
  {
    assert c == c[..k] + [c[k]] + c[k + 1..];
    c[..k] + c[k + 1..]
  }

  /** All elements of the buckets, bucket 0 first, each chain head to tail. */
  function Flatten(bs: seq<seq<Entry>>): seq<Entry> {
    if bs == [] then [] else Flatten(bs[..|bs| - 1]) + bs[|bs| - 1]
  }

  /** No buckets hold anything exactly when their flattening is empty. */
  lemma {:induction false} FlattenEmpty(bs: seq<seq<Entry>>)
    ensures Flatten(bs) == [] <==> forall b :: 0 <= b < |bs| ==> bs[b] == []
    decreases |bs|
  {
    if bs != [] {
      var n := |bs| - 1;
      FlattenEmpty(bs[..n]);
      assert forall b :: 0 <= b < n ==> bs[..n][b] == bs[b];
    }
  }

  /** Flattening a prefix one bucket longer appends that bucket. */
  lemma FlattenPrefix(bs: seq<seq<Entry>>, i: nat)
    requires i < |bs|
    ensures Flatten(bs[..i + 1]) == Flatten(bs[..i]) + bs[i]
  {
    assert bs[..i + 1][..i] == bs[..i];
  }

  /** The keys of a sequence of elements, in the same order. */
  function KeysOf(es: seq<Entry>): (ks: seq<seq<byte>>)
    ensures |ks| == |es|
    ensures forall e :: e in es ==> e.key in ks
    ensures forall k :: k in ks ==> exists e :: e in es && e.key == k
  {
    var ks := seq(|es|, i requires 0 <= i < |es| => es[i].key);
    assert forall i :: 0 <= i < |es| ==> ks[i] == es[i].key && ks[i] in ks;
    ks
  }

  lemma KeysOfAppend(es: seq<Entry>, e: Entry)
    ensures KeysOf(es + [e]) == KeysOf(es) + [e.key]
  {
  }

  /** Replacing one chain changes the element total by the difference in
      that chain's length. */
  lemma {:induction false} FlattenUpdate(bs: seq<seq<Entry>>, h: nat, c: seq<Entry>)
    requires h < |bs|
    ensures |Flatten(bs[h := c])| + |bs[h]| == |Flatten(bs)| + |c|
    decreases |bs|
  {
    var n := |bs| - 1;
    var bs' := bs[h := c];
    assert bs'[..n] == if h == n then bs[..n] else bs[..n][h := c];
    if h < n {
      FlattenUpdate(bs[..n], h, c);
    }
  }

  /** Every element of the flattened buckets sits in some bucket, and
      every element of every bucket appears in the flattening. */
  lemma {:induction false} FlattenMembers(bs: seq<seq<Entry>>, e: Entry)
    ensures e in Flatten(bs) <==> exists b :: 0 <= b < |bs| && e in bs[b]
    decreases |bs|
  {
    if bs != [] {
      var n := |bs| - 1;
      FlattenMembers(bs[..n], e);
      if e in Flatten(bs[..n]) {
        var b :| 0 <= b < n && e in bs[..n][b];
        assert e in bs[b];
      }
      if exists b :: 0 <= b < |bs| && e in bs[b] {
        var b :| 0 <= b < |bs| && e in bs[b];
        if b < n {
          assert e in bs[..n][b];
        }
      }
    }
  }

  /** Appending an element leaves the first match where it was; only when
      the chain had no match can the new tail element become it. */
  lemma {:induction false} FirstMatchAppend(c: seq<Entry>, e: Entry, key: seq<byte>, keyLen: nat)
    requires keyLen <= |key|
    ensures FirstMatch(c + [e], key, keyLen) ==
      if FirstMatch(c, key, keyLen) < |c| then FirstMatch(c, key, keyLen)
      else if Matches(e, key, keyLen) then |c| else |c| + 1
  {
    if c != [] {
      assert (c + [e])[1..] == c[1..] + [e];
      FirstMatchAppend(c[1..], e, key, keyLen);
    }
  }

  /** FirstMatch is the one position with its two defining properties. */
  lemma FirstMatchUnique(c: seq<Entry>, key: seq<byte>, keyLen: nat, i: nat)
    requires keyLen <= |key| && i <= |c|
    requires i < |c| ==> Matches(c[i], key, keyLen)
    requires forall j :: 0 <= j < i ==> !Matches(c[j], key, keyLen)
    ensures FirstMatch(c, key, keyLen) == i
  {
  }

  /** Removing one element does not disturb what a key finds, provided the
      removed element does not answer to that key. */
  lemma FirstMatchAfterUnlink(c: seq<Entry>, k: nat, key: seq<byte>, keyLen: nat)
    requires k < |c| && keyLen <= |key|
    requires !Matches(c[k], key, keyLen)
    ensures var r := Unlink(c, k);
      && (FirstMatch(r, key, keyLen) < |r| <==> FirstMatch(c, key, keyLen) < |c|)
      && (FirstMatch(c, key, keyLen) < |c| ==> r[FirstMatch(r, key, keyLen)] == c[FirstMatch(c, key, keyLen)])
  {
    var r := Unlink(c, k);
    var m := FirstMatch(c, key, keyLen);
    if m < k {
      FirstMatchUnique(r, key, keyLen, m);
    } else if m < |c| {
      assert r[m - 1] == c[m];
      assert forall j :: 0 <= j < m - 1 ==> r[j] == c[j] || r[j] == c[j + 1];
      FirstMatchUnique(r, key, keyLen, m - 1);
    } else {
      assert forall j :: 0 <= j < |r| ==> r[j] == c[j] || r[j] == c[j + 1];
      FirstMatchUnique(r, key, keyLen, |r|);
    }
  }

  /** One pass of the outer loop of has_key and remove (hashtable.c:199-213,
      133-151): skip to the next element of the right length, compare its
      bytes, and on a mismatch go round again WITHOUT advancing `temp`. */
  datatype Step = Stop(found: bool, at: nat) | Continue(next: nat)

  function StepAsWritten(c: seq<Entry>, key: seq<byte>, keyLen: nat, t: nat): (s: Step)
    requires keyLen <= |key| && t < |c|
    ensures s.Stop? && s.found ==> t <= s.at < |c| && Matches(c[s.at], key, keyLen)
    ensures s.Stop? && !s.found ==> s.at == |c|
    ensures s.Continue? ==> t <= s.next < |c| && c[s.next].keyLen == keyLen && !Matches(c[s.next], key, keyLen)
    ensures forall j :: t <= j < (if s.Stop? then s.at else s.next) ==> c[j].keyLen != keyLen
  {
    var k := SkipToLength(c, keyLen, t);
    if k == |c| then Stop(false, k)
    else if Matches(c[k], key, keyLen) then Stop(true, k)
    else Continue(k)
  }

  /** Once a pass ends on a length match with different bytes, the next pass
      starts and ends at the same element: the loop state is a fixed point,
      so the walk never terminates. */
  lemma StepAsWrittenStalls(c: seq<Entry>, key: seq<byte>, keyLen: nat, t: nat)
    requires keyLen <= |key| && t < |c|
    requires StepAsWritten(c, key, keyLen, t).Continue?
    ensures var k := StepAsWritten(c, key, keyLen, t).next;
      k < |c| && StepAsWritten(c, key, keyLen, k) == Continue(k)
  {
  }

  /** What the as-written walk of has_key and remove does with a chain. */
  datatype Scan = Found(at: nat) | Absent | Diverges

  function ScanAsWritten(c: seq<Entry>, key: seq<byte>, keyLen: nat): (s: Scan)
    requires keyLen <= |key|
    ensures s.Found? ==> s.at < |c| && Matches(c[s.at], key, keyLen)
    ensures s.Found? ==> forall j :: 0 <= j < s.at ==> c[j].keyLen != keyLen
    ensures s.Absent? ==> forall j :: 0 <= j < |c| ==> c[j].keyLen != keyLen
  {
    if c == [] then Absent
    else match StepAsWritten(c, key, keyLen, 0)
      case Stop(found, k) => if found then Found(k) else Absent
      case Continue(_) => Diverges
  }

  /** The as-written walk, when it stops, reports what FirstMatch reports; it
      diverges exactly when the first element of the right length has other
      bytes. */
  lemma ScanAsWrittenAgrees(c: seq<Entry>, key: seq<byte>, keyLen: nat)
    requires keyLen <= |key|
    ensures var s := ScanAsWritten(c, key, keyLen);
      var k := SkipToLength(c, keyLen, 0);
      && (s.Found? ==> s.at == FirstMatch(c, key, keyLen) < |c|)
      && (s.Absent? ==> FirstMatch(c, key, keyLen) == |c|)
      && (s.Diverges? <==> k < |c| && !Matches(c[k], key, keyLen))
  {
    var m := FirstMatch(c, key, keyLen);
    var k := SkipToLength(c, keyLen, 0);
    if m < |c| {
      assert c[m].keyLen == keyLen;
      assert k <= m;
    }
  }

  /** hashtable.c:144 as written: `prev->next = temp->next`, where `prev` is
      still `temp` when the match is the head; the bucket head is never
      rewritten, so the chain read from the bucket is unchanged. */
  function UnlinkAsWritten(c: seq<Entry>, k: nat): (r: seq<Entry>)
    requires k < |c|
    ensures k == 0 ==> |r| == |c| && r[0] == c[0]
    ensures k > 0 ==> |r| == |c| - 1 && multiset(r) + multiset{c[k]} == multiset(c)
  {
    if k == 0 then c else Unlink(c, k)
  }

  /** What hash_table_remove as written does to one bucket. */
  datatype RemoveOutcome = RemoveLoops | RemoveMissing | Removed(chain: seq<Entry>, deleted: Entry)

  function RemoveChainAsWritten(c: seq<Entry>, key: seq<byte>, keyLen: nat): (o: RemoveOutcome)
    requires keyLen <= |key|
    ensures var m := FirstMatch(c, key, keyLen);
      && (o.Removed? ==> m < |c| && o.deleted == c[m] && Matches(o.deleted, key, keyLen))
      && (o.Removed? && m == 0 ==> o.chain == c)
      && (o.Removed? && m > 0 ==> o.chain == Unlink(c, m))
      && (o.RemoveMissing? ==> m == |c|)
      && (o.RemoveLoops? ==> m == |c| || SkipToLength(c, keyLen, 0) < m)
  {
    ScanAsWrittenAgrees(c, key, keyLen);
    match ScanAsWritten(c, key, keyLen)
    case Found(k) => Removed(UnlinkAsWritten(c, k), c[k])
    case Absent => RemoveMissing
    case Diverges => RemoveLoops
  }

  /** Removing a key that is the bucket head leaves the deleted element as
      the head: it is freed yet still reachable, and the chain is one element
      longer than the decremented key_count allows. */
  lemma RemoveHeadDangles(c: seq<Entry>, key: seq<byte>)
    requires |c| > 0 && |key| == c[0].keyLen && c[0].key == key
    ensures RemoveChainAsWritten(c, key, |key|) == Removed(c, c[0])
    ensures |RemoveChainAsWritten(c, key, |key|).chain| != |c| - 1
  {
    assert key[..|key|] == key;
  }

  /** A one-element chain holding key 1,2,3,4 and a lookup of 1,2,3,5: the
      lengths agree, the bytes do not, and the as-written walk never ends,
      whereas no element matches. */
  lemma ScanDivergesExample()
    ensures var c := [Entry([1, 2, 3, 4], 4, Owned([7]), 1)];
      && ScanAsWritten(c, [1, 2, 3, 5], 4) == Diverges
      && RemoveChainAsWritten(c, [1, 2, 3, 5], 4) == RemoveLoops
      && FirstMatch(c, [1, 2, 3, 5], 4) == |c|
  {
    var c := [Entry([1, 2, 3, 4], 4, Owned([7]), 1)];
    var key: seq<byte> := [1, 2, 3, 5];
    assert key[..4] == key;
    assert c[0].key != key;
    assert SkipToLength(c, 4, 0) == 0;
  }
}
