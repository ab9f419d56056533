/** Element lifecycle of hashtable.c: building an element inside add (the
    calloc of hash_table_element_new followed by the mode-dependent key and
    value buffers) and releasing one (hash_table_element_delete). */
module Elements {
  import opened HashTableH

  /** Which of the allocations an add attempts succeed: the element record,
      the key buffer and, in COPY mode, the value buffer. */
  datatype Alloc = Alloc(element: bool, key: bool, value: bool)

  /** The element an add builds, or None when an allocation it needs fails
      (hashtable.c:50-100). No buffer outlives a failed attempt. */
  function NewEntry(mode: Mode, key: seq<byte>, keyLen: nat, value: Buffer, valueLen: nat, alloc: Alloc): (r: Option<Entry>)
    requires keyLen <= |key|
    requires mode == Copy ==> valueLen <= |value.bytes|
    ensures r.None? <==> !alloc.element || !alloc.key || (mode == Copy && !alloc.value)
    ensures r.Some? ==> WellFormed(r.val, mode)
    ensures r.Some? ==> r.val.key == key[..keyLen] && r.val.keyLen == keyLen && r.val.valueLen == valueLen
    ensures r.Some? && mode == Copy ==> r.val.value == Owned(value.bytes[..valueLen])
    ensures r.Some? && mode == ValueRef ==> r.val.value == Borrowed(value.addr)
  {
    if !alloc.element then None
    else match mode
      case Copy =>
        if alloc.key && alloc.value then Some(Entry(key[..keyLen], keyLen, Owned(value.bytes[..valueLen]), valueLen))
        else None
      case ValueRef =>
        if alloc.key then Some(Entry(key[..keyLen], keyLen, Borrowed(value.addr), valueLen))
        else None
  }

  /** What destroying an element releases besides the record itself. */
  datatype Release = Release(element: Entry, keyFreed: bool, valueFreed: bool)

  /** A release that frees memory the table only borrowed from its caller. */
  predicate FreesCallerMemory(r: Release) {
    r.valueFreed && r.element.value.Borrowed?
  }

  /** A release that leaks a buffer the table owns. */
  predicate Leaks(r: Release) {
    !r.keyFreed || (r.element.value.Owned? && !r.valueFreed)
  }

  /** hash_table_element_delete as written (hashtable.c:14-20): key and value
      are freed whatever the mode. */
  function ElementDeleteAsWritten(e: Entry): (r: Release)
    ensures r.element == e && !Leaks(r)
    ensures e.value.Borrowed? ==> FreesCallerMemory(r)
  {
    Release(e, true, true)
  }

  /** Element destruction that respects ownership: the key always, the value
      only when the table owns it. The table uses this definition. */
  function ElementDelete(e: Entry): (r: Release)
    ensures r.element == e
    ensures !FreesCallerMemory(r) && !Leaks(r)
  {
    Release(e, true, e.value.Owned?)
  }

  /** In VALUEREF mode the as-written destructor frees the caller's value,
      while the ownership-aware one frees exactly the key. */
  lemma DeleteAsWrittenFreesCallerValue(e: Entry)
    requires WellFormed(e, ValueRef)
    ensures FreesCallerMemory(ElementDeleteAsWritten(e))
    ensures ElementDelete(e) == Release(e, true, false)
  {
  }

  /** In COPY mode both definitions release the same buffers. */
  lemma DeleteAgreesInCopyMode(e: Entry)
    requires WellFormed(e, Copy)
    ensures ElementDelete(e) == ElementDeleteAsWritten(e)
  {
  }

  /** The releases of destroying a sequence of elements one by one. */
  function Releases(es: seq<Entry>): (rs: seq<Release>)
    ensures |rs| == |es|
    ensures forall i :: 0 <= i < |rs| ==> rs[i].element == es[i] && !FreesCallerMemory(rs[i]) && !Leaks(rs[i])
  {
    seq(|es|, i requires 0 <= i < |es| => ElementDelete(es[i]))
  }

  lemma ReleasesAppend(es: seq<Entry>, e: Entry)
    ensures Releases(es + [e]) == Releases(es) + [ElementDelete(e)]
  {
  }
}
