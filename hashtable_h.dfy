/** The declarations of hashtable.h: the byte type, the element and table
    layouts, the ownership mode and the bucket routing macro HASH. */
module HashTableH {

  newtype byte = x: int | 0 <= x < 256

  /** HASH_LEN: the number of bucket heads in a table. */
  const HASH_LEN: nat := 256

  const INT_MIN: int := -0x8000_0000
  const INT_MAX: int := 0x7FFF_FFFF
  const SIZE_MAX: int := 0xFFFF_FFFF_FFFF_FFFF

  /** A pointer result: NULL, or a pointer to something. */
  datatype Option<T> = None | Some(val: T)

  /** The value ownership discipline fixed when a table is created. */
  datatype Mode = Copy | ValueRef

  /** A caller-side value argument: where it lives and what it holds. */
  datatype Buffer = Buffer(addr: nat, bytes: seq<byte>)

  /** The value an element keeps: a table-owned copy of the bytes (COPY mode)
      or the caller's own pointer, borrowed (VALUEREF mode). */
  datatype Value = Owned(bytes: seq<byte>) | Borrowed(addr: nat)

  /** One hash_table_element: the copied key, its length, the value and its
      length. The `next` link is the entry's position in its chain. */
  datatype Entry = Entry(key: seq<byte>, keyLen: nat, value: Value, valueLen: nat)

  /** An element as the table builds it in the given mode. */
  ghost predicate WellFormed(e: Entry, mode: Mode) {
    && e.keyLen == |e.key|
    && (mode == Copy ==> e.value.Owned? && |e.value.bytes| == e.valueLen)
    && (mode == ValueRef ==> e.value.Borrowed?)
  }

  /** Byte `i` of a key buffer; bytes past the buffer read as zero. */
  function ByteAt(key: seq<byte>, i: nat): (b: int)
    ensures 0 <= b < 256
    ensures i < |key| ==> b == key[i] as int
  {
    if i < |key| then key[i] as int else 0
  }

  /** `*(int *)key`: the first four bytes of the key read as a signed
      little-endian 32-bit integer. */
  function Prefix(key: seq<byte>): (w: int)
    ensures INT_MIN <= w <= INT_MAX
  {
    var u := ByteAt(key, 0) + 0x100 * ByteAt(key, 1) + 0x1_0000 * ByteAt(key, 2) + 0x100_0000 * ByteAt(key, 3);
    if u <= INT_MAX then u else u - 0x1_0000_0000
  }

  /** The bucket a key is routed to: (prefix + key_len) reduced into
      [0, HASH_LEN). The table uses this definition. */
  function Hash(key: seq<byte>, keyLen: nat): (h: nat)
    ensures h < HASH_LEN
  {
    (Prefix(key) + keyLen) % HASH_LEN
  }

  /** C's `%` on int: the remainder takes the sign of the dividend. */
  function CRem(a: int, m: nat): (r: int)
    requires m > 0
    ensures -(m as int) < r < m
    ensures a >= 0 ==> r == a % m
    ensures a < 0 ==> r <= 0
    ensures r == if a % m == 0 then 0 else if a >= 0 then a % m else a % m - m
  {
    if a >= 0 then a % m
    else
      var s := (-a) % m;
      var q := (-a) / m;
      assert -a == m * q + s;
      if s == 0 then
        ModUnique(a, m, -q, 0);
        0
      else
        assert a == m * (-q - 1) + (m - s);
        ModUnique(a, m, -q - 1, m - s);
        -s
  }

  /** The Euclidean remainder is the one r in [0, m) with a == m * q + r. */
  lemma ModUnique(a: int, m: nat, q: int, r: int)
    requires m > 0 && a == m * q + r && 0 <= r < m
    ensures a % m == r
  {
    var q', r' := a / m, a % m;
    if q < q' {
      MulStep(m, q, q' - q);
    } else if q' < q {
      MulStep(m, q', q - q');
    }
  }

  /** m * (q + d) == m * q + m * d, and m * d >= m for d >= 1. */
  lemma MulStep(m: nat, q: int, d: int)
    requires m > 0 && d >= 1
    ensures m * (q + d) == m * q + m * d && m * d >= m
  {
  }

  /** `(int)y` for a size_t: reduction into the 32-bit signed range. A
      length above INT_MAX that fits in 32 bits wraps to a negative int. */
  function ToInt(n: nat): (i: int)
    ensures INT_MIN <= i <= INT_MAX
    ensures n <= INT_MAX ==> i == n
    ensures INT_MAX < n <= 0xFFFF_FFFF ==> i == n - 0x1_0000_0000
  {
    var r := (n - INT_MIN) % 0x1_0000_0000;
    if INT_MAX < n <= 0xFFFF_FFFF then
      ModUnique(n - INT_MIN, 0x1_0000_0000, 1, n - INT_MIN - 0x1_0000_0000);
      r + INT_MIN
    else
      r + INT_MIN
  }

  /** `(size_t)` of an int: reduction modulo 2^64. A negative int becomes
      that int plus 2^64. */
  function ToSizeT(i: int): (s: nat)
    ensures s <= SIZE_MAX
    ensures 0 <= i <= SIZE_MAX ==> s == i
    ensures -(SIZE_MAX + 1) <= i < 0 ==> s == i + SIZE_MAX + 1
  {
    if -(SIZE_MAX + 1) <= i < 0 then
      ModUnique(i, SIZE_MAX + 1, -1, i + SIZE_MAX + 1);
      i % (SIZE_MAX + 1)
    else
      i % (SIZE_MAX + 1)
  }

  /** The HASH macro exactly as written: `(size_t)(((*(int *)x)+(int)y)%HASH_LEN)`,
      with the signed addition taken without overflow. */
  function HashAsWritten(key: seq<byte>, keyLen: nat): (h: nat)
    ensures h <= SIZE_MAX
  {
    ToSizeT(CRem(Prefix(key) + ToInt(keyLen), HASH_LEN))
  }

  /** Whenever the signed sum is non-negative, the macro's index is in range
      and is the table's bucket. */
  lemma HashAsWrittenInRange(key: seq<byte>, keyLen: nat)
    requires keyLen <= INT_MAX
    requires Prefix(key) + keyLen >= 0
    ensures HashAsWritten(key, keyLen) < HASH_LEN
    ensures HashAsWritten(key, keyLen) == Hash(key, keyLen)
  {
  }

  /** A key whose first four bytes read as -1, of length 0: the macro yields
      an index far beyond the 256 bucket heads. */
  lemma HashAsWrittenOutOfRange()
    ensures Prefix([0xFF, 0xFF, 0xFF, 0xFF]) == -1
    ensures HashAsWritten([0xFF, 0xFF, 0xFF, 0xFF], 0) == SIZE_MAX
    ensures HashAsWritten([0xFF, 0xFF, 0xFF, 0xFF], 0) >= HASH_LEN
  {
    assert CRem(-1, HASH_LEN) == -1;
  }

  /** Only the first four bytes and the length decide the bucket. */
  lemma HashIgnoresTail(k1: seq<byte>, k2: seq<byte>, keyLen: nat)
    requires |k1| >= 4 && |k2| >= 4 && k1[..4] == k2[..4]
    ensures Hash(k1, keyLen) == Hash(k2, keyLen)
  {
    assert forall i :: 0 <= i < 4 ==> k1[i] == k1[..4][i] && k2[i] == k2[..4][i];
  }

  /** The copy of a key of at least four bytes hashes like the caller's key. */
  lemma HashOfStoredKey(key: seq<byte>, keyLen: nat)
    requires 4 <= keyLen <= |key|
    ensures Hash(key[..keyLen], keyLen) == Hash(key, keyLen)
  {
    HashIgnoresTail(key[..keyLen], key, keyLen);
  }

  /** The four bytes of a C int, little-endian. */
  function IntBytes(x: int): (b: seq<byte>)
    requires INT_MIN <= x <= INT_MAX
    ensures |b| == 4
  {
    var u := if x < 0 then x + 0x1_0000_0000 else x;
    [(u % 0x100) as byte, (u / 0x100 % 0x100) as byte, (u / 0x1_0000 % 0x100) as byte, (u / 0x100_0000) as byte]
  }

  /** Reading back the bytes of an int gives the int. */
  lemma PrefixOfIntBytes(x: int)
    requires INT_MIN <= x <= INT_MAX
    ensures Prefix(IntBytes(x)) == x
  {
    var u := if x < 0 then x + 0x1_0000_0000 else x;
    var b := IntBytes(x);
    assert 0 <= u < 0x1_0000_0000;
    assert u / 0x100_0000 < 0x100;
    DigitSplit(u, 0x100);
    DigitSplit(u / 0x100, 0x100);
    DigitSplit(u / 0x1_0000, 0x100);
    assert u / 0x100 / 0x100 == u / 0x1_0000;
    assert u / 0x1_0000 / 0x100 == u / 0x100_0000;
    assert b[0] as int + 0x100 * b[1] as int + 0x1_0000 * b[2] as int + 0x100_0000 * b[3] as int == u;
  }

  lemma DigitSplit(n: nat, d: nat)
    requires d > 0
    ensures n == n % d + d * (n / d)
  {
  }
}
