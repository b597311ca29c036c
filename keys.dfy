/**
 * Keys: byte strings and the two callbacks the user-variable table installs
 * into its hash table -- the key hasher (ukv_key_hash) and the key comparator
 * (ukv_key_match) -- together with the C-string helpers (memcmp, strlen) that
 * they and the SQL entry points rely on.
 *
 * Every key and value is an opaque, length-counted byte range.
 */
module Keys {

  newtype byte = x: int | 0 <= x < 256
  newtype uint32 = x: int | 0 <= x < 0x1_0000_0000

  /** The contents of a length-counted byte range. */
  type Bytes = seq<byte>

  datatype Option<T> = None | Some(value: T)

  /**
   * string_hash as the host provides it. ukv_key_hash hands it the key
   * buffer and key_sz; it is taken here as a function of the first key_sz
   * bytes, and its definition is not part of this model.
   */
  type StringHash = Bytes -> uint32

  // ---------------------------------------------------------------------
  // memcmp
  // ---------------------------------------------------------------------

  /**
   * memcmp over |a| == |b| bytes: zero when the ranges are equal, otherwise
   * the sign of the first differing pair of bytes (compared unsigned).
   */
  function Memcmp(a: Bytes, b: Bytes): (r: int)
    requires |a| == |b|
    ensures -1 <= r <= 1
    ensures r == 0 <==> a == b
  {
    MemcmpFrom(a, b, 0)
  }

  /** memcmp's scan from byte i on. */
  function MemcmpFrom(a: Bytes, b: Bytes, i: nat): (r: int)
    requires |a| == |b| && i <= |a|
    decreases |a| - i
    ensures -1 <= r <= 1
    ensures r == 0 <==> forall j | i <= j < |a| :: a[j] == b[j]
  {
    if i == |a| then 0
    else if a[i] < b[i] then -1
    else if a[i] > b[i] then 1
    else MemcmpFrom(a, b, i + 1)
  }

  // ---------------------------------------------------------------------
  // ukv_key_match
  // ---------------------------------------------------------------------

  /**
   * ukv_key_match exactly as written. The hash table reads a result of 0 as
   * "the keys are equal". On a length mismatch the code stores `false` in
   * the result, and `false` is 0, so two keys of different lengths are
   * reported equal; equal lengths fall through to memcmp.
   */
  function KeyMatchAsWritten(stored: Bytes, probe: Bytes): (r: int)
    ensures |stored| == |probe| ==> (r == 0 <==> stored == probe)
    ensures |stored| != |probe| ==> r == 0
  {
    if |stored| != |probe| then 0 // match = false
    else Memcmp(stored, probe)
  }

  /**
   * ukv_key_match as intended: a length mismatch is a mismatch (non-zero),
   * equal lengths are compared byte for byte. Its zero answer is exactly
   * byte-for-byte equality over the full length.
   */
  function KeyMatch(stored: Bytes, probe: Bytes): (r: int)
    ensures r == 0 <==> stored == probe
  {
    if |stored| != |probe| then 1
    else Memcmp(stored, probe)
  }

  /** The as-written comparator calls two different keys equal. */
  lemma AsWrittenMatchIgnoresLength()
    ensures var short: Bytes := [1]; var long: Bytes := [1, 2];
      short != long && KeyMatchAsWritten(short, long) == 0 && KeyMatch(short, long) != 0
  {
  }

  /** Both comparators are reflexive and symmetric in their zero answer. */
  lemma MatchersReflexiveSymmetric(a: Bytes, b: Bytes)
    ensures KeyMatch(a, a) == 0 && KeyMatchAsWritten(a, a) == 0
    ensures (KeyMatch(a, b) == 0) == (KeyMatch(b, a) == 0)
    ensures (KeyMatchAsWritten(a, b) == 0) == (KeyMatchAsWritten(b, a) == 0)
  {
  }

  // ---------------------------------------------------------------------
  // ukv_key_hash
  // ---------------------------------------------------------------------

  /**
   * ukv_key_hash: string_hash over the first keySz bytes of the entry's key
   * buffer.
   */
  function KeyHash(stringHash: StringHash, key: Bytes, keySz: nat): uint32
    requires keySz <= |key|
  {
    stringHash(key[..keySz])
  }

  /**
   * An entry's key buffer holds the key and the terminator p_memdup_top
   * wrote, with key_sz the key's length: its hash is string_hash of the
   * key bytes alone, so the terminator never reaches the hash.
   */
  lemma TerminatedKeyHash(stringHash: StringHash, k: Bytes)
    ensures |k| <= |k + [0]| && KeyHash(stringHash, k + [0], |k|) == stringHash(k)
  {
    assert (k + [0])[..|k|] == k;
  }

  /**
   * Keys the intended comparator calls equal hash equally, as the hash table
   * requires of its hash/match pair.
   */
  lemma EqualKeysHashEqually(stringHash: StringHash, a: Bytes, aSz: nat, b: Bytes, bSz: nat)
    requires aSz <= |a| && bSz <= |b|
    requires KeyMatch(a[..aSz], b[..bSz]) == 0
    ensures KeyHash(stringHash, a, aSz) == KeyHash(stringHash, b, bSz)
  {
  }

  // ---------------------------------------------------------------------
  // strlen and NUL-terminated strings
  // ---------------------------------------------------------------------

  /** strlen: the index of the first zero byte of a NUL-terminated buffer. */
  function Strlen(s: Bytes): (n: nat)
    requires 0 in s
    ensures n < |s| && s[n] == 0
    ensures forall i | 0 <= i < n :: s[i] != 0
  {
    StrlenFrom(s, 0)
  }

  /** strlen's scan from byte i on, for a buffer with a zero byte at i or later. */
  function StrlenFrom(s: Bytes, i: nat): (n: nat)
    requires i <= |s| && exists j | i <= j < |s| :: s[j] == 0
    decreases |s| - i
    ensures i <= n < |s| && s[n] == 0
    ensures forall j | i <= j < n :: s[j] != 0
  {
    if s[i] == 0 then i else StrlenFrom(s, i + 1)
  }

  /**
   * What a C-string consumer sees of a byte range once a terminator is
   * appended: every byte before the first zero byte.
   */
  function CStringPrefix(t: Bytes): Bytes
  {
    assert (t + [0])[|t|] == 0;
    (t + [0])[..Strlen(t + [0])]
  }

  /**
   * The prefix is a prefix, holds no zero byte, and is the whole range when
   * the range has no zero byte (as SQL text never does).
   */
  lemma CStringPrefixProperties(t: Bytes)
    ensures |CStringPrefix(t)| <= |t| && CStringPrefix(t) == t[..|CStringPrefix(t)|]
    ensures 0 !in CStringPrefix(t)
    ensures |CStringPrefix(t)| < |t| ==> t[|CStringPrefix(t)|] == 0
    ensures 0 !in t ==> CStringPrefix(t) == t
  {
    var n := Strlen(t + [0]);
    assert CStringPrefix(t) == t[..n];
  }

  /** Cutting at the first zero byte twice cuts nothing more. */
  lemma CStringPrefixIdempotent(t: Bytes)
    ensures CStringPrefix(CStringPrefix(t)) == CStringPrefix(t)
  {
    CStringPrefixProperties(t);
    CStringPrefixProperties(CStringPrefix(t));
  }

  /**
   * Reading a buffer that holds v followed by the terminator that
   * p_memdup_top writes stops at or before that terminator, and gives back
   * v whole exactly when v holds no zero byte.
   */
  lemma TerminatedBufferReadsPrefix(v: Bytes)
    ensures 0 in v + [0] && Strlen(v + [0]) <= |v|
    ensures (v + [0])[..Strlen(v + [0])] == CStringPrefix(v)
    ensures (v + [0])[..Strlen(v + [0])] == v <==> 0 !in v
  {
    assert (v + [0])[|v|] == 0;
    var n := Strlen(v + [0]);
    if 0 in v {
      var j :| 0 <= j < |v| && v[j] == 0;
      assert (v + [0])[j] == 0;
      assert n <= j < |v|;
    }
  }
}
