/**
 * Table: the hash table the user variables live in, as a value.
 *
 * The host's hash table is configured with a pluggable hash function and a
 * pluggable match function (HashCtl). A lookup finds the first entry, in
 * insertion order, whose stored hash equals the probe's hash and for which
 * the match function answers 0. Entries are modelled as the (key, value)
 * byte ranges they own, in that order.
 */
module Table {
  import opened Keys

  /** The hash and match callbacks a table is created with. */
  datatype HashCtl = HashCtl(hash: Bytes -> uint32, cmp: (Bytes, Bytes) -> int)

  /** The callbacks ukv_hash_init installs, with the comparator as intended. */
  function UkvCtl(stringHash: StringHash): HashCtl
  {
    HashCtl(stringHash, KeyMatch)
  }

  /** The callbacks ukv_hash_init installs, with the comparator as written. */
  function UkvCtlAsWritten(stringHash: StringHash): HashCtl
  {
    HashCtl(stringHash, KeyMatchAsWritten)
  }

  /** The contents of one entry: its key bytes and its value bytes. */
  datatype Slot = Slot(key: Bytes, val: Bytes)

  /** Does the entry stored under `stored` answer a lookup of `probe`? */
  predicate Hit(ctl: HashCtl, stored: Bytes, probe: Bytes)
  {
    ctl.hash(stored) == ctl.hash(probe) && ctl.cmp(stored, probe) == 0
  }

  /** hash_search's search: the first entry that answers the probe. */
  function Find(ctl: HashCtl, t: seq<Slot>, probe: Bytes): (r: Option<nat>)
    ensures r.Some? ==> r.value < |t| && Hit(ctl, t[r.value].key, probe)
    ensures r.Some? ==> forall j | 0 <= j < r.value :: !Hit(ctl, t[j].key, probe)
    ensures r.None? ==> forall j | 0 <= j < |t| :: !Hit(ctl, t[j].key, probe)
  {
    FindFrom(ctl, t, probe, 0)
  }

  function FindFrom(ctl: HashCtl, t: seq<Slot>, probe: Bytes, from: nat): (r: Option<nat>)
    requires from <= |t|
    decreases |t| - from
    ensures r.Some? ==> from <= r.value < |t| && Hit(ctl, t[r.value].key, probe)
    ensures r.Some? ==> forall j | from <= j < r.value :: !Hit(ctl, t[j].key, probe)
    ensures r.None? ==> forall j | from <= j < |t| :: !Hit(ctl, t[j].key, probe)
  {
    if from == |t| then None
    else if Hit(ctl, t[from].key, probe) then Some(from)
    else FindFrom(ctl, t, probe, from + 1)
  }

  /** HASH_FIND: the value of the entry that answers the probe. */
  function Get(ctl: HashCtl, t: seq<Slot>, k: Bytes): (r: Option<Bytes>)
    ensures r.None? <==> forall i | 0 <= i < |t| :: !Hit(ctl, t[i].key, k)
    ensures r.Some? ==> exists i | 0 <= i < |t| :: Hit(ctl, t[i].key, k) && t[i].val == r.value
  {
    match Find(ctl, t, k)
    case None => None
    case Some(i) => Some(t[i].val)
  }

  /**
   * HASH_ENTER followed by installing a value: a found entry keeps its key
   * and gets the new value; otherwise a new entry is appended.
   */
  function Put(ctl: HashCtl, t: seq<Slot>, k: Bytes, v: Bytes): (r: seq<Slot>)
    ensures |t| <= |r| <= |t| + 1
    ensures ctl.cmp(k, k) == 0 ==> exists i | 0 <= i < |r| :: Hit(ctl, r[i].key, k) && r[i].val == v
  {
    match Find(ctl, t, k)
    case Some(i) =>
      assert t[i := Slot(t[i].key, v)][i] == Slot(t[i].key, v);
      t[i := Slot(t[i].key, v)]
    case None =>
      assert (t + [Slot(k, v)])[|t|] == Slot(k, v);
      t + [Slot(k, v)]
  }

  /** HASH_REMOVE: the entry that answers the probe is unlinked. */
  function Remove(ctl: HashCtl, t: seq<Slot>, k: Bytes): (r: seq<Slot>)
    ensures r == t <==> forall i | 0 <= i < |t| :: !Hit(ctl, t[i].key, k)
    ensures r != t ==> |r| == |t| - 1 && forall j | 0 <= j < |r| :: r[j] in t
  {
    match Find(ctl, t, k)
    case Some(i) => t[..i] + t[i + 1..]
    case None => t
  }

  /** No two entries hold the same key bytes. */
  ghost predicate UniqueKeys(t: seq<Slot>)
  {
    forall i, j | 0 <= i < |t| && 0 <= j < |t| && i != j :: t[i].key != t[j].key
  }

  /** The reference semantics: a finite map, earlier entries taking precedence. */
  function ToMap(t: seq<Slot>): map<Bytes, Bytes>
  {
    if t == [] then map[] else ToMap(t[1..])[t[0].key := t[0].val]
  }

  function MapGet(m: map<Bytes, Bytes>, k: Bytes): Option<Bytes>
  {
    if k in m then Some(m[k]) else None
  }

  // ---------------------------------------------------------------------
  // Search
  // ---------------------------------------------------------------------

  /** The first hit is determined by where the hits are. */
  lemma FindIs(ctl: HashCtl, t: seq<Slot>, k: Bytes, i: nat)
    requires i < |t| && Hit(ctl, t[i].key, k)
    requires forall j | 0 <= j < i :: !Hit(ctl, t[j].key, k)
    ensures Find(ctl, t, k) == Some(i)
  {
  }

  /** With the intended comparator an entry answers a probe exactly when its key equals the probe. */
  lemma HitIsKeyEquality(stringHash: StringHash)
    ensures forall s, p :: Hit(UkvCtl(stringHash), s, p) <==> s == p
  {
  }

  /** Lookup depends on the keys alone: changing values does not move a hit. */
  lemma FindSameKeys(ctl: HashCtl, t: seq<Slot>, u: seq<Slot>, k: Bytes)
    requires |t| == |u| && forall i | 0 <= i < |t| :: t[i].key == u[i].key
    ensures Find(ctl, t, k) == Find(ctl, u, k)
  {
    match Find(ctl, t, k)
    case Some(i) => FindIs(ctl, u, k, i);
    case None =>
      assert forall j | 0 <= j < |u| :: !Hit(ctl, u[j].key, k);
  }

  // ---------------------------------------------------------------------
  // Properties that hold for any reflexive comparator (also as written)
  // ---------------------------------------------------------------------

  /** set(k, v) then get(k) yields v, for any comparator that matches a key with itself. */
  lemma GetAfterPut(ctl: HashCtl, t: seq<Slot>, k: Bytes, v: Bytes)
    requires ctl.cmp(k, k) == 0
    ensures Get(ctl, Put(ctl, t, k, v), k) == Some(v)
  {
    var u := Put(ctl, t, k, v);
    match Find(ctl, t, k)
    case Some(i) =>
      FindSameKeys(ctl, t, u, k);
    case None =>
      FindIs(ctl, u, k, |t|);
  }

  /** set(k, v1); set(k, v2) leaves what set(k, v2) alone leaves. */
  lemma PutOverwrites(ctl: HashCtl, t: seq<Slot>, k: Bytes, v1: Bytes, v2: Bytes)
    requires ctl.cmp(k, k) == 0
    ensures Put(ctl, Put(ctl, t, k, v1), k, v2) == Put(ctl, t, k, v2)
  {
    var u := Put(ctl, t, k, v1);
    match Find(ctl, t, k)
    case Some(i) =>
      FindSameKeys(ctl, t, u, k);
    case None =>
      FindIs(ctl, u, k, |t|);
  }

  /** Setting the same value twice is the same as setting it once. */
  lemma PutIdempotent(ctl: HashCtl, t: seq<Slot>, k: Bytes, v: Bytes)
    requires ctl.cmp(k, k) == 0
    ensures Put(ctl, Put(ctl, t, k, v), k, v) == Put(ctl, t, k, v)
  {
    PutOverwrites(ctl, t, k, v, v);
  }

  /** An overwrite keeps every stored key and the number of entries. */
  lemma PutKeepsStoredKeys(ctl: HashCtl, t: seq<Slot>, k: Bytes, v: Bytes)
    ensures Find(ctl, t, k).Some? ==> |Put(ctl, t, k, v)| == |t|
    ensures Find(ctl, t, k).None? ==> Put(ctl, t, k, v) == t + [Slot(k, v)]
    ensures forall i | 0 <= i < |t| :: Put(ctl, t, k, v)[i].key == t[i].key
  {
  }

  /** Deleting a key that no entry answers changes nothing. */
  lemma RemoveAbsent(ctl: HashCtl, t: seq<Slot>, k: Bytes)
    requires Get(ctl, t, k) == None
    ensures Remove(ctl, t, k) == t
  {
  }

  /** The as-written comparator still gives set-then-get. */
  lemma AsWrittenGetAfterPut(stringHash: StringHash, t: seq<Slot>, k: Bytes, v: Bytes)
    ensures Get(UkvCtlAsWritten(stringHash), Put(UkvCtlAsWritten(stringHash), t, k, v), k) == Some(v)
  {
    GetAfterPut(UkvCtlAsWritten(stringHash), t, k, v);
  }

  // ---------------------------------------------------------------------
  // The intended comparator: the table is a finite map
  // ---------------------------------------------------------------------

  lemma PutCons(ctl: HashCtl, t: seq<Slot>, k: Bytes, v: Bytes)
    requires t != [] && !Hit(ctl, t[0].key, k)
    ensures Put(ctl, t, k, v) == [t[0]] + Put(ctl, t[1..], k, v)
  {
    match Find(ctl, t[1..], k)
    case Some(i) =>
      assert t[i + 1 := Slot(t[i + 1].key, v)] == [t[0]] + t[1..][i := Slot(t[1..][i].key, v)];
    case None =>
      assert t + [Slot(k, v)] == [t[0]] + (t[1..] + [Slot(k, v)]);
  }

  lemma RemoveCons(ctl: HashCtl, t: seq<Slot>, k: Bytes)
    requires t != [] && !Hit(ctl, t[0].key, k)
    ensures Remove(ctl, t, k) == [t[0]] + Remove(ctl, t[1..], k)
  {
    match Find(ctl, t[1..], k)
    case Some(i) =>
      assert t[..i + 1] + t[i + 2..] == [t[0]] + (t[1..][..i] + t[1..][i + 1..]);
    case None =>
  }

  lemma {:induction false} NotInToMap(t: seq<Slot>, k: Bytes)
    requires forall i | 0 <= i < |t| :: t[i].key != k
    ensures k !in ToMap(t)
  {
    if t != [] {
      NotInToMap(t[1..], k);
    }
  }

  /** Lookup with the intended comparator is lookup in the reference map. */
  lemma {:induction false} GetIsMapLookup(stringHash: StringHash, t: seq<Slot>, k: Bytes)
    ensures Get(UkvCtl(stringHash), t, k) == MapGet(ToMap(t), k)
  {
    HitIsKeyEquality(stringHash);
    if t != [] && t[0].key != k {
      GetIsMapLookup(stringHash, t[1..], k);
    }
  }

  /** set(k, v) with the intended comparator is map update. */
  lemma {:induction false} PutIsMapUpdate(stringHash: StringHash, t: seq<Slot>, k: Bytes, v: Bytes)
    ensures ToMap(Put(UkvCtl(stringHash), t, k, v)) == ToMap(t)[k := v]
  {
    var ctl := UkvCtl(stringHash);
    HitIsKeyEquality(stringHash);
    if t == [] {
    } else if t[0].key == k {
      var u := Put(ctl, t, k, v);
      assert u == [Slot(k, v)] + t[1..];
      assert u[1..] == t[1..];
    } else {
      PutCons(ctl, t, k, v);
      PutIsMapUpdate(stringHash, t[1..], k, v);
      var u := Put(ctl, t, k, v);
      assert u[0] == t[0] && u[1..] == Put(ctl, t[1..], k, v);
    }
  }

  lemma UniqueKeysTail(t: seq<Slot>)
    requires t != [] && UniqueKeys(t)
    ensures UniqueKeys(t[1..])
    ensures forall i | 0 <= i < |t[1..]| :: t[1..][i].key != t[0].key
  {
    forall i, j | 0 <= i < |t[1..]| && 0 <= j < |t[1..]| && i != j
      ensures t[1..][i].key != t[1..][j].key
    {
      assert t[1..][i] == t[i + 1] && t[1..][j] == t[j + 1];
    }
    forall i | 0 <= i < |t[1..]| ensures t[1..][i].key != t[0].key {
      assert t[1..][i] == t[i + 1];
    }
  }

  /** Deleting a key the first entry answers drops that entry. */
  lemma RemoveHead(ctl: HashCtl, t: seq<Slot>, k: Bytes)
    requires t != [] && Hit(ctl, t[0].key, k)
    ensures Remove(ctl, t, k) == t[1..]
  {
    FindIs(ctl, t, k, 0);
    assert t[..0] + t[1..] == t[1..];
  }

  lemma MapUpdateRemoveCommute(m: map<Bytes, Bytes>, a: Bytes, b: Bytes, k: Bytes)
    requires a != k
    ensures m[a := b] - {k} == (m - {k})[a := b]
  {
  }

  /** delete(k) with the intended comparator is map removal, on a table with unique keys. */
  lemma {:induction false} RemoveIsMapRemove(stringHash: StringHash, t: seq<Slot>, k: Bytes)
    requires UniqueKeys(t)
    ensures ToMap(Remove(UkvCtl(stringHash), t, k)) == ToMap(t) - {k}
  {
    var ctl := UkvCtl(stringHash);
    HitIsKeyEquality(stringHash);
    if t != [] {
      UniqueKeysTail(t);
      if t[0].key == k {
        RemoveHead(ctl, t, k);
        NotInToMap(t[1..], k);
      } else {
        RemoveCons(ctl, t, k);
        RemoveIsMapRemove(stringHash, t[1..], k);
        var u := Remove(ctl, t, k);
        assert u[0] == t[0] && u[1..] == Remove(ctl, t[1..], k);
        MapUpdateRemoveCommute(ToMap(t[1..]), t[0].key, t[0].val, k);
      }
    }
  }

  /** Setting one key leaves every other key's lookup as it was. */
  lemma PutLeavesOthers(stringHash: StringHash, t: seq<Slot>, k: Bytes, other: Bytes, v: Bytes)
    requires other != k
    ensures Get(UkvCtl(stringHash), Put(UkvCtl(stringHash), t, k, v), other) == Get(UkvCtl(stringHash), t, other)
  {
    GetIsMapLookup(stringHash, Put(UkvCtl(stringHash), t, k, v), other);
    GetIsMapLookup(stringHash, t, other);
    PutIsMapUpdate(stringHash, t, k, v);
  }

  /** After delete(k), a lookup of k finds nothing. */
  lemma GetAfterRemove(stringHash: StringHash, t: seq<Slot>, k: Bytes)
    requires UniqueKeys(t)
    ensures Get(UkvCtl(stringHash), Remove(UkvCtl(stringHash), t, k), k) == None
  {
    GetIsMapLookup(stringHash, Remove(UkvCtl(stringHash), t, k), k);
    RemoveIsMapRemove(stringHash, t, k);
  }

  /** Deleting one key leaves every other key's lookup as it was. */
  lemma RemoveLeavesOthers(stringHash: StringHash, t: seq<Slot>, k: Bytes, other: Bytes)
    requires UniqueKeys(t) && other != k
    ensures Get(UkvCtl(stringHash), Remove(UkvCtl(stringHash), t, k), other) == Get(UkvCtl(stringHash), t, other)
  {
    GetIsMapLookup(stringHash, Remove(UkvCtl(stringHash), t, k), other);
    GetIsMapLookup(stringHash, t, other);
    RemoveIsMapRemove(stringHash, t, k);
  }

  /** set keeps keys unique: at most one entry per distinct key. */
  lemma PutKeepsUniqueKeys(stringHash: StringHash, t: seq<Slot>, k: Bytes, v: Bytes)
    requires UniqueKeys(t)
    ensures UniqueKeys(Put(UkvCtl(stringHash), t, k, v))
  {
    HitIsKeyEquality(stringHash);
    PutKeepsStoredKeys(UkvCtl(stringHash), t, k, v);
  }

  /** delete keeps keys unique. */
  lemma RemoveKeepsUniqueKeys(ctl: HashCtl, t: seq<Slot>, k: Bytes)
    requires UniqueKeys(t)
    ensures UniqueKeys(Remove(ctl, t, k))
  {
    match Find(ctl, t, k)
    case None =>
    case Some(i) => RemoveAtKeepsUniqueKeys(t, i);
  }

  /** Dropping the slot at index i keeps the remaining keys pairwise distinct. */
  lemma RemoveAtKeepsUniqueKeys(t: seq<Slot>, i: nat)
    requires UniqueKeys(t) && i < |t|
    ensures UniqueKeys(t[..i] + t[i + 1..])
  {
    var u := t[..i] + t[i + 1..];
    forall a, b | 0 <= a < |u| && 0 <= b < |u| && a != b ensures u[a].key != u[b].key {
      var a' := if a < i then a else a + 1;
      var b' := if b < i then b else b + 1;
      assert u[a] == t[a'] && u[b] == t[b'];
    }
  }

  /**
   * Binary safety: a key with an embedded zero byte and its prefix before
   * that byte are distinct entries.
   */
  lemma EmbeddedZeroKeysAreDistinct(stringHash: StringHash, t: seq<Slot>, v: Bytes, v2: Bytes)
    ensures var withZero: Bytes := [0x61, 0, 0x62]; var short: Bytes := [0x61];
      var ctl := UkvCtl(stringHash);
      Get(ctl, Put(ctl, Put(ctl, t, withZero, v), short, v2), withZero) == Some(v)
  {
    var withZero: Bytes := [0x61, 0, 0x62];
    var short: Bytes := [0x61];
    var ctl := UkvCtl(stringHash);
    GetAfterPut(ctl, t, withZero, v);
    PutLeavesOthers(stringHash, Put(ctl, t, withZero, v), short, withZero, v2);
  }

  // ---------------------------------------------------------------------
  // The comparator as written: keys of different lengths collide
  // ---------------------------------------------------------------------

  /**
   * With the as-written comparator, setting key k when a key s of another
   * length with the same hash is stored overwrites s's value instead of
   * adding k; a lookup of k (never set before) returns s's value; deleting
   * k deletes s. The intended comparator adds a second entry instead.
   */
  lemma AsWrittenCollisionClobbersOtherKey(stringHash: StringHash, s: Bytes, w: Bytes, k: Bytes, v: Bytes)
    requires |s| != |k| && stringHash(s) == stringHash(k)
    ensures Get(UkvCtlAsWritten(stringHash), [Slot(s, w)], k) == Some(w)
    ensures Put(UkvCtlAsWritten(stringHash), [Slot(s, w)], k, v) == [Slot(s, v)]
    ensures Remove(UkvCtlAsWritten(stringHash), [Slot(s, w)], k) == []
    ensures Put(UkvCtl(stringHash), [Slot(s, w)], k, v) == [Slot(s, w), Slot(k, v)]
  {
    assert Hit(UkvCtlAsWritten(stringHash), s, k);
    assert !Hit(UkvCtl(stringHash), s, k);
  }

  /**
   * With the as-written comparator a probe can be answered by two stored
   * entries that do not answer each other, so delete-then-get can still
   * find a value.
   */
  lemma AsWrittenGetAfterRemoveFindsAnother(w1: Bytes, w2: Bytes)
    ensures var ctl := UkvCtlAsWritten((b: Bytes) => 0);
      var t := [Slot([1, 2], w1), Slot([3, 4], w2)];
      var probe: Bytes := [1];
      Get(ctl, Remove(ctl, t, probe), probe) == Some(w2)
  {
    var ctl := UkvCtlAsWritten((b: Bytes) => 0);
    var t := [Slot([1, 2], w1), Slot([3, 4], w2)];
    var probe: Bytes := [1];
    assert Hit(ctl, t[0].key, probe);
    assert Remove(ctl, t, probe) == [Slot([3, 4], w2)];
    assert Hit(ctl, [3, 4], probe);
  }
}
