/**
 * UserVars: the process-lifetime user-variable store of pg_uservars.c.
 *
 * A Store stands for the global `ukv_hash` together with the part of the
 * top memory context that holds its buffers. It is uninitialised until the
 * first set. Each entry owns a copy of its key and a copy of its value, each
 * a NUL-terminated buffer; `live` is the set of addresses allocated and not
 * yet freed, and the store's invariant is that the live buffers are exactly
 * the key and value buffers of the current entries, no two shared.
 */
module UserVars {
  import opened Keys
  import opened Table

  /** How an operation that allocates ends: normally, or by the out-of-memory error. */
  datatype Status = Done | OutOfMemory

  /**
   * A buffer in the top memory context: its address and the bytes
   * p_memdup_top wrote into it. Nothing writes a buffer after it is filled,
   * so its contents are a value; its address is what tells two buffers apart.
   */
  datatype Buf = Buf(addr: nat, bytes: Bytes)

  /**
   * ukv_entry_t: the struct the hash table stores by value. `val` is None
   * (NULL) only in an entry whose value was never installed.
   */
  datatype Entry = Entry(key: Buf, keySz: nat, val: Option<Buf>, valSz: nat)

  /** The address of the entry's value buffer, if it has one. */
  function ValAddrs(e: Entry): set<nat>
  {
    if e.val.Some? then {e.val.value.addr} else {}
  }

  /** The addresses of the buffers the entry points to. */
  function Addrs(e: Entry): set<nat>
  {
    {e.key.addr} + ValAddrs(e)
  }

  /**
   * An entry that holds the slot: it has a value, its key and value buffers
   * are distinct, and each holds the slot's bytes followed by a terminator.
   */
  ghost predicate Holds(e: Entry, s: Slot)
  {
    && e.val.Some?
    && e.key.addr != e.val.value.addr
    && e.key.bytes == s.key + [0] && e.keySz == |s.key|
    && e.val.value.bytes == s.val + [0] && e.valSz == |s.val|
  }

  /** The addresses of the key and value buffers of the entries. */
  ghost function Buffers(es: seq<Entry>): set<nat>
  {
    if es == [] then {} else Buffers(es[..|es| - 1]) + Addrs(es[|es| - 1])
  }

  /** Every entry's buffers are among the buffers. */
  lemma {:induction false} BuffersHas(es: seq<Entry>, i: nat)
    requires i < |es|
    ensures Addrs(es[i]) <= Buffers(es)
  {
    if i < |es| - 1 {
      BuffersHas(es[..|es| - 1], i);
    }
  }

  /** Every buffer among the buffers belongs to some entry. */
  lemma {:induction false} BufferOwner(es: seq<Entry>, b: nat) returns (i: nat)
    requires b in Buffers(es)
    ensures i < |es| && b in Addrs(es[i])
  {
    var n := |es| - 1;
    if b in Addrs(es[n]) {
      i := n;
    } else {
      i := BufferOwner(es[..n], b);
    }
  }

  /** A buffer that no entry uses is not among the buffers. */
  lemma {:induction false} NotInBuffers(es: seq<Entry>, b: nat)
    requires forall i | 0 <= i < |es| :: b !in Addrs(es[i])
    ensures b !in Buffers(es)
  {
    if es != [] {
      NotInBuffers(es[..|es| - 1], b);
    }
  }

  /**
   * The entries, built up one at a time: each entry holds its slot, owns
   * buffers no earlier entry uses, and has a key no earlier slot has.
   */
  ghost predicate Chain(es: seq<Entry>, slots: seq<Slot>)
    requires |es| == |slots|
  {
    es == [] ||
    var n := |es| - 1;
    && Chain(es[..n], slots[..n])
    && Holds(es[n], slots[n])
    && Addrs(es[n]) !! Buffers(es[..n])
    && forall j | 0 <= j < n :: slots[j].key != slots[n].key
  }

  /** The i-th entry holds its slot. */
  lemma {:induction false} ChainAt(es: seq<Entry>, slots: seq<Slot>, i: nat)
    requires |es| == |slots| && Chain(es, slots) && i < |es|
    ensures Holds(es[i], slots[i])
  {
    var n := |es| - 1;
    if i < n {
      ChainAt(es[..n], slots[..n], i);
      assert es[..n][i] == es[i] && slots[..n][i] == slots[i];
    }
  }

  /**
   * The table invariant over entries `es` with contents `slots` and live
   * buffers `bufs`: every entry owns a terminated key buffer and a
   * terminated value buffer holding its slot's bytes, no buffer is shared,
   * the live buffers are exactly the entries' buffers, and keys are unique.
   */
  ghost predicate Inv(es: seq<Entry>, slots: seq<Slot>, bufs: set<nat>)
  {
    && |slots| == |es|
    && bufs == Buffers(es)
    && Chain(es, slots)
  }

  /** No buffer is used by two entries. */
  ghost predicate Owned(es: seq<Entry>)
  {
    forall i, j | 0 <= i < |es| && 0 <= j < |es| && i != j :: Addrs(es[i]) !! Addrs(es[j])
  }

  /** The invariant stated entry by entry and pair by pair. */
  ghost predicate Flat(es: seq<Entry>, slots: seq<Slot>, bufs: set<nat>)
  {
    && |slots| == |es|
    && bufs == Buffers(es)
    && (forall i | 0 <= i < |es| :: Addrs(es[i]) <= bufs)
    && (forall i | 0 <= i < |es| :: Holds(es[i], slots[i]))
    && Owned(es)
    && UniqueKeys(slots)
  }

  lemma {:induction false} ChainFlat(es: seq<Entry>, slots: seq<Slot>)
    requires |es| == |slots| && Chain(es, slots)
    ensures forall i | 0 <= i < |es| :: Holds(es[i], slots[i])
    ensures Owned(es) && UniqueKeys(slots)
  {
    if es != [] {
      var n := |es| - 1;
      var ps, pt := es[..n], slots[..n];
      ChainFlat(ps, pt);
      forall i | 0 <= i < n ensures ps[i] == es[i] && pt[i] == slots[i] && Addrs(es[i]) <= Buffers(ps) {
        BuffersHas(ps, i);
      }
    }
  }

  lemma {:induction false} FlatChain(es: seq<Entry>, slots: seq<Slot>)
    requires |es| == |slots| && Owned(es) && UniqueKeys(slots)
    requires forall i | 0 <= i < |es| :: Holds(es[i], slots[i])
    ensures Chain(es, slots)
  {
    if es != [] {
      var n := |es| - 1;
      var ps, pt := es[..n], slots[..n];
      assert forall i | 0 <= i < n :: ps[i] == es[i] && pt[i] == slots[i];
      FlatChain(ps, pt);
      forall b | b in Addrs(es[n]) ensures b !in Buffers(ps) {
        NotInBuffers(ps, b);
      }
    }
  }

  lemma InvFlat(es: seq<Entry>, slots: seq<Slot>, bufs: set<nat>)
    requires Inv(es, slots, bufs)
    ensures Flat(es, slots, bufs)
  {
    ChainFlat(es, slots);
    forall i | 0 <= i < |es| ensures Addrs(es[i]) <= bufs {
      BuffersHas(es, i);
    }
  }

  /** Adding an entry that holds a new key in buffers nobody uses keeps the invariant. */
  lemma InvAppend(es: seq<Entry>, slots: seq<Slot>, bufs: set<nat>, e: Entry, s: Slot)
    requires Inv(es, slots, bufs) && Holds(e, s) && Addrs(e) !! bufs
    requires forall j | 0 <= j < |slots| :: slots[j].key != s.key
    ensures Inv(es + [e], slots + [s], bufs + Addrs(e))
  {
    assert (es + [e])[..|es|] == es && (slots + [s])[..|es|] == slots;
  }

  /**
   * Replacing entry i by one with the same key buffer and a value buffer
   * nobody uses keeps the invariant, with the old value buffer freed and
   * the new one live.
   */
  lemma InvReplace(es: seq<Entry>, slots: seq<Slot>, bufs: set<nat>, i: nat, e: Entry, v: Bytes)
    requires Inv(es, slots, bufs) && i < |es|
    requires e.key == es[i].key && e.keySz == es[i].keySz
    requires e.val.Some? && e.val.value.addr !in bufs
    requires e.val.value.bytes == v + [0] && e.valSz == |v|
    ensures Inv(es[i := e], slots[i := Slot(slots[i].key, v)], bufs - ValAddrs(es[i]) + ValAddrs(e))
  {
    InvFlat(es, slots, bufs);
    var es', slots' := es[i := e], slots[i := Slot(slots[i].key, v)];
    var bufs' := bufs - ValAddrs(es[i]) + ValAddrs(e);
    forall b | b in Buffers(es') ensures b in bufs' {
      var j := BufferOwner(es', b);
      if j != i {
        assert Addrs(es[j]) !! Addrs(es[i]);
      }
    }
    forall b | b in bufs' ensures b in Buffers(es') {
      if b in ValAddrs(e) {
        BuffersHas(es', i);
      } else {
        var j := BufferOwner(es, b);
        BuffersHas(es', j);
      }
    }
    forall a, b | 0 <= a < |es'| && 0 <= b < |es'| && a != b
      ensures Addrs(es'[a]) !! Addrs(es'[b])
    {
      assert Addrs(es[a]) !! Addrs(es[b]);
    }
    forall j | 0 <= j < |es'| ensures Holds(es'[j], slots'[j]) {
      if j != i {
        assert es'[j] == es[j] && slots'[j] == slots[j];
      }
    }
    assert UniqueKeys(slots') by {
      forall a, b | 0 <= a < |slots'| && 0 <= b < |slots'| && a != b ensures slots'[a].key != slots'[b].key {
        assert slots'[a].key == slots[a].key && slots'[b].key == slots[b].key;
      }
    }
    FlatChain(es', slots');
  }

  /** The entries left after removing index i, in order. */
  lemma RemovedAt<T>(s: seq<T>, i: nat)
    requires i < |s|
    ensures |s[..i] + s[i + 1..]| == |s| - 1
    ensures forall j | 0 <= j < i :: (s[..i] + s[i + 1..])[j] == s[j]
    ensures forall j | i < j < |s| :: (s[..i] + s[i + 1..])[j - 1] == s[j]
  {
  }

  lemma BuffersRemove(es: seq<Entry>, i: nat)
    requires Owned(es) && i < |es|
    ensures Buffers(es[..i] + es[i + 1..]) == Buffers(es) - Addrs(es[i])
  {
    var es' := es[..i] + es[i + 1..];
    RemovedAt(es, i);
    forall b | b in Buffers(es') ensures b in Buffers(es) - Addrs(es[i]) {
      var j := BufferOwner(es', b);
      var j' := if j < i then j else j + 1;
      assert es'[j] == es[j'] && j' != i;
      BuffersHas(es, j');
    }
    forall b | b in Buffers(es) - Addrs(es[i]) ensures b in Buffers(es') {
      var j := BufferOwner(es, b);
      var j' := if j < i then j else j - 1;
      assert es'[j'] == es[j];
      BuffersHas(es', j');
    }
  }

  lemma OwnedRemove(es: seq<Entry>, i: nat)
    requires Owned(es) && i < |es|
    ensures Owned(es[..i] + es[i + 1..])
  {
    var es' := es[..i] + es[i + 1..];
    RemovedAt(es, i);
    forall a, b | 0 <= a < |es'| && 0 <= b < |es'| && a != b
      ensures Addrs(es'[a]) !! Addrs(es'[b])
    {
      var a' := if a < i then a else a + 1;
      var b' := if b < i then b else b + 1;
      assert es'[a] == es[a'] && es'[b] == es[b'];
    }
  }

  /** Removing the entry at index i and freeing its buffers keeps the invariant. */
  lemma InvRemove(es: seq<Entry>, slots: seq<Slot>, bufs: set<nat>, i: nat)
    requires Inv(es, slots, bufs) && i < |es|
    ensures Inv(es[..i] + es[i + 1..], slots[..i] + slots[i + 1..], bufs - Addrs(es[i]))
  {
    InvFlat(es, slots, bufs);
    RemovedAt(es, i);
    RemovedAt(slots, i);
    BuffersRemove(es, i);
    OwnedRemove(es, i);
    RemoveAtKeepsUniqueKeys(slots, i);
    var es', slots' := es[..i] + es[i + 1..], slots[..i] + slots[i + 1..];
    forall j | 0 <= j < |es'| ensures Holds(es'[j], slots'[j]) {
      var j' := if j < i then j else j + 1;
      assert es'[j] == es[j'] && slots'[j] == slots[j'];
    }
    FlatChain(es', slots');
  }

  /** Every address among the buffers is below the allocator's next address. */
  ghost predicate Below(bufs: set<nat>, next: nat)
  {
    forall a | a in bufs :: a < next
  }

  /**
   * Every entry of a consistent table has a value, and owns both its key and
   * its value buffer. An entry with a NULL value, or one whose value buffer
   * has been freed, therefore breaks the invariant.
   */
  lemma InvEntryOwnsValue(es: seq<Entry>, slots: seq<Slot>, bufs: set<nat>, i: nat)
    ensures Inv(es, slots, bufs) && i < |es| ==> es[i].val.Some? && Addrs(es[i]) <= bufs
  {
    if Inv(es, slots, bufs) && i < |es| {
      ChainAt(es, slots, i);
      BuffersHas(es, i);
    }
  }

  /**
   * Setting a key that entry i answers: installing a new value buffer at
   * `va`, which nobody uses, in place of entry i's value keeps the
   * invariant, frees exactly the old value buffer, and gives the contents
   * Put describes.
   */
  lemma InvPutFound(ctl: HashCtl, es: seq<Entry>, slots: seq<Slot>, bufs: set<nat>, i: nat, va: nat, k: Bytes, v: Bytes)
    requires Inv(es, slots, bufs) && va !in bufs
    requires Find(ctl, slots, k) == Some(i)
    ensures i < |es| && es[i].val.Some? && es[i].val.value.addr in bufs && ValAddrs(es[i]) == {es[i].val.value.addr}
    ensures Inv(es[i := es[i].(val := Some(Buf(va, v + [0])), valSz := |v|)],
                Put(ctl, slots, k, v),
                bufs - ValAddrs(es[i]) + {va})
  {
    ChainAt(es, slots, i);
    BuffersHas(es, i);
    InvReplace(es, slots, bufs, i, es[i].(val := Some(Buf(va, v + [0])), valSz := |v|), v);
  }

  /**
   * Setting a key no entry answers: appending an entry that owns a key
   * buffer at `ka` and a value buffer at `va`, which nobody uses, keeps the
   * invariant and gives the contents Put describes. Any comparator that
   * matches the key with itself will do: no stored key then equals it.
   */
  lemma InvPutNew(ctl: HashCtl, es: seq<Entry>, slots: seq<Slot>, bufs: set<nat>, ka: nat, va: nat, k: Bytes, v: Bytes)
    requires Inv(es, slots, bufs) && ka !in bufs && va !in bufs && ka != va
    requires Find(ctl, slots, k) == None && ctl.cmp(k, k) == 0
    ensures Inv(es + [Entry(Buf(ka, k + [0]), |k|, Some(Buf(va, v + [0])), |v|)],
                Put(ctl, slots, k, v),
                bufs + {ka} + {va})
  {
    assert Hit(ctl, k, k);
    InvAppend(es, slots, bufs, Entry(Buf(ka, k + [0]), |k|, Some(Buf(va, v + [0])), |v|), Slot(k, v));
  }

  /**
   * Deleting a key that entry i answers: unlinking entry i and freeing its
   * key and value buffers keeps the invariant and gives the contents
   * Remove describes.
   */
  lemma InvRemoveFound(ctl: HashCtl, es: seq<Entry>, slots: seq<Slot>, bufs: set<nat>, i: nat, k: Bytes)
    requires Inv(es, slots, bufs)
    requires Find(ctl, slots, k) == Some(i)
    ensures i < |es| && es[i].val.Some? && es[i].key.addr != es[i].val.value.addr
    ensures Addrs(es[i]) == {es[i].key.addr, es[i].val.value.addr} <= bufs
    ensures Inv(es[..i] + es[i + 1..], Remove(ctl, slots, k), bufs - Addrs(es[i]))
  {
    ChainAt(es, slots, i);
    BuffersHas(es, i);
    InvRemove(es, slots, bufs, i);
  }

  /**
   * What pguser_getvar returns for a key: the stored value as a C-string
   * reader sees it, or NULL. Both the key and the value are cut at their
   * first zero byte, as strlen and textin cut them.
   */
  function VarLookup(ctl: HashCtl, slots: seq<Slot>, key: Bytes): Option<Bytes>
  {
    match Table.Get(ctl, slots, CStringPrefix(key))
    case None => None
    case Some(v) => Some(CStringPrefix(v))
  }

  /**
   * pguser_setvar(k, v) then pguser_getvar(k) returns v, for any comparator
   * that matches a key with itself: ukv_key_match as written and the
   * corrected one both do (MatchersReflexiveSymmetric).
   */
  lemma GetVarAfterSetVar(ctl: HashCtl, slots: seq<Slot>, k: Bytes, v: Bytes)
    requires forall x :: ctl.cmp(x, x) == 0
    ensures VarLookup(ctl, Put(ctl, slots, CStringPrefix(k), CStringPrefix(v)), k) == Some(CStringPrefix(v))
  {
    GetAfterPut(ctl, slots, CStringPrefix(k), CStringPrefix(v));
    CStringPrefixIdempotent(v);
  }

  /** pguser_delvar(k) then pguser_getvar(k) returns NULL. */
  lemma GetVarAfterDelVar(stringHash: StringHash, slots: seq<Slot>, k: Bytes)
    requires UniqueKeys(slots)
    ensures VarLookup(UkvCtl(stringHash), Remove(UkvCtl(stringHash), slots, CStringPrefix(k)), k) == None
  {
    GetAfterRemove(stringHash, slots, CStringPrefix(k));
  }

  class Store {
    /** The host's string_hash, as installed by ukv_hash_init. */
    const stringHash: StringHash
    /**
     * Whether the table compares keys with ukv_key_match as written (a
     * length mismatch answers "equal") or as intended.
     */
    const matchAsWritten: bool
    /** ukv_hash != NULL */
    var initialized: bool
    /** The table's entries, in the order a lookup meets them. */
    var entries: seq<Entry>
    /** The address the top memory context hands out next. */
    var nextAddr: nat

    /** The contents of the entries. */
    ghost var Slots: seq<Slot>
    /** Addresses allocated in the top memory context and not yet freed. */
    ghost var live: set<nat>

    /** The hash and match callbacks ukv_hash_init installs. */
    function Ctl(): HashCtl
    {
      if matchAsWritten then UkvCtlAsWritten(stringHash) else UkvCtl(stringHash)
    }

    ghost predicate Valid()
      reads this
    {
      && (!initialized ==> entries == [] && live == {})
      && Inv(entries, Slots, live)
      && Below(live, nextAddr)
    }

    /** `static HTAB* ukv_hash = NULL`: the store before its first use. */
    constructor (stringHash: StringHash, matchAsWritten: bool)
      ensures Valid()
      ensures this.stringHash == stringHash && this.matchAsWritten == matchAsWritten
      ensures !initialized && entries == [] && Slots == [] && live == {} && nextAddr == 0
    {
      this.stringHash := stringHash;
      this.matchAsWritten := matchAsWritten;
      initialized := false;
      entries := [];
      nextAddr := 0;
      Slots := [];
      live := {};
    }

    /** ukv_hash_init: create the empty table. */
    method Init()
      requires Valid() && !initialized
      modifies this`initialized
      ensures Valid()
      ensures initialized && Slots == [] && live == {} && entries == []
    {
      initialized := true;
    }

    /**
     * p_memdup_top: a new buffer of sz + 1 bytes holding the first sz bytes
     * of src and a terminating zero. `outOfMemory` is the allocator's
     * answer; when it fails the error aborts the operation.
     */
    method MemdupTop(src: Bytes, sz: nat, outOfMemory: bool) returns (p: Option<Buf>)
      requires sz <= |src|
      modifies this`live, this`nextAddr
      ensures outOfMemory ==> p == None && live == old(live) && nextAddr == old(nextAddr)
      ensures !outOfMemory ==> p == Some(Buf(old(nextAddr), src[..sz] + [0]))
      ensures !outOfMemory ==> live == old(live) + {old(nextAddr)} && nextAddr == old(nextAddr) + 1
      ensures Below(old(live), old(nextAddr)) ==> Below(live, nextAddr)
    {
      if outOfMemory {
        return None;
      }
      p := Some(Buf(nextAddr, src[..sz] + [0]));
      live := live + {nextAddr};
      nextAddr := nextAddr + 1;
    }

    /** pfree: the buffer stops being live; freeing a buffer that is not live is refused. */
    ghost method Pfree(b: nat)
      requires b in live
      modifies this`live
      ensures live == old(live) - {b}
    {
      live := live - {b};
    }

    /**
     * ukv_key_copy: a new entry owning a copy of the probe's key, with no
     * value yet.
     */
    method KeyCopy(src: Bytes, srcSz: nat) returns (dest: Entry)
      requires srcSz <= |src|
      modifies this`live, this`nextAddr
      ensures dest == Entry(Buf(old(nextAddr), src[..srcSz] + [0]), srcSz, None, 0)
      ensures live == old(live) + {old(nextAddr)} && nextAddr == old(nextAddr) + 1
      ensures Below(old(live), old(nextAddr)) ==> Below(live, nextAddr)
    {
      var k := MemdupTop(src, srcSz, false);
      dest := Entry(k.value, srcSz, None, 0);
    }

    /**
     * hash_search's lookup: entries are met in order, and the first whose
     * hash equals the probe's and that ukv_key_match calls equal to the
     * probe answers it; -1 when none does.
     */
    method Search(name: Bytes, nameSz: nat) returns (i: int)
      requires Valid() && nameSz <= |name|
      ensures -1 <= i < |entries|
      ensures i < 0 ==> Find(Ctl(), Slots, name[..nameSz]) == None
      ensures 0 <= i ==> Find(Ctl(), Slots, name[..nameSz]) == Some(i)
    {
      var probe := name[..nameSz];
      var hash := KeyHash(stringHash, name, nameSz);
      i := 0;
      while i < |entries|
        invariant 0 <= i <= |entries|
        invariant forall l | 0 <= l < i :: !Hit(Ctl(), Slots[l].key, probe)
      {
        var e := entries[i];
        ChainAt(entries, Slots, i);
        TerminatedKeyHash(stringHash, Slots[i].key);
        if KeyHash(stringHash, e.key.bytes, e.keySz) == hash && Ctl().cmp(e.key.bytes[..e.keySz], probe) == 0 {
          FindIs(Ctl(), Slots, probe, i);
          return;
        }
        i := i + 1;
      }
      i := -1;
    }

    /**
     * ukv_hash_get: the entry holding the value stored under the probe, or
     * none, without changing anything.
     */
    method Get(name: Bytes, nameSz: nat) returns (ent: Option<Entry>)
      requires Valid() && nameSz <= |name|
      ensures !initialized ==> ent == None
      ensures ent == None <==> Table.Get(Ctl(), Slots, name[..nameSz]) == None
      ensures ent.Some? ==>
        && Find(Ctl(), Slots, name[..nameSz]).Some?
        && ent.value == entries[Find(Ctl(), Slots, name[..nameSz]).value]
        && Holds(ent.value, Slots[Find(Ctl(), Slots, name[..nameSz]).value])
      ensures ent.Some? && !matchAsWritten ==>
        Holds(ent.value, Slot(name[..nameSz], Table.Get(Ctl(), Slots, name[..nameSz]).value))
    {
      if !initialized {
        return None;
      }
      var i := Search(name, nameSz);
      if i < 0 {
        return None;
      }
      ChainAt(entries, Slots, i);
      HitIsKeyEquality(stringHash);
      ent := Some(entries[i]);
    }

    /**
     * The store just after p_memdup_top made `copy` for an entry: valid
     * except that `copy` is live and not yet linked from any entry.
     */
    ghost predicate ValidWith(copy: Buf)
      reads this
    {
      && initialized
      && copy.addr in live
      && Inv(entries, Slots, live - {copy.addr})
      && Below(live, nextAddr)
    }

    /**
     * The found branch of ukv_hash_set: entry i, which answers the key,
     * gets `copy` as its value and its old value buffer is freed.
     */
    method Replace(ghost k: Bytes, i: nat, copy: Buf, sz: nat, ghost v: Bytes)
      requires ValidWith(copy) && Find(Ctl(), Slots, k) == Some(i)
      requires copy.bytes == v + [0] && sz == |v|
      modifies this`entries, this`Slots, this`live
      ensures Valid()
      ensures entries == old(entries)[i := old(entries[i]).(val := Some(copy), valSz := sz)]
      ensures Slots == Put(Ctl(), old(Slots), k, v)
      ensures live == old(live) - ValAddrs(old(entries[i]))
    {
      ghost var bufs := live - {copy.addr};
      InvPutFound(Ctl(), entries, Slots, bufs, i, copy.addr, k, v);
      Pfree(entries[i].val.value.addr);
      entries := entries[i := entries[i].(val := Some(copy), valSz := sz)];
      Slots := Put(Ctl(), Slots, k, v);
    }

    /**
     * The not-found branch of ukv_hash_set: a new entry owning a copy of
     * the key and holding `copy` as its value is added.
     */
    method Link(keyName: Bytes, keySz: nat, copy: Buf, sz: nat, ghost v: Bytes)
      requires ValidWith(copy) && keySz <= |keyName| && Find(Ctl(), Slots, keyName[..keySz]) == None
      requires copy.bytes == v + [0] && sz == |v|
      modifies this`entries, this`Slots, this`live, this`nextAddr
      ensures Valid()
      ensures entries == old(entries) + [Entry(Buf(old(nextAddr), keyName[..keySz] + [0]), keySz, Some(copy), sz)]
      ensures Slots == Put(Ctl(), old(Slots), keyName[..keySz], v)
      ensures live == old(live) + {old(nextAddr)} && nextAddr == old(nextAddr) + 1
    {
      ghost var bufs := live - {copy.addr};
      var ent := KeyCopy(keyName, keySz);
      ent := ent.(val := Some(copy), valSz := sz);
      InvPutNew(Ctl(), entries, Slots, bufs, ent.key.addr, copy.addr, keyName[..keySz], v);
      assert live == bufs + {ent.key.addr} + {copy.addr};
      entries := entries + [ent];
      Slots := Put(Ctl(), Slots, keyName[..keySz], v);
    }

    /**
     * ukv_hash_set as intended, for a key that entry i answers: the new
     * value is copied first; only then is the old value buffer freed and
     * the copy installed.
     */
    method SetFound(ghost k: Bytes, i: nat, newVal: Bytes, newValSz: nat, outOfMemory: bool)
      returns (status: Status)
      requires Valid() && initialized && Find(Ctl(), Slots, k) == Some(i) && newValSz <= |newVal|
      modifies this`entries, this`Slots, this`live, this`nextAddr
      ensures Valid() && status == (if outOfMemory then OutOfMemory else Done)
      ensures status == OutOfMemory ==>
        Slots == old(Slots) && live == old(live) && entries == old(entries) && nextAddr == old(nextAddr)
      ensures status == Done ==>
        var copy := Buf(old(nextAddr), newVal[..newValSz] + [0]);
        && Slots == Put(Ctl(), old(Slots), k, newVal[..newValSz])
        && entries == old(entries)[i := old(entries[i]).(val := Some(copy), valSz := newValSz)]
        && live == old(live) + {copy.addr} - ValAddrs(old(entries[i]))
        && nextAddr == old(nextAddr) + 1
    {
      var copy := MemdupTop(newVal, newValSz, outOfMemory);
      if copy == None {
        return OutOfMemory;
      }
      Replace(k, i, copy.value, newValSz, newVal[..newValSz]);
      status := Done;
    }

    /**
     * ukv_hash_set as intended, for a key no entry answers: the new value
     * is copied first; only then is an entry owning a key copy added.
     */
    method SetNew(keyName: Bytes, keySz: nat, newVal: Bytes, newValSz: nat, outOfMemory: bool)
      returns (status: Status)
      requires Valid() && initialized && keySz <= |keyName| && newValSz <= |newVal|
      requires Find(Ctl(), Slots, keyName[..keySz]) == None
      modifies this`entries, this`Slots, this`live, this`nextAddr
      ensures Valid() && status == (if outOfMemory then OutOfMemory else Done)
      ensures status == OutOfMemory ==>
        Slots == old(Slots) && live == old(live) && entries == old(entries) && nextAddr == old(nextAddr)
      ensures status == Done ==>
        var copy := Buf(old(nextAddr), newVal[..newValSz] + [0]);
        && Slots == Put(Ctl(), old(Slots), keyName[..keySz], newVal[..newValSz])
        && entries == old(entries) + [Entry(Buf(copy.addr + 1, keyName[..keySz] + [0]), keySz, Some(copy), newValSz)]
        && live == old(live) + {copy.addr} + {copy.addr + 1}
        && nextAddr == copy.addr + 2
    {
      var copy := MemdupTop(newVal, newValSz, outOfMemory);
      if copy == None {
        return OutOfMemory;
      }
      Link(keyName, keySz, copy.value, newValSz, newVal[..newValSz]);
      status := Done;
    }

    /**
     * ukv_hash_set as intended: the new value is copied before anything is
     * changed, so an out-of-memory error leaves the store as it was; then a
     * found entry has its value buffer freed and replaced, and otherwise a
     * new entry owning a key copy is added.
     */
    method Set(keyName: Bytes, keySz: nat, newVal: Bytes, newValSz: nat, outOfMemory: bool)
      returns (status: Status)
      requires Valid() && keySz <= |keyName| && newValSz <= |newVal|
      modifies this
      ensures Valid() && initialized
      ensures status == (if outOfMemory then OutOfMemory else Done)
      ensures status == OutOfMemory ==>
        Slots == old(Slots) && live == old(live) && entries == old(entries) && nextAddr == old(nextAddr)
      ensures status == Done ==> Slots == Put(Ctl(), old(Slots), keyName[..keySz], newVal[..newValSz])
      ensures status == Done ==>
        var copy := Buf(old(nextAddr), newVal[..newValSz] + [0]);
        match Find(Ctl(), old(Slots), keyName[..keySz])
        case Some(i) =>
          && entries == old(entries)[i := old(entries[i]).(val := Some(copy), valSz := newValSz)]
          && live == old(live) + {copy.addr} - ValAddrs(old(entries[i]))
          && nextAddr == old(nextAddr) + 1
        case None =>
          && entries == old(entries) + [Entry(Buf(copy.addr + 1, keyName[..keySz] + [0]), keySz, Some(copy), newValSz)]
          && live == old(live) + {copy.addr} + {copy.addr + 1}
          && nextAddr == copy.addr + 2
    {
      if !initialized {
        Init();
      }
      var i := Search(keyName, keySz);
      if 0 <= i {
        status := SetFound(keyName[..keySz], i, newVal, newValSz, outOfMemory);
      } else {
        status := SetNew(keyName, keySz, newVal, newValSz, outOfMemory);
      }
    }

    /**
     * The found branch of ukv_hash_set as written: `if (ent->val)
     * pfree(ent->val)`, before any copy of the new value exists. The entry
     * is left pointing at the freed buffer.
     */
    method FreeOldValue(i: nat)
      requires Valid() && i < |entries|
      modifies this`live
      ensures entries[i].val.Some? && ValAddrs(entries[i]) <= old(live)
      ensures live == old(live) - ValAddrs(entries[i])
    {
      ChainAt(entries, Slots, i);
      BuffersHas(entries, i);
      if entries[i].val != None {
        Pfree(entries[i].val.value.addr);
      }
    }

    /**
     * HASH_ENTER for a key no entry answers: ukv_key_copy's entry, holding
     * a copy of the key and a NULL value, is linked into the table.
     */
    method EnterKey(keyName: Bytes, keySz: nat)
      requires keySz <= |keyName|
      modifies this`entries, this`live, this`nextAddr
      ensures entries == old(entries) + [Entry(Buf(old(nextAddr), keyName[..keySz] + [0]), keySz, None, 0)]
      ensures live == old(live) + {old(nextAddr)} && nextAddr == old(nextAddr) + 1
      ensures Below(old(live), old(nextAddr)) ==> Below(live, nextAddr)
    {
      var ent := KeyCopy(keyName, keySz);
      entries := entries + [ent];
    }

    /**
     * ukv_hash_set as written, for a key that entry i answers: the old value
     * is freed, then the new value copied. When the copy fails the entry is
     * left pointing at its freed value buffer and the store is no longer
     * valid.
     */
    method SetFoundAsWritten(ghost k: Bytes, i: nat, newVal: Bytes, newValSz: nat, outOfMemory: bool)
      returns (status: Status)
      requires Valid() && initialized && Find(Ctl(), Slots, k) == Some(i) && newValSz <= |newVal|
      modifies this`entries, this`Slots, this`live, this`nextAddr
      ensures initialized && status == (if outOfMemory then OutOfMemory else Done)
      ensures status == Done ==> Valid() && Slots == Put(Ctl(), old(Slots), k, newVal[..newValSz])
      ensures status == Done ==>
        && entries == old(entries)[i := old(entries[i]).(val := Some(Buf(old(nextAddr), newVal[..newValSz] + [0])), valSz := newValSz)]
        && live == old(live) + {old(nextAddr)} - ValAddrs(old(entries[i]))
        && nextAddr == old(nextAddr) + 1
      ensures status == OutOfMemory ==>
        && entries == old(entries) && entries[i].val.Some?
        && entries[i].val.value.addr !in live
        && live == old(live) - {entries[i].val.value.addr}
        && nextAddr == old(nextAddr)
        && !Valid()
    {
      ghost var es0, slots0, live0 := entries, Slots, live;
      FreeOldValue(i);
      var copy := MemdupTop(newVal, newValSz, outOfMemory);
      if copy == None {
        InvEntryOwnsValue(entries, Slots, live, i);
        return OutOfMemory;
      }
      entries := entries[i := entries[i].(val := copy, valSz := newValSz)];
      Slots := Put(Ctl(), Slots, k, newVal[..newValSz]);
      InvPutFound(Ctl(), es0, slots0, live0, i, copy.value.addr, k, newVal[..newValSz]);
      status := Done;
    }

    /**
     * `ent->val = p_memdup_top(...); ent->val_sz = new_val_sz` for the entry
     * HASH_ENTER has just linked with a NULL value: once it holds the copy
     * the store is valid again and holds what Put describes.
     */
    method FillNew(ghost es0: seq<Entry>, ghost slots0: seq<Slot>, ghost live0: set<nat>, ghost n0: nat,
                   ghost k: Bytes, ghost v: Bytes, copy: Buf, valSz: nat)
      requires initialized && Inv(es0, slots0, live0) && n0 !in live0 && n0 + 1 !in live0
      requires Find(Ctl(), slots0, k) == None
      requires |entries| == |es0| + 1 && entries == es0 + [Entry(Buf(n0, k + [0]), |k|, None, 0)]
      requires copy == Buf(n0 + 1, v + [0]) && valSz == |v|
      requires live == live0 + {n0} + {n0 + 1} && Below(live, nextAddr)
      modifies this`entries, this`Slots
      ensures Valid() && Slots == Put(Ctl(), slots0, k, v)
      ensures entries == es0 + [Entry(Buf(n0, k + [0]), |k|, Some(copy), |v|)]
    {
      var i := |entries| - 1;
      entries := entries[i := entries[i].(val := Some(copy), valSz := valSz)];
      assert entries == es0 + [Entry(Buf(n0, k + [0]), |k|, Some(copy), |v|)];
      Slots := Put(Ctl(), slots0, k, v);
      InvPutNew(Ctl(), es0, slots0, live0, n0, n0 + 1, k, v);
    }

    /**
     * ukv_hash_set as written, for a key no entry answers: the entry is
     * linked with a NULL value, then the new value copied. When the copy
     * fails the entry stays in the table with its NULL value and the store
     * is no longer valid.
     */
    method SetNewAsWritten(keyName: Bytes, keySz: nat, newVal: Bytes, newValSz: nat, outOfMemory: bool)
      returns (status: Status)
      requires Valid() && initialized && keySz <= |keyName| && newValSz <= |newVal|
      requires Find(Ctl(), Slots, keyName[..keySz]) == None
      modifies this`entries, this`Slots, this`live, this`nextAddr
      ensures initialized && status == (if outOfMemory then OutOfMemory else Done)
      ensures status == Done ==> Valid() && Slots == Put(Ctl(), old(Slots), keyName[..keySz], newVal[..newValSz])
      ensures status == Done ==>
        && entries == old(entries) + [Entry(Buf(old(nextAddr), keyName[..keySz] + [0]), keySz, Some(Buf(old(nextAddr) + 1, newVal[..newValSz] + [0])), newValSz)]
        && live == old(live) + {old(nextAddr)} + {old(nextAddr) + 1}
        && nextAddr == old(nextAddr) + 2
      ensures status == OutOfMemory ==>
        && entries == old(entries) + [Entry(Buf(old(nextAddr), keyName[..keySz] + [0]), keySz, None, 0)]
        && live == old(live) + {old(nextAddr)}
        && nextAddr == old(nextAddr) + 1
        && !Valid()
    {
      ghost var es0, slots0, live0, n0 := entries, Slots, live, nextAddr;
      EnterKey(keyName, keySz);
      var i := |entries| - 1;
      var copy := MemdupTop(newVal, newValSz, outOfMemory);
      if copy == None {
        InvEntryOwnsValue(entries, Slots, live, i);
        return OutOfMemory;
      }
      FillNew(es0, slots0, live0, n0, keyName[..keySz], newVal[..newValSz], copy.value, newValSz);
      status := Done;
    }

    /**
     * ukv_hash_set in the source's order: the found entry's value is freed
     * first and the copy made afterwards; a new entry is linked with no
     * value before the copy is made. On success the store is valid and
     * holds what Set leaves; when the copy fails it is not valid.
     */
    method SetAsWritten(keyName: Bytes, keySz: nat, newVal: Bytes, newValSz: nat, outOfMemory: bool)
      returns (status: Status)
      requires Valid() && keySz <= |keyName| && newValSz <= |newVal|
      modifies this
      ensures initialized
      ensures status == (if outOfMemory then OutOfMemory else Done)
      ensures status == Done ==> Valid()
      ensures status == Done ==> Slots == Put(Ctl(), old(Slots), keyName[..keySz], newVal[..newValSz])
      ensures status == Done ==>
        var n := old(nextAddr);
        match Find(Ctl(), old(Slots), keyName[..keySz])
        case Some(i) =>
          && entries == old(entries)[i := old(entries[i]).(val := Some(Buf(n, newVal[..newValSz] + [0])), valSz := newValSz)]
          && live == old(live) + {n} - ValAddrs(old(entries[i]))
          && nextAddr == n + 1
        case None =>
          && entries == old(entries) + [Entry(Buf(n, keyName[..keySz] + [0]), keySz, Some(Buf(n + 1, newVal[..newValSz] + [0])), newValSz)]
          && live == old(live) + {n} + {n + 1}
          && nextAddr == n + 2
      ensures status == OutOfMemory ==> !Valid()
      ensures status == OutOfMemory ==>
        match Find(Ctl(), old(Slots), keyName[..keySz])
        case Some(i) =>
          && entries == old(entries) && live == old(live) - ValAddrs(old(entries[i]))
          && nextAddr == old(nextAddr)
        case None =>
          && entries == old(entries) + [Entry(Buf(old(nextAddr), keyName[..keySz] + [0]), keySz, None, 0)]
          && live == old(live) + {old(nextAddr)}
          && nextAddr == old(nextAddr) + 1
    {
      if !initialized {
        Init();
      }
      var i := Search(keyName, keySz);
      if 0 <= i {
        status := SetFoundAsWritten(keyName[..keySz], i, newVal, newValSz, outOfMemory);
      } else {
        status := SetNewAsWritten(keyName, keySz, newVal, newValSz, outOfMemory);
      }
    }

    /** ukv_hash_del: the entry that answers the probe is removed and its two buffers freed. */
    method Del(name: Bytes, nameSz: nat)
      requires Valid() && nameSz <= |name|
      modifies this
      ensures Valid() && initialized == old(initialized) && nextAddr == old(nextAddr)
      ensures Slots == Remove(Ctl(), old(Slots), name[..nameSz])
      ensures
        match Find(Ctl(), old(Slots), name[..nameSz])
        case Some(i) =>
          && entries == old(entries[..i] + entries[i + 1..])
          && live == old(live) - Addrs(old(entries[i]))
        case None => entries == old(entries) && live == old(live)
    {
      if !initialized {
        return;
      }
      var i := Search(name, nameSz);
      if 0 <= i {
        var ent := entries[i];
        InvRemoveFound(Ctl(), entries, Slots, live, i, name[..nameSz]);
        entries := entries[..i] + entries[i + 1..];
        Slots := Remove(Ctl(), Slots, name[..nameSz]);
        Pfree(ent.key.addr);
        Pfree(ent.val.value.addr);
      }
    }

    /**
     * pguser_setvar with the value copied first: NULL when either argument
     * is NULL; otherwise both texts are converted to C strings and set
     * under their strlen lengths, and the call returns true.
     */
    method SetVar(key: Option<Bytes>, val: Option<Bytes>, outOfMemory: bool) returns (status: Status, r: Option<bool>)
      requires Valid()
      modifies this
      ensures Valid()
      ensures key.None? || val.None? ==>
        && status == Done && r == None
        && Slots == old(Slots) && entries == old(entries) && live == old(live)
        && initialized == old(initialized) && nextAddr == old(nextAddr)
      ensures key.Some? && val.Some? ==> initialized && status == (if outOfMemory then OutOfMemory else Done)
      ensures status == OutOfMemory ==>
        r == None && Slots == old(Slots) && entries == old(entries) && live == old(live) && nextAddr == old(nextAddr)
      ensures key.Some? && val.Some? && status == Done ==>
        r == Some(true) && Slots == Put(Ctl(), old(Slots), CStringPrefix(key.value), CStringPrefix(val.value))
    {
      if key.None? || val.None? {
        return Done, None;
      }
      var k := key.value + [0];
      var v := val.value + [0];
      TerminatedBufferReadsPrefix(key.value);
      TerminatedBufferReadsPrefix(val.value);
      status := Set(k, Strlen(k), v, Strlen(v), outOfMemory);
      r := if status == Done then Some(true) else None;
    }

    /**
     * pguser_setvar as written, on ukv_hash_set's own order: as SetVar,
     * except that a failed value copy leaves the store not valid.
     */
    method SetVarAsWritten(key: Option<Bytes>, val: Option<Bytes>, outOfMemory: bool) returns (status: Status, r: Option<bool>)
      requires Valid()
      modifies this
      ensures key.None? || val.None? ==>
        && status == Done && r == None && Valid()
        && Slots == old(Slots) && entries == old(entries) && live == old(live)
        && initialized == old(initialized) && nextAddr == old(nextAddr)
      ensures key.Some? && val.Some? ==> initialized && status == (if outOfMemory then OutOfMemory else Done)
      ensures status == OutOfMemory ==> r == None && !Valid()
      ensures key.Some? && val.Some? && status == Done ==>
        && r == Some(true) && Valid()
        && Slots == Put(Ctl(), old(Slots), CStringPrefix(key.value), CStringPrefix(val.value))
    {
      if key.None? || val.None? {
        return Done, None;
      }
      var k := key.value + [0];
      var v := val.value + [0];
      TerminatedBufferReadsPrefix(key.value);
      TerminatedBufferReadsPrefix(val.value);
      status := SetAsWritten(k, Strlen(k), v, Strlen(v), outOfMemory);
      r := if status == Done then Some(true) else None;
    }

    /**
     * pguser_getvar: NULL for a NULL key; otherwise the value stored under
     * the key's C string, read back as a C string, or NULL when there is none.
     */
    method GetVar(key: Option<Bytes>) returns (r: Option<Bytes>)
      requires Valid()
      ensures key.None? ==> r == None
      ensures key.Some? ==> r == VarLookup(Ctl(), Slots, key.value)
    {
      if key.None? {
        return None;
      }
      var k := key.value + [0];
      TerminatedBufferReadsPrefix(key.value);
      var ent := Get(k, Strlen(k));
      if ent.None? {
        return None;
      }
      var v := ent.value.val.value.bytes;
      TerminatedBufferReadsPrefix(Table.Get(Ctl(), Slots, CStringPrefix(key.value)).value);
      r := Some(v[..Strlen(v)]);
    }

    /**
     * pguser_delvar: NULL for a NULL key; otherwise the entry under the
     * key's C string, if any, is deleted, and the call returns true.
     */
    method DelVar(key: Option<Bytes>) returns (r: Option<bool>)
      requires Valid()
      modifies this
      ensures Valid()
      ensures initialized == old(initialized) && nextAddr == old(nextAddr)
      ensures key.None? ==> r == None && Slots == old(Slots) && entries == old(entries) && live == old(live)
      ensures key.Some? ==> r == Some(true) && Slots == Remove(Ctl(), old(Slots), CStringPrefix(key.value))
    {
      if key.None? {
        return None;
      }
      var k := key.value + [0];
      TerminatedBufferReadsPrefix(key.value);
      Del(k, Strlen(k));
      r := Some(true);
    }
  }

  /**
   * ukv_hash_set, in its own order, of [1] to [7] on a new store, then ukv_hash_get of [1,2],
   * under a string_hash that gives both keys the same hash: with
   * ukv_key_match as written the lookup returns the entry of [1].
   */
  method AsWrittenCollidingKeyLookup(stringHash: StringHash) returns (ent: Option<Entry>)
    requires stringHash([1]) == stringHash([1, 2])
    ensures ent == Some(Entry(Buf(0, [1, 0]), 1, Some(Buf(1, [7, 0])), 1))
  {
    var s := new Store(stringHash, true);
    var _ := s.SetAsWritten([1], 1, [7], 1, false);
    assert [1, 2][..2] == [1, 2] && [1][..1] == [1] && [7][..1] == [7];
    assert Find(s.Ctl(), [], [1]) == None;
    assert s.Slots == [Slot([1], [7])];
    assert [1][..1] + [0] == [1, 0] && [7][..1] + [0] == [7, 0];
    assert s.entries == [Entry(Buf(0, [1, 0]), 1, Some(Buf(1, [7, 0])), 1)];
    assert Hit(s.Ctl(), [1], [1, 2]);
    assert Find(s.Ctl(), s.Slots, [1, 2]) == Some(0);
    ent := s.Get([1, 2], 2);
  }

  /** The same calls with the corrected comparator: the lookup of [1,2] finds nothing. */
  method IntendedCollidingKeyLookup(stringHash: StringHash) returns (ent: Option<Entry>)
    requires stringHash([1]) == stringHash([1, 2])
    ensures ent == None
  {
    var s := new Store(stringHash, false);
    var _ := s.Set([1], 1, [7], 1, false);
    assert [1, 2][..2] == [1, 2] && [1][..1] == [1] && [7][..1] == [7];
    assert Find(s.Ctl(), [], [1]) == None;
    assert s.Slots == [Slot([1], [7])];
    assert !Hit(s.Ctl(), [1], [1, 2]);
    assert Find(s.Ctl(), s.Slots, [1, 2]) == None;
    ent := s.Get([1, 2], 2);
  }
}
