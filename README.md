# pg_uservars: a verified model of the user-variable store

pg_uservars keeps per-backend user variables for PostgreSQL. `pguser_setvar(key, value)` stores a value under a key.
`pguser_getvar(key)` reads it back and `pguser_delvar(key)` removes it. The variables live in a dynahash table, `ukv_hash`, that is created lazily on the first set.

Each table entry (`ukv_entry_t`) owns two copies made in `TopMemoryContext`, one of the key and one of the value. Each copy is NUL-terminated and paired with an explicit length. The table's hash callback hands the key buffer and `key_sz` to `string_hash`. It compares two keys with `ukv_key_match`, which is meant to check the length and then `memcmp` the bytes.

The model has three modules:

- `Keys` (keys.dfy) covers byte strings, `memcmp` and the key comparator. The comparator comes in two forms: as written (`KeyMatchAsWritten`) and as intended (`KeyMatch`). The module also has the key hash, `strlen`, and what a C-string reader sees of a byte range (`CStringPrefix`).
- `Table` (table.dfy) models the hash table as a value: a sequence of `(key, value)` slots in the order a lookup meets them.
  - `HashCtl` holds the hash and match callbacks the table is created with.
  - `Find` is `hash_search`'s lookup: the first slot whose hash equals the probe's and whose match answers 0.
  - `Get`, `Put` and `Remove` are `HASH_FIND`, `HASH_ENTER` plus the value install, and `HASH_REMOVE`.
  - `ToMap` is the reference finite map. With the intended comparator, lookup, set and delete are proved to be map lookup, map update and map removal.
- `UserVars` (store.dfy) holds the class `Store`. It stands for the global `ukv_hash` together with the buffers it owns in the top memory context.
  - Buffers are values with an address (`Buf`).
  - `nextAddr` is the allocator's next address, and the ghost set `live` holds the addresses allocated and not yet freed.
  - The ghost `Slots` holds the contents of the entries.
  - The constant `matchAsWritten`, fixed when the store is constructed, chooses the comparator `ukv_hash_init` installs. When it is true, the table uses `ukv_key_match` as written (`Table.UkvCtlAsWritten`). When it is false, it uses the corrected comparator (`Table.UkvCtl`). Every store operation looks keys up through that comparator, so its contracts hold for the program as written and for the corrected one.
  - `Search` is `hash_search`'s scan. It meets the entries in order and stops at the first one whose hash (`Keys.KeyHash` of its key buffer) equals the probe's hash and which the comparator calls equal.
  - `Valid()` states the ownership discipline: the live buffers are exactly the key and value buffers of the current entries, no two entries share a buffer, every entry has a value, and each buffer holds its bytes followed by a terminator. It also states that the slots' keys are pairwise distinct, which both comparators keep because each matches a key with itself.
  - `ukv_hash_set` is modelled twice. `Set` copies the new value first. `SetAsWritten` keeps the source's order, freeing or linking before the copy.
  - Every operation except the as-written set is proved to keep `Valid()`. The as-written set keeps `Valid()` when its copy succeeds and is proved to break it when the copy fails. Each operation changes `Slots` exactly as `Table.Put` or `Table.Remove` say, and states which buffers it allocates and which it frees.
  - The SQL entry points are methods that take `Option` arguments, where `None` stands for SQL NULL. `SetVar` is built on `Set` and `SetVarAsWritten` on `SetAsWritten`.

An allocation failure is modelled as an `outOfMemory` flag passed to `MemdupTop`. When it is set, the operation stops with status `OutOfMemory`, which models `elog(ERROR)` leaving the function.

## Model

| member | source | states |
|---|---|---|
| Keys.Memcmp | pg_uservars.c:182 | memcmp over equal-length ranges answers in -1..1, and answers 0 exactly when the ranges are byte-for-byte equal |
| Keys.KeyMatchAsWritten | pg_uservars.c:171-193 | the comparator as written: equal lengths answer 0 exactly on byte equality; a length mismatch always answers 0 ("equal") |
| Keys.KeyMatch | pg_uservars.c:171-193 | the comparator as intended: answers 0 exactly when the two keys are equal, lengths included |
| Keys.AsWrittenMatchIgnoresLength | pg_uservars.c:177-179 | the keys [1] and [1,2] differ, yet the as-written comparator calls them equal; the intended one does not |
| Keys.MatchersReflexiveSymmetric | pg_uservars.c:171-193 | both comparators match a key with itself and give the same zero/non-zero answer in either argument order |
| Keys.KeyHash | pg_uservars.c:159-165 | ukv_key_hash: hands string_hash an entry's key buffer and key_sz, modelled as string_hash of the buffer's first key_sz bytes (a definition without a contract; Keys.TerminatedKeyHash states what it gives) |
| Keys.TerminatedKeyHash | pg_uservars.c:159-160 | for a key buffer that p_memdup_top filled (the key and a terminator, with key_sz the key's length), the hash is string_hash of the key bytes alone |
| Keys.EqualKeysHashEqually | pg_uservars.c:159-193 | keys the intended comparator calls equal get equal hashes, as the hash table requires of its hash/match pair |
| Keys.CStringPrefix | pg_uservars.c:76-82 | what a C-string reader sees of a text: the bytes before its first zero byte (its properties are stated by Keys.CStringPrefixProperties) |
| Keys.Strlen | pg_uservars.c:82 | strlen is the index of the first zero byte: that byte is zero and none before it is |
| Keys.CStringPrefixProperties | pg_uservars.c:76-82 | the part of a text a C-string reader sees is a prefix of the text with no zero byte, ends where the text's first zero byte is, and is the whole text when it has no zero byte |
| Keys.CStringPrefixIdempotent | pg_uservars.c:105-110 | reading back a value cut at its first zero byte cuts nothing more |
| Keys.TerminatedBufferReadsPrefix | pg_uservars.c:204-205 | reading a buffer that p_memdup_top filled with v and its terminator stops no later than the terminator, and gives back v whole exactly when v holds no zero byte |
| Table.UkvCtl | pg_uservars.c:236-240 | the callbacks ukv_hash_init installs, with the comparator corrected (a definition; Table.HitIsKeyEquality states what it gives) |
| Table.UkvCtlAsWritten | pg_uservars.c:236-240 | the callbacks ukv_hash_init installs, with ukv_key_match as written (a definition; Table.AsWrittenCollisionClobbersOtherKey states what it gives) |
| Table.Find | pg_uservars.c:148 | the lookup answers with the first slot whose hash and match agree with the probe, and with none when no slot does |
| Table.Get | pg_uservars.c:148 | HASH_FIND: no value exactly when no slot answers the probe; otherwise the value of a slot that answers it |
| Table.Put | pg_uservars.c:267-289 | HASH_ENTER and the value install: at most one slot is added, and when the comparator matches the key with itself some slot answering the key holds the new value |
| Table.Remove | pg_uservars.c:313 | HASH_REMOVE: the table is unchanged exactly when no slot answers the probe; otherwise it loses one slot and keeps only slots it had |
| Table.HitIsKeyEquality | pg_uservars.c:159-193 | with the intended callbacks, a slot answers a probe exactly when its key equals the probe |
| Table.FindSameKeys | pg_uservars.c:267 | changing values without changing keys never moves a lookup's answer |
| Table.GetAfterPut | pg_uservars.c:253-289 | after a set of k to v, a lookup of k yields v, for any comparator that matches a key with itself |
| Table.PutOverwrites | pg_uservars.c:272-289 | setting k twice leaves what the second set alone leaves |
| Table.PutIdempotent | pg_uservars.c:272-289 | setting the same value twice is the same as setting it once |
| Table.PutKeepsStoredKeys | pg_uservars.c:267-289 | an overwrite keeps the number of entries; a new key is appended; no stored key changes |
| Table.RemoveAbsent | pg_uservars.c:313-318 | deleting a key that no entry answers changes nothing |
| Table.AsWrittenGetAfterPut | pg_uservars.c:171-193 | set-then-get still holds with the comparator as written |
| Table.GetIsMapLookup | pg_uservars.c:148 | with the intended callbacks, lookup equals lookup in the reference map |
| Table.PutIsMapUpdate | pg_uservars.c:253-295 | with the intended callbacks, set is map update on the reference map |
| Table.RemoveIsMapRemove | pg_uservars.c:301-323 | with the intended callbacks and distinct keys, delete is map removal on the reference map |
| Table.PutLeavesOthers | pg_uservars.c:267-289 | with the intended callbacks, setting one key leaves every other key's lookup as it was |
| Table.GetAfterRemove | pg_uservars.c:313-318 | with the intended callbacks and distinct keys, after delete of k, a lookup of k finds nothing |
| Table.RemoveLeavesOthers | pg_uservars.c:313-318 | with the intended callbacks and distinct keys, deleting one key leaves every other key's lookup as it was |
| Table.PutKeepsUniqueKeys | pg_uservars.c:267 | with the intended callbacks, set keeps the stored keys pairwise distinct |
| Table.RemoveKeepsUniqueKeys | pg_uservars.c:313 | delete keeps the stored keys pairwise distinct |
| Table.EmbeddedZeroKeysAreDistinct | pg_uservars.c:159-193 | with the intended callbacks, a key with an embedded zero byte and its prefix before that byte are separate entries |
| Table.AsWrittenCollisionClobbersOtherKey | pg_uservars.c:177-179 | with the comparator as written, a key that collides in hash with a stored key of another length reads, overwrites and deletes that other key's entry; the intended comparator adds a second entry instead |
| Table.AsWrittenGetAfterRemoveFindsAnother | pg_uservars.c:177-179 | with the comparator as written, a lookup after a delete of the same key can still find a value |
| UserVars.InvEntryOwnsValue | pg_uservars.c:41-49 | in a consistent table every entry has a value, and its key and value buffers are live |
| UserVars.InvPutFound | pg_uservars.c:272-289 | for any callbacks, replacing a found entry's value with a fresh buffer, and freeing the old one, keeps the ownership invariant and gives the slots of Put |
| UserVars.InvPutNew | pg_uservars.c:267-289 | for any comparator that matches the key with itself (both do), appending an entry with fresh key and value buffers for a key no entry answers keeps the ownership invariant and gives the slots of Put |
| UserVars.InvRemoveFound | pg_uservars.c:313-318 | for any callbacks, the found entry owns two distinct live buffers, and unlinking it and freeing both keeps the invariant and gives the slots of Remove |
| UserVars.VarLookup | pg_uservars.c:105-116 | what pguser_getvar returns for a key: the C string of the value the table finds under the key's C string, or NULL (Store.GetVar is proved to return it) |
| UserVars.GetVarAfterSetVar | pg_uservars.c:76-110 | for any comparator that matches a key with itself, ukv_key_match as written included, pguser_setvar(k, v) then pguser_getvar(k) returns v as a C string |
| UserVars.GetVarAfterDelVar | pg_uservars.c:100-132 | with the intended callbacks and distinct keys, pguser_delvar(k) then pguser_getvar(k) returns NULL |
| UserVars.AsWrittenCollidingKeyLookup | pg_uservars.c:137-193 | on a new store with ukv_key_match as written and a string_hash giving [1] and [1,2] the same hash, setting [1] to [7] in the source's order and then getting [1,2] returns the entry of [1], its key at the first address and its value at the next |
| UserVars.IntendedCollidingKeyLookup | pg_uservars.c:137-193 | the same calls with the corrected comparator: getting [1,2] returns no entry |
| UserVars.Store.constructor | pg_uservars.c:35 | the store starts uninitialised, with no entries, no live buffers and the allocator at its first address, and with the comparator it is built with |
| UserVars.Store.Ctl | pg_uservars.c:236-240 | the callbacks ukv_hash_init installs: string_hash with ukv_key_match as written when the store is built with matchAsWritten, with the corrected comparator otherwise |
| UserVars.Store.Init | pg_uservars.c:233-247 | the table becomes initialised and empty |
| UserVars.Store.MemdupTop | pg_uservars.c:199-207 | a fresh buffer holding the first sz source bytes and a zero byte, now live; on failure nothing is allocated |
| UserVars.Store.KeyCopy | pg_uservars.c:216-227 | a new entry with a fresh copy of the key, key_sz set, and a NULL value of size 0 |
| UserVars.Store.Search | pg_uservars.c:148 | a scan in table order comparing the stored hash and then the store's comparator (as written or corrected): the index of the first entry that answers the probe, exactly as Find, or -1 when none does |
| UserVars.Store.Get | pg_uservars.c:137-153 | changes nothing; returns NULL on an uninitialised store; returns an entry exactly when a lookup through the store's comparator finds one, namely the first entry that answers the probe, holding that slot's key and value with their lengths; with the corrected comparator that key is the probe |
| UserVars.Store.Replace | pg_uservars.c:272-289 | the found entry gets the new copy and its size, its key is kept, the old value buffer is freed, and no other entry changes |
| UserVars.Store.Link | pg_uservars.c:267-289 | a new entry with a fresh key copy and the new value copy is appended; only its key buffer is allocated |
| UserVars.Store.SetFound | pg_uservars.c:272-289 | the found branch with the copy made first: on success the entry gets the copy, its old value buffer is freed and the slots are Put's; on failure nothing changes |
| UserVars.Store.SetNew | pg_uservars.c:267-289 | the not-found branch with the copy made first: on success an entry with a fresh key copy and the value copy is appended and the slots are Put's; on failure nothing changes |
| UserVars.Store.Set | pg_uservars.c:253-295 | ukv_hash_set with the copy made first, through the store's comparator: initialises the table; on success the slots are Put's and exactly the new buffers become live; on failure nothing changes |
| UserVars.Store.Pfree | pg_uservars.c:277 | pfree: a live buffer stops being live, and freeing one that is not live is refused |
| UserVars.Store.FreeOldValue | pg_uservars.c:276-277 | the found entry's value buffer is freed while the entry still points to it |
| UserVars.Store.EnterKey | pg_uservars.c:267 | HASH_ENTER of a new key appends an entry with a fresh key copy and a NULL value |
| UserVars.Store.FillNew | pg_uservars.c:288-289 | installing the value copy and its size in the entry HASH_ENTER just linked with a NULL value makes the store valid again, with Put's slots |
| UserVars.Store.SetFoundAsWritten | pg_uservars.c:272-289 | with the source's order for a found key: on success the store is valid with Put's slots, the entry keeps its key buffer and key_sz and takes a fresh copy of the value, exactly its old value buffer is freed and no other entry changes; on failure the entry points to its freed value buffer, nothing is allocated and the store is not valid |
| UserVars.Store.SetNewAsWritten | pg_uservars.c:267-289 | with the source's order for a new key: on success the store is valid with Put's slots and one entry is appended, its key copied first into a fresh buffer and its value into the next one; on failure that entry is left in the table with a NULL value, only its key buffer is allocated and the store is not valid |
| UserVars.Store.SetAsWritten | pg_uservars.c:253-295 | ukv_hash_set in the source's order, through the store's comparator (the source's own on a store built with matchAsWritten): initialises the table; on success it gives Put's slots and, for a found key and for a new one, the new entries, the buffers allocated and freed and the allocator's advance; on failure it leaves the store not valid, with the found entry's value buffer freed or the new entry linked with a NULL value |
| UserVars.Store.Del | pg_uservars.c:301-323 | through the store's comparator, the slots become Remove's; the found entry is unlinked and both its buffers freed; an absent key or an uninitialised store changes nothing |
| UserVars.Store.SetVar | pg_uservars.c:68-85 | NULL for a NULL argument with the store, its initialisation included, unchanged; otherwise the table is created if needed and the C strings of key and value are set with the copy made first, the call returns true, and a failed copy leaves the entries, the live buffers and the allocator unchanged |
| UserVars.Store.SetVarAsWritten | pg_uservars.c:68-85 | as SetVar, on ukv_hash_set's own order: a NULL argument changes nothing; otherwise success returns true with Put's slots, and a failed copy leaves the store not valid |
| UserVars.Store.GetVar | pg_uservars.c:92-117 | NULL for a NULL key; otherwise the value the store's comparator finds under the key's C string, read as a C string, or NULL |
| UserVars.Store.DelVar | pg_uservars.c:124-134 | never initialises the table; NULL for a NULL key with the store unchanged; otherwise the key's C string is deleted through the store's comparator and the call returns true, whether or not it was present |

## Left out

- dynahash internals are not modelled: the bucket layout, segment growth and the `MAX_EXPECTED_VARS` sizing. Only their observable lookup order is kept (first hit in insertion order).
- `hash_create` failing (pg_uservars.c:245-246) and `hash_search` failing to enter an entry (pg_uservars.c:269-270) are not modelled. Both are assumed to succeed, and so is the key copy inside `HASH_ENTER`.
- `string_hash` is a parameter of the store. Its definition is part of PostgreSQL and is not part of this model. The model takes it as an arbitrary function of the first `key_sz` bytes of the buffer it is handed. Every key buffer here ends with a terminator right after those bytes, so any hash that reads up to the terminator or up to `key_sz` bytes is covered.
- A store left not valid by a failed as-written set is not modelled further. Every operation requires `Valid()`, so what a later get, set or delete does with the freed or NULL value (pg_uservars.c:110, 277, 317) is not covered.
- Buffers are values with addresses. No byte of a buffer is written after `p_memdup_top` fills it, so in-place writes, `memcpy` over arrays and pointer aliasing are not modelled. The allocator never reuses an address.
- `TopMemoryContext`, `MemoryContextAlloc` and `pfree` are modelled as an address counter plus the ghost set of live addresses.
- The SQL calling convention (`PG_GETARG_*`, `PG_RETURN_*`) and the `textin`/`textout` conversions are not modelled. A text argument is a byte sequence. Converting it to a C string appends a terminator, and `strlen` then cuts the text at its first zero byte. PostgreSQL text never holds a zero byte, so for real inputs the cut removes nothing.
- The `DEBUG` tracing through `elog(INFO, ...)` only logs, so it is left out.
- Process teardown, which releases the whole store, has no code and is not modelled.
- An error raised by `elog(ERROR)` is modelled as an `OutOfMemory` status that ends the operation. The non-local jump and the caller's transaction abort are not modelled.
- Through the entry points a key or value is cut at its first zero byte, because they pass `strlen` lengths (`CStringPrefix`). The table compares keys by length and bytes, so with the corrected comparator keys that differ after a zero byte stay apart (`Table.EmbeddedZeroKeysAreDistinct`). With the comparator as written, keys of different lengths whose hashes collide do not stay apart (`Table.AsWrittenCollisionClobbersOtherKey`).
- `pguser_delvar` returns true whether or not the key was present (`UserVars.Store.DelVar`).

## Findings

| source | as written | input that shows it | evidently intended | confidence | as-written member | corrected member |
|---|---|---|---|---|---|---|
| pg_uservars.c:177-179 | on a length mismatch `match = false` is returned, and 0 means "equal" to the hash table | two keys of different lengths with the same string_hash (e.g. [1] and [1,2] under a hash that maps both alike): setting one overwrites the other, and getting or deleting one reaches the other | a length mismatch answers non-zero, so keys are equal only when their lengths and bytes are | not executed | Keys.KeyMatchAsWritten, Keys.AsWrittenMatchIgnoresLength, Table.AsWrittenCollisionClobbersOtherKey, Table.AsWrittenGetAfterRemoveFindsAnother, UserVars.AsWrittenCollidingKeyLookup | Keys.KeyMatch, Table.PutIsMapUpdate, Table.RemoveIsMapRemove, UserVars.IntendedCollidingKeyLookup |
| pg_uservars.c:276-288 | the old value is freed (276-277), or a new entry linked with a NULL value (267), before `p_memdup_top` copies the new value (288) | a set whose value copy runs out of memory: an existing key is left pointing at its freed value, and a new key is left in the table with a NULL value | copy the new value first, then free the old one and install the copy, so a failed allocation leaves the table as it was | not executed | UserVars.Store.SetAsWritten, UserVars.Store.SetFoundAsWritten, UserVars.Store.SetNewAsWritten, UserVars.Store.SetVarAsWritten | UserVars.Store.Set, UserVars.Store.SetVar |
