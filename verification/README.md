# KV dictionary contract and visibility trackers, modelled in Dafny

This project models two pieces of a document database's pluggable storage layer.

- **KVDictionary** is the abstract sorted map from byte-string keys to byte-string values. Every storage backend implements it. The model covers:
  - the key comparator `Encoding::cmp`;
  - the point operations `get`, `insert` and `remove`;
  - both overloads of the optional delta `update`;
  - the optional native `dupKeyCheck`;
  - the directional `Cursor`: `getCursor`, `seek`, `advance`, `ok`, `currKey`, `currVal`.
- **Visibility trackers** compute the lowest record id that readers of a capped collection or of the oplog must not see yet. The variants are `NoopIdTracker`, `CappedIdTracker` and `OplogIdTracker`.

The model is functional. Keys and values are `seq<bv8>`. A dictionary is a `map` plus the two capability flags a backend may advertise. A cursor is a snapshot map, a direction and an optional position. A tracker is a datatype with one constructor per class, holding the pending-id `set` and the highest id. Every operation is a pure function from the old state to the new one. The tracker mutex is treated as making each tracker method atomic.

Files:

- `base.dfy` (module `Base`): status codes, `RecordId`, `Option`.
- `key_order.dfy` (module `KeyOrder`): the comparator, a separate reference definition of lexicographic order, proofs that the comparator is a total order that agrees with that reference, and iteration directions.
- `kv_dictionary.dfy` (module `KVDictionary`): encodings, dictionary operations and cursors.
- `visible_id_tracker.dfy` (module `VisibleIdTracker`): the three trackers, their commit and rollback hooks, and the recovery-unit and iterator restrictions.

Modelling choices:

- **`KeyOrder.Cmp`** follows the header's description: memcmp over the common length, then the shorter key first. The header only promises the sign of the result, so the model returns -1, 0 or 1.
- **`Less`** is the independent reference order. A key is below another if it is a proper prefix of it, or if its first differing byte is smaller.
- **Direction** is a two-valued `Forward | Backward` datatype. The header's comments give inconsistent numeric thresholds: "> 1" / "< 1" at `getCursor`, and "== 1" / "== -1" at `seek`. No numeric encoding is modelled.
- **`KVUpdateMessage`** is opaque. It is modelled as a datatype carrying an uninterpreted function `apply: Value -> Value`.
- **Capability checks.** In the source, the default `update` and `dupKeyCheck` end in `invariant(false)`. Calling them without the capability is therefore a precondition (`updateSupported`, `supportsDupKeyCheck`).
- **`Encoding::extractRecordId`** is not part of this model. `dupKeyCheck` receives it as a parameter `recordIdOf`.
- **Which key `dupKeyCheck` finds.** The header says "if something is found" but not which key. The model compares the first key of the range in forward order.
- **Seeking a dead cursor** is allowed. The `seek` comment asks whether `ok()` is required there and guesses that it is not; the model follows that guess.
- **The recovery unit** is the record `{hasSnapshot, lowestInvisible: Option<RecordId>}`. `None` stands for the null RecordId.
- **Storing the null id.** Storing RecordId 0 in the recovery unit leaves it reading as null (`AsCached`). So a horizon of 0 is never frozen, and it would trip the iterator's `invariant`. That happens only for id ranges that start at or below zero.
- **Adding an id to the no-op tracker** registers no change. So `Commit`/`Rollback` are only defined for the capped and oplog trackers.

Points where the model follows the header's code and comments literally:

- A missing key in `get` is `NoSuchKey`.
- Resolving an id that is not pending is a plain set erase. It is not a fatal error.
- `getCursor` defaults to the forward direction when none is given, as both overloads do.

## Model

| member | source | states |
|---|---|---|
| KeyOrder.Cmp | src/mongo/db/storage/kv/dictionary/kv_dictionary.h:104-115 | the comparison answers 0 exactly for equal keys; the model normalises the sign-only result to -1, 0 or 1 (its order is stated by CmpMatchesLess) |
| KeyOrder.CmpMatchesLess | src/mongo/db/storage/kv/dictionary/kv_dictionary.h:104-115 | the comparator is memcmp-style against lexicographic byte order: negative exactly when a is below b, zero exactly when the byte strings are equal, positive exactly when b is below a |
| KeyOrder.CmpReflexive | src/mongo/db/storage/kv/dictionary/kv_dictionary.h:104-115 | every key compares equal to itself |
| KeyOrder.CmpAntisymmetric | src/mongo/db/storage/kv/dictionary/kv_dictionary.h:104-115 | swapping the two keys negates the comparison |
| KeyOrder.CmpTransitive | src/mongo/db/storage/kv/dictionary/kv_dictionary.h:104-115 | a below b and b below c gives a below c |
| KeyOrder.CmpTransitiveNonStrict | src/mongo/db/storage/kv/dictionary/kv_dictionary.h:104-115 | the non-strict order is transitive too, so the comparator is a total preorder whose ties are equal keys |
| KeyOrder.PrefixSortsFirst | src/mongo/db/storage/kv/dictionary/kv_dictionary.h:83-87 | ties on a common prefix go to the shorter key: a proper prefix always sorts first |
| KeyOrder.FirstDifferenceDecides | src/mongo/db/storage/kv/dictionary/kv_dictionary.h:83-87 | past an equal prefix, the first differing byte alone decides the sign, as memcmp does |
| KeyOrder.PrecedesStrictTotalOrder | src/mongo/db/storage/kv/dictionary/kv_dictionary.h:328-332 | both iteration directions order keys strictly and totally, so there is always a well-defined next key |
| KeyOrder.First | src/mongo/db/storage/kv/dictionary/kv_dictionary.h:328-338 | every non-empty key set has a first key in either direction, coming before all the others |
| KVDictionary.Encoding.Compare | src/mongo/db/storage/kv/dictionary/kv_dictionary.h:104-113 | an encoding's comparison operator answers < 0, == 0 and > 0 exactly for a below, equal to and above b |
| KVDictionary.EncodingsCompareAlike | src/mongo/db/storage/kv/dictionary/kv_dictionary.h:111-115 | the comparator is static, so record-store, index and raw encodings order any two keys identically |
| KVDictionary.Encoding.IsRecordStore | src/mongo/db/storage/kv/dictionary/kv_dictionary.h:117 | an encoding that reports record-store keys is neither an index nor raw bytes; EncodingTags gives the converse |
| KVDictionary.Encoding.IsIndex | src/mongo/db/storage/kv/dictionary/kv_dictionary.h:119 | an encoding that reports index keys is neither a record store nor raw bytes; EncodingTags gives the converse |
| KVDictionary.RawEncoding | src/mongo/db/storage/kv/dictionary/kv_dictionary.h:73-76 | the default raw-bytes encoding answers false to both tag queries |
| KVDictionary.ForRecordStore | src/mongo/db/storage/kv/dictionary/kv_dictionary.h:78-81 | the record-store encoding is a record store and not an index |
| KVDictionary.ForIndex | src/mongo/db/storage/kv/dictionary/kv_dictionary.h:83-87 | an index encoding is an index and not a record store |
| KVDictionary.EncodingTags | src/mongo/db/storage/kv/dictionary/kv_dictionary.h:117-119 | each kind of encoding answers exactly its own tag query, both ways, and no encoding is both a record store and an index |
| KVDictionary.Get | src/mongo/db/storage/kv/dictionary/kv_dictionary.h:128-136 | OK with the bound value exactly when the key is present; otherwise NoSuchKey with the caller's output untouched |
| KVDictionary.Insert | src/mongo/db/storage/kv/dictionary/kv_dictionary.h:138-144 | always OK; the key is bound to the new value whether or not it existed, and every other binding is kept |
| KVDictionary.Remove | src/mongo/db/storage/kv/dictionary/kv_dictionary.h:146-152 | always OK; the key is gone, other bindings are kept, and removing an absent key leaves the dictionary unchanged |
| KVDictionary.InsertThenGet | src/mongo/db/storage/kv/dictionary/kv_dictionary.h:128-144 | a get after an insert returns the inserted value, even over an old one; gets of other keys answer as before the insert |
| KVDictionary.RemoveThenGet | src/mongo/db/storage/kv/dictionary/kv_dictionary.h:128-152 | a get after a remove reports NoSuchKey and leaves the output slot alone; other keys answer as before |
| KVDictionary.UpdateWithOld | src/mongo/db/storage/kv/dictionary/kv_dictionary.h:160-174 | given the value get would read (the empty slice if the key is missing), the key ends up bound to the message applied to it, and nothing else changes |
| KVDictionary.Update | src/mongo/db/storage/kv/dictionary/kv_dictionary.h:176-187 | the two-argument update gives the same dictionary and status as reading the key (the empty slice if missing) and then calling the three-argument update |
| KVDictionary.DupKeyCheck | src/mongo/db/storage/kv/dictionary/kv_dictionary.h:205-219 | OK exactly when the range [left, right] is empty or its first key carries the given record id, otherwise DuplicateKey; a range whose keys all carry the id passes, and a DuplicateKey always has a witness key with another id |
| KVDictionary.DupKeyCheckSingleKey | src/mongo/db/storage/kv/dictionary/kv_dictionary.h:209-214 | with one key in the range, the check passes exactly when that key's record id matches |
| KVDictionary.Beyond | src/mongo/db/storage/kv/dictionary/kv_dictionary.h:294-299 | finds the nearest key strictly past the given one in a direction: it is past it, nothing lies between, and there is none exactly when no key is past it |
| KVDictionary.GetCursor | src/mongo/db/storage/kv/dictionary/kv_dictionary.h:328-338 | a cursor without a start key is on the first key in its direction (the smallest going forward, the largest backward) and is ok exactly when the dictionary is non-empty |
| KVDictionary.Seek | src/mongo/db/storage/kv/dictionary/kv_dictionary.h:294-302 | lands on the key when present, otherwise on the nearest key beyond it in the cursor's direction; the cursor is dead exactly when the key is absent and no key lies beyond it |
| KVDictionary.GetCursorAt | src/mongo/db/storage/kv/dictionary/kv_dictionary.h:328-336 | a cursor opened at a key is positioned as seek would position it: on the key, else on the first key past it in the direction, else dead |
| KVDictionary.Cursor.Ok | src/mongo/db/storage/kv/dictionary/kv_dictionary.h:286-292 | a (valid) cursor is ok exactly when it is positioned on some key of its snapshot; otherwise it is dead |
| KVDictionary.Cursor.CurrKey | src/mongo/db/storage/kv/dictionary/kv_dictionary.h:311-317 | readable only while ok; the key returned is one of the snapshot's keys |
| KVDictionary.Cursor.CurrVal | src/mongo/db/storage/kv/dictionary/kv_dictionary.h:319-325 | readable only while ok; the value returned is the one the snapshot binds to the current key |
| KVDictionary.CurrValIsGet | src/mongo/db/storage/kv/dictionary/kv_dictionary.h:319-325 | an ok cursor's current value is exactly what get returns, with status OK, for its current key on the dictionary it reads |
| KVDictionary.SeekByDirection | src/mongo/db/storage/kv/dictionary/kv_dictionary.h:294-299 | going forward the cursor lands on the least key not below the sought key; going backward on the greatest key not above it |
| KVDictionary.Advance | src/mongo/db/storage/kv/dictionary/kv_dictionary.h:304-309 | moves to the immediate successor of the current key in the cursor's direction, with nothing skipped, and dies exactly when the current key was the last |
| KVDictionary.AdvanceShrinks | src/mongo/db/storage/kv/dictionary/kv_dictionary.h:304-309 | each advance consumes exactly the current key from the keys left to visit, so iteration ends |
| KVDictionary.ScanInOrder | src/mongo/db/storage/kv/dictionary/kv_dictionary.h:304-317 | advancing until the cursor dies yields the keys from the current one onwards, strictly in the cursor's direction |
| KVDictionary.FullScan | src/mongo/db/storage/kv/dictionary/kv_dictionary.h:328-338 | a fresh cursor iterated to its end visits every key of the dictionary exactly once, in increasing order forward and decreasing order backward |
| VisibleIdTracker.NewCappedIdTracker | src/mongo/db/storage/kv/dictionary/visible_id_tracker.h:77-79 | a new capped tracker has nothing pending, highest id nextIdNum-1, and so reports nextIdNum as its horizon |
| VisibleIdTracker.NewOplogIdTracker | src/mongo/db/storage/kv/dictionary/visible_id_tracker.h:139-141 | an oplog tracker starts exactly like a capped one: horizon nextIdNum |
| VisibleIdTracker.Minimum | src/mongo/db/storage/kv/dictionary/visible_id_tracker.h:99-101 | the first element of the ordered pending set is a pending id no larger than any other |
| VisibleIdTracker.LowestInvisible | src/mongo/db/storage/kv/dictionary/visible_id_tracker.h:97-102 | the horizon is one past the highest id when nothing is pending and otherwise the smallest pending id, so it never exceeds a pending id; the no-op tracker reports the maximum RecordId |
| VisibleIdTracker.CanReadId | src/mongo/db/storage/kv/dictionary/visible_id_tracker.h:83-85 | a capped or oplog reader may read an id exactly when it is below the horizon; the no-op tracker allows every id |
| VisibleIdTracker.AddUncommittedId | src/mongo/db/storage/kv/dictionary/visible_id_tracker.h:87-95 | registers a resolving change for the id, adds it to the pending set and raises the highest id to it if larger, so the highest id never decreases; the no-op tracker is untouched |
| VisibleIdTracker.MarkIdVisible | src/mongo/db/storage/kv/dictionary/visible_id_tracker.h:129-132 | removes exactly that id from the pending set and keeps the highest id; an id that is not pending changes nothing |
| VisibleIdTracker.Commit | src/mongo/db/storage/kv/dictionary/visible_id_tracker.h:121-123 | committing the registered change releases its id from the pending set and leaves the highest id alone |
| VisibleIdTracker.Rollback | src/mongo/db/storage/kv/dictionary/visible_id_tracker.h:124-126 | rolling back the registered change has exactly the effect of committing it |
| VisibleIdTracker.NothingPastPendingIsReadable | src/mongo/db/storage/kv/dictionary/visible_id_tracker.h:83-102 | every readable id lies strictly below every still-pending id, and a pending id is never readable |
| VisibleIdTracker.AddKeepsHorizon | src/mongo/db/storage/kv/dictionary/visible_id_tracker.h:87-102 | registering a freshly allocated id (above the highest) never lowers the horizon |
| VisibleIdTracker.ResolveKeepsHorizon | src/mongo/db/storage/kv/dictionary/visible_id_tracker.h:97-132 | resolving any id never lowers the horizon of a tracker whose pending ids are all registered |
| VisibleIdTracker.HorizonNeverRecedes | src/mongo/db/storage/kv/dictionary/visible_id_tracker.h:87-132 | over any history of in-order inserts and resolutions in any order, the pending ids stay within the highest id and the horizon never moves backwards |
| VisibleIdTracker.OutOfOrderResolution | src/mongo/db/storage/kv/dictionary/visible_id_tracker.h:87-132 | ids 1, 2, 3 pending with 2 resolved first: the horizon stays 1 (2 unreadable) until 1 resolves, then is 3, then 4 once 3 resolves |
| VisibleIdTracker.NoopSeesEverything | src/mongo/db/storage/kv/dictionary/visible_id_tracker.h:61-68 | the no-op tracker reads every id, reports the maximum RecordId as horizon, and ignores inserts |
| VisibleIdTracker.AsCached | src/mongo/db/storage/kv/dictionary/visible_id_tracker.h:143-146 | storing an id in the recovery unit caches it unless it is the null id, which reads back as nothing cached |
| VisibleIdTracker.SetRecoveryUnitRestriction | src/mongo/db/storage/kv/dictionary/visible_id_tracker.h:143-147 | only the oplog tracker acts: inside a snapshot that already caches a horizon nothing changes, otherwise the current horizon is cached |
| VisibleIdTracker.SetIteratorRestriction | src/mongo/db/storage/kv/dictionary/visible_id_tracker.h:149-153 | the capped and oplog trackers bind themselves to the iterator; the oplog one also hands it the horizon cached on the recovery unit, which must be set, and not a recomputed one |
| VisibleIdTracker.RecoveryUnitRestrictionIdempotent | src/mongo/db/storage/kv/dictionary/visible_id_tracker.h:143-147 | restricting a recovery unit twice with the same tracker is the same as once |
| VisibleIdTracker.OplogHorizonStable | src/mongo/db/storage/kv/dictionary/visible_id_tracker.h:143-153 | within a snapshot the first restriction fixes the horizon: later restrictions, after any tracker changes, leave it and hand iterators that same value |

## Left out

- `Encoding::serialize`, the `Encoding(const Slice&)` constructor, `extractKey`, `extractRecordId` and `Ordering`: their byte layouts and decoders are not part of this model. The encoding keeps only its tag (so `ForIndex` takes no ordering), and a key's record id is a parameter of `dupKeyCheck`.
- `name()`, `getStats`/`Stats`, `appendCustomStats`, `setCustomOption`: introspection and configuration with backend-defined or estimated content.
- `compactSupported` (false by default); `compactsInPlace` and `compact`, whose defaults are `invariant(false)` stubs: backend compaction plumbing.
- `justDeletedCappedRange`: a notification hook whose default does nothing.
- The `skipPessimisticLocking` flag and `OperationContext`: locking and transaction plumbing.
- Slice ownership and the lifetime of `currKey()`/`currVal()` results: values are immutable sequences here.
- Mutexes and all cross-thread interleavings: each tracker method is one atomic step.
- The `RecoveryUnit::registerChange` plumbing: `AddUncommittedId` returns the registered change, and `Commit`/`Rollback` take it.
- The filtering a `KVRecordIterator` performs with the tracker or horizon bound to it: it is defined outside these files. Only the binding is modelled.
- VisibleIdTracker.LowestInvisible: does not model the 64-bit RecordId overflow of `_highest.repr() + 1` at the maximum id, because ids are unbounded integers.
- KeyOrder.Cmp: returns exactly -1, 0 or 1. Only the sign is promised, and every property is stated about the sign.
