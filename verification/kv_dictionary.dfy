/**
 * The KVDictionary contract: a sorted map from byte-string keys to
 * byte-string values, its point operations, the optional delta update and
 * duplicate-key check, and the directional cursor over a snapshot of it.
 * The model is the reference behaviour every backend must reproduce.
 */
module KVDictionary {
  import opened Base
  import opened KeyOrder

  type Value = seq<Byte>

  /** The empty slice, what a missing value reads as. */
  const EmptySlice: Value := []

  // ---------------------------------------------------------------------
  // Encoding

  /**
   * What the keys of a dictionary are: raw bytes, encoded record ids of a
   * record store, or key strings of an index. The comparator ignores the
   * tag: `cmp` is static, so all encodings order keys the same way.
   */
  datatype Encoding = RawBytes | RecordStoreKeys | IndexKeys {

    /** `isRecordStore()`: the keys are encoded record ids; never also an index. */
    function IsRecordStore(): (b: bool)
      ensures b ==> !IndexKeys? && !RawBytes?
    {
      RecordStoreKeys?
    }

    /** `isIndex()`: the keys are index key strings; never also a record store. */
    function IsIndex(): (b: bool)
      ensures b ==> !RecordStoreKeys? && !RawBytes?
    {
      IndexKeys?
    }

    /** The memcmp-style comparison of two keys under this encoding. */
    function Compare(a: Key, b: Key): (r: int)
      ensures r < 0 <==> Less(a, b)
      ensures r == 0 <==> a == b
      ensures r > 0 <==> Less(b, a)
    {
      CmpMatchesLess(a, b);
      Cmp(a, b)
    }
  }

  /** `Encoding()`: the raw-bytes encoding, neither a record store nor an index. */
  function RawEncoding(): (e: Encoding)
    ensures !e.IsRecordStore() && !e.IsIndex()
  {
    RawBytes
  }

  /** `forRecordStore()`: the encoding of a record store's keys. */
  function ForRecordStore(): (e: Encoding)
    ensures e.IsRecordStore() && !e.IsIndex()
  {
    RecordStoreKeys
  }

  /** `forIndex(o)`: the encoding of an index's keys. The ordering is not modelled. */
  function ForIndex(): (e: Encoding)
    ensures e.IsIndex() && !e.IsRecordStore()
  {
    IndexKeys
  }

  /**
   * Each of the three kinds answers exactly its own tag query, and no
   * encoding is both a record store and an index.
   */
  lemma EncodingTags()
    ensures RecordStoreKeys.IsRecordStore() && !RecordStoreKeys.IsIndex()
    ensures IndexKeys.IsIndex() && !IndexKeys.IsRecordStore()
    ensures !RawBytes.IsRecordStore() && !RawBytes.IsIndex()
    ensures forall e: Encoding :: !(e.IsRecordStore() && e.IsIndex())
  {
  }

  /**
   * Any two encodings compare any two keys identically. This holds by
   * construction: `Compare` never reads its receiver, as `cmp` is static.
   */
  lemma EncodingsCompareAlike(e1: Encoding, e2: Encoding, a: Key, b: Key)
    ensures e1.Compare(a, b) == e2.Compare(a, b)
  {
  }

  // ---------------------------------------------------------------------
  // Point operations

  /**
   * One dictionary: its key/value bindings and the two optional
   * capabilities a backend may advertise.
   */
  datatype Dictionary = Dictionary(entries: map<Key, Value>, updateSupported: bool, supportsDupKeyCheck: bool)

  /** Status of a `get` together with the caller's output slot after the call. */
  datatype GetReply = GetReply(status: Status, value: Value)

  /** Status of a write together with the dictionary after it. */
  datatype WriteReply = WriteReply(status: Status, dict: Dictionary)

  /** `d'` is `d` except possibly for the binding of `key`. */
  ghost predicate SameElsewhere(d: Dictionary, d': Dictionary, key: Key) {
    && d'.updateSupported == d.updateSupported
    && d'.supportsDupKeyCheck == d.supportsDupKeyCheck
    && (forall k :: k != key ==> (k in d.entries <==> k in d'.entries))
    && (forall k :: k != key && k in d.entries ==> d'.entries[k] == d.entries[k])
  }

  /**
   * `get`: reads the value of `key` into the caller's slot `value`. A
   * missing key gives NoSuchKey and leaves the slot as it was.
   */
  function Get(d: Dictionary, key: Key, value: Value): (r: GetReply)
    ensures r.status == OK || r.status == NoSuchKey
    ensures r.status == OK <==> key in d.entries
    ensures r.status == OK ==> r.value == d.entries[key]
    ensures r.status == NoSuchKey ==> r.value == value
  {
    if key in d.entries then GetReply(OK, d.entries[key]) else GetReply(NoSuchKey, value)
  }

  /** `insert`: binds `key` to `value`, overwriting any existing binding. */
  function Insert(d: Dictionary, key: Key, value: Value): (r: WriteReply)
    ensures r.status == OK
    ensures key in r.dict.entries && r.dict.entries[key] == value
    ensures SameElsewhere(d, r.dict, key)
  {
    WriteReply(OK, d.(entries := d.entries[key := value]))
  }

  /** `remove`: drops the binding of `key`; a missing key is not an error. */
  function Remove(d: Dictionary, key: Key): (r: WriteReply)
    ensures r.status == OK
    ensures key !in r.dict.entries
    ensures SameElsewhere(d, r.dict, key)
    ensures key !in d.entries ==> r.dict == d
  {
    WriteReply(OK, d.(entries := d.entries - {key}))
  }

  /** After an insert, `get` of that key returns the inserted value and other keys read as before. */
  lemma InsertThenGet(d: Dictionary, key: Key, value: Value, other: Key, slot: Value)
    ensures Get(Insert(d, key, value).dict, key, slot) == GetReply(OK, value)
    ensures other != key ==> Get(Insert(d, key, value).dict, other, slot) == Get(d, other, slot)
  {
  }

  /** After a remove, `get` of that key fails with NoSuchKey and leaves the slot alone; other keys read as before. */
  lemma RemoveThenGet(d: Dictionary, key: Key, other: Key, slot: Value)
    ensures Get(Remove(d, key).dict, key, slot) == GetReply(NoSuchKey, slot)
    ensures other != key ==> Get(Remove(d, key).dict, other, slot) == Get(d, other, slot)
  {
  }

  // ---------------------------------------------------------------------
  // Delta updates

  /**
   * An opaque delta: some transformation from an old value image to a new
   * one. Its meaning belongs to the record-store layer.
   */
  datatype UpdateMessage = UpdateMessage(apply: Value -> Value)

  /**
   * `update(key, oldValue, message)`: stores the result of applying the
   * message to `oldValue`. The caller must pass what `get` would read, with
   * the empty slice for a missing key; the default implementation aborts
   * when the backend does not support updates.
   */
  function UpdateWithOld(d: Dictionary, key: Key, oldValue: Value, msg: UpdateMessage): (r: WriteReply)
    requires d.updateSupported
    requires oldValue == Get(d, key, EmptySlice).value
    ensures r.status == OK
    ensures key in r.dict.entries && r.dict.entries[key] == msg.apply(oldValue)
    ensures SameElsewhere(d, r.dict, key)
  {
    WriteReply(OK, d.(entries := d.entries[key := msg.apply(oldValue)]))
  }

  /**
   * `update(key, message)`: applies the message to whatever value is
   * present. It behaves as reading the key first (the empty slice when it
   * is missing) and then calling the three-argument form.
   */
  function Update(d: Dictionary, key: Key, msg: UpdateMessage): (r: WriteReply)
    requires d.updateSupported
    ensures r == UpdateWithOld(d, key, Get(d, key, EmptySlice).value, msg)
  {
    var current := if key in d.entries then d.entries[key] else EmptySlice;
    WriteReply(OK, d.(entries := d.entries[key := msg.apply(current)]))
  }

  // ---------------------------------------------------------------------
  // Duplicate-key check

  /** `k` lies in the closed range [left, right]. */
  predicate InRange(left: Key, right: Key, k: Key) {
    Cmp(left, k) <= 0 && Cmp(k, right) <= 0
  }

  /** The keys of `d` in the closed range [left, right]. */
  function KeysInRange(d: Dictionary, left: Key, right: Key): (ks: set<Key>)
    ensures forall k :: k in ks <==> k in d.entries && InRange(left, right, k)
  {
    set k | k in d.entries && InRange(left, right, k)
  }

  /**
   * `dupKeyCheck(left, right, id)`: looks up the keys in [left, right]; no
   * key, or a found key whose record id is `id`, is OK, and any other found
   * key is a DuplicateKey. The key found is the first one in the range.
   * `recordIdOf` decodes the record id carried by a key.
   */
  function DupKeyCheck(d: Dictionary, left: Key, right: Key, id: RecordId, recordIdOf: Key -> RecordId): (r: Status)
    requires d.supportsDupKeyCheck
    ensures r == OK || r == DuplicateKey
    ensures r == OK <==> forall k :: IsFirst(KeysInRange(d, left, right), Forward, k) ==> recordIdOf(k) == id
    ensures (forall k :: k in d.entries && InRange(left, right, k) ==> recordIdOf(k) == id) ==> r == OK
    ensures r == DuplicateKey ==> exists k :: k in d.entries && InRange(left, right, k) && recordIdOf(k) != id
  {
    var found := KeysInRange(d, left, right);
    if found == {} then OK
    else
      var k := First(found, Forward);
      FirstIsUnique(found, Forward, k);
      if recordIdOf(k) == id then OK else DuplicateKey
  }

  /** Only one element of a set is first in a given direction. */
  lemma FirstIsUnique(s: set<Key>, dir: Direction, k: Key)
    requires IsFirst(s, dir, k)
    ensures forall j :: IsFirst(s, dir, j) ==> j == k
  {
  }

  /** With a single key in the range, the check passes exactly when that key carries `id`. */
  lemma DupKeyCheckSingleKey(d: Dictionary, left: Key, right: Key, id: RecordId, recordIdOf: Key -> RecordId, k: Key)
    requires d.supportsDupKeyCheck
    requires KeysInRange(d, left, right) == {k}
    ensures DupKeyCheck(d, left, right, id, recordIdOf) == OK <==> recordIdOf(k) == id
  {
  }

  // ---------------------------------------------------------------------
  // Cursors

  /**
   * A cursor: the snapshot it reads, its fixed direction and its position.
   * A cursor with no position is dead: `ok()` is false.
   */
  datatype Cursor = Cursor(snapshot: map<Key, Value>, dir: Direction, position: Option<Key>) {

    /** The position, when there is one, is a key of the snapshot. */
    predicate Valid() {
      position.Some? ==> position.value in snapshot
    }

    /** `ok()`: the cursor is positioned on a key of its snapshot, so it may be read. */
    function Ok(): (b: bool)
      ensures Valid() ==> (b <==> exists k :: k in snapshot && position == Some(k))
    {
      position.Some?
    }

    /** `currKey()`: the key the cursor is on, one of the snapshot's keys. */
    function CurrKey(): (k: Key)
      requires Ok()
      ensures Valid() ==> k in snapshot
    {
      position.value
    }

    /** `currVal()`: the value bound to the current key in the snapshot. */
    function CurrVal(): (v: Value)
      requires Ok() && Valid()
      ensures CurrKey() in snapshot && v == snapshot[CurrKey()]
    {
      snapshot[position.value]
    }
  }

  /** The value under an ok cursor is what `get` reads for its key. */
  lemma CurrValIsGet(d: Dictionary, c: Cursor, slot: Value)
    requires c.snapshot == d.entries && c.Ok() && c.Valid()
    ensures Get(d, c.CurrKey(), slot) == GetReply(OK, c.CurrVal())
  {
  }

  /**
   * The key of `s` nearest to `key` strictly beyond it in direction `dir`,
   * if there is one.
   */
  function Beyond(s: set<Key>, key: Key, dir: Direction): (r: Option<Key>)
    ensures r.None? <==> forall k :: k in s ==> !Precedes(dir, key, k)
    ensures r.Some? ==> r.value in s && Precedes(dir, key, r.value)
    ensures r.Some? ==> forall k :: k in s && Precedes(dir, key, k) && k != r.value ==> Precedes(dir, r.value, k)
  {
    var after := set k | k in s && Precedes(dir, key, k);
    assert forall k :: k in s && Precedes(dir, key, k) ==> k in after;
    if after == {} then None else Some(First(after, dir))
  }

  /**
   * `getCursor(direction)`: a cursor on the first key in its direction
   * (forward unless told otherwise),
   * the smallest key going forward and the largest going backward.
   */
  function GetCursor(d: Dictionary, dir: Direction := Forward): (c: Cursor)
    ensures c.Valid() && c.snapshot == d.entries && c.dir == dir
    ensures c.Ok() <==> d.entries != map[]
    ensures c.Ok() ==> forall k :: k in d.entries && k != c.CurrKey() ==> Precedes(dir, c.CurrKey(), k)
  {
    var start := if d.entries.Keys == {} then None else Some(First(d.entries.Keys, dir));
    assert d.entries == map[] <==> d.entries.Keys == {};
    Cursor(d.entries, dir, start)
  }

  /**
   * `seek(key)`: lands on `key` when it is present, and otherwise on the
   * nearest key beyond it in the cursor's direction: the least greater key
   * going forward, the greatest smaller key going backward. With no such
   * key the cursor is dead. A dead cursor may be sought again, following
   * the header's own guess that `ok()` is not required here.
   */
  function Seek(c: Cursor, key: Key): (c': Cursor)
    ensures c'.Valid() && c'.snapshot == c.snapshot && c'.dir == c.dir
    ensures key in c.snapshot ==> c'.Ok() && c'.CurrKey() == key
    ensures key !in c.snapshot ==> c'.position == Beyond(c.snapshot.Keys, key, c.dir)
    ensures !c'.Ok() <==> key !in c.snapshot && forall k :: k in c.snapshot ==> !Precedes(c.dir, key, k)
  {
    var landing := if key in c.snapshot then Some(key) else Beyond(c.snapshot.Keys, key, c.dir);
    c.(position := landing)
  }

  /** `getCursor(key, direction)`: a cursor over `d` positioned as `seek(key)` would; forward by default. */
  function GetCursorAt(d: Dictionary, key: Key, dir: Direction := Forward): (c: Cursor)
    ensures c.Valid() && c.snapshot == d.entries && c.dir == dir
    ensures key in d.entries ==> c.Ok() && c.CurrKey() == key
    ensures key !in d.entries && c.Ok() ==>
      && c.CurrKey() in d.entries
      && Precedes(dir, key, c.CurrKey())
      && forall k :: k in d.entries && Precedes(dir, key, k) ==> k == c.CurrKey() || Precedes(dir, c.CurrKey(), k)
    ensures !c.Ok() <==> key !in d.entries && forall k :: k in d.entries ==> !Precedes(dir, key, k)
  {
    Seek(Cursor(d.entries, dir, None), key)
  }

  /** Seeking forward lands on the least key at or above `key`; backward on the greatest at or below. */
  lemma SeekByDirection(d: Dictionary, key: Key)
    ensures var c := GetCursorAt(d, key, Forward);
      c.Ok() ==> Cmp(key, c.CurrKey()) <= 0 && forall k :: k in d.entries && Cmp(key, k) <= 0 ==> Cmp(c.CurrKey(), k) <= 0
    ensures var c := GetCursorAt(d, key, Backward);
      c.Ok() ==> Cmp(c.CurrKey(), key) <= 0 && forall k :: k in d.entries && Cmp(k, key) <= 0 ==> Cmp(k, c.CurrKey()) <= 0
  {
    forall k: Key ensures Cmp(key, k) == 0 <==> k == key {
      CmpMatchesLess(key, k);
    }
    forall k: Key ensures Cmp(k, key) == 0 <==> k == key {
      CmpMatchesLess(k, key);
    }
    forall k: Key ensures Cmp(k, k) == 0 {
      CmpReflexive(k);
    }
  }

  /**
   * `advance()`: moves to the next key in the cursor's direction, or kills
   * the cursor when the current key is the last one.
   */
  function Advance(c: Cursor): (c': Cursor)
    requires c.Ok() && c.Valid()
    ensures c'.Valid() && c'.snapshot == c.snapshot && c'.dir == c.dir
    ensures c'.Ok() ==> Precedes(c.dir, c.CurrKey(), c'.CurrKey())
    ensures c'.Ok() ==> forall k :: k in c.snapshot && Precedes(c.dir, c.CurrKey(), k) ==> k == c'.CurrKey() || Precedes(c.dir, c'.CurrKey(), k)
    ensures !c'.Ok() <==> forall k :: k in c.snapshot ==> !Precedes(c.dir, c.CurrKey(), k)
  {
    c.(position := Beyond(c.snapshot.Keys, c.CurrKey(), c.dir))
  }

  /** The keys a cursor has yet to visit: its current key and every key beyond it. */
  function Remaining(c: Cursor): (r: set<Key>)
    ensures r <= c.snapshot.Keys
    ensures c.Ok() && c.Valid() ==> c.CurrKey() in r
  {
    if c.position.None? then {}
    else set k | k in c.snapshot && (k == c.CurrKey() || Precedes(c.dir, c.CurrKey(), k))
  }

  /** Advancing removes the current key from the keys still to visit and adds none. */
  lemma AdvanceShrinks(c: Cursor)
    requires c.Ok() && c.Valid()
    ensures Remaining(c) == {c.CurrKey()} + Remaining(Advance(c))
    ensures c.CurrKey() !in Remaining(Advance(c))
  {
    PrecedesStrictTotalOrder(c.dir);
  }

  /** The keys visited by advancing `c` until it dies, in visiting order. */
  function Scan(c: Cursor): (ks: seq<Key>)
    requires c.Valid()
    ensures ks == [] <==> !c.Ok()
    ensures c.Ok() ==> ks[0] == c.CurrKey()
    decreases Remaining(c)
  {
    if !c.Ok() then []
    else
      AdvanceShrinks(c);
      [c.CurrKey()] + Scan(Advance(c))
  }

  /** `ks` lists keys in strictly increasing order of direction `dir`. */
  ghost predicate StrictlyOrdered(ks: seq<Key>, dir: Direction) {
    forall i, j :: 0 <= i < j < |ks| ==> Precedes(dir, ks[i], ks[j])
  }

  /** A scan visits exactly the remaining keys, each once, strictly in the cursor's direction. */
  lemma {:induction false} ScanInOrder(c: Cursor)
    requires c.Valid()
    ensures StrictlyOrdered(Scan(c), c.dir)
    ensures forall k :: k in Scan(c) <==> k in Remaining(c)
    decreases Remaining(c)
  {
    if c.Ok() {
      var c' := Advance(c);
      AdvanceShrinks(c);
      ScanInOrder(c');
      PrecedesStrictTotalOrder(c.dir);
      var rest := Scan(c');
      assert Scan(c) == [c.CurrKey()] + rest;
      forall k | k in rest
        ensures Precedes(c.dir, c.CurrKey(), k)
      {
        assert k in Remaining(c');
      }
    }
  }

  /**
   * Iterating a fresh cursor from the start to its death visits every key
   * of the dictionary once, in increasing key order going forward and in
   * decreasing key order going backward.
   */
  lemma FullScan(d: Dictionary, dir: Direction)
    ensures var ks := Scan(GetCursor(d, dir));
      && StrictlyOrdered(ks, dir)
      && (forall k :: k in ks <==> k in d.entries)
      && |ks| == |d.entries|
  {
    var c := GetCursor(d, dir);
    ScanInOrder(c);
    var ks := Scan(c);
    assert Remaining(c) == d.entries.Keys;
    PrecedesStrictTotalOrder(dir);
    DistinctLength(ks, dir, d.entries.Keys);
  }

  /** A strictly ordered listing of a set has as many entries as the set. */
  lemma {:induction false} DistinctLength(ks: seq<Key>, dir: Direction, s: set<Key>)
    requires StrictlyOrdered(ks, dir)
    requires forall k :: k in ks <==> k in s
    ensures |ks| == |s|
    decreases |ks|
  {
    PrecedesStrictTotalOrder(dir);
    if ks != [] {
      var rest := ks[1..];
      assert ks == [ks[0]] + rest;
      assert ks[0] !in rest by {
        forall i | 0 <= i < |rest| ensures rest[i] != ks[0] {
          assert Precedes(dir, ks[0], ks[i + 1]);
        }
      }
      assert StrictlyOrdered(rest, dir) by {
        forall i, j | 0 <= i < j < |rest| ensures Precedes(dir, rest[i], rest[j]) {
          assert Precedes(dir, ks[i + 1], ks[j + 1]);
        }
      }
      DistinctLength(rest, dir, s - {ks[0]});
    }
  }
}
