/**
 * Visibility trackers for capped collections. A tracker knows which record
 * ids were inserted by transactions that have not yet committed or rolled
 * back, and from that the lowest id a reader must not see: ids are
 * allocated in increasing order but transactions resolve in any order, so
 * a reader may only see ids below the smallest one still pending.
 *
 * The tracker mutex makes every operation atomic; the model is the
 * resulting sequential state machine.
 */
module VisibleIdTracker {
  import opened Base

  /**
   * The three trackers. A no-op tracker serves ordinary collections; the
   * capped and oplog trackers hold the pending ids and the highest id ever
   * registered, and differ only in how they restrict readers.
   */
  datatype Tracker =
    | NoopIdTracker
    | CappedIdTracker(uncommitted: set<RecordId>, highest: RecordId)
    | OplogIdTracker(uncommitted: set<RecordId>, highest: RecordId)
  {
    /** The tracker keeps pending ids (the capped and oplog variants). */
    predicate Tracks() {
      !NoopIdTracker?
    }

    /** Same variant as `other`. */
    predicate SameKind(other: Tracker) {
      && (NoopIdTracker? <==> other.NoopIdTracker?)
      && (CappedIdTracker? <==> other.CappedIdTracker?)
      && (OplogIdTracker? <==> other.OplogIdTracker?)
    }
  }

  /** Every pending id was registered, so none exceeds the highest id. */
  ghost predicate Consistent(t: Tracker) {
    t.Tracks() ==> forall p :: p in t.uncommitted ==> p <= t.highest
  }

  /** A capped tracker for a collection whose next id will be `nextIdNum`. */
  function NewCappedIdTracker(nextIdNum: RecordId): (t: Tracker)
    ensures t.CappedIdTracker? && Consistent(t)
    ensures t.uncommitted == {} && t.highest == nextIdNum - 1
    ensures LowestInvisible(t) == nextIdNum
  {
    CappedIdTracker({}, nextIdNum - 1)
  }

  /** An oplog tracker for an oplog whose next id will be `nextIdNum`. */
  function NewOplogIdTracker(nextIdNum: RecordId): (t: Tracker)
    ensures t.OplogIdTracker? && Consistent(t)
    ensures t.uncommitted == {} && t.highest == nextIdNum - 1
    ensures LowestInvisible(t) == nextIdNum
  {
    OplogIdTracker({}, nextIdNum - 1)
  }

  /** Every non-empty finite set of ids has a least element. */
  lemma {:induction false} MinimumExists(s: set<RecordId>)
    requires s != {}
    ensures exists m :: m in s && forall x :: x in s ==> m <= x
    decreases |s|
  {
    if forall y :: y !in s {
      assert false;
    }
    var y :| y in s;
    if s != {y} {
      MinimumExists(s - {y});
      var m :| m in s - {y} && forall x :: x in s - {y} ==> m <= x;
      assert forall x :: x in s ==> x == y || x in s - {y};
      if y < m {
        assert forall x :: x in s ==> y <= x;
      } else {
        assert forall x :: x in s ==> m <= x;
      }
    } else {
      assert forall x :: x in s ==> y <= x;
    }
  }

  /** The least element of a non-empty set of ids: the first of the ordered set. */
  function Minimum(s: set<RecordId>): (m: RecordId)
    requires s != {}
    ensures m in s
    ensures forall x :: x in s ==> m <= x
  {
    MinimumExists(s);
    var m :| m in s && forall x :: x in s ==> m <= x; m
  }

  /**
   * `lowestInvisible()`: the visibility horizon. The no-op tracker hides
   * nothing below the maximum id; the others report one past the highest
   * id when nothing is pending, and otherwise the smallest pending id.
   */
  function LowestInvisible(t: Tracker): (r: RecordId)
    ensures !t.Tracks() ==> r == MaxRecordId
    ensures t.Tracks() && t.uncommitted == {} ==> r == t.highest + 1
    ensures t.Tracks() && t.uncommitted != {} ==> r in t.uncommitted
    ensures t.Tracks() ==> forall p :: p in t.uncommitted ==> r <= p
  {
    match t
    case NoopIdTracker => MaxRecordId
    case _ => if t.uncommitted == {} then t.highest + 1 else Minimum(t.uncommitted)
  }

  /**
   * `canReadId(id)`: the no-op tracker lets every id through; the others
   * only ids below the horizon.
   */
  function CanReadId(t: Tracker, id: RecordId): (b: bool)
    ensures !t.Tracks() ==> b
    ensures t.Tracks() ==> (b <==> id < LowestInvisible(t))
  {
    match t
    case NoopIdTracker => true
    case _ => id < LowestInvisible(t)
  }

  /** The change registered with the inserting transaction for `id`. */
  datatype UncommittedIdChange = UncommittedIdChange(id: RecordId)

  /** The tracker after an insert, and the change registered for it, if any. */
  datatype Registration = Registration(tracker: Tracker, change: Option<UncommittedIdChange>)

  /**
   * `addUncommittedId(id)`: the no-op tracker does nothing. The others
   * register a change that resolves `id` when the transaction commits or
   * rolls back, mark `id` pending and raise the highest id to it if needed.
   */
  function AddUncommittedId(t: Tracker, id: RecordId): (r: Registration)
    ensures r.tracker.SameKind(t)
    ensures !t.Tracks() ==> r.tracker == t && r.change == None
    ensures t.Tracks() ==> r.change == Some(UncommittedIdChange(id))
    ensures t.Tracks() ==> r.tracker.uncommitted == t.uncommitted + {id}
    ensures t.Tracks() ==> r.tracker.highest >= t.highest && r.tracker.highest >= id
    ensures t.Tracks() ==> r.tracker.highest == t.highest || r.tracker.highest == id
    ensures Consistent(t) ==> Consistent(r.tracker)
  {
    match t
    case NoopIdTracker => Registration(t, None)
    case _ =>
      var highest := if id > t.highest then id else t.highest;
      Registration(t.(uncommitted := t.uncommitted + {id}, highest := highest), Some(UncommittedIdChange(id)))
  }

  /**
   * `markIdVisible(id)`: removes `id` from the pending ids. Removing an id
   * that is not pending changes nothing; the highest id never moves.
   */
  function MarkIdVisible(t: Tracker, id: RecordId): (t': Tracker)
    requires t.Tracks()
    ensures t'.SameKind(t)
    ensures t'.uncommitted == t.uncommitted - {id}
    ensures t'.highest == t.highest
    ensures id !in t.uncommitted ==> t' == t
    ensures Consistent(t) ==> Consistent(t')
  {
    t.(uncommitted := t.uncommitted - {id})
  }

  /** The registered change's commit hook: the id is resolved. */
  function Commit(t: Tracker, change: UncommittedIdChange): (t': Tracker)
    requires t.Tracks()
    ensures t'.SameKind(t)
    ensures t'.uncommitted == t.uncommitted - {change.id} && t'.highest == t.highest
  {
    MarkIdVisible(t, change.id)
  }

  /** The registered change's rollback hook: the id is resolved just as on commit. */
  function Rollback(t: Tracker, change: UncommittedIdChange): (t': Tracker)
    requires t.Tracks()
    ensures t' == Commit(t, change)
  {
    MarkIdVisible(t, change.id)
  }

  // ---------------------------------------------------------------------
  // Safety of the horizon

  /**
   * A reader of a capped or oplog tracker never sees a pending id, nor any
   * id at or above one: everything it may read lies strictly below every
   * id whose transaction is still unresolved.
   */
  lemma NothingPastPendingIsReadable(t: Tracker, id: RecordId, p: RecordId)
    requires t.Tracks() && p in t.uncommitted
    ensures CanReadId(t, id) ==> id < p
    ensures !CanReadId(t, p)
  {
  }

  /**
   * Under in-order allocation (each new id above every id registered so
   * far) registering an id never lowers the horizon.
   */
  lemma AddKeepsHorizon(t: Tracker, id: RecordId)
    requires t.Tracks() && Consistent(t) && id > t.highest
    ensures LowestInvisible(AddUncommittedId(t, id).tracker) >= LowestInvisible(t)
  {
  }

  /** Resolving an id never lowers the horizon of a consistent tracker. */
  lemma ResolveKeepsHorizon(t: Tracker, id: RecordId)
    requires t.Tracks() && Consistent(t)
    ensures LowestInvisible(MarkIdVisible(t, id)) >= LowestInvisible(t)
  {
  }

  /** One step of the life of a capped collection's tracker. */
  datatype Event =
    | Insert(id: RecordId)
    | Resolve(id: RecordId)

  /** The tracker after the events, in order. */
  function Run(t: Tracker, events: seq<Event>): (t': Tracker)
    requires t.Tracks()
    ensures t'.SameKind(t)
    decreases |events|
  {
    if events == [] then t
    else
      var t' := match events[0]
        case Insert(id) => AddUncommittedId(t, id).tracker
        case Resolve(id) => MarkIdVisible(t, id);
      Run(t', events[1..])
  }

  /** Every inserted id exceeds every id registered before it. */
  ghost predicate InsertsInOrder(t: Tracker, events: seq<Event>)
    requires t.Tracks()
    decreases |events|
  {
    events != [] ==>
      match events[0]
      case Insert(id) =>
        id > t.highest && InsertsInOrder(AddUncommittedId(t, id).tracker, events[1..])
      case Resolve(id) =>
        InsertsInOrder(MarkIdVisible(t, id), events[1..])
  }

  /**
   * Over any history with in-order allocation, the tracker stays
   * consistent and its horizon never moves backwards, whatever order the
   * transactions resolve in.
   */
  lemma {:induction false} HorizonNeverRecedes(t: Tracker, events: seq<Event>)
    requires t.Tracks() && Consistent(t) && InsertsInOrder(t, events)
    ensures Run(t, events).Tracks() && Consistent(Run(t, events))
    ensures LowestInvisible(Run(t, events)) >= LowestInvisible(t)
    decreases |events|
  {
    if events != [] {
      match events[0]
      case Insert(id) =>
        var t' := AddUncommittedId(t, id).tracker;
        AddKeepsHorizon(t, id);
        HorizonNeverRecedes(t', events[1..]);
      case Resolve(id) =>
        var t' := MarkIdVisible(t, id);
        ResolveKeepsHorizon(t, id);
        HorizonNeverRecedes(t', events[1..]);
    }
  }

  /**
   * Ids 1, 2 and 3 are inserted after id 0; 2 resolves first. The horizon
   * stays at 1 until 1 resolves, then moves to 3, and to 4 once 3 resolves.
   */
  lemma OutOfOrderResolution()
    ensures var t0 := NewCappedIdTracker(1);
      var t1 := AddUncommittedId(t0, 1).tracker;
      var t2 := AddUncommittedId(t1, 2).tracker;
      var t3 := AddUncommittedId(t2, 3).tracker;
      var t4 := MarkIdVisible(t3, 2);
      var t5 := MarkIdVisible(t4, 1);
      var t6 := MarkIdVisible(t5, 3);
      && LowestInvisible(t0) == 1
      && LowestInvisible(t3) == 1
      && LowestInvisible(t4) == 1 && !CanReadId(t4, 2)
      && LowestInvisible(t5) == 3 && CanReadId(t5, 2) && !CanReadId(t5, 3)
      && LowestInvisible(t6) == 4
  {
  }

  // ---------------------------------------------------------------------
  // Restricting readers

  /**
   * The part of a transaction's recovery unit the trackers use: whether it
   * holds a snapshot, and the horizon cached on it (None for a null id).
   */
  datatype RecoveryUnit = RecoveryUnit(hasSnapshot: bool, lowestInvisible: Option<RecordId>)

  /** What storing `id` in a RecordId slot leaves there: the null id reads as nothing cached. */
  function AsCached(id: RecordId): (r: Option<RecordId>)
    ensures r.Some? <==> id != NullRecordId
    ensures r.Some? ==> r.value == id
  {
    if id == NullRecordId then None else Some(id)
  }

  /**
   * `setRecoveryUnitRestriction(ru)`: only the oplog tracker acts. It
   * caches the current horizon on the recovery unit unless a snapshot is
   * open and already carries one, so the first reader of a snapshot fixes
   * the horizon for the rest of it.
   */
  function SetRecoveryUnitRestriction(t: Tracker, ru: RecoveryUnit): (ru': RecoveryUnit)
    ensures ru'.hasSnapshot == ru.hasSnapshot
    ensures !t.OplogIdTracker? ==> ru' == ru
    ensures t.OplogIdTracker? && ru.hasSnapshot && ru.lowestInvisible.Some? ==> ru' == ru
    ensures t.OplogIdTracker? && !(ru.hasSnapshot && ru.lowestInvisible.Some?) ==>
      ru'.lowestInvisible == AsCached(LowestInvisible(t))
  {
    match t
    case OplogIdTracker(_, _) =>
      if !ru.hasSnapshot || ru.lowestInvisible.None? then
        ru.(lowestInvisible := AsCached(LowestInvisible(t)))
      else ru
    case _ => ru
  }

  /**
   * The restriction installed on a record iterator: whether it consults
   * the tracker itself, and the fixed horizon handed to it, if any.
   */
  datatype IteratorRestriction = IteratorRestriction(trackerBound: bool, lowestInvisible: Option<RecordId>)

  /**
   * `setIteratorRestriction(ru, iter)`: the no-op tracker leaves the
   * iterator alone; the capped tracker binds itself to it; the oplog
   * tracker also hands it the horizon cached on the recovery unit, which
   * must be set.
   */
  function SetIteratorRestriction(t: Tracker, ru: RecoveryUnit, iter: IteratorRestriction): (iter': IteratorRestriction)
    requires t.OplogIdTracker? ==> ru.lowestInvisible.Some?
    ensures !t.Tracks() ==> iter' == iter
    ensures t.Tracks() ==> iter'.trackerBound
    ensures t.CappedIdTracker? ==> iter'.lowestInvisible == iter.lowestInvisible
    ensures t.OplogIdTracker? ==> iter'.lowestInvisible == ru.lowestInvisible
  {
    match t
    case NoopIdTracker => iter
    case CappedIdTracker(_, _) => iter.(trackerBound := true)
    case OplogIdTracker(_, _) => IteratorRestriction(true, ru.lowestInvisible)
  }

  /** Restricting a recovery unit twice with the same tracker is the same as once. */
  lemma RecoveryUnitRestrictionIdempotent(t: Tracker, ru: RecoveryUnit)
    ensures SetRecoveryUnitRestriction(t, SetRecoveryUnitRestriction(t, ru)) == SetRecoveryUnitRestriction(t, ru)
  {
  }

  /**
   * Within one snapshot, the oplog horizon an iterator is bound to is the
   * one cached by the first restriction, however the tracker has moved
   * since: a later restriction with a changed tracker hands iterators the
   * same value, not a recomputed one.
   */
  lemma OplogHorizonStable(t1: Tracker, t2: Tracker, ru: RecoveryUnit, iter: IteratorRestriction)
    requires t1.OplogIdTracker? && t2.OplogIdTracker?
    requires ru.hasSnapshot && LowestInvisible(t1) != NullRecordId
    ensures var ru1 := SetRecoveryUnitRestriction(t1, ru);
      var ru2 := SetRecoveryUnitRestriction(t2, ru1);
      && ru1.lowestInvisible.Some?
      && ru2 == ru1
      && SetIteratorRestriction(t2, ru2, iter).lowestInvisible == ru1.lowestInvisible
      && (ru.lowestInvisible.None? ==> ru1.lowestInvisible == Some(LowestInvisible(t1)))
  {
  }

  /** For the no-op tracker every id is readable and inserts change nothing. */
  lemma NoopSeesEverything(id: RecordId, other: RecordId)
    ensures CanReadId(NoopIdTracker, id)
    ensures LowestInvisible(NoopIdTracker) == MaxRecordId
    ensures AddUncommittedId(NoopIdTracker, other).tracker == NoopIdTracker
  {
  }
}
