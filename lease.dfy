/**
 * The lease protocol on the stored documents, as pure state transitions.
 *
 * A collection is a map from `_id` to document. Each of `Insert`, `LockStep` and
 * `ReleaseStep` is ONE atomic `findOneAndUpdate` (or insert) of the store: it takes
 * the store before the call and yields the document the call returns (`new: true`,
 * so the post-update document, or `None` for `null`) together with the store after it.
 * The clock is an argument: `now` is the millisecond value `new Date()` produced.
 */
module Lease {
  import opened Wrappers

  /** Milliseconds since the epoch, the value a JavaScript `Date` holds. */
  type Time = int

  /** The store-assigned `_id`; the protocol only compares ids for equality. */
  type ObjectId = nat

  /** A stored document: its `_id`, the lease field `locked` ("held until"), and the
      application's own fields, which the protocol never reads. */
  datatype Doc<D> = Doc(id: ObjectId, locked: Time, data: D)

  type Store<D> = map<ObjectId, Doc<D>>

  /** Every document is stored under its own `_id`. */
  predicate WellKeyed<D>(s: Store<D>)
  {
    forall k :: k in s ==> s[k].id == k
  }

  /** The freedom test of the lock query, `locked: { $lte: now }`: a lease that ends at
      or before `now` is over, so the boundary instant itself is free. */
  predicate IsFree(locked: Time, now: Time)
  {
    locked <= now
  }

  /** What one atomic store operation returns, and the store it leaves behind. */
  datatype Update<D> = Update(result: Option<Doc<D>>, store: Store<D>)

  /** Creating a document whose `locked` is not given: the schema default `Date.now`
      fills it with the creation time. A second document with the same `_id` is refused
      by the store's unique index and nothing is written; the `None` then stands for that
      duplicate-key fault, not for a `null` document. */
  function Insert<D>(s: Store<D>, id: ObjectId, data: D, now: Time): (u: Update<D>)
    ensures u.result.Some? <==> id !in s
    ensures u.result.None? ==> u.store == s
    ensures u.result.Some? ==>
              && u.store.Keys == s.Keys + {id}
              && u.result.value == u.store[id]
              && u.result.value.id == id && u.result.value.data == data
              && (forall t :: now <= t <==> IsFree(u.result.value.locked, t))
    ensures forall k :: k in s ==> k in u.store && u.store[k] == s[k]
    ensures WellKeyed(s) ==> WellKeyed(u.store)
  {
    if id in s then Update(None, s)
    else
      var doc := Doc(id, now, data);
      Update(Some(doc), s[id := doc])
  }

  /** `lock(duration)`: one conditional update of the document `id`, applied only when
      its lease is over at `now`, which moves the lease end to `now + duration`.
      When no document matches (held, or no such `_id`) the result is `null` and no
      error: contention, not failure. */
  function LockStep<D>(s: Store<D>, id: ObjectId, now: Time, duration: int): (u: Update<D>)
    ensures u.result.Some? <==> id in s && IsFree(s[id].locked, now)
    ensures u.result.Some? ==> id in u.store && u.result.value == u.store[id] && u.result.value.locked == now + duration
    ensures WellKeyed(s) && u.result.Some? ==> u.result.value.id == id
    ensures u.result.None? ==> u.store == s
    ensures u.store.Keys == s.Keys
    ensures forall k :: k in s && k != id ==> u.store[k] == s[k]
    ensures id in s ==> u.store[id].id == s[id].id && u.store[id].data == s[id].data
  {
    if id in s && IsFree(s[id].locked, now) then
      var doc := s[id].(locked := now + duration);
      Update(Some(doc), s[id := doc])
    else
      Update(None, s)
  }

  /** `release()`: an unconditional update of the document `id` that sets its lease end
      to `now`, whoever holds it. A missing `_id` matches nothing: `null`, no error. */
  function ReleaseStep<D>(s: Store<D>, id: ObjectId, now: Time): (u: Update<D>)
    ensures u.result.Some? <==> id in s
    ensures u.result.Some? ==> id in u.store && u.result.value == u.store[id] && u.result.value.locked == now
    ensures WellKeyed(s) && u.result.Some? ==> u.result.value.id == id
    ensures u.result.None? ==> u.store == s
    ensures u.store.Keys == s.Keys
    ensures forall k :: k in s && k != id ==> u.store[k] == s[k]
    ensures id in s ==> u.store[id].id == s[id].id && u.store[id].data == s[id].data
  {
    if id in s then
      var doc := s[id].(locked := now);
      Update(Some(doc), s[id := doc])
    else
      Update(None, s)
  }

  /** A document just created is free from its creation instant on: a lock taken at any
      time not before creation succeeds. */
  lemma NewDocumentIsLockable<D>(s: Store<D>, id: ObjectId, data: D, created: Time, now: Time, duration: int)
    requires id !in s && created <= now
    ensures LockStep(Insert(s, id, data, created).store, id, now, duration).result.Some?
  {
  }

  /** The lease boundary is inclusive: a lease ending exactly at `now` can be taken at `now`. */
  lemma ExpiryInstantIsFree<D>(s: Store<D>, id: ObjectId, duration: int)
    requires id in s
    ensures LockStep(s, id, s[id].locked, duration).result.Some?
  {
  }

  /** A held lease refuses every lock taken inside its window `[now, now + duration)`,
      without error and without touching the store. */
  lemma HeldLeaseRefuses<D>(s: Store<D>, id: ObjectId, now: Time, duration: int, later: Time, duration': int)
    requires LockStep(s, id, now, duration).result.Some?
    requires now <= later < now + duration
    ensures var held := LockStep(s, id, now, duration).store;
            LockStep(held, id, later, duration').result.None? &&
            LockStep(held, id, later, duration').store == held
  {
  }

  /** A lease runs out by itself: once its window has passed, the next lock succeeds
      (for `lock(1)` this is any time at least one millisecond later). */
  lemma LeaseExpires<D>(s: Store<D>, id: ObjectId, now: Time, duration: int, later: Time, duration': int)
    requires LockStep(s, id, now, duration).result.Some?
    requires now + duration <= later
    ensures LockStep(LockStep(s, id, now, duration).store, id, later, duration').result.Some?
  {
  }

  /** After a release at `now`, a lock at any time not before `now` succeeds, whatever
      lease was held. */
  lemma ReleaseThenLock<D>(s: Store<D>, id: ObjectId, now: Time, later: Time, duration: int)
    requires id in s && now <= later
    ensures LockStep(ReleaseStep(s, id, now).store, id, later, duration).result.Some?
  {
  }

  /** Releasing twice at the same instant has the effect of releasing once. */
  lemma ReleaseIdempotent<D>(s: Store<D>, id: ObjectId, now: Time)
    ensures var once := ReleaseStep(s, id, now);
            ReleaseStep(once.store, id, now) == once
  {
  }
}
