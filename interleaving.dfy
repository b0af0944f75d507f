/**
 * Concurrent callers, seen through the store. The store serialises every
 * `findOneAndUpdate`, so any execution of concurrent `lock` and `release` calls is
 * some sequence of atomic steps, each with the clock value its caller read. The
 * mutual-exclusion guarantees are statements about every such sequence.
 */
module Interleaving {
  import opened Wrappers
  import opened Lease

  /** One call as the store sees it: the document it targets, the clock value its caller
      read, and for `lock` the lease duration. */
  datatype Call = LockCall(id: ObjectId, now: Time, duration: int) | ReleaseCall(id: ObjectId, now: Time)

  function Step<D>(s: Store<D>, c: Call): (u: Update<D>)
  {
    match c
    case LockCall(id, now, duration) => LockStep(s, id, now, duration)
    case ReleaseCall(id, now) => ReleaseStep(s, id, now)
  }

  /** The documents the calls return, in serialisation order, and the final store. */
  datatype Trace<D> = Trace(results: seq<Option<Doc<D>>>, store: Store<D>)

  function Run<D>(s: Store<D>, calls: seq<Call>): (t: Trace<D>)
    ensures |t.results| == |calls|
    ensures t.store.Keys == s.Keys
    ensures WellKeyed(s) ==> WellKeyed(t.store)
    decreases |calls|
  {
    if calls == [] then Trace([], s)
    else
      var u := Step(s, calls[0]);
      var rest := Run(u.store, calls[1..]);
      Trace([u.result] + rest.results, rest.store)
  }

  /** How many of the calls obtained a document. */
  function Successes<D>(results: seq<Option<Doc<D>>>): (n: nat)
    ensures n <= |results|
    ensures n == 0 <==> forall k :: 0 <= k < |results| ==> results[k].None?
  {
    if results == [] then 0
    else (if results[0].Some? then 1 else 0) + Successes(results[1..])
  }

  /** Nobody releases the document `id`, and every lock on it asks for a non-negative
      duration: the only calls that can move its lease are successful locks. */
  predicate LocksOnly(calls: seq<Call>, id: ObjectId)
  {
    forall k :: 0 <= k < |calls| && calls[k].id == id ==> calls[k].LockCall? && calls[k].duration >= 0
  }

  /** Under `LocksOnly`, the lease end of `id` never moves back, so no lock on `id`
      succeeds at a clock value before a lease end the store already holds. */
  lemma {:induction false} NoLockBefore<D>(s: Store<D>, calls: seq<Call>, id: ObjectId, bound: Time, m: nat)
    requires LocksOnly(calls, id)
    requires id in s ==> s[id].locked >= bound
    requires m < |calls| && calls[m].id == id && Run(s, calls).results[m].Some?
    ensures calls[m].now >= bound
    decreases m
  {
    var u := Step(s, calls[0]);
    if m > 0 {
      assert LocksOnly(calls[1..], id) by {
        forall k | 0 <= k < |calls[1..]| && calls[1..][k].id == id
          ensures calls[1..][k].LockCall? && calls[1..][k].duration >= 0
        {
          assert calls[1..][k] == calls[k + 1];
        }
      }
      assert Run(s, calls).results[m] == Run(u.store, calls[1..]).results[m - 1];
      NoLockBefore(u.store, calls[1..], id, bound, m - 1);
    }
  }

  /** Mutual exclusion: in any serialisation of concurrent calls where nobody releases
      `id`, two successful locks on `id` hold disjoint windows — the later one is taken
      no earlier than the moment the earlier lease ends. */
  lemma {:induction false} LeaseWindowsDisjoint<D>(s: Store<D>, calls: seq<Call>, id: ObjectId, i: nat, j: nat)
    requires LocksOnly(calls, id)
    requires i < j < |calls| && calls[i].id == id && calls[j].id == id
    requires Run(s, calls).results[i].Some? && Run(s, calls).results[j].Some?
    ensures calls[i].now + calls[i].duration <= calls[j].now
    decreases i
  {
    var u := Step(s, calls[0]);
    assert LocksOnly(calls[1..], id) by {
      forall k | 0 <= k < |calls[1..]| && calls[1..][k].id == id
        ensures calls[1..][k].LockCall? && calls[1..][k].duration >= 0
      {
        assert calls[1..][k] == calls[k + 1];
      }
    }
    assert Run(s, calls).results[j] == Run(u.store, calls[1..]).results[j - 1];
    if i == 0 {
      NoLockBefore(u.store, calls[1..], id, calls[0].now + calls[0].duration, j - 1);
    } else {
      assert Run(s, calls).results[i] == Run(u.store, calls[1..]).results[i - 1];
      LeaseWindowsDisjoint(u.store, calls[1..], id, i - 1, j - 1);
    }
  }

  /** A race: every call locks `id`, reads a clock value in `[start, start + span)`, and
      asks for a lease of at least `span`. */
  predicate Race(calls: seq<Call>, id: ObjectId, start: Time, span: int)
  {
    forall k :: 0 <= k < |calls| ==>
      calls[k].LockCall? && calls[k].id == id &&
      start <= calls[k].now < start + span && calls[k].duration >= span
  }

  /** While a lease outlasts the race window, every racing lock is refused and the store
      stays as it is. */
  lemma {:induction false} RaceAgainstHeldLease<D>(s: Store<D>, calls: seq<Call>, id: ObjectId, start: Time, span: int)
    requires Race(calls, id, start, span)
    requires id in s && s[id].locked >= start + span
    ensures Successes(Run(s, calls).results) == 0
    ensures Run(s, calls).store == s
    decreases |calls|
  {
    if calls != [] {
      assert Race(calls[1..], id, start, span) by {
        forall k | 0 <= k < |calls[1..]|
          ensures calls[1..][k] == calls[k + 1]
        {
        }
      }
      RaceAgainstHeldLease(s, calls[1..], id, start, span);
    }
  }

  /** Exactly one of N racing locks on a free document succeeds: the one the store
      serialises first; all the others get `null` and no error. */
  lemma {:induction false} RaceHasOneWinner<D>(s: Store<D>, calls: seq<Call>, id: ObjectId, start: Time, span: int)
    requires calls != []
    requires Race(calls, id, start, span)
    requires id in s && IsFree(s[id].locked, start)
    ensures Run(s, calls).results[0].Some?
    ensures Successes(Run(s, calls).results) == 1
  {
    var u := Step(s, calls[0]);
    assert Race(calls[1..], id, start, span) by {
      forall k | 0 <= k < |calls[1..]|
        ensures calls[1..][k] == calls[k + 1]
      {
      }
    }
    RaceAgainstHeldLease(u.store, calls[1..], id, start, span);
    var results := Run(s, calls).results;
    assert results[1..] == Run(u.store, calls[1..]).results;
  }

  /** The two concurrent `lock(lockTime)` calls of the test suite, on a free document,
      with clock readings less than `lockTime` apart: whichever order the store applies
      them in, exactly one returns a document. */
  lemma TwoConcurrentLocks<D>(s: Store<D>, id: ObjectId, t1: Time, t2: Time, lockTime: int)
    requires id in s && IsFree(s[id].locked, t1) && IsFree(s[id].locked, t2)
    requires t1 - lockTime < t2 < t1 + lockTime
    ensures Successes(Run(s, [LockCall(id, t1, lockTime), LockCall(id, t2, lockTime)]).results) == 1
    ensures Successes(Run(s, [LockCall(id, t2, lockTime), LockCall(id, t1, lockTime)]).results) == 1
  {
    var start := if t1 <= t2 then t1 else t2;
    RaceHasOneWinner(s, [LockCall(id, t1, lockTime), LockCall(id, t2, lockTime)], id, start, lockTime);
    RaceHasOneWinner(s, [LockCall(id, t2, lockTime), LockCall(id, t1, lockTime)], id, start, lockTime);
  }

  /** The life of one document in the test suite: a lock on the free document succeeds,
      a second lock inside its window gets `null`, a release succeeds, and a lock after
      the release succeeds again. */
  lemma LockRefuseReleaseLock<D>(s: Store<D>, id: ObjectId, t1: Time, t2: Time, t3: Time, t4: Time, lockTime: int)
    requires id in s && IsFree(s[id].locked, t1)
    requires t1 <= t2 < t1 + lockTime && t3 <= t4
    ensures var r := Run(s, [LockCall(id, t1, lockTime), LockCall(id, t2, lockTime),
                             ReleaseCall(id, t3), LockCall(id, t4, lockTime)]).results;
            r[0].Some? && r[1].None? && r[2].Some? && r[3].Some?
  {
    var c := [LockCall(id, t1, lockTime), LockCall(id, t2, lockTime), ReleaseCall(id, t3), LockCall(id, t4, lockTime)];
    var u1 := Step(s, c[0]);
    var u2 := Step(u1.store, c[1]);
    var u3 := Step(u2.store, c[2]);
    assert Run(s, c).results == [u1.result] + Run(u1.store, c[1..]).results;
    assert Run(u1.store, c[1..]).results == [u2.result] + Run(u2.store, c[2..]).results;
    assert Run(u2.store, c[2..]).results == [u3.result] + Run(u3.store, c[3..]).results;
  }

  /** The expiry scenario of the test suite: release at `t1`, then `lock(1)` at `t2`, then
      `lock(1)` again at `t3`. The second lock succeeds exactly when the clock has moved
      on by at least one millisecond since the first. */
  lemma ShortLeaseRelock<D>(s: Store<D>, id: ObjectId, t1: Time, t2: Time, t3: Time)
    requires id in s && t1 <= t2
    ensures var r := Run(s, [ReleaseCall(id, t1), LockCall(id, t2, 1), LockCall(id, t3, 1)]).results;
            r[0].Some? && r[1].Some? && (r[2].Some? <==> t2 + 1 <= t3)
  {
    var c := [ReleaseCall(id, t1), LockCall(id, t2, 1), LockCall(id, t3, 1)];
    var u1 := Step(s, c[0]);
    var u2 := Step(u1.store, c[1]);
    assert Run(s, c).results == [u1.result] + Run(u1.store, c[1..]).results;
    assert Run(u1.store, c[1..]).results == [u2.result] + Run(u2.store, c[2..]).results;
  }
}
