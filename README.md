# mongoose-lock-release, modelled in Dafny

A Mongoose schema plugin that turns any document into a lease lock. Installing it
adds a `locked` date field ("held until") to the schema, defaulting to the creation
time. It also adds two document methods:

- `lock(duration)` reads the clock once. It then issues a single `findOneAndUpdate`
  on the document's `_id`, guarded by `locked <= now`, that sets `locked` to
  `now + duration`. It returns the updated document, or `null` (no error) when the
  lease is still held.
- `release()` sets `locked` to the current time unconditionally.

Mutual exclusion rests entirely on the store applying each `findOneAndUpdate` atomically.

The model has four modules:

- `Wrappers` (`wrappers.dfy`): `Option` and `Result`.
- `Lease` (`lease.dfy`): the collection as a map from `_id` to document. Each store
  operation (create, lock, release) is one atomic transition written as a pure
  function. The clock is an integer millisecond argument. Single-step lemmas state
  what one lock or release means.
- `Interleaving` (`interleaving.dfy`): concurrent callers as every serialisation of
  atomic calls, each with the clock value its caller read. It proves that leases on
  one document never overlap while nobody releases it and durations are
  non-negative, and that exactly one of N racing locks on a free
  document wins when all their clock readings lie within a span no longer than
  any requested duration. It also replays the test suite's sequences.
- `LockReleasePlugin` (`plugin.dfy`): the installation guard, and the class
  `LockableModel`. Its `docs` field is the collection, and its `Create`, `Lock` and
  `Release` methods update that field in place. Each method is proved equal to the
  matching `Lease` transition.

`release()` on an `_id` that no longer exists matches nothing: `findOneAndUpdate`
yields `null` and no error (index.js:28-34). The model returns `None` and leaves the
store unchanged.

Several facts follow from the code as written:

- The freedom test is inclusive (`$lte`), so a lease is takeable at the very
  millisecond it ends.
- The second `lock(1)` of the expiry test (tests.js:78-92) succeeds only if at least
  one millisecond has passed since the first. The test does not check that result.

## Model

| member | source | states |
|---|---|---|
| `LockReleasePlugin.CheckModelName` | index.js:1-4 | a missing or empty model name yields the error "modelName is required"; any other name is accepted unchanged |
| `LockReleasePlugin.LockableModel.Install` | index.js:1-11 | installation fails exactly when the name check fails, before any lockable model exists; otherwise a fresh, empty, valid model carrying that name |
| `Lease.Insert` | index.js:6-11 | a new document gets the creation time as its lease end, so it is free at every instant from creation on and at no earlier one; other documents are untouched; a duplicate `_id` writes nothing, and its `None` stands for the store's duplicate-key fault, not a `null` document |
| `Lease.LockStep` | index.js:13-25 | the lock succeeds iff the document exists and its lease end is at or before `now`; on success the returned document is the stored one with lease end `now + duration`; otherwise `null` and the store unchanged; no other document and no other field changes; in a well-keyed store the returned document carries the requested `_id` |
| `Lease.ReleaseStep` | index.js:27-35 | the release succeeds iff the document exists, whatever its lease; the returned document is the stored one with lease end `now`; no other document or field changes; in a well-keyed store the returned document carries the requested `_id` |
| `Lease.NewDocumentIsLockable` | index.js:6-21 | a lock at any time not before a document's creation succeeds |
| `Lease.ExpiryInstantIsFree` | index.js:17-19 | a lease ending exactly at `now` can be taken at `now` |
| `Lease.HeldLeaseRefuses` | tests.js:45-51 | after a successful lock, a lock inside its window returns `null` and leaves the store unchanged |
| `Lease.LeaseExpires` | tests.js:78-92 | once a lease's window has passed, the next lock succeeds without a release |
| `Lease.ReleaseThenLock` | tests.js:52-59 | after a release at `now`, a lock at any later or equal time succeeds whatever lease was held |
| `Lease.ReleaseIdempotent` | index.js:27-35 | releasing twice at the same instant returns and leaves the same as releasing once |
| `Interleaving.Run` | index.js:13-35 | a serialisation of calls returns one result per call and keeps the set of stored `_id`s and the keying of documents |
| `Interleaving.Successes` | tests.js:73-74 | the number of calls that obtained a document is at most the number of calls, and zero exactly when every call got `null` |
| `Interleaving.NoLockBefore` | index.js:15-21 | with no release of a document and non-negative durations, no lock on it succeeds at a clock value before a lease end it already had |
| `Interleaving.LeaseWindowsDisjoint` | index.js:15-24 | in any serialisation without a release of the document, two successful locks on it hold disjoint windows: the later starts no earlier than the earlier one ends |
| `Interleaving.RaceAgainstHeldLease` | index.js:15-24 | locks racing inside a window that a held lease outlasts all get `null`, and the store is unchanged |
| `Interleaving.RaceHasOneWinner` | tests.js:60-77 | of N locks racing on a free document within one lease window, exactly one succeeds, namely the first the store applies |
| `Interleaving.TwoConcurrentLocks` | tests.js:60-77 | two `lock(lockTime)` calls on a free document with clock readings less than `lockTime` apart: exactly one succeeds, in either order |
| `Interleaving.LockRefuseReleaseLock` | tests.js:33-59 | lock on a free document succeeds, a second lock inside the window gets `null`, release succeeds, a later lock succeeds |
| `Interleaving.ShortLeaseRelock` | tests.js:78-92 | release, `lock(1)`, `lock(1)`: the first two succeed, and the third succeeds iff the clock advanced by at least one millisecond |
| `LockReleasePlugin.LockableModel.Create` | index.js:6-11 | creating a document in the collection is the `Insert` transition on the `docs` field and keeps every document under its own `_id` |
| `LockReleasePlugin.LockableModel.Lock` | index.js:13-25 | the method's result and the new `docs` are those of `LockStep` with the same clock reading; a returned document is the one with the requested `_id`, and documents stay keyed by `_id` |
| `LockReleasePlugin.LockableModel.Release` | index.js:27-35 | the method's result and the new `docs` are those of `ReleaseStep`; a returned document is the one with the requested `_id`, and documents stay keyed by `_id` |
| `LockReleasePlugin.SavedDocumentLifecycle` | tests.js:20-59 | on a saved document: lock returns lease end `t1 + lockTime`, a second lock in the window gets `null`, release returns lease end `t3`, and a later lock returns lease end `t4 + lockTime` |

## Left out

- Store faults (connection loss, validation or cast errors) and their propagation through the callback: they come from the store and network, which are not part of this model. Each call yields a document or `null`.
- The callback `cb`: `lock` and `release` return nothing and deliver their result only through it; called without one, the query they build is never executed, so no lease is taken or released. The model always performs the update and returns the result directly.
- The wall clock: every call takes its clock reading as an integer millisecond parameter.
- Real threads and network round trips: concurrency is modelled as interleavings of atomic store steps, which is all the store guarantees.
- The JavaScript `Date` range (plus or minus 8.64e15 ms, beyond which `new Date` is invalid): timestamps are unbounded integers.
- Non-numeric `duration` values, which JavaScript would coerce or turn into an invalid date, and fractional ones, which `new Date(now.getTime() + duration)` truncates to whole milliseconds: `duration` is an integer number of milliseconds.
- Falsy model names other than a missing value or the empty string (`0`, `false`, `NaN`): the model name is an optional string.
- A `modelName` naming a different model from the one the schema is compiled into: the model assumes it names this collection.
- Documents stored without a `locked` field, for example written before the plugin was installed: every modelled document has one, and `Create` covers only the default, not an explicit initial `locked` value.
- `Interleaving.NoLockBefore`, `Interleaving.LeaseWindowsDisjoint`: assume every lock on the document asks for a non-negative duration, although JavaScript accepts a negative one.
- `schema.add` and `this.model(...)` mechanics: installation is modelled by its guard and by the lockable model it makes available.
