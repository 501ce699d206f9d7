# AdaptiveResourcePool in Dafny

A model of `AdaptiveResourcePool<T>`, a pool of reusable resources. It is a
fixed-size table of slots kept in three parallel vectors: `resources_` (an
owned pointer per slot), `busy_` and `released_`. The pool has four public operations and
three private helpers:

- `acquire` hands out the lowest-index idle slot. First it may restore
  released slots (the *recovery* policy). A *shrink* policy may make it tear
  an idle slot down instead of handing it out.
- `release` gives a handed-out resource back.
- `idleCount` counts the slots that are idle and not released.
- the destructor tears down every slot that is not released.
- the private helper `activeCount` counts the slots that are not released.
- the private helpers `maybeRecover` and `maybeReleaseOne` do the restoring
  and the tearing down for `acquire`.

The project has five files:

- `counting.dfy` (module `Counting`): counting the elements of a sequence
  that satisfy a predicate. It holds `std::count` and the counting loop of
  `idleCount`, checked against a set-cardinality definition.
- `pool_model.dfy` (module `PoolModel`): the table as a value, a sequence of
  `Slot(resource, busy, released)`. It has one function per operation of the
  pool.
- `pool_properties.dfy` (module `PoolProperties`): the lemmas about those
  functions. They cover first-fit order, "only this slot changed", the
  active-count guard, recovery, the release quirks, the acquire/release round
  trip, the invariant, teardown, and the invariant that holds across any
  sequence of calls.
- `pool_scenarios.dfy` (module `PoolScenarios`): concrete runs on two- and
  four-slot tables.
- `resource_pool.dfy` (module `ResourcePool`): the class
  `AdaptiveResourcePool`. Its three fields are `seq`s that the methods update
  one element at a time. Each method's loop is proved to compute the
  `PoolModel` function of the old table (`Slots()` is the slot view of the
  three vectors). `Valid()` is the class invariant: the vectors have equal
  lengths, and a released slot holds null.

How the source's pieces are modelled:

- A resource pointer is `Option<Handle>`, where `Handle` is a natural-number
  identity and `None` is a null pointer.
- The policies are the datatype `Params`. An empty `can_restore` or
  `should_release` is `None`. `restore_func` is a total function, because the
  code never tests it for emptiness. `release_func` is kept only as the flag
  `hasReleaseFunc`, whether it is present.
- `resource_initializer` is represented by the sequence it returned, which is
  passed to the constructor.
- The destructor returns the indices it called `release_func` on.

Behaviours of the code that the model keeps as they are:

- A slot torn down by the shrink policy is left with `busy` set
  (`adaptive_resource_pool.hpp:171`). It becomes idle again only when it is
  restored (line 155).
- A torn-down slot holds null (line 173). So `release(nullptr)` matches the
  first slot holding null, which can be a released slot, and clears its busy
  flag while the slot stays released (`ReleaseNullHitsReleasedSlot`).
- The shrink guard tests the active count *before* tearing down:
  `active <= 1` (line 169). A pool with two active slots can therefore shrink
  to one (`GuardKeepsLastSlot`). The model proves only that the active count
  never goes from positive to zero (`AcquireActiveBounds`,
  `RunKeepsPoolAlive`).
- A torn-down slot is busy and released at the same time (line 171). So
  "busy implies not released" does not hold, and the model does not claim it.

## Model

| member | source | states |
|---|---|---|
| `ResourcePool.AdaptiveResourcePool.constructor` | adaptive_resource_pool.hpp:71-75 | the table is the initializer's resources, all slots idle and not released, and the invariant holds |
| `PoolModel.Init` | adaptive_resource_pool.hpp:71-75 | the table has as many slots as the initializer returned, each holding its resource; the idle and active counts both equal that size |
| `ResourcePool.AdaptiveResourcePool.Acquire` | adaptive_resource_pool.hpp:95-111 | the new table and the returned pointer are those of `PoolModel.Acquire` on the old table; the invariant is kept |
| `PoolModel.Acquire` | adaptive_resource_pool.hpp:99-110 | acquire never changes the number of slots |
| `Counting.Count` | adaptive_resource_pool.hpp:128-134 | the counting loop, as a count over ever longer prefixes, one element per step; its result never exceeds the length; its meaning is given by `CountIsCardinality` and `CountExtremes` |
| `PoolModel.CountActive` | adaptive_resource_pool.hpp:139-141 | `activeCount()`: at most the number of slots |
| `PoolModel.CountIdle` | adaptive_resource_pool.hpp:126-135 | `idleCount()`: at most the number of slots |
| `PoolModel.CountsAreCardinalities` | adaptive_resource_pool.hpp:126-141 | the active count is the number of non-released indices; the idle count is the number of indices neither busy nor released |
| `PoolModel.FirstFrom` | adaptive_resource_pool.hpp:99-100 | the result is the lowest index at or after `from` whose slot satisfies the predicate; there is none exactly when no such slot exists |
| `PoolProperties.AcquireGrantsFirstIdle` | adaptive_resource_pool.hpp:99-108 | if the shrink policy does not fire: returns the resource of the lowest-index idle slot; sets only that slot's busy flag; one fewer idle slot; same active count |
| `PoolProperties.AcquireExhausted` | adaptive_resource_pool.hpp:99-110 | with no idle slot after recovery, returns null and leaves the recovered table unchanged |
| `PoolProperties.AcquireShrinks` | adaptive_resource_pool.hpp:102-104 | if `should_release` fires at the first idle slot `i`: returns null; with at least two active slots, slot `i` becomes released, busy and null; otherwise nothing changes |
| `PoolProperties.AcquireActiveBounds` | adaptive_resource_pool.hpp:97-110 | after one acquire, the active count is at most one below its post-recovery value, at most one below its pre-call value, and never goes from positive to zero |
| `PoolProperties.AcquireAsksShouldReleaseOnce` | adaptive_resource_pool.hpp:102 | acquire depends on `should_release` only through its answer for the post-recovery active count |
| `PoolModel.ReleaseOne` | adaptive_resource_pool.hpp:165-179 | tears down exactly the first idle slot at or after `start`, and only if at least two slots are active; otherwise the table is unchanged; the active count drops by at most one and never from positive to zero |
| `ResourcePool.AdaptiveResourcePool.MaybeReleaseOne` | adaptive_resource_pool.hpp:165-179 | the new table is `PoolModel.ReleaseOne` of the old one; the invariant is kept |
| `ResourcePool.AdaptiveResourcePool.MaybeRecover` | adaptive_resource_pool.hpp:144-162 | the new table is `PoolModel.Recover` of the old one; the invariant is kept |
| `PoolModel.Recover` | adaptive_resource_pool.hpp:144-162 | recovery never changes the number of slots |
| `PoolModel.RestoreFrom` | adaptive_resource_pool.hpp:149-161 | the restore loop from index `i` keeps the number of slots; what it does to each slot is `RestoreFromPointwise` |
| `PoolModel.RestoreFromPointwise` | adaptive_resource_pool.hpp:149-161 | the restore loop from index `i`: a released slot whose restore is non-null gets that resource and becomes idle; every other slot, and every slot before `i`, is untouched |
| `PoolProperties.RecoverOutcome` | adaptive_resource_pool.hpp:144-162 | if `can_restore` is absent or false for the pre-call active count, nothing changes; otherwise each slot is restored or untouched, as the loop does |
| `PoolProperties.RecoverCounts` | adaptive_resource_pool.hpp:149-161 | recovery never lowers the active or idle count; both rise by the same amount; the active count rises exactly when `can_restore` fires and some released slot is restored |
| `PoolProperties.RecoverAsksCanRestoreOnce` | adaptive_resource_pool.hpp:145-147 | recovery depends on `can_restore` only through its answer for the pre-call active count |
| `ResourcePool.AdaptiveResourcePool.Release` | adaptive_resource_pool.hpp:114-123 | the new table is `PoolModel.Release` of the old one; the invariant is kept |
| `PoolModel.Release` | adaptive_resource_pool.hpp:116-122 | release never changes the number of slots |
| `PoolProperties.ReleaseFirstMatch` | adaptive_resource_pool.hpp:116-120 | only the first slot holding the handle has its busy flag cleared; the active count is unchanged; the idle count rises by one exactly when that slot was busy and not released |
| `PoolProperties.ReleaseUnknown` | adaptive_resource_pool.hpp:116-122 | a handle no slot holds leaves the table and the idle count unchanged |
| `PoolProperties.ReleaseNullHitsReleasedSlot` | adaptive_resource_pool.hpp:116-119 | `release(nullptr)` clears the busy flag of the first released slot when every slot before it holds a resource; that slot stays released; the idle count is unchanged |
| `PoolProperties.AcquireReleaseRoundTrip` | adaptive_resource_pool.hpp:99-123 | if no two slots share a resource, releasing what acquire handed out restores the post-recovery table and its idle count |
| `PoolProperties.ReleaseMakesSlotIdle` | adaptive_resource_pool.hpp:116-118 | giving back the resource of a busy, non-released slot, with no earlier slot holding it, makes that slot idle, changes no other slot and raises the idle count by one |
| `ResourcePool.AdaptiveResourcePool.IdleCount` | adaptive_resource_pool.hpp:126-135 | returns the number of slots neither busy nor released, and changes nothing |
| `Counting.CountIsCardinality` | adaptive_resource_pool.hpp:128-134 | the counting loop's result equals the size of the set of indices it counts |
| `Counting.CountExtremes` | adaptive_resource_pool.hpp:128-134 | a count is zero exactly when no element qualifies, and the full length exactly when all do |
| `ResourcePool.AdaptiveResourcePool.ActiveCount` | adaptive_resource_pool.hpp:139-141 | `std::count` of false over the released flags equals the number of slots not released, and reads only the state |
| `PoolProperties.RecoverKeepsNullWhenReleased` | adaptive_resource_pool.hpp:153-155 | restoring keeps "a released slot holds null" |
| `PoolProperties.ReleaseOneKeepsNullWhenReleased` | adaptive_resource_pool.hpp:171-174 | tearing down keeps "a released slot holds null" |
| `PoolProperties.AcquireKeepsNullWhenReleased` | adaptive_resource_pool.hpp:97-110 | acquire keeps "a released slot holds null" |
| `PoolProperties.ReleaseKeepsNullWhenReleased` | adaptive_resource_pool.hpp:118 | release keeps "a released slot holds null" |
| `PoolProperties.Step` | adaptive_resource_pool.hpp:95-123 | one public call, `acquire` with the policies' answers at that call or `release(h)`, keeps the number of slots |
| `PoolProperties.Run` | adaptive_resource_pool.hpp:95-123 | a sequence of public calls, one atomic step each, keeps the number of slots |
| `PoolProperties.RunKeepsPoolAlive` | adaptive_resource_pool.hpp:95-123 | after any sequence of acquire and release calls from a table with an active slot, the policies answering afresh at every call: same slot count, at least one active slot, and a released slot holds null |
| `PoolProperties.HeldSlotStaysHeld` | adaptive_resource_pool.hpp:95-123 | a slot that is busy, not released and holds `h` is left unchanged by any call other than `release(h)`, whatever the policies answer |
| `PoolProperties.HeldUntilReleased` | adaptive_resource_pool.hpp:95-123 | a handed-out resource stays handed out, in the same slot, across any sequence of calls that does not release it |
| `ResourcePool.AdaptiveResourcePool.Destroy` | adaptive_resource_pool.hpp:78-91 | returns the indices `release_func` is called on, as `PoolModel.Teardown` of the old table, and leaves all three vectors empty |
| `PoolModel.ActiveIndices` | adaptive_resource_pool.hpp:79-86 | the indices the teardown loop reaches past the check at line 80: as many as `activeCount()` |
| `PoolModel.Teardown` | adaptive_resource_pool.hpp:79-86 | the `release_func` calls of the destructor: `activeCount()` of them with a `release_func` (line 81), none without |
| `PoolModel.ActiveIndicesExact` | adaptive_resource_pool.hpp:79-86 | the teardown loop visits exactly the non-released slots, once each, in increasing order; there are `activeCount()` of them |
| `PoolProperties.TeardownCallsActiveSlots` | adaptive_resource_pool.hpp:78-86 | with a `release_func`, the destructor calls it on exactly the non-released slots, in index order; without one, it calls nothing |
| `PoolScenarios.FourAcquiresThenExhausted` | adaptive_resource_pool.hpp:95-111 | four resources with quiet policies: four acquires hand out resources 1 to 4 in order; a fifth returns null; the idle count goes from 4 to 0 |
| `PoolScenarios.GuardKeepsLastSlot` | adaptive_resource_pool.hpp:165-179 | two resources with `should_release` always true: the first acquire tears slot 0 down; the second keeps the last active slot; both return null |
| `PoolScenarios.ShrinkToTwo` | adaptive_resource_pool.hpp:99-107 | four resources with `should_release` true above two active slots: two acquires each tear a slot down and return null; the third hands out resource 3 |
| `PoolScenarios.RestoredSlotIsAcquired` | adaptive_resource_pool.hpp:97-107 | a released slot is restored by the next acquire and handed out by that same call |

## Left out

- `std::mutex` and `lock_guard`: each public call is one atomic sequential step.
- `MovableAtomicBool`: a busy flag is a plain `bool`. Memory orders and move semantics have no counterpart.
- The `logger` calls and message formatting: they have no effect on the state.
- Exceptions are not modelled: neither those thrown by a policy, nor the `std::bad_function_call` thrown by calling an empty `restore_func` (line 151) or an empty `release_func` in `maybeReleaseOne` (line 172). In the model, `restoreFunc` is always present, and the teardown in `maybeReleaseOne` always completes.
- PoolModel.ReleaseOne: with an empty `release_func`, the source throws at line 172 after line 171 has set `busy_[i]`, and `acquire` throws instead of returning null. The slot stays busy, not released and holding its resource. So it is neither idle nor handed out until a `release` call passes its pointer (`ReleaseMakesSlotIdle`), and it is never restored. The model does not produce this state: it tears the slot down as if `release_func` were present.
- `release_func`'s own effect on a resource is not modelled. Only the indices the destructor calls it on are recorded. The call in `maybeReleaseOne` is not recorded.
- ResourcePool.AdaptiveResourcePool.constructor: the model takes the resources `resource_initializer` returned and does not call it. An initializer that throws is not modelled.
- What the resources are and what the policies compute: policies are arbitrary total functions, and resources are identities.
- `size_t` arithmetic: counts are unbounded naturals. They never exceed the table size, so wrap-around cannot happen.
