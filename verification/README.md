# Thread registry of the Driveshaft worker manager, in Dafny

This project models `ThreadRegistry`, the shared-state registry that
Driveshaft's worker manager uses to track its worker threads. The registry
keeps two cross-indexed maps:

- the **pool index** maps a pool name to the set of thread ids registered
  under that pool;
- the **thread index** maps a thread id to its `ThreadData`: the owning
  pool, the shutdown flag, and a status label.

Every member function except the constructor and the destructor holds one
mutex for its whole body. All of them except `getThreadMap` also write log
messages while holding it; logging is left out. So each
operation is modelled as one atomic transition of an immutable `Registry`
value. A failed `DS_ASSERT` throws out of a `noexcept` function and ends the
process, so each assertion becomes a precondition (`CanRegister`,
`CanUnregister`, `IsRegistered`, `CanDestroy`).

Files and modules:

- `registry_state.dfy` (`RegistryState`): the data model. It defines the
  opaque thread id type `Tid`, `ThreadData`, `Registry`, and `Members`.
  `Members` gives a pool's set, with a pool that has no entry having none.
  `Touch` is the entry-creating effect of `operator[]` on the pool index.
  The cross-index invariant `Valid` says that `t` is in the set of `p`
  exactly when `t` has a record whose pool is `p`.
- `shutdown_dispatch.dfy` (`ShutdownDispatch`): the loop of
  `sendShutdown`, as the recursive function `Dispatch` over one iteration
  order of the pool's set.
- `thread_registry.dfy` (`ThreadRegistry`): the public operations. Each
  operation that returns a new registry comes with a `*KeepsValid` lemma
  proving that it keeps the invariant.
- `registry_properties.dfy` (`RegistryProperties`): properties that span
  several calls. These are the register/unregister round trip, the contract
  violations, order independence and exhaustion of shutdown dispatch, and a
  worked three-thread scenario. The file also shows that every run of calls
  from a fresh registry keeps the invariant.

The source leaves the order in which `sendShutdown` walks a pool's set
unspecified. The model therefore takes that order as a parameter `order`,
which must list the pool's set exactly once. Every property of
`SendShutdown` holds for every such order. In a run of calls
(`RegistryProperties.Run`), each shutdown call carries its own order. An
order that does not list the pool's set exactly once stands for some
iteration order of it.

Three behaviours of the source are kept as written:

- Looking up a pool with `operator[]` creates an empty entry for it. This
  happens in `registerThread`, `unregisterThread`, `poolCount` and
  `sendShutdown`.
- Pool entries are never removed. Unregistering the last thread of a pool
  leaves an empty set behind.
- `sendShutdown(pool, 0)` never reaches its `break`, because the counter is
  compared with `count` only after an increment. So a count of zero raises
  the flag of every member whose flag is clear. It returns true only when
  there was no such member.

What the assertions of registration and unregistration mean under the
invariant:

- Registration asserts that the id is absent both from the pool's set and
  from the thread index. Under the invariant the first follows from the
  second: `RegisterViolationIsDoubleRegistration` proves that registration is
  allowed exactly when the id is registered under no pool at all.
- Unregistration asserts that the id is in the pool's set and in the thread
  index. It never compares the record's pool field with the pool it was
  given. `UnregisterViolationIsWrongOrAbsent` proves that under the invariant
  these assertions refuse exactly an absent id or one registered under
  another pool.

## Model

| member | source | states |
|---|---|---|
| RegistryState.Touch | src/thread-registry.cpp:77 | Looking a pool up with `operator[]` makes its entry exist. It adds no other key, changes no pool's membership, and leaves the thread index alone. |
| ThreadRegistry.Create | src/thread-registry.cpp:38-40 | A newly constructed registry satisfies the cross-index invariant, has no thread records, and has an empty set for every pool. |
| ThreadRegistry.RegisterThread | src/thread-registry.cpp:46-57 | Requires the id to be absent from the pool's set and from the thread index. The pool entry then exists, no other pool gains an entry, and the pool's set grows by exactly this id, so the count rises by one. The id's record is {pool, flag clear, "Starting up"}. Other pools and other records are unchanged. |
| ThreadRegistry.RegisterKeepsValid | src/thread-registry.cpp:46-57 | Registration keeps the two indices consistent. |
| ThreadRegistry.UnregisterThread | src/thread-registry.cpp:59-70 | Requires the id to be in the pool's set and in the thread index. Afterwards the id is in neither, and the pool's set shrinks by exactly this id. The pool key remains, possibly with an empty set. No other pool or record changes. |
| ThreadRegistry.UnregisterKeepsValid | src/thread-registry.cpp:59-70 | Unregistration keeps the indices consistent, and the id is then a member of no pool at all. |
| ThreadRegistry.PoolCount | src/thread-registry.cpp:72-78 | Replies with the size of the pool's set, which is 0 for a pool never seen. Under the invariant this equals the number of thread records naming the pool. An empty entry for the pool now exists, no membership changes, and the thread index is unchanged. |
| ThreadRegistry.PoolCountKeepsValid | src/thread-registry.cpp:72-78 | Counting a pool, entry creation included, keeps the indices consistent. |
| ShutdownDispatch.Dispatch | src/thread-registry.cpp:86-98 | The walk changes only shutdown flags, never clears one, and touches only threads listed in the order. It raises only flags that were clear, and the flags it raises are the first clear ones in the order: a raised thread is preceded only by threads already flagged or raised too. With a positive count it raises exactly min(count, clear flags met) flags; with count 0 it raises every clear flag. Its counter equals the number of flags raised. |
| ThreadRegistry.SendShutdown | src/thread-registry.cpp:80-103 | In any iteration order, the flags raised are a subset of the pool's clear flags, and they are the first clear members met in that order. With count > 0 their number is min(count, clear members); with count 0 they are all of them. No flag is cleared. Threads outside the pool, states, pools and memberships are unchanged. The reply is true iff the number raised equals count, that is iff count <= clear members (count > 0) or no member was clear (count = 0). |
| ThreadRegistry.SendShutdownKeepsValid | src/thread-registry.cpp:80-103 | A shutdown request, entry creation included, keeps the indices consistent. |
| ThreadRegistry.ShouldShutdown | src/thread-registry.cpp:105-112 | Requires the id to be registered. Under the invariant, the reply is true iff the thread is no longer among its pool's clear members that a later shutdown request could recruit. |
| ThreadRegistry.SetThreadState | src/thread-registry.cpp:114-121 | Requires the id to be registered. Only that thread's status label changes, to the given label. The pool index, every pool field and every shutdown flag are unchanged. |
| ThreadRegistry.SetThreadStateKeepsValid | src/thread-registry.cpp:114-121 | A status update keeps the indices consistent. |
| ThreadRegistry.GetThreadMap | src/thread-registry.cpp:123-127 | The copy has exactly the ids of the thread index, each with its record: pool, shutdown flag and status label. Under the invariant it lists, for every pool, exactly the members of that pool's set. |
| RegistryProperties.DestroyOnlyWhenAllPoolsEmpty | src/thread-registry.cpp:42-44 | Under the invariant, the destructor's check that the thread index is empty holds iff every pool set is empty. |
| RegistryProperties.RegisterUnregisterRoundTrip | src/thread-registry.cpp:46-70 | Registering then unregistering the same id under the same pool restores the thread index and the pool's set. The result is the original registry plus the pool entry, and exactly the original registry when that entry already existed. |
| RegistryProperties.RegisterViolationIsDoubleRegistration | src/thread-registry.cpp:51-55 | Under the invariant, registration is allowed iff the id is not registered under any pool. |
| RegistryProperties.DoubleRegistrationRefused | src/thread-registry.cpp:51-55 | After a registration, registering the same id again fails an assertion, under the same pool or any other. |
| RegistryProperties.UnregisterViolationIsWrongOrAbsent | src/thread-registry.cpp:64-68 | Under the invariant, unregistration is allowed iff the id is registered and its record names that very pool. |
| RegistryProperties.RegisterThenQuery | src/thread-registry.cpp:46-112 | After a registration the pool's count is one higher and the new thread's shutdown flag reads false. |
| RegistryProperties.SendShutdownOrderIndependent | src/thread-registry.cpp:85-102 | Two iteration orders give the same reply, the same number of flags raised, and the same pool index. When the walk cannot stop early (count 0, or no more clear members than count) they give the same registry. |
| RegistryProperties.AllEligibleFlipped | src/thread-registry.cpp:86-98 | When count is 0, or at least the number of clear members, every clear member of the pool gets its flag raised. |
| RegistryProperties.ShutdownLeavesRemainder | src/thread-registry.cpp:86-98 | After a request, the clear members are the previously clear members that were not recruited. With count > 0 their number is the clear count minus min(count, clear count). |
| RegistryProperties.UnsatisfiedShutdownExhaustsPool | src/thread-registry.cpp:88-102 | A request for at least one thread that replies false leaves no member of the pool with a clear flag. |
| RegistryProperties.ShutdownOnExhaustedPool | src/thread-registry.cpp:88-102 | On a pool with no clear member, a request for at least one thread replies false and changes no record. |
| RegistryProperties.ThreeThreadShutdownScenario | src/thread-registry.cpp:46-103 | Three threads in one pool, all clear, each call in any order. A request for 2 succeeds and leaves one clear. A second request for 2 fails and leaves none clear. A third request for any positive count fails and changes nothing. |
| RegistryProperties.FirstClearIsRaised | src/thread-registry.cpp:88-95 | On a pool of two clear threads, a request for one in order [a, b] succeeds, raises the flag of a, and stops before b, whose flag stays clear. |
| RegistryProperties.RegistrationsAllCounted | src/thread-registry.cpp:46-78 | K registrations of distinct, unregistered ids under one pool, serialised by the lock, raise the pool's count by exactly K. |
| RegistryProperties.StepKeepsInvariant | src/thread-registry.cpp:46-121 | Any single call that does not fail an assertion keeps the invariant. It never clears a shutdown flag and never moves a registered thread to another pool. |
| RegistryProperties.RunKeepsInvariant | src/thread-registry.cpp:46-121 | Every sequence of calls that starts from a registry keeping the invariant, and does not fail an assertion, keeps the invariant. |
| RegistryProperties.ReachableRegistriesAreValid | src/thread-registry.cpp:38-121 | Every registry reachable from a newly constructed one, by calls that do not fail an assertion, keeps the invariant. |

## Left out

- The `std::mutex` and `std::lock_guard`: each operation is one critical section and is modelled as one atomic transition. Interleavings are not modelled.
- The `LOG4CXX_*` logging calls, which the member functions make while holding the lock and the constructor makes without it: they only record events and have no effect on the registry's state.
- The throw and `std::terminate` mechanics of `DS_ASSERT` (src/thread-registry.cpp:30-36): each assertion is a precondition. `RegistryProperties.Step` maps a failing one to `Terminated`.
- The header `thread-registry.h` is not part of this model. The container types it declares (their hashing, ordering and iteration order) are replaced by Dafny maps and sets plus an explicit iteration order parameter. `std::thread::id` is the opaque type `Tid`.
- PoolCount: the reply is an unbounded `nat`. The source narrows `size()` to `uint32_t`, which differs only for pools of 2^32 or more threads.
- SendShutdown: `count` and the counter `msg_sent` are unbounded `nat`s. With 32-bit counters and count 0, a pool of 2^32 or more clear members would wrap the counter to 0 and stop early. That is not modelled.
- SendShutdown: requires every member of the pool to have a thread record. The source asserts this (line 89) only for members it visits before stopping. The two agree whenever the cross-index invariant holds, which every operation preserves.
- Snapshot isolation of `getThreadMap`: the model's registry is an immutable value, so a copy taken earlier cannot change. No separate lemma states this.
