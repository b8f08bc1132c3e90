# Resource layer of the EOOS kernel, modelled in Dafny

EOOS is a real-time kernel for microcontrollers. Its resource layer hands out fixed-size
objects without a heap and serialises that work behind a lock. This project states, and
proves, what the following classes of that layer do:

- **`lib::ResourceMemory<T,N>`, pool form** (`resource_memory.dfy`, `slots.dfy`). This is a
  fixed pool of N slots with one "is allocated" flag per slot. The slots live in `memory_`, a
  two-dimensional `uint64_t` array, so each row is `(sizeof(T) >> 3) + 1` words long.
  `allocate(size, _)` accepts only `size == sizeof(T)` and hands out the lowest free slot. It
  first re-checks the 8-byte alignment of that slot's address. `free(ptr)` scans the slots for
  the one whose address is `ptr` and clears its flag. Both run inside a `lib::Guard` over the
  pool's `api::Guard`.
- **`lib::Guard<A>`** (`guard.dfy`). This is the scoped lock. Its constructor calls `lock()`
  when its own base and the guarded object both report constructed. Its destructor calls
  `unlock()` only when it holds the lock.
- **`sys::Semaphore<A>`** (`semaphore.dfy`). The model covers the stored permit count, the
  fairness flag, construction success, and the rule that a failed `post()` in `release()`
  clears the construction flag for good.

`api.dfy` holds what every component sees of a guarded object. That is its answers to
`isConstructed()`, `lock()` and `unlock()`, and the sequence of events it undergoes.

Everything is written as immutable datatypes and pure functions. A pool is its layout
(`memory_`'s address, `sizeof(T)`, N), its construction flag and its flags as a `seq<bool>`.
A pointer is `Null` or an address. An address is a natural number standing for a `uintptr_t`.
Slot `i` lives at `base + i * Stride(sizeof(T))`.

Some answers come from code that is not part of this model. These become parameters:

- the construction flag of the `NonCopyable` base class;
- the guarded object's answers to `isConstructed()`, `lock()` and `unlock()`;
- the semaphore's `initialize()`, `isFair()` and `post()` results.

The source stubs the semaphore helpers to return false. Those stubbed answers are the constants
`InitializeAsWritten`, `IsFairAsWritten` and `PostAsWritten`, and lemmas state what follows from
them.

Each pool operation returns its events. The guarded body appears as `Body`, between the Guard's
`LockCall` and `UnlockCall`.

Two things hold for the code as written:

- the pool's operations run their body whether or not the lock was obtained;
- they never consult the pool's own construction flag.

## Model

| member | source | states |
|---|---|---|
| `Slots.Stride` | codebase/library/include/public/lib.ResourceMemory.hpp:85-90 | a row of `memory_` is a multiple of 8 bytes, strictly longer than `sizeof(T)` and at most 8 bytes longer |
| `Slots.SlotAligned` | codebase/library/include/public/lib.ResourceMemory.hpp:85-90 | if `memory_` is 8-aligned, every slot address is 8-aligned |
| `Slots.SlotsDisjoint` | codebase/library/include/public/lib.ResourceMemory.hpp:85-90 | an earlier slot's element ends before any later slot starts, so slots never overlap |
| `Slots.SlotAddressInjective` | codebase/library/include/public/lib.ResourceMemory.hpp:85-90 | two slots have the same address if and only if they are the same slot |
| `Slots.SlotOf` | codebase/library/include/public/lib.ResourceMemory.hpp:85-90 | the layout arithmetic names slot `i` only when `i < N` and slot `i` has that address; when it names none, no slot has that address |
| `Slots.SlotOfSlotAddress` | codebase/library/include/public/lib.ResourceMemory.hpp:85-90 | every slot's address maps back to that slot |
| `Slots.FindSlot` | codebase/library/include/public/lib.ResourceMemory.hpp:144-151 | the scan of `free` returns the first slot at or after its start whose address matches; it returns none only when no remaining slot matches |
| `Slots.ScanFindsSlotOf` | codebase/library/include/public/lib.ResourceMemory.hpp:144-151 | scanning all slots gives exactly the slot the layout arithmetic names |
| `Slots.FirstFree` | codebase/library/include/public/lib.ResourceMemory.hpp:122-136 | the scan of `allocate` returns the lowest index whose flag is clear; it returns none exactly when every flag is set |
| `ResourceMemory.Construct` | codebase/library/include/public/lib.ResourceMemory.hpp:154-171 | with a constructed base, the pool is constructed and all N flags are clear; otherwise it is not constructed and the flags are left untouched |
| `ResourceMemory.Allocate` | codebase/library/include/public/lib.ResourceMemory.hpp:114-138 | a wrong size gives null with no change; a full pool gives null with no change; otherwise the lowest free slot's address is returned and only that flag is set, unless the address is misaligned, which gives null with no change; the body runs between the Guard's lock and unlock |
| `ResourceMemory.Free` | codebase/library/include/public/lib.ResourceMemory.hpp:140-152 | a pointer to slot `i` clears flag `i` and changes nothing else; a null or foreign pointer changes nothing; the body runs between the Guard's lock and unlock |
| `ResourceMemory.AllocateReturnsFreeSlot` | codebase/library/include/public/lib.ResourceMemory.hpp:122-137 | every returned address is 8-aligned and belongs to a slot that was free before the call and is taken after it |
| `ResourceMemory.FreeSlot` | codebase/library/include/public/lib.ResourceMemory.hpp:144-150 | freeing slot `i` by its address clears flag `i` and leaves every other flag as it was |
| `ResourceMemory.FreeIdempotent` | codebase/library/include/public/lib.ResourceMemory.hpp:144-152 | freeing the same pointer a second time changes nothing |
| `ResourceMemory.FreeForeignIsNoOp` | codebase/library/include/public/lib.ResourceMemory.hpp:144-152 | freeing an address that belongs to no slot leaves the pool unchanged |
| `ResourceMemory.AllocateThenFree` | codebase/library/include/public/lib.ResourceMemory.hpp:114-152 | freeing the pointer `allocate` just returned restores the pool to its state before the allocation |
| `ResourceMemory.FreeThenAllocateReuses` | codebase/library/include/public/lib.ResourceMemory.hpp:114-152 | over an 8-aligned `memory_`, if every slot below `i` is taken, freeing slot `i` and then allocating returns slot `i` again (lowest-free reuse) |
| `ResourceMemory.AllocateNext` | codebase/library/include/public/lib.ResourceMemory.hpp:122-137 | over an 8-aligned `memory_`, if exactly the first `k` slots are taken, the next allocation takes slot `k`, or gives null with no change when `k` is N |
| `ResourceMemory.AllocateManyFrom` | codebase/library/include/public/lib.ResourceMemory.hpp:122-137 | over an 8-aligned `memory_`, if exactly the first `k` slots are taken, successive allocations return slots `k`, `k+1`, … in order and then null |
| `ResourceMemory.FreshPoolHandsOutEverySlot` | codebase/library/include/public/lib.ResourceMemory.hpp:114-171 | from a freshly constructed pool over an 8-aligned `memory_`, N allocations return the N slot addresses in index order and pairwise distinct; call N+1 returns null |
| `Guard.Construct` | codebase/library/include/public/lib.Guard.hpp:37-83 | the Guard always ends not-constructed; `lock()` is called at most once, and only when the base and the guarded object both report constructed; `isLocked_` is true exactly when `lock()` was called and succeeded |
| `Guard.Destruct` | codebase/library/include/public/lib.Guard.hpp:48-54 | `unlock()` is called exactly when the Guard holds the lock, and afterwards `isLocked_` is the negation of its answer; otherwise nothing changes |
| `Guard.LifetimeCalls` | codebase/library/include/public/lib.Guard.hpp:37-83 | over a whole lifetime there is at most one `lock()` call and at most one `unlock()` call; an `unlock()` comes only after a successful `lock()`; there are no calls at all exactly when the lock is never attempted |
| `Guard.Events` | codebase/library/include/public/lib.Guard.hpp:37-83 | a guarded body runs exactly once, after any `lock()` and before any `unlock()`; `unlock()` follows exactly when the lock was obtained; the whole trace is `[Body]` when no lock is tried, `[LockCall, Body]` when it fails, and `[LockCall, Body, UnlockCall]` when it succeeds |
| `Guard.EventsAsWritten` | codebase/library/include/public/lib.Guard.hpp:37-83 | the scoped events equal those of a Guard built by the constructor as written: its `lock()` call, then the body, then what its destructor calls |
| `Guard.ConstructIntended` | codebase/library/include/public/lib.Guard.hpp:67-83 | the corrected constructor reports constructed exactly when it holds the lock, and makes the same calls as the one written |
| `Guard.ConstructHidesLockSuccess` | codebase/library/include/public/lib.Guard.hpp:67-83 | the constructor as written holds the lock after a successful `lock()` yet reports not-constructed |
| `Semaphore.Construct` | codebase/system/include/private/sys.Semaphore.hpp:165-182 | `permits_` is the argument; the object is constructed if and only if its base is constructed and `initialize()` succeeds; `isFair_` can be true only on that success path; `initialize()` is called at most once and only when the base is constructed; `isFair()` is called at most once and only after a successful `initialize()` |
| `Semaphore.Acquire` | codebase/system/include/private/sys.Semaphore.hpp:137-150 | `acquire()` never reports success on an object that is not constructed |
| `Semaphore.AcquireAsWrittenFails` | codebase/system/include/private/sys.Semaphore.hpp:137-150 | with the kernel wait left out as written, `acquire()` never returns true |
| `Semaphore.Release` | codebase/system/include/private/sys.Semaphore.hpp:152-163 | on an object that is not constructed, `release()` changes nothing and calls no `post()`; on a constructed one it calls `post()` once and stays constructed if and only if the post succeeded; permits and fairness never change |
| `Semaphore.Destruct` | codebase/system/include/private/sys.Semaphore.hpp:125-129 | `deinitialize()` is called whatever the state, and nothing else changes |
| `Semaphore.PermitsFixedForLife` | codebase/system/include/private/sys.Semaphore.hpp:114-123 | the constructor stores its `permits` argument in `permits_`, and after any later sequence of calls `permits_` still holds it, whatever the kernel answers |
| `Semaphore.RunKeepsPermitsAndFairness` | codebase/system/include/private/sys.Semaphore.hpp:137-163 | no sequence of `acquire()`/`release()` calls changes `permits_` or `isFair_` |
| `Semaphore.RunPoisoning` | codebase/system/include/private/sys.Semaphore.hpp:152-163 | after any sequence of calls the object is constructed if and only if it was before and no `post()` failed, so a poisoned object stays poisoned |
| `Semaphore.PoisonedIsInert` | codebase/system/include/private/sys.Semaphore.hpp:137-163 | on an object that is not constructed, no sequence of calls changes anything or calls the kernel |
| `Semaphore.StubbedSemaphoreIsInert` | codebase/system/include/private/sys.Semaphore.hpp:165-205 | with `initialize()` and `isFair()` as written, every Semaphore ends construction not constructed and not fair, and no `post()` is ever issued on it |
| `Semaphore.StubbedReleasePoisons` | codebase/system/include/private/sys.Semaphore.hpp:207-218 | with `post()` as written, the first `release()` on a constructed Semaphore clears its construction flag |

## Left out

- `ResourceMemory<T,0>` (the heap form): it only forwards `allocate(size)` and `free(ptr)` to
  `Allocator`, which is not part of this model. Nothing of its own is left to state.
- The contents of the slots and real pointer identity. Slots are indices and addresses are
  natural numbers. Address arithmetic does not wrap, because `memory_` lies inside the address
  space.
- A `memory_` at address 0 is not excluded. In C++ that address is `NULLPTR`, so slot 0 there
  would be indistinguishable from null. No C++ object lives at address 0, so no real pool
  reaches this case.
- The second argument of `allocate(size, ptr)`: the source never uses it.
- `NonCopyable`, `api::Guard`, `api::Semaphore` and the kernel semaphore are not part of this
  model. Their answers are parameters.
- How `setConstructed` behaves is not modelled. Every call site passes either false, or true
  only when the base already reports constructed, so the resulting flag is the same under any
  reading.
- Real semaphore semantics: the blocking `sem_wait`, the wake-up by `sem_post`, permit counting
  and the `sched_getscheduler` fairness query. They exist in the source only as commented-out
  code, and they involve concurrency. The permit count is therefore stored but never consumed.
- Concurrency itself. The model is sequential. The Guard is modelled by the calls it makes on
  the guarded object, not by mutual exclusion between contexts.
- `Semaphore.Acquire`: its contract states only that success implies the object is constructed.
  That is the promise the interface makes. The stubbed body never succeeds at all, which is
  stated separately by `Semaphore.AcquireAsWrittenFails`.

## Findings

| source | as written | input that shows it | evidently intended | confidence | as-written member | corrected member |
|---|---|---|---|---|---|---|
| codebase/library/include/public/lib.Guard.hpp:67-83 | `construct()` starts `res` at false and never assigns it, so every Guard reports not-constructed, even one that holds the lock | base constructed, guarded object constructed, `lock()` returns true: `isLocked_` is true but `isConstructed()` is false | the Guard reports constructed when it obtained the lock | medium, not executed | `Guard.ConstructHidesLockSuccess` | `Guard.ConstructIntended` |

`Guard.Events` builds its Guard with `Guard.ConstructIntended`, and the pool uses
`Guard.Events`. The pool never reads its Guard's construction flag. `Guard.EventsAsWritten`
proves that building the scope with the constructor as written gives the same events. So the
pool behaves the same under either definition.
