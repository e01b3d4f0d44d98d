# go-resource-pool in Dafny

A model of `ResourcePool[T]` from the Go package `pools`. The pool is a fixed-length slice of resource slots guarded by striped locks: the locks come from a separate lock pool, usually smaller than the slot count, and many slots can share one lock. Workers borrow a slot with `Loan(index)`, or with `LoanByUint64`, `LoanByString` or `LoanByBytes`, which first reduce a key to a slot index. Each loan gets the slot's value and a one-shot closure. Calling the closure writes a value, possibly a different one or nil, back into the slot and releases the lock.

The model is functional:

- `Locks`: the external lock-pool and hashing collaborator (the `go-locks` package). A `LockPool` is a lock count plus an index-to-lock-id function that maps into `[0, size)`. The string and byte hashes are function parameters. A Go string is a `GoString`, a sequence of bytes that need not be valid UTF-8.
- `Pools`: the pool state, which is the slots (`seq<Option<T>>`, where `None` is a nil pointer), the lock pool and the set of held lock ids. It holds the construction, `Len`, `getIndex` and `Loan` models, the return closure (`Return`, driven by a `Ticket` holding the index and lock the closure captured) and the three keyed loans. It also holds lemmas about key resolution, framing, visibility and exclusivity.
- `Protocol`: many workers as interleavings of loans and returns. A world is the pool plus its outstanding tickets. A loan whose lock is held is not enabled, which is where Go blocks. The invariant is mutual exclusion. From it follow the exclusivity results: no step other than its own return touches the slot of an outstanding loan, and on every slot loans and returns alternate, so no update is lost. Separately, every loan observes, and every slot ends with, the last value returned to that slot.
- `Scenarios`: the situations `pool_test.go` exercises. The striping policy is a parameter. Every scenario holds for any policy, except `BorrowEverySlot` and `EveryWorkerUpdatesItsSlot`, which hold all loans at once and need one lock per slot.

Go's blocking `lock.Lock()` becomes the precondition that the slot's lock is free. The closure becomes a ticket. `Pools.Return` requires only what the Go closure relies on: the ticket's lock is held. `Protocol` consumes each ticket when it is returned, so there it cannot be returned twice.

## Model

| member | source | states |
|---|---|---|
| Locks.NewPool | pool.go:22 | The lock pool has exactly `locksAmount` locks, and its index-to-lock mapping always gives a lock id below that count. |
| Pools.NewResourcePool | pool.go:19-24 | The new pool takes the items as its slots in the given order, holds no lock, has `locksAmount` locks, and uses the collaborator's mapping for every index. |
| Pools.Len | pool.go:48-50 | On a valid pool the slot count is positive and fits a Go `int`. |
| Pools.GetIndex | pool.go:78-82 | A key resolves to an index below the slot count, no larger than the key and congruent to it modulo the slot count. That makes it the residue `key % len(items)`. |
| Pools.SameSlotIff | pool.go:78-82 | Two keys resolve to the same slot if and only if their difference is a multiple of the slot count. |
| Pools.GetIndexOnlyReadsLength | pool.go:78-82 | Key resolution depends on the slot count alone, not on slot contents or lock state. |
| Pools.SmallKeyIsIndex | pool.go:78-82 | A key below the slot count resolves to itself. |
| Pools.LockFor | pool.go:34 | The lock guarding any index is a lock id of the pool's lock pool. |
| Pools.Loan | pool.go:33-46 | The loan needs an in-range index and a free lock. It yields the slot's current value and changes no slot. It adds exactly the slot's lock, which was free, to the held set. The ticket names that index and lock, and the slot cannot be loaned again until it is returned. |
| Pools.Return | pool.go:37-41 | Given a ticket whose lock is held, the return writes its argument, possibly different or nil, into the ticket's slot and releases exactly the ticket's lock. Every other slot and every other held lock is unchanged, `Len()` is unchanged, and the slot can be loaned again. |
| Pools.LoanByUint64 | pool.go:54-58 | This is `Loan` of the key's resolved index. The index is in range and congruent to the key, and the value is that slot's value. |
| Pools.LoanByString | pool.go:62-67 | This is `Loan` of the index the string's hash resolves to, which is congruent to the hash. |
| Pools.LoanByBytes | pool.go:70-75 | This is `Loan` of the index the byte key's hash resolves to, which is congruent to the hash. |
| Pools.HashedKeysMeetIntegerKeys | pool.go:54-75 | Loaning by a string or byte key is exactly loaning by its hash as an integer key. |
| Pools.BytesAndIntegerKeysShareSlotIff | pool.go:54-75 | A byte key and an integer key reach the same slot if and only if the byte key's hash and the integer differ by a multiple of the slot count. |
| Pools.LoanExcludesStripe | pool.go:34-36 | After a loan, another in-range slot is blocked if and only if it shares the loaned slot's lock or was already blocked. |
| Pools.ReturnedValueIsVisible | pool.go:37-43 | After loaning slot `i` and returning `v`, the next loan of `i` can proceed and observes `v`. |
| Pools.ReturnUnchangedIsIdentity | pool.go:33-45 | Loaning a slot and returning the value it handed out gives back exactly the original pool, with the same slots and the same held locks. |
| Pools.LoanReturnFrame | pool.go:37-41 | A loan and return of one slot leaves every other slot and the held-lock set as they were. |
| Pools.StaleTicketMatchesNewLoan | pool.go:37-41 | After a loan of slot `i` is returned, a new loan of `i` gets the same ticket, so the old ticket's lock counts as held again and a second call of the used closure would be accepted. |
| Protocol.InitialWorld | pool.go:19-24 | A freshly constructed pool with no loans out satisfies the mutual-exclusion invariant. |
| Protocol.Step | pool.go:33-46 | A loan is enabled if and only if its index is in range and its lock is free. A return is enabled if and only if its loan is outstanding. A loan of `i` observes the current value of slot `i` and adds its ticket (slot `i`, the lock of `i`) to the outstanding loans. A return of loan `k` with `v` stores `v` into that loan's slot and removes exactly that loan. Each step keeps the mutual-exclusion invariant, `Len()` and the lock pool. The slots afterwards reflect exactly the step's own write. |
| Protocol.Run | pool.go:33-50 | Every interleaving keeps the invariant, the lock pool and `Len()`. It logs one event per action: a loan logs an observation of its own index, and a return logs a store of its own argument. Every logged index is in range. |
| Protocol.BorrowEnabledIff | pool.go:34-36 | In any world, a loan of slot `i` proceeds if and only if no outstanding loan is on a slot whose lock is the lock of `i`. |
| Protocol.RunKeepsExclusion | pool.go:34-41 | In every reachable world, no two outstanding loans are on slots guarded by the same lock. |
| Protocol.OutstandingSlotUntouched | pool.go:34-41 | While a loan is out, any enabled step other than that loan's own return leaves the loan's slot unchanged and leaves the loan outstanding. |
| Protocol.OneLoanPerSlot | pool.go:34-36 | No two outstanding loans are on the same slot. |
| Protocol.StepOpensOrClosesItsSlot | pool.go:33-41 | A loan is only enabled on a slot that is not on loan, and a return only happens on a slot that is. The step puts its own slot on loan or takes it off, and no other slot's status changes. |
| Protocol.LoansAndReturnsAlternate | pool.go:33-43 | In every interleaving, on every slot, the logged loans and returns strictly alternate, starting from the slot's status in the initial world. No slot is loaned twice at once, and every return ends a loan of its slot. |
| Protocol.NoLostUpdates | pool.go:37-43 | In every interleaving, each loan observes the value of the last earlier return to its slot, or the slot's initial value. At the end, each slot holds the value of the last return to it. |
| Protocol.ReturnAll | pool.go:37-41 | Outstanding loans can always be returned one after another. Afterwards no lock is held, every slot can be loaned, and returning each slot's current value leaves the slots unchanged. |
| Scenarios.UpdateThenReturnIsSeen | pool_test.go:19-32 | In a one-item, ten-lock pool, loaning slot 0, setting the flag and returning the item stores the flagged item, and the next loan sees it. |
| Scenarios.OneItemPoolKeys | pool_test.go:34-47 | In a one-item pool, every integer, string or byte key resolves to the single slot, and its loan hands out that item. |
| Scenarios.OneItemPoolRawIndex | pool_test.go:168-200 | In a one-item pool, a key passed straight to `Loan` is a usable index only when it is 0. |
| Scenarios.SecondLoanWaitsForFirst | pool_test.go:49-88 | A second loan of slot 0 cannot proceed while the first is out. After the first writes id 2 and returns, the second observes id 2, and the slot ends with id 3. |
| Scenarios.BorrowEverySlot | pool_test.go:90-121 | When every slot has its own lock, all slots can be loaned at once, loan `k` is on slot `k`, and no slot changes. |
| Scenarios.ReturnEverySlot | pool_test.go:90-121 | When each worker returns its marked item, every slot holds its marked item and no lock is held. |
| Scenarios.UpdateEverySlotInTurn | pool_test.go:90-121 | Under any striping, each worker loaning its own slot, marking the item and returning it in turn leaves every slot holding its marked item, with no lock held and `Len()` unchanged. |
| Scenarios.EveryWorkerUpdatesItsSlot | pool_test.go:90-121 | With 100 items and 100 locks, one per slot, each worker flags its own item and every item ends up flagged. |

## Left out

- Real blocking, goroutines, `sync.WaitGroup`, sleeps and the random workers of the deadlock test are not modelled. Concurrency is modelled as interleavings of atomic loan and return steps, and a blocked `Lock()` is a step that is not enabled.
- The internals of `locks.NewPool`, `GetLock`, `KeyForString` and `KeyForBytes` are not part of this model. The index-to-lock mapping is a function value stored in the lock pool, and the two hashes are function parameters of the keyed loans.
- In-place mutation through `*T` pointers, and aliasing between the pool's slice and the caller's slice, are not modelled. Slot values are opaque `Option<T>` values, and a worker's in-place change shows up as the value it returns.
- Pools.Loan: requires an in-range index. Go has no such check: it takes the lock first and then panics on `pool.items[index]`, leaving that lock held. The panic path is not modelled.
- Pools.NewResourcePool: requires at least one item and a positive lock count. Go validates neither. An empty pool would divide by zero in `getIndex`, and a non-positive lock count is undefined in the collaborator.
- Pools.Return: requires only that the ticket's lock is held, as the Go closure at pool.go:37-41 unlocks whoever holds it. A second call of a used closure is therefore admitted once the same lock has been taken again, and it overwrites the slot and frees the other holder's lock. Only `Protocol`, which removes each ticket as it is returned, rules double returns out. A closure that is never called leaves its lock held. `Protocol` models this, but no liveness property about it is stated.
- Pools.Valid also bounds the slot count below 2^63. A Go slice length is an `int`, so every slot index fits the `uint64` index type.

## Findings

| source | as written | input that shows it | evidently intended | confidence | as-written member | corrected member |
|---|---|---|---|---|---|---|
| pool_test.go:168-200 | The integer and string fuzz tests pass the fuzzed `uint64` key straight to `pool.Loan(key)` on a one-item pool. | key = 1: `Loan(1)` takes a lock and then indexes `items[1]` of a one-element slice, which panics. | Resolve the key first with `LoanByUint64(key)` (or `LoanByString`), as the bytes and uint64 fuzz tests do, so any key reaches slot 0. | high, not executed | Scenarios.OneItemPoolRawIndex | Scenarios.OneItemPoolKeys |
