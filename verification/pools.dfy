/** The resource pool of pool.go as an immutable state with pure transitions.

    The state is the slot contents plus the set of lock ids currently held.
    Go's blocking `lock.Lock()` becomes the precondition that the lock is
    free; the closure that `Loan` hands out becomes a `Ticket` naming the slot
    index and the lock it captured, and calling the closure becomes `Return`. */
module Pools {
  import opened Wrappers
  import opened Locks

  /** What the return closure of `Loan` closes over: the slot index and the
      lock taken for it. */
  datatype Ticket = Ticket(index: uint64, lock: nat)

  /** `items` are the slots (a nil `*T` is `None`); `held` are the ids of the
      locks of `lockPool` that are currently locked. */
  datatype ResourcePool<T> = ResourcePool(items: seq<Option<T>>, lockPool: LockPool, held: set<nat>)

  /** The result of a loan: the slot value read under the lock, the ticket
      that stands for the return closure, and the pool after the lock is taken. */
  datatype Loaned<T> = Loaned(value: Option<T>, ticket: Ticket, pool: ResourcePool<T>)

  /** A pool as construction leaves it and every transition keeps it: a valid
      lock pool, at least one slot, a length a Go slice can have, and only
      lock ids of the lock pool held. */
  ghost predicate Valid<T>(p: ResourcePool<T>) {
    && p.lockPool.Valid()
    && 0 < |p.items| < INT_LIMIT
    && forall id :: id in p.held ==> id < p.lockPool.size
  }

  /** Models `NewResourcePool(items, locksAmount)`. The pool takes the items
      as its slots in order and starts with every lock free. */
  function NewResourcePool<T>(items: seq<Option<T>>, locksAmount: int, getLock: uint64 -> nat): (p: ResourcePool<T>)
    requires 0 < |items| < INT_LIMIT
    requires locksAmount > 0
    requires forall index: uint64 :: getLock(index) < locksAmount
    ensures Valid(p)
    ensures p.items == items
    ensures p.held == {}
    ensures p.lockPool.size == locksAmount
    ensures forall index: uint64 :: LockFor(p, index) == getLock(index)
  {
    ResourcePool(items, NewPool(locksAmount, getLock), {})
  }

  /** Models `Len`: the number of slots. */
  function Len<T>(p: ResourcePool<T>): (n: int)
    ensures Valid(p) ==> 0 < n < INT_LIMIT
  {
    |p.items|
  }

  /** Models `getIndex`: the slot a key resolves to, the unique residue of the
      key modulo the slot count. */
  function GetIndex<T>(p: ResourcePool<T>, key: uint64): (index: uint64)
    requires |p.items| > 0
    ensures index < |p.items|
    ensures index <= key
    ensures (key - index) % |p.items| == 0
  {
    var n := |p.items|;
    DivModUnique(key / n, n, 0);
    key % n
  }

  /** Models `pool.lockPool.GetLock(index)`: the lock guarding a slot. */
  function LockFor<T>(p: ResourcePool<T>, index: uint64): (id: nat)
    requires p.lockPool.Valid()
    ensures id < p.lockPool.size
  {
    p.lockPool.getLock(index)
  }

  /** `Loan(index)` can proceed without blocking and without an index panic. */
  predicate CanLoan<T>(p: ResourcePool<T>, index: uint64)
    requires p.lockPool.Valid()
  {
    index < |p.items| && LockFor(p, index) !in p.held
  }

  /** The ticket's lock is the lock of its slot and is currently held. This is
      all the Go closure relies on: it unlocks whoever holds the lock, so a
      second call of a used closure after the lock has been taken again is
      not excluded here; `Protocol` uses each ticket once. */
  predicate LockHeldFor<T>(p: ResourcePool<T>, t: Ticket)
    requires p.lockPool.Valid()
  {
    t.index < |p.items| && t.lock == LockFor(p, t.index) && t.lock in p.held
  }

  /** Models `Loan(index)`: take the slot's lock, then read the slot. No slot
      changes; the lock, which was free, is now held. */
  function Loan<T>(p: ResourcePool<T>, index: uint64): (r: Loaned<T>)
    requires Valid(p)
    requires CanLoan(p, index)
    ensures Valid(r.pool)
    ensures r.value == p.items[index]
    ensures r.pool.items == p.items
    ensures Len(r.pool) == Len(p)
    ensures r.pool.lockPool == p.lockPool
    ensures r.ticket.index == index
    ensures LockHeldFor(r.pool, r.ticket)
    ensures r.ticket.lock !in p.held
    ensures r.pool.held == p.held + {r.ticket.lock}
    ensures !CanLoan(r.pool, index)
  {
    var lock := LockFor(p, index);
    var acquired := p.(held := p.held + {lock});
    Loaned(p.items[index], Ticket(index, lock), acquired)
  }

  /** Models calling the closure returned by `Loan` with `item`: write `item`
      into the ticket's slot, then release the ticket's lock. Only that slot
      and that lock change. */
  function Return<T>(p: ResourcePool<T>, t: Ticket, item: Option<T>): (q: ResourcePool<T>)
    requires Valid(p)
    requires LockHeldFor(p, t)
    ensures Valid(q)
    ensures Len(q) == Len(p)
    ensures q.items[t.index] == item
    ensures forall j :: 0 <= j < |p.items| && j != t.index ==> q.items[j] == p.items[j]
    ensures q.lockPool == p.lockPool
    ensures t.lock !in q.held
    ensures q.held + {t.lock} == p.held
    ensures CanLoan(q, t.index)
  {
    var written := p.(items := p.items[t.index := item]);
    written.(held := written.held - {t.lock})
  }

  /** Models `LoanByUint64(key)`: loan the slot the key resolves to. */
  function LoanByUint64<T>(p: ResourcePool<T>, key: uint64): (r: Loaned<T>)
    requires Valid(p)
    requires CanLoan(p, GetIndex(p, key))
    ensures r == Loan(p, GetIndex(p, key))
    ensures r.ticket.index < |p.items|
    ensures (key - r.ticket.index) % |p.items| == 0
    ensures r.value == p.items[r.ticket.index]
  {
    var index := GetIndex(p, key);
    Loan(p, index)
  }

  /** Models `LoanByString(key)`: hash the key with the collaborator's
      `KeyForString`, then loan the slot the hash resolves to. */
  function LoanByString<T>(p: ResourcePool<T>, key: GoString, keyForString: GoString -> uint64): (r: Loaned<T>)
    requires Valid(p)
    requires CanLoan(p, GetIndex(p, keyForString(key)))
    ensures r == Loan(p, GetIndex(p, keyForString(key)))
    ensures (keyForString(key) - r.ticket.index) % |p.items| == 0
    ensures r.value == p.items[r.ticket.index]
  {
    var v := keyForString(key);
    var index := GetIndex(p, v);
    Loan(p, index)
  }

  /** Models `LoanByBytes(key)`: hash the key with the collaborator's
      `KeyForBytes`, then loan the slot the hash resolves to. */
  function LoanByBytes<T>(p: ResourcePool<T>, key: seq<byte>, keyForBytes: seq<byte> -> uint64): (r: Loaned<T>)
    requires Valid(p)
    requires CanLoan(p, GetIndex(p, keyForBytes(key)))
    ensures r == Loan(p, GetIndex(p, keyForBytes(key)))
    ensures (keyForBytes(key) - r.ticket.index) % |p.items| == 0
    ensures r.value == p.items[r.ticket.index]
  {
    var v := keyForBytes(key);
    var index := GetIndex(p, v);
    Loan(p, index)
  }

  // ---------------------------------------------------------------------------
  // Key resolution

  /** Two keys resolve to the same slot exactly when they differ by a multiple
      of the slot count: sharing a slot is determined by the residue alone. */
  lemma SameSlotIff<T>(p: ResourcePool<T>, a: uint64, b: uint64)
    requires |p.items| > 0
    ensures GetIndex(p, a) == GetIndex(p, b) <==> (a - b) % |p.items| == 0
  {
    var n := |p.items|;
    var ia, ib := GetIndex(p, a), GetIndex(p, b);
    var qa, qb := (a - ia) / n, (b - ib) / n;
    assert a == qa * n + ia;
    assert b == qb * n + ib;
    assert a - b == (qa - qb) * n + (ia - ib);
    if ia == ib {
      DivModUnique(qa - qb, n, 0);
    } else if ia > ib {
      DivModUnique(qa - qb, n, ia - ib);
    } else {
      assert a - b == (qa - qb - 1) * n + (n + ia - ib);
      DivModUnique(qa - qb - 1, n, n + ia - ib);
    }
  }

  /** `q * n + r` with `0 <= r < n` has quotient `q` and remainder `r`. */
  lemma DivModUnique(q: int, n: int, r: int)
    requires n > 0
    requires 0 <= r < n
    ensures (q * n + r) / n == q
    ensures (q * n + r) % n == r
  {
    var x := q * n + r;
    var q', r' := x / n, x % n;
    assert x == q' * n + r';
    assert (q - q') * n == r' - r by {
      assert (q - q') * n == q * n - q' * n;
    }
    if q > q' {
      MulAtLeast(q - q', n);
    } else if q < q' {
      assert (q' - q) * n == -((q - q') * n);
      MulAtLeast(q' - q, n);
    }
  }

  lemma {:induction false} MulAtLeast(k: int, n: int)
    requires k >= 1 && n > 0
    ensures k * n >= n
    decreases k
  {
    if k > 1 {
      MulAtLeast(k - 1, n);
      assert k * n == (k - 1) * n + n;
    }
  }

  /** Key resolution reads nothing of the pool but its length: pools with the
      same number of slots resolve every key alike, whatever their contents
      and locks. */
  lemma GetIndexOnlyReadsLength<T>(p: ResourcePool<T>, q: ResourcePool<T>, key: uint64)
    requires |p.items| > 0
    requires |q.items| == |p.items|
    ensures GetIndex(p, key) == GetIndex(q, key)
  {
  }

  /** A key below the slot count is its own slot, so `LoanByUint64` and `Loan`
      agree on such keys. */
  lemma SmallKeyIsIndex<T>(p: ResourcePool<T>, key: uint64)
    requires |p.items| > 0
    requires key < |p.items|
    ensures GetIndex(p, key) == key
  {
  }

  /** String and integer keys meet at the hash: `LoanByString(s)` is
      `LoanByUint64(KeyForString(s))`, and likewise for byte keys. */
  lemma HashedKeysMeetIntegerKeys<T>(p: ResourcePool<T>, s: GoString, b: seq<byte>,
                                    keyForString: GoString -> uint64, keyForBytes: seq<byte> -> uint64)
    requires Valid(p)
    ensures CanLoan(p, GetIndex(p, keyForString(s))) ==>
              LoanByString(p, s, keyForString) == LoanByUint64(p, keyForString(s))
    ensures CanLoan(p, GetIndex(p, keyForBytes(b))) ==>
              LoanByBytes(p, b, keyForBytes) == LoanByUint64(p, keyForBytes(b))
  {
  }

  /** A byte key and an integer key contend for the same slot exactly when
      the byte key's hash and the integer key leave the same residue. */
  lemma BytesAndIntegerKeysShareSlotIff<T>(p: ResourcePool<T>, b: seq<byte>, key: uint64,
                                          keyForBytes: seq<byte> -> uint64)
    requires Valid(p)
    requires CanLoan(p, GetIndex(p, keyForBytes(b)))
    requires CanLoan(p, GetIndex(p, key))
    ensures LoanByBytes(p, b, keyForBytes).ticket.index == LoanByUint64(p, key).ticket.index
            <==> (keyForBytes(b) - key) % |p.items| == 0
  {
    SameSlotIff(p, keyForBytes(b), key);
  }

  // ---------------------------------------------------------------------------
  // The loan/return protocol

  /** While a loan is outstanding, no loan can proceed on any slot guarded by
      the same lock: the lock is exclusive across its whole stripe. */
  lemma LoanExcludesStripe<T>(p: ResourcePool<T>, index: uint64, other: uint64)
    requires Valid(p)
    requires CanLoan(p, index)
    requires other < |p.items|
    ensures !CanLoan(Loan(p, index).pool, other) <==>
              (LockFor(p, other) == LockFor(p, index) || !CanLoan(p, other))
  {
  }

  /** Visibility: after a loan of slot `index` is returned with `item`, the
      next loan of `index` proceeds and observes `item`. */
  lemma ReturnedValueIsVisible<T>(p: ResourcePool<T>, index: uint64, item: Option<T>)
    requires Valid(p)
    requires CanLoan(p, index)
    ensures var q := Return(Loan(p, index).pool, Loan(p, index).ticket, item);
            CanLoan(q, index) && Loan(q, index).value == item
  {
  }

  /** Loaning a slot and handing back the value it gave out restores the
      pool exactly: same slots, same held locks. */
  lemma ReturnUnchangedIsIdentity<T>(p: ResourcePool<T>, index: uint64)
    requires Valid(p)
    requires CanLoan(p, index)
    ensures var r := Loan(p, index);
            Return(r.pool, r.ticket, r.value) == p
  {
  }

  /** A used ticket is accepted again once its slot has been loaned anew:
      the closure holds no record of having run, so calling it a second time
      would write over the new holder's slot and release the new holder's
      lock. */
  lemma StaleTicketMatchesNewLoan<T>(p: ResourcePool<T>, index: uint64, item: Option<T>)
    requires Valid(p)
    requires CanLoan(p, index)
    ensures var first := Loan(p, index);
            var q := Return(first.pool, first.ticket, item);
            var second := Loan(q, index);
            && second.ticket == first.ticket
            && LockHeldFor(second.pool, first.ticket)
  {
  }

  /** A loan and return of one slot leave every other slot as it was: loans
      of different slots do not interfere. */
  lemma LoanReturnFrame<T>(p: ResourcePool<T>, index: uint64, item: Option<T>, other: nat)
    requires Valid(p)
    requires CanLoan(p, index)
    requires other < |p.items| && other != index
    ensures Return(Loan(p, index).pool, Loan(p, index).ticket, item).items[other] == p.items[other]
    ensures Return(Loan(p, index).pool, Loan(p, index).ticket, item).held == p.held
  {
    var r := Loan(p, index);
    var q := Return(r.pool, r.ticket, item);
    assert q.held + {r.ticket.lock} == p.held + {r.ticket.lock};
  }
}
