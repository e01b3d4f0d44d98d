/** Many workers using one pool, as interleavings of loans and returns.

    A world is the pool plus the tickets of the loans not yet returned. Each
    action is one worker's `Loan(index)` or one worker's call of its return
    closure. An action whose lock is taken is not enabled: in Go the worker
    blocks and another worker moves first. The invariant is mutual exclusion
    (every held lock belongs to exactly one outstanding loan). From it follow
    that no step touches the slot of a loan that is out, and that on every
    slot loans and returns alternate, so no two workers ever hold the same
    slot and no update is lost. Independently of the locks, every loan reads
    the last value returned to its slot. */
module Protocol {
  import opened Wrappers
  import opened Locks
  import opened Pools

  /** `Borrow(index)` is a call of `Loan(index)`; `Release(k, item)` is the
      holder of the `k`-th outstanding loan calling its closure with `item`. */
  datatype Action<T> = Borrow(index: uint64) | Release(loan: nat, item: Option<T>)

  /** What one step shows: the value a loan read, or the value a return wrote. */
  datatype Event<T> = Observed(index: nat, value: Option<T>) | Stored(index: nat, value: Option<T>)

  datatype World<T> = World(pool: ResourcePool<T>, loans: seq<Ticket>)

  datatype Moved<T> = Moved(world: World<T>, event: Event<T>)

  datatype Trace<T> = Trace(world: World<T>, log: seq<Event<T>>)

  /** The slots of the given loans. */
  function IndicesOf(loans: seq<Ticket>): set<nat> {
    set k | 0 <= k < |loans| :: loans[k].index as nat
  }

  /** The locks taken by the given loans. */
  function LocksOf(loans: seq<Ticket>): set<nat> {
    set k | 0 <= k < |loans| :: loans[k].lock
  }

  /** Mutual exclusion: the held locks are exactly those of the outstanding
      loans, and no two outstanding loans share a lock. */
  ghost predicate Inv<T>(w: World<T>) {
    && Valid(w.pool)
    && w.pool.held == LocksOf(w.loans)
    && (forall k :: 0 <= k < |w.loans| ==> LockHeldFor(w.pool, w.loans[k]))
    && (forall a, b :: 0 <= a < b < |w.loans| ==> w.loans[a].lock != w.loans[b].lock)
  }

  /** The value of the last return to slot `i` in `log`, or `initial` when
      nothing was returned to it. */
  function LastStored<T>(log: seq<Event<T>>, i: nat, initial: Option<T>): Option<T> {
    if log == [] then initial
    else
      var e := log[|log| - 1];
      if e.Stored? && e.index == i then e.value else LastStored(log[..|log| - 1], i, initial)
  }

  /** The same sequence without its `k`-th element. */
  function Without(loans: seq<Ticket>, k: nat): (r: seq<Ticket>)
    requires k < |loans|
    ensures |r| == |loans| - 1
    ensures forall j :: 0 <= j < k ==> r[j] == loans[j]
    ensures forall j :: k <= j < |r| ==> r[j] == loans[j + 1]
  {
    loans[..k] + loans[k + 1..]
  }

  /** A freshly constructed pool with no loans out. */
  lemma InitialWorld<T>(items: seq<Option<T>>, locksAmount: int, getLock: uint64 -> nat)
    requires 0 < |items| < INT_LIMIT
    requires locksAmount > 0
    requires forall index: uint64 :: getLock(index) < locksAmount
    ensures Inv(World(NewResourcePool(items, locksAmount, getLock), []))
  {
    assert LocksOf([]) == {};
  }

  /** One action. `None` means the action cannot be taken now: the lock of
      the slot to loan is held (Go blocks), the index is out of range (Go
      panics), or there is no such outstanding loan to return. */
  function Step<T>(w: World<T>, a: Action<T>): (r: Option<Moved<T>>)
    requires Inv(w)
    ensures r.Some? <==> (a.Borrow? && CanLoan(w.pool, a.index)) || (a.Release? && a.loan < |w.loans|)
    ensures r.Some? ==> Inv(r.value.world)
    ensures r.Some? ==> Len(r.value.world.pool) == Len(w.pool)
    ensures r.Some? ==> r.value.world.pool.lockPool == w.pool.lockPool
    ensures r.Some? && a.Borrow? ==>
              && r.value.event == Observed(a.index, w.pool.items[a.index])
              && r.value.world.loans == w.loans + [Ticket(a.index, LockFor(w.pool, a.index))]
    ensures r.Some? && a.Release? ==>
              && r.value.event == Stored(w.loans[a.loan].index, a.item)
              && r.value.world.loans == Without(w.loans, a.loan)
    ensures r.Some? ==> r.value.event.index < |w.pool.items|
    ensures r.Some? && r.value.event.Observed? ==>
              r.value.event.value == w.pool.items[r.value.event.index]
    ensures r.Some? ==> forall i :: 0 <= i < |w.pool.items| ==>
              r.value.world.pool.items[i] == LastStored([r.value.event], i, w.pool.items[i])
  {
    match a
    case Borrow(index) =>
      if CanLoan(w.pool, index) then
        var l := Loan(w.pool, index);
        var loans := w.loans + [l.ticket];
        assert LocksOf(loans) == LocksOf(w.loans) + {l.ticket.lock} by {
          LocksOfAppend(w.loans, l.ticket);
        }
        Some(Moved(World(l.pool, loans), Observed(index, l.value)))
      else
        None
    case Release(k, item) =>
      if k < |w.loans| then
        var t := w.loans[k];
        var q := Return(w.pool, t, item);
        var loans := Without(w.loans, k);
        assert LocksOf(loans) == LocksOf(w.loans) - {t.lock} by {
          LocksOfWithout(w.loans, k);
        }
        Some(Moved(World(q, loans), Stored(t.index, item)))
      else
        None
  }

  lemma LocksOfAppend(loans: seq<Ticket>, t: Ticket)
    ensures LocksOf(loans + [t]) == LocksOf(loans) + {t.lock}
  {
    var s := loans + [t];
    forall id | id in LocksOf(s)
      ensures id in LocksOf(loans) + {t.lock}
    {
      var k :| 0 <= k < |s| && s[k].lock == id;
      if k < |loans| {
        assert loans[k].lock == id;
      }
    }
    forall id | id in LocksOf(loans)
      ensures id in LocksOf(s)
    {
      var k :| 0 <= k < |loans| && loans[k].lock == id;
      assert s[k].lock == id;
    }
    assert s[|loans|].lock == t.lock;
  }

  lemma LocksOfWithout(loans: seq<Ticket>, k: nat)
    requires k < |loans|
    requires forall a, b :: 0 <= a < b < |loans| ==> loans[a].lock != loans[b].lock
    ensures LocksOf(Without(loans, k)) == LocksOf(loans) - {loans[k].lock}
  {
    var s := Without(loans, k);
    forall id | id in LocksOf(s)
      ensures id in LocksOf(loans) - {loans[k].lock}
    {
      var j :| 0 <= j < |s| && s[j].lock == id;
      if j < k {
        assert loans[j].lock == id;
      } else {
        assert loans[j + 1].lock == id;
      }
    }
    forall id | id in LocksOf(loans) - {loans[k].lock}
      ensures id in LocksOf(s)
    {
      var j :| 0 <= j < |loans| && loans[j].lock == id;
      if j < k {
        assert s[j].lock == id;
      } else {
        assert j != k;
        assert s[j - 1].lock == id;
      }
    }
  }

  /** The event `e` is the one action `a` logs: a loan logs an observation of
      its own slot, and a return logs a store of its own argument. */
  ghost predicate Logs<T>(a: Action<T>, e: Event<T>) {
    && (e.Observed? <==> a.Borrow?)
    && (a.Borrow? ==> e.index == a.index)
    && (a.Release? ==> e.value == a.item)
  }

  /** Runs the actions in order. `None` when some action is not enabled at
      its turn, so a run is one interleaving the workers can really take. */
  function Run<T>(w: World<T>, acts: seq<Action<T>>): (r: Option<Trace<T>>)
    requires Inv(w)
    ensures r.Some? ==> Inv(r.value.world)
    ensures r.Some? ==> |r.value.log| == |acts|
    ensures r.Some? ==> forall k :: 0 <= k < |acts| ==> Logs(acts[k], r.value.log[k])
    ensures r.Some? ==> Len(r.value.world.pool) == Len(w.pool)
    ensures r.Some? ==> r.value.world.pool.lockPool == w.pool.lockPool
    ensures r.Some? ==> forall k :: 0 <= k < |r.value.log| ==> r.value.log[k].index < |w.pool.items|
    decreases |acts|
  {
    if acts == [] then Some(Trace(w, []))
    else
      match Step(w, acts[0])
      case None => None
      case Some(m) =>
        match Run(m.world, acts[1..])
        case None => None
        case Some(t) => Some(Trace(t.world, [m.event] + t.log))
  }

  // ---------------------------------------------------------------------------
  // Mutual exclusion

  /** A loan can proceed exactly when no outstanding loan holds the lock of
      its slot, whichever slot of the stripe that loan is on. */
  lemma BorrowEnabledIff<T>(w: World<T>, index: uint64)
    requires Inv(w)
    requires index < |w.pool.items|
    ensures Step(w, Borrow(index)).Some? <==>
              forall k :: 0 <= k < |w.loans| ==> LockFor(w.pool, w.loans[k].index) != LockFor(w.pool, index)
  {
    if Step(w, Borrow(index)).None? {
      var id := LockFor(w.pool, index);
      assert id in LocksOf(w.loans);
      var k :| 0 <= k < |w.loans| && w.loans[k].lock == id;
      assert LockFor(w.pool, w.loans[k].index) == id;
    }
  }

  /** In every reachable world, outstanding loans of slots that share a lock
      never coexist; in particular no slot is loaned twice at once. */
  lemma {:induction false} RunKeepsExclusion<T>(w: World<T>, acts: seq<Action<T>>)
    requires Inv(w)
    requires Run(w, acts).Some?
    ensures var v := Run(w, acts).value.world;
            forall a, b :: 0 <= a < b < |v.loans| ==>
              LockFor(v.pool, v.loans[a].index) != LockFor(v.pool, v.loans[b].index)
  {
    var v := Run(w, acts).value.world;
    forall a, b | 0 <= a < b < |v.loans|
      ensures LockFor(v.pool, v.loans[a].index) != LockFor(v.pool, v.loans[b].index)
    {
      assert LockHeldFor(v.pool, v.loans[a]) && LockHeldFor(v.pool, v.loans[b]);
    }
  }

  /** While a loan is out, no step other than its own return writes its slot
      or takes it away: the borrower's slot is exclusively the borrower's. */
  lemma OutstandingSlotUntouched<T>(w: World<T>, a: Action<T>, k: nat)
    requires Inv(w)
    requires k < |w.loans|
    requires Step(w, a).Some?
    requires !(a.Release? && a.loan == k)
    ensures Step(w, a).value.world.pool.items[w.loans[k].index] == w.pool.items[w.loans[k].index]
    ensures w.loans[k] in Step(w, a).value.world.loans
  {
  }

  /** Two outstanding loans are never on the same slot. */
  lemma OneLoanPerSlot<T>(w: World<T>, a: nat, b: nat)
    requires Inv(w)
    requires a < b < |w.loans|
    ensures w.loans[a].index != w.loans[b].index
  {
  }

  lemma IndicesOfAppend(loans: seq<Ticket>, t: Ticket)
    ensures IndicesOf(loans + [t]) == IndicesOf(loans) + {t.index as nat}
  {
    var s := loans + [t];
    forall i | i in IndicesOf(s)
      ensures i in IndicesOf(loans) + {t.index as nat}
    {
      var k :| 0 <= k < |s| && s[k].index as nat == i;
      if k < |loans| {
        assert loans[k].index as nat == i;
      }
    }
    forall i | i in IndicesOf(loans)
      ensures i in IndicesOf(s)
    {
      var k :| 0 <= k < |loans| && loans[k].index as nat == i;
      assert s[k].index as nat == i;
    }
    assert s[|loans|].index == t.index;
  }

  lemma IndicesOfWithout(loans: seq<Ticket>, k: nat)
    requires k < |loans|
    requires forall a, b :: 0 <= a < b < |loans| ==> loans[a].index != loans[b].index
    ensures IndicesOf(Without(loans, k)) == IndicesOf(loans) - {loans[k].index as nat}
  {
    var s := Without(loans, k);
    forall i | i in IndicesOf(s)
      ensures i in IndicesOf(loans) - {loans[k].index as nat}
    {
      var j :| 0 <= j < |s| && s[j].index as nat == i;
      if j < k {
        assert loans[j].index as nat == i;
      } else {
        assert loans[j + 1].index as nat == i;
      }
    }
    forall i | i in IndicesOf(loans) - {loans[k].index as nat}
      ensures i in IndicesOf(s)
    {
      var j :| 0 <= j < |loans| && loans[j].index as nat == i;
      if j < k {
        assert s[j].index as nat == i;
      } else {
        assert s[j - 1].index as nat == i;
      }
    }
  }

  /** How one step changes the set of slots on loan: a loan opens a slot that
      was not on loan, a return closes a slot that was, and no other slot
      changes. */
  lemma StepOpensOrClosesItsSlot<T>(w: World<T>, a: Action<T>)
    requires Inv(w)
    requires Step(w, a).Some?
    ensures var m := Step(w, a).value;
            && (m.event.Observed? ==> m.event.index !in IndicesOf(w.loans))
            && (m.event.Stored? ==> m.event.index in IndicesOf(w.loans))
            && forall i :: i in IndicesOf(m.world.loans) <==>
                 (if i == m.event.index then m.event.Observed? else i in IndicesOf(w.loans))
  {
    match a
    case Borrow(index) =>
      IndicesOfAppend(w.loans, Ticket(index, LockFor(w.pool, index)));
    case Release(j, item) =>
      forall x, y | 0 <= x < y < |w.loans|
        ensures w.loans[x].index != w.loans[y].index
      {
        OneLoanPerSlot(w, x, y);
      }
      IndicesOfWithout(w.loans, j);
  }

  /** On slot `i`, the events of `log` alternate between a loan and a return,
      starting with a loan when `open` is false (no loan on `i` is out) and
      with a return when it is true. */
  predicate Alternates<T>(log: seq<Event<T>>, i: nat, open: bool)
    decreases |log|
  {
    if log == [] then true
    else if log[0].index != i then Alternates(log[1..], i, open)
    else if log[0].Observed? then !open && Alternates(log[1..], i, true)
    else open && Alternates(log[1..], i, false)
  }

  /** In every interleaving, on every slot, loans and returns alternate: a
      slot is never loaned a second time before the first loan is returned,
      and it is never returned without being on loan. So two workers never
      hold one slot at once, and no worker's return overwrites a value that
      another worker wrote after it borrowed: no update is lost. */
  lemma {:induction false} LoansAndReturnsAlternate<T>(w: World<T>, acts: seq<Action<T>>)
    requires Inv(w)
    requires Run(w, acts).Some?
    ensures var t := Run(w, acts).value;
            forall i :: 0 <= i < |w.pool.items| ==> Alternates(t.log, i, i in IndicesOf(w.loans))
    decreases |acts|
  {
    var t := Run(w, acts).value;
    if acts != [] {
      var m := Step(w, acts[0]).value;
      var rest := Run(m.world, acts[1..]).value;
      LoansAndReturnsAlternate(m.world, acts[1..]);
      StepOpensOrClosesItsSlot(w, acts[0]);
      assert t.log == [m.event] + rest.log;
      assert t.log[0] == m.event && t.log[1..] == rest.log;
    }
  }

  // ---------------------------------------------------------------------------
  // Reads see the last write

  lemma {:induction false} LastStoredPrepend<T>(e: Event<T>, log: seq<Event<T>>, i: nat, initial: Option<T>)
    ensures LastStored([e] + log, i, initial) == LastStored(log, i, LastStored([e], i, initial))
    decreases |log|
  {
    if log != [] {
      var s := [e] + log;
      assert s[..|s| - 1] == [e] + log[..|log| - 1];
      LastStoredPrepend(e, log[..|log| - 1], i, initial);
    } else {
      assert [e] + log == [e];
    }
  }

  /** After a run, every slot holds the value of the last return to it, or
      its starting value if there was none. */
  lemma {:induction false} RunEndsWithLastStored<T>(w: World<T>, acts: seq<Action<T>>)
    requires Inv(w)
    requires Run(w, acts).Some?
    ensures var t := Run(w, acts).value;
            forall i :: 0 <= i < |w.pool.items| ==>
              t.world.pool.items[i] == LastStored(t.log, i, w.pool.items[i])
    decreases |acts|
  {
    var t := Run(w, acts).value;
    if acts == [] {
      assert t.world == w;
    } else {
      var m := Step(w, acts[0]).value;
      var rest := Run(m.world, acts[1..]).value;
      RunEndsWithLastStored(m.world, acts[1..]);
      assert t.log == [m.event] + rest.log;
      forall i | 0 <= i < |w.pool.items|
        ensures t.world.pool.items[i] == LastStored(t.log, i, w.pool.items[i])
      {
        LastStoredPrepend(m.event, rest.log, i, w.pool.items[i]);
      }
    }
  }

  /** Putting one event in front of a log whose loans read the last stored
      values: if the event's own read is right, and the slots it leaves
      reflect its own write, every read of the longer log is right too. */
  lemma ReadsLastStoredPrepend<T>(e: Event<T>, rest: seq<Event<T>>, before: seq<Option<T>>, after: seq<Option<T>>)
    requires |after| == |before|
    requires e.index < |before|
    requires forall i :: 0 <= i < |before| ==> after[i] == LastStored([e], i, before[i])
    requires e.Observed? ==> e.value == before[e.index]
    requires forall k :: 0 <= k < |rest| ==> rest[k].index < |before|
    requires forall k :: 0 <= k < |rest| && rest[k].Observed? ==>
               rest[k].value == LastStored(rest[..k], rest[k].index, after[rest[k].index])
    ensures var log := [e] + rest;
            forall k :: 0 <= k < |log| && log[k].Observed? ==>
              log[k].value == LastStored(log[..k], log[k].index, before[log[k].index])
  {
    var log := [e] + rest;
    forall k | 0 <= k < |log| && log[k].Observed?
      ensures log[k].value == LastStored(log[..k], log[k].index, before[log[k].index])
    {
      var i := log[k].index;
      if k == 0 {
        assert log[..k] == [];
      } else {
        assert log[k] == rest[k - 1];
        assert log[..k] == [e] + rest[..k - 1];
        LastStoredPrepend(e, rest[..k - 1], i, before[i]);
      }
    }
  }

  /** Every loan in a run observes the value of the last earlier return to
      its slot, or the slot's starting value if there was none. */
  lemma {:induction false} RunReadsLastStored<T>(w: World<T>, acts: seq<Action<T>>)
    requires Inv(w)
    requires Run(w, acts).Some?
    ensures var t := Run(w, acts).value;
            forall k :: 0 <= k < |t.log| && t.log[k].Observed? ==>
              t.log[k].value == LastStored(t.log[..k], t.log[k].index, w.pool.items[t.log[k].index])
    decreases |acts|
  {
    var t := Run(w, acts).value;
    if acts != [] {
      var m := Step(w, acts[0]).value;
      var rest := Run(m.world, acts[1..]).value;
      RunReadsLastStored(m.world, acts[1..]);
      ReadsLastStoredPrepend(m.event, rest.log, w.pool.items, m.world.pool.items);
      assert t.log == [m.event] + rest.log;
    }
  }

  /** Every loan in a run observes the value of the last return to its slot
      before it (or the slot's starting value), and afterwards every slot
      holds the value of the last return to it. This is visibility; that the
      returns to a slot do not overlap is `LoansAndReturnsAlternate`. */
  lemma NoLostUpdates<T>(w: World<T>, acts: seq<Action<T>>)
    requires Inv(w)
    requires Run(w, acts).Some?
    ensures var t := Run(w, acts).value;
            forall i :: 0 <= i < |w.pool.items| ==>
              t.world.pool.items[i] == LastStored(t.log, i, w.pool.items[i])
    ensures var t := Run(w, acts).value;
            forall k :: 0 <= k < |t.log| && t.log[k].Observed? ==>
              t.log[k].value == LastStored(t.log[..k], t.log[k].index, w.pool.items[t.log[k].index])
  {
    RunEndsWithLastStored(w, acts);
    RunReadsLastStored(w, acts);
  }

  // ---------------------------------------------------------------------------
  // No deadlock inside the pool

  /** Whatever loans are out, their holders can always return them one after
      another; once they have, every slot can be loaned again. Returning each
      slot's current value leaves the slots as they were. */
  method ReturnAll<T>(w: World<T>) returns (v: World<T>)
    requires Inv(w)
    ensures Inv(v)
    ensures v.loans == []
    ensures v.pool.held == {}
    ensures v.pool.items == w.pool.items
    ensures forall i: uint64 :: i < |w.pool.items| ==> CanLoan(v.pool, i)
  {
    v := w;
    while v.loans != []
      invariant Inv(v)
      invariant v.pool.items == w.pool.items
      invariant v.pool.lockPool == w.pool.lockPool
      decreases |v.loans|
    {
      var t := v.loans[0];
      var m := Step(v, Release(0, v.pool.items[t.index]));
      v := m.value.world;
    }
  }
}
