/** The situations the repository's tests exercise, stated over the model.
    The lock-pool striping stays a parameter. Every scenario holds for every
    striping policy that maps indices into the lock pool, except those that
    hold all loans at once, which need one lock per slot. */
module Scenarios {
  import opened Wrappers
  import opened Locks
  import opened Pools
  import opened Protocol

  /** The record the tests put in the pool. */
  datatype TestItem = TestItem(id: int, update: bool)

  /** A pool of `n` fresh test items with ids `0..n-1`. */
  function FreshItems(n: nat): (items: seq<Option<TestItem>>)
    ensures |items| == n
    ensures forall i :: 0 <= i < n ==> items[i] == Some(TestItem(i, false))
  {
    seq(n, i => Some(TestItem(i, false)))
  }

  /** Sets the `update` flag of a present item, as the workers do in place. */
  function MarkUpdated(item: Option<TestItem>): (r: Option<TestItem>)
    ensures r.Some? <==> item.Some?
    ensures r.Some? ==> r.value.update && r.value.id == item.value.id
  {
    match item
    case None => None
    case Some(t) => Some(t.(update := true))
  }

  /** One item, ten locks: loan slot 0, set the flag, return the item; the
      pool now holds the flagged item and the next loan sees it. */
  lemma UpdateThenReturnIsSeen(getLock: uint64 -> nat)
    requires forall index: uint64 :: getLock(index) < 10
    ensures var p := NewResourcePool([Some(TestItem(1, false))], 10, getLock);
            var l := Loan(p, 0);
            var q := Return(l.pool, l.ticket, MarkUpdated(l.value));
            && l.value == Some(TestItem(1, false))
            && q.items == [Some(TestItem(1, true))]
            && q.held == {}
            && CanLoan(q, 0)
            && Loan(q, 0).value == Some(TestItem(1, true))
  {
    var p := NewResourcePool([Some(TestItem(1, false))], 10, getLock);
    var l := Loan(p, 0);
    var q := Return(l.pool, l.ticket, MarkUpdated(l.value));
    assert q.items == [Some(TestItem(1, true))];
  }

  /** In a one-item pool every key, integer, string or bytes, resolves to the
      single slot, so each keyed loan proceeds and hands out that item. */
  lemma OneItemPoolKeys(getLock: uint64 -> nat, key: uint64, s: GoString, b: seq<byte>,
                        keyForString: GoString -> uint64, keyForBytes: seq<byte> -> uint64)
    requires forall index: uint64 :: getLock(index) < 10
    ensures var p := NewResourcePool([Some(TestItem(1, false))], 10, getLock);
            && CanLoan(p, GetIndex(p, key))
            && LoanByUint64(p, key).value == Some(TestItem(1, false))
            && CanLoan(p, GetIndex(p, keyForString(s)))
            && LoanByString(p, s, keyForString).value == Some(TestItem(1, false))
            && CanLoan(p, GetIndex(p, keyForBytes(b)))
            && LoanByBytes(p, b, keyForBytes).value == Some(TestItem(1, false))
  {
  }

  /** The same one-item pool with the key passed to `Loan` directly, as the
      integer and string fuzz tests do: only key 0 is a slot index, every
      other key is out of range (in Go, an index panic). */
  lemma OneItemPoolRawIndex(getLock: uint64 -> nat, key: uint64)
    requires forall index: uint64 :: getLock(index) < 10
    ensures var p := NewResourcePool([Some(TestItem(1, false))], 10, getLock);
            (CanLoan(p, key) <==> key == 0) && (key != 0 ==> key >= Len(p))
  {
  }

  /** Two workers on one item: while the first holds its loan of slot 0 the
      second cannot loan it; once the first has written id 2 and returned,
      the second sees id 2 with the flag set, writes id 3, and the slot ends
      with id 3. */
  lemma SecondLoanWaitsForFirst(getLock: uint64 -> nat)
    requires forall index: uint64 :: getLock(index) < 10
    ensures var w := World(NewResourcePool([Some(TestItem(1, false))], 10, getLock), []);
            && Inv(w)
            && Run(w, [Borrow(0), Borrow(0)]).None?
            && var acts := [Borrow(0), Release(0, Some(TestItem(2, true))),
                            Borrow(0), Release(0, Some(TestItem(3, true)))];
               && Run(w, acts).Some?
               && Run(w, acts).value.log[2] == Observed(0, Some(TestItem(2, true)))
               && Run(w, acts).value.world.pool.items == [Some(TestItem(3, true))]
  {
    var w := World(NewResourcePool([Some(TestItem(1, false))], 10, getLock), []);
    InitialWorld([Some(TestItem(1, false))], 10, getLock);
    var w1 := Step(w, Borrow(0)).value.world;
    var w2 := Step(w1, Release(0, Some(TestItem(2, true)))).value.world;
    var w3 := Step(w2, Borrow(0)).value.world;
    var w4 := Step(w3, Release(0, Some(TestItem(3, true)))).value.world;
    assert Step(w1, Borrow(0)).None?;
    assert [Borrow(0), Borrow(0)][1..] == [Action<TestItem>.Borrow(0)];
    var acts := [Borrow(0), Release(0, Some(TestItem(2, true))), Borrow(0), Release(0, Some(TestItem(3, true)))];
    assert acts[1..][1..][1..][1..] == [];
    assert w4.pool.items == [Some(TestItem(3, true))];
  }

  /** With a striping that gives every slot its own lock, every slot can be
      loaned at once: no loan blocks another. Afterwards the k-th loan is on
      slot k and no slot has changed. */
  method BorrowEverySlot<T>(w: World<T>) returns (v: World<T>)
    requires Inv(w)
    requires w.loans == []
    requires forall i: uint64, j: uint64 :: i < j < |w.pool.items| ==> LockFor(w.pool, i) != LockFor(w.pool, j)
    ensures Inv(v)
    ensures |v.loans| == |w.pool.items|
    ensures forall k :: 0 <= k < |v.loans| ==> v.loans[k].index == k
    ensures v.pool.items == w.pool.items
    ensures v.pool.lockPool == w.pool.lockPool
  {
    v := w;
    var k: uint64 := 0;
    while k < |w.pool.items|
      invariant k <= |w.pool.items|
      invariant Inv(v)
      invariant v.pool.items == w.pool.items
      invariant v.pool.lockPool == w.pool.lockPool
      invariant |v.loans| == k
      invariant forall j :: 0 <= j < k ==> v.loans[j].index == j
    {
      forall j | 0 <= j < k
        ensures v.loans[j].lock != LockFor(v.pool, k)
      {
        assert LockHeldFor(v.pool, v.loans[j]);
        var i: uint64 := j;
        assert LockFor(w.pool, i) != LockFor(w.pool, k);
      }
      assert LockFor(v.pool, k) !in LocksOf(v.loans);
      var m := Step(v, Borrow(k));
      v := m.value.world;
      k := k + 1;
    }
  }

  /** Each worker holding the loan of its own slot applies `mark` and returns
      the result; afterwards every slot holds its marked item and every lock
      is free. */
  method ReturnEverySlot<T>(w: World<T>, mark: Option<T> -> Option<T>) returns (v: World<T>)
    requires Inv(w)
    requires |w.loans| == |w.pool.items|
    requires forall k :: 0 <= k < |w.loans| ==> w.loans[k].index == k
    ensures Inv(v)
    ensures v.loans == []
    ensures v.pool.held == {}
    ensures Len(v.pool) == Len(w.pool)
    ensures forall i :: 0 <= i < |w.pool.items| ==> v.pool.items[i] == mark(w.pool.items[i])
  {
    v := w;
    var k := 0;
    while k < |w.pool.items|
      invariant k <= |w.pool.items|
      invariant Inv(v)
      invariant |v.pool.items| == |w.pool.items|
      invariant |v.loans| == |w.pool.items| - k
      invariant forall j :: 0 <= j < |v.loans| ==> v.loans[j].index == k + j
      invariant forall i :: 0 <= i < k ==> v.pool.items[i] == mark(w.pool.items[i])
      invariant forall i :: k <= i < |w.pool.items| ==> v.pool.items[i] == w.pool.items[i]
    {
      var m := Step(v, Release(0, mark(v.pool.items[k])));
      v := m.value.world;
      k := k + 1;
    }
    assert LocksOf(v.loans) == {};
  }

  /** Under any striping, the workers of a pool can each loan their own
      slot, apply `mark` and return it, one after another; afterwards every
      slot holds its marked item and every lock is free. */
  method UpdateEverySlotInTurn<T>(w: World<T>, mark: Option<T> -> Option<T>) returns (v: World<T>)
    requires Inv(w)
    requires w.loans == []
    ensures Inv(v)
    ensures v.loans == []
    ensures v.pool.held == {}
    ensures Len(v.pool) == Len(w.pool)
    ensures forall i :: 0 <= i < |w.pool.items| ==> v.pool.items[i] == mark(w.pool.items[i])
  {
    v := w;
    var k: uint64 := 0;
    while k < |w.pool.items|
      invariant k <= |w.pool.items|
      invariant Inv(v)
      invariant v.loans == []
      invariant |v.pool.items| == |w.pool.items|
      invariant forall i :: 0 <= i < k ==> v.pool.items[i] == mark(w.pool.items[i])
      invariant forall i :: k <= i < |w.pool.items| ==> v.pool.items[i] == w.pool.items[i]
    {
      assert LocksOf(v.loans) == {};
      var loaned := Step(v, Borrow(k)).value;
      var returned := Step(loaned.world, Release(0, mark(loaned.event.value))).value;
      v := returned.world;
      k := k + 1;
    }
    assert LocksOf(v.loans) == {};
  }

  /** One hundred items, one hundred locks, one lock per slot: one hundred
      workers each loan their own slot, set the flag and return it; every
      item ends up flagged. */
  method EveryWorkerUpdatesItsSlot(getLock: uint64 -> nat) returns (v: World<TestItem>)
    requires forall index: uint64 :: getLock(index) < 100
    requires forall i: uint64, j: uint64 :: i < j < 100 ==> getLock(i) != getLock(j)
    ensures Inv(v)
    ensures |v.pool.items| == 100
    ensures forall i :: 0 <= i < 100 ==> v.pool.items[i] == Some(TestItem(i, true))
  {
    var w := World(NewResourcePool(FreshItems(100), 100, getLock), []);
    InitialWorld(FreshItems(100), 100, getLock);
    var loaned := BorrowEverySlot(w);
    v := ReturnEverySlot(loaned, MarkUpdated);
  }
}
