/** The external lock-pool and key-hashing collaborator (the go-locks
    package). Its source is not part of this model: the striping policy that
    maps a slot index to a lock id is kept abstract as a function value, and
    the string and byte hashes are passed in as function values by callers. */
module Locks {

  /** Exclusive upper bound of Go's `uint64`. */
  const UINT64_LIMIT: int := 0x1_0000_0000_0000_0000

  /** Exclusive upper bound of a Go `int` that is non-negative, the largest
      length a Go slice can have plus one. */
  const INT_LIMIT: int := 0x8000_0000_0000_0000

  type uint64 = x: int | 0 <= x < UINT64_LIMIT

  type byte = x: int | 0 <= x < 256

  /** A Go `string`: an immutable sequence of bytes, not necessarily valid
      UTF-8, which is what `KeyForString` hashes. */
  type GoString = seq<byte>

  /** A lock pool of `size` locks, addressed by lock id in `[0, size)`.
      `getLock` is the collaborator's index-to-lock mapping; it is a pure,
      deterministic function of the index. */
  datatype LockPool = LockPool(size: nat, getLock: uint64 -> nat) {

    ghost predicate Valid() {
      && size > 0
      && forall index: uint64 :: getLock(index) < size
    }
  }

  /** Models `locks.NewPool(amount)`: a pool of `amount` locks whose striping
      policy is `getLock`. */
  function NewPool(amount: int, getLock: uint64 -> nat): (lp: LockPool)
    requires amount > 0
    requires forall index: uint64 :: getLock(index) < amount
    ensures lp.Valid()
    ensures lp.size == amount
    ensures forall index: uint64 :: lp.getLock(index) == getLock(index)
  {
    LockPool(amount, getLock)
  }
}
