/**
 * `TransactionContext` (ep.hh): the flusher's view of the storage
 * transaction in progress.  Only its inline members have bodies: the
 * remaining-updates counter, the per-transaction size, the callback list
 * and the uncommitted-item counter.  The size change the context forwards
 * to its `KVStore` is recorded in a ghost log.
 */
module Transactions {

  /** The largest `size_t` plus one: the modulus of a conversion to `size_t`. */
  const SizeTModulus: int := 0x1_0000_0000_0000_0000

  /**
   * `remaining()` returns the signed `_remaining` as a `size_t`: a negative
   * count wraps around to a huge one.
   */
  function AsSizeT(x: int): (r: nat)
    requires -SizeTModulus <= x < SizeTModulus
    ensures r < SizeTModulus
    ensures r % SizeTModulus == x % SizeTModulus
    ensures x >= 0 <==> r == x
  {
    if x < 0 then x + SizeTModulus else x
  }

  /** A `PersistenceCallback*`, by identity. */
  type Callback = nat

  class TransactionContext {
    var remaining: int
    var txnSize: int
    var intxn: bool
    var numUncommittedItems: nat
    /** `transactionCallbacks`, in the order added. */
    var callbacks: seq<Callback>
    /** Every size forwarded through `processTxnSizeChange`, oldest first. */
    ghost var backendTxnSizes: seq<int>

    /** The constructor: no transaction open, nothing remaining, no callbacks. */
    constructor ()
      ensures remaining == 0 && !intxn && callbacks == [] && numUncommittedItems == 0
      ensures txnSize == 0 && backendTxnSizes == []
    {
      remaining, txnSize, intxn, numUncommittedItems := 0, 0, false, 0;
      callbacks := [];
      backendTxnSizes := [];
    }

    /** `remaining()`. */
    method Remaining() returns (r: nat)
      requires -SizeTModulus <= remaining < SizeTModulus
      ensures r == AsSizeT(remaining)
    {
      r := AsSizeT(remaining);
    }

    /** `commitSoon()`: a commit happens at the next opportunity. */
    method CommitSoon()
      modifies this
      ensures remaining == 0
      ensures txnSize == old(txnSize) && intxn == old(intxn) && callbacks == old(callbacks)
      ensures numUncommittedItems == old(numUncommittedItems) && backendTxnSizes == old(backendTxnSizes)
    {
      remaining := 0;
    }

    /** `getTxnSize()`. */
    method GetTxnSize() returns (size: int)
      ensures size == txnSize
    {
      size := txnSize;
    }

    /** `setTxnSize(to)`: take the new size and forward it to the store. */
    method SetTxnSize(to: int)
      modifies this
      ensures txnSize == to && backendTxnSizes == old(backendTxnSizes) + [to]
      ensures remaining == old(remaining) && intxn == old(intxn) && callbacks == old(callbacks)
      ensures numUncommittedItems == old(numUncommittedItems)
    {
      txnSize := to;
      backendTxnSizes := backendTxnSizes + [to];
    }

    /** `getNumUncommittedItems()`. */
    method GetNumUncommittedItems() returns (n: nat)
      ensures n == numUncommittedItems
    {
      n := numUncommittedItems;
    }

    /** `addCallback(cb)`: append, so callbacks run in the order they were added. */
    method AddCallback(cb: Callback)
      modifies this
      ensures callbacks == old(callbacks) + [cb]
      ensures remaining == old(remaining) && txnSize == old(txnSize) && intxn == old(intxn)
      ensures numUncommittedItems == old(numUncommittedItems) && backendTxnSizes == old(backendTxnSizes)
    {
      callbacks := callbacks + [cb];
    }
  }

  /** After `commitSoon`, `remaining()` reports zero. */
  method CommitSoonZeroesRemaining(t: TransactionContext) returns (r: nat)
    modifies t
    ensures r == 0
  {
    t.CommitSoon();
    r := t.Remaining();
  }

  /** After `setTxnSize(k)`, `getTxnSize()` reports k and the store has been told k last. */
  method SetThenGetTxnSize(t: TransactionContext, k: int) returns (size: int)
    modifies t
    ensures size == k
    ensures |t.backendTxnSizes| > 0 && t.backendTxnSizes[|t.backendTxnSizes| - 1] == k
  {
    t.SetTxnSize(k);
    size := t.GetTxnSize();
  }
}

/**
 * `EventuallyPersistentStore::shouldPreemptFlush` (ep.hh): the flusher yields
 * to background fetches once it has done over a hundred updates, when
 * fetches are queued and they would run on the flusher's own dispatcher.
 */
module FlushPreemption {

  /** A `Dispatcher*`, by identity. */
  type Dispatcher = nat

  /** The store state the predicate reads. */
  datatype StoreView = StoreView(bgFetchQueue: nat, dispatcher: Dispatcher, roDispatcher: Dispatcher)

  /** `hasSeparateRODispatcher()`: read-only work has a dispatcher of its own. */
  predicate HasSeparateRODispatcher(s: StoreView)
  {
    s.dispatcher != s.roDispatcher
  }

  /** The number of updates the flusher completes before it may yield. */
  const PreemptThreshold := 100

  predicate ShouldPreemptFlush(s: StoreView, completed: nat)
  {
    completed > PreemptThreshold && s.bgFetchQueue > 0 && !HasSeparateRODispatcher(s)
  }

  /** Once preemption is due, it stays due as more updates complete. */
  lemma PreemptMonotone(s: StoreView, completed: nat, later: nat)
    requires ShouldPreemptFlush(s, completed) && later >= completed
    ensures ShouldPreemptFlush(s, later)
  {
  }
}
