/** The buffer pool `allocator_type<T, blck_size>`.

    Storage slots are abstract addresses. The backing allocator hands out
    a fresh address on every `allocate(1)` (modelled by a counter `next`)
    and takes addresses back on `deallocate`. The pool keeps up to
    `blckSize` free slots in an array used as a LIFO stack whose height is
    `offset` (the source's `mOffset`). */
module BufferPool {

  type Addr = nat

  /** The abstract state of a pool: the pooled slots, oldest first, and the
      backing allocator's next fresh address. */
  datatype PoolState = PoolState(pooled: seq<Addr>, next: nat)

  /** What `alloc` does: the most recently pooled slot, or fresh backing
      storage when the pool is empty. */
  function AllocStep(st: PoolState): (Addr, PoolState) {
    if |st.pooled| > 0 then
      (st.pooled[|st.pooled| - 1], st.(pooled := st.pooled[..|st.pooled| - 1]))
    else
      (st.next, st.(next := st.next + 1))
  }

  /** What `free(p)` does: pools `p` while fewer than `blckSize` slots are
      pooled; otherwise hands `p` back to the backing allocator (the
      boolean says whether it did). */
  function FreeStep(st: PoolState, blckSize: nat, p: Addr): (PoolState, bool) {
    if |st.pooled| < blckSize then (st.(pooled := st.pooled + [p]), false)
    else (st, true)
  }

  /** The number of slots the constructor pools: the smallest count that
      is at least half of `blckSize`. */
  function InitialCount(blckSize: nat): (n: nat)
    ensures 2 * n >= blckSize && 2 * (n - 1) < blckSize
    ensures n <= blckSize
  {
    (blckSize + 1) / 2
  }

  /** A request to the pool. */
  datatype Request = AllocRequest | FreeRequest(addr: Addr)

  /** The state after serving `reqs` in order. */
  function Serve(st: PoolState, blckSize: nat, reqs: seq<Request>): PoolState
    decreases |reqs|
  {
    if |reqs| == 0 then st
    else
      var st' := match reqs[0]
        case AllocRequest => AllocStep(st).1
        case FreeRequest(p) => FreeStep(st, blckSize, p).0;
      Serve(st', blckSize, reqs[1..])
  }

  /** The number of alloc requests in `reqs`. */
  function AllocCount(reqs: seq<Request>): nat
    decreases |reqs|
  {
    if |reqs| == 0 then 0
    else (if reqs[0].AllocRequest? then 1 else 0) + AllocCount(reqs[1..])
  }

  /** free(p) then alloc() returns p and restores the pool, provided the
      pool had room for p. */
  lemma FreeThenAlloc(st: PoolState, blckSize: nat, p: Addr)
    requires |st.pooled| < blckSize
    ensures AllocStep(FreeStep(st, blckSize, p).0) == (p, st)
  {
    assert (st.pooled + [p])[..|st.pooled|] == st.pooled;
  }

  /** free on a full pool hands the slot back and leaves the pool as it was. */
  lemma FreeWhenFull(st: PoolState, blckSize: nat, p: Addr)
    requires |st.pooled| == blckSize
    ensures FreeStep(st, blckSize, p) == (st, true)
  {
  }

  /** alloc takes fresh backing storage exactly when the pool is empty. */
  lemma AllocFresh(st: PoolState)
    ensures AllocStep(st).1.next == st.next + (if |st.pooled| == 0 then 1 else 0)
    ensures |st.pooled| > 0 ==> AllocStep(st).0 in st.pooled
  {
  }

  /** Allocating, freeing that slot and allocating again takes no more
      backing storage than the first allocation did, provided the pool can
      hold at least one slot. */
  lemma AllocFreeAlloc(st: PoolState, blckSize: nat)
    requires 0 < blckSize && |st.pooled| <= blckSize
    ensures var (p, s1) := AllocStep(st);
            var (q, s3) := AllocStep(FreeStep(s1, blckSize, p).0);
            q == p && s3 == s1
  {
    var (p, s1) := AllocStep(st);
    FreeThenAlloc(s1, blckSize, p);
  }

  /** However requests are served, the pool never holds more than
      `blckSize` slots, and backing storage grows by at most one address per
      allocation request. */
  lemma {:induction false} ServeBound(st: PoolState, blckSize: nat, reqs: seq<Request>)
    requires |st.pooled| <= blckSize
    ensures |Serve(st, blckSize, reqs).pooled| <= blckSize
    ensures st.next <= Serve(st, blckSize, reqs).next <= st.next + AllocCount(reqs)
    ensures AllocCount(reqs) <= |reqs|
    decreases |reqs|
  {
    if |reqs| > 0 {
      var st' := match reqs[0]
        case AllocRequest => AllocStep(st).1
        case FreeRequest(p) => FreeStep(st, blckSize, p).0;
      ServeBound(st', blckSize, reqs[1..]);
    }
  }

  class Pool {
    /** mPool: room for `blckSize` pooled slots. */
    const slots: array<Addr>
    /** mOffset: the number of pooled slots. */
    var offset: nat
    /** The backing allocator's next fresh address. */
    var next: nat
    /** Addresses handed out by Alloc and not yet given to Free. */
    ghost var live: set<Addr>
    /** Addresses given back to the backing allocator. */
    ghost var released: set<Addr>

    ghost predicate Valid()
      reads this, slots
    {
      && offset <= slots.Length
      && (forall i, j :: 0 <= i < j < offset ==> slots[i] != slots[j])
      && (forall i :: 0 <= i < offset ==> slots[i] < next && slots[i] !in live && slots[i] !in released)
      && (forall a :: a in live ==> a < next && a !in released)
      && (forall a :: a in released ==> a < next)
    }

    ghost function State(): PoolState
      reads this, slots
      requires Valid()
    {
      PoolState(slots[..offset], next)
    }

    /** The constructor pools ceil(blckSize / 2) fresh slots. */
    constructor (blckSize: nat)
      ensures Valid() && fresh(slots) && slots.Length == blckSize
      ensures |State().pooled| == InitialCount(blckSize) == next
      ensures forall i :: 0 <= i < |State().pooled| ==> State().pooled[i] == i
      ensures live == {} && released == {}
    {
      slots := new Addr[blckSize];
      offset, next := 0, 0;
      live, released := {}, {};
      new;
      while offset < InitialCount(blckSize)
        invariant offset == next <= InitialCount(blckSize)
        invariant forall i :: 0 <= i < offset ==> slots[i] == i
        invariant live == {} && released == {}
        modifies this, slots
      {
        slots[offset] := next;
        next := next + 1;
        offset := offset + 1;
      }
    }

    /** alloc(): a pooled slot if there is one, fresh storage otherwise. */
    method Alloc() returns (p: Addr)
      requires Valid()
      modifies this
      ensures Valid()
      ensures (p, State()) == AllocStep(old(State()))
      ensures p !in old(live) && live == old(live) + {p}
      ensures released == old(released)
    {
      if offset > 0 {
        offset := offset - 1;
        p := slots[offset];
        assert slots[..offset] == old(slots[..offset])[..offset];
      } else {
        p := next;
        next := next + 1;
      }
      live := live + {p};
    }

    /** free(p): pools p while there is room, else deallocates it. The
        caller must pass a slot it holds from Alloc. */
    method Free(p: Addr) returns (deallocated: bool)
      requires Valid() && p in live
      modifies this, slots
      ensures Valid()
      ensures (State(), deallocated) == FreeStep(old(State()), slots.Length, p)
      ensures live == old(live) - {p}
      ensures released == old(released) + (if deallocated then {p} else {})
    {
      live := live - {p};
      if offset < slots.Length {
        slots[offset] := p;
        offset := offset + 1;
        assert slots[..offset] == old(slots[..offset]) + [p];
        deallocated := false;
      } else {
        released := released + {p};
        deallocated := true;
      }
    }

    /** ~allocator_type(): hands every pooled slot back, the most recently
        pooled first; returns them in that order. */
    method Dispose() returns (order: seq<Addr>)
      requires Valid()
      modifies this
      ensures Valid() && offset == 0 && next == old(next) && live == old(live)
      ensures |order| == |old(State().pooled)|
      ensures forall k :: 0 <= k < |order| ==> order[k] == old(State().pooled)[|order| - 1 - k]
      ensures released == old(released) + (set a | a in order)
    {
      order := [];
      while offset > 0
        invariant offset <= old(offset) && Valid()
        invariant next == old(next) && live == old(live)
        invariant forall i :: 0 <= i < old(offset) ==> slots[i] == old(slots[i])
        invariant |order| == old(offset) - offset
        invariant forall k :: 0 <= k < |order| ==> order[k] == slots[old(offset) - 1 - k]
        invariant released == old(released) + (set a | a in order)
      {
        offset := offset - 1;
        released := released + {slots[offset]};
        order := order + [slots[offset]];
      }
    }
  }
}
