/** The deferred collector `garbage_collector<T>`.

    Two singly linked lists of object addresses, both filled at the front:
    `tracked` (the source's `table_new`, filled by `add`) and `released`
    (`table_delete`, filled by `remove`). Its destructor removes every
    occurrence of every released address from `tracked` and deletes what
    is left. */
module GarbageCollector {

  type Addr = nat

  /** forward_list::remove(p): every occurrence of p goes, the rest keeps
      its order. */
  function RemoveAll(s: seq<Addr>, p: Addr): (r: seq<Addr>)
    ensures forall x :: x in r <==> x in s && x != p
    ensures |r| <= |s|
  {
    if |s| == 0 then []
    else (if s[0] == p then [] else [s[0]]) + RemoveAll(s[1..], p)
  }

  /** What the destructor deletes, as a reference definition: the entries of
      `tracked`, in list order, whose address occurs nowhere in `released`. */
  function Sweep(tracked: seq<Addr>, released: seq<Addr>): seq<Addr> {
    if |tracked| == 0 then []
    else (if tracked[0] in released then [] else [tracked[0]]) + Sweep(tracked[1..], released)
  }

  function Reverse(s: seq<Addr>): seq<Addr> {
    if |s| == 0 then [] else Reverse(s[1..]) + [s[0]]
  }

  /** Removing one more released address from a swept list sweeps with that
      address added: the destructor's first loop computes Sweep. */
  lemma {:induction false} RemoveAllSweep(tracked: seq<Addr>, released: seq<Addr>, p: Addr)
    ensures RemoveAll(Sweep(tracked, released), p) == Sweep(tracked, released + [p])
  {
    if |tracked| > 0 {
      RemoveAllSweep(tracked[1..], released, p);
      var head := if tracked[0] in released then [] else [tracked[0]];
      RemoveAllAppend(head, Sweep(tracked[1..], released), p);
    }
  }

  lemma {:induction false} RemoveAllAppend(a: seq<Addr>, b: seq<Addr>, p: Addr)
    ensures RemoveAll(a + b, p) == RemoveAll(a, p) + RemoveAll(b, p)
  {
    if |a| > 0 {
      assert (a + b)[1..] == a[1..] + b;
      RemoveAllAppend(a[1..], b, p);
    } else {
      assert a + b == b;
    }
  }

  /** An address is deleted iff it was tracked and never released. */
  lemma {:induction false} SweepMembers(tracked: seq<Addr>, released: seq<Addr>, x: Addr)
    ensures x in Sweep(tracked, released) <==> x in tracked && x !in released
  {
    if |tracked| > 0 {
      SweepMembers(tracked[1..], released, x);
      assert x in tracked <==> x == tracked[0] || x in tracked[1..];
    }
  }

  /** An unreleased address is deleted as many times as it was tracked; a
      released one is never deleted. */
  lemma {:induction false} SweepCount(tracked: seq<Addr>, released: seq<Addr>, x: Addr)
    ensures multiset(Sweep(tracked, released))[x] == if x in released then 0 else multiset(tracked)[x]
  {
    if |tracked| > 0 {
      SweepCount(tracked[1..], released, x);
      assert tracked == [tracked[0]] + tracked[1..];
    }
  }

  /** Sweeping commutes with reversal: since `add` prepends, the survivors
      are deleted in the reverse of the order they were added. */
  lemma {:induction false} SweepReverse(adds: seq<Addr>, released: seq<Addr>)
    ensures Sweep(Reverse(adds), released) == Reverse(Sweep(adds, released))
  {
    if |adds| > 0 {
      SweepReverse(adds[1..], released);
      SweepAppend(Reverse(adds[1..]), [adds[0]], released);
      var head := if adds[0] in released then [] else [adds[0]];
      ReverseAppend(head, Sweep(adds[1..], released));
    }
  }

  lemma {:induction false} SweepAppend(a: seq<Addr>, b: seq<Addr>, released: seq<Addr>)
    ensures Sweep(a + b, released) == Sweep(a, released) + Sweep(b, released)
  {
    if |a| > 0 {
      assert (a + b)[1..] == a[1..] + b;
      SweepAppend(a[1..], b, released);
    } else {
      assert a + b == b;
    }
  }

  lemma {:induction false} ReverseAppend(a: seq<Addr>, b: seq<Addr>)
    ensures Reverse(a + b) == Reverse(b) + Reverse(a)
  {
    if |a| > 0 {
      assert (a + b)[1..] == a[1..] + b;
      ReverseAppend(a[1..], b);
    } else {
      assert a + b == b;
    }
  }

  /** The collector's intended use: of three objects added, only the
      unreleased two are deleted, each once, the later-added first. */
  lemma ScopedCleanup(o1: Addr, o2: Addr, o3: Addr)
    requires o1 != o2 && o2 != o3 && o1 != o3
    ensures Sweep([o3, o2, o1], [o2]) == [o3, o1]
  {
    assert [o1][1..] == [];
    assert Sweep([o1], [o2]) == [o1];
    assert [o2, o1][1..] == [o1];
    assert Sweep([o2, o1], [o2]) == [o1];
    assert [o3, o2, o1][1..] == [o2, o1];
  }

  /** With nothing released, everything tracked is deleted. */
  lemma {:induction false} SweepNothingReleased(tracked: seq<Addr>)
    ensures Sweep(tracked, []) == tracked
  {
    if |tracked| > 0 {
      SweepNothingReleased(tracked[1..]);
    }
  }

  class Collector {
    /** table_new, the most recently added address first. */
    var tracked: seq<Addr>
    /** table_delete, the most recently released address first. */
    var released: seq<Addr>

    constructor ()
      ensures tracked == [] && released == []
    {
      tracked, released := [], [];
    }

    /** add(p): prepends p to the tracked list; deletes nothing. */
    method Add(p: Addr)
      modifies this
      ensures tracked == [p] + old(tracked) && released == old(released)
    {
      tracked := [p] + tracked;
    }

    /** remove(p): prepends p to the released list; deletes nothing and
        neither checks nor deduplicates p. */
    method Remove(p: Addr)
      modifies this
      ensures released == [p] + old(released) && tracked == old(tracked)
    {
      released := [p] + released;
    }

    /** ~garbage_collector(): removes every released address from the
        tracked list, then deletes what remains; returns the deletions in
        the order they happen. */
    method Dispose() returns (deleted: seq<Addr>)
      modifies this
      ensures deleted == Sweep(old(tracked), old(released))
      ensures tracked == deleted && released == old(released)
    {
      var i := 0;
      SweepNothingReleased(tracked);
      while i < |released|
        invariant 0 <= i <= |released| && released == old(released)
        invariant tracked == Sweep(old(tracked), released[..i])
      {
        RemoveAllSweep(old(tracked), released[..i], released[i]);
        assert released[..i + 1] == released[..i] + [released[i]];
        tracked := RemoveAll(tracked, released[i]);
        i := i + 1;
      }
      assert released[..i] == released;
      deleted := [];
      var j := 0;
      while j < |tracked|
        invariant 0 <= j <= |tracked| && deleted == tracked[..j]
      {
        deleted := deleted + [tracked[j]];
        j := j + 1;
      }
      assert tracked[..j] == tracked;
    }
  }
}
