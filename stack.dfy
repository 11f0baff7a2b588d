/** The fixed-capacity evaluation stack `stack_type<T, m_size>`.

    The abstract value of a stack is a sequence, oldest element first and
    the top last. `Pushed`, `TopOf`, `Popped`, `Dropped` and `Walk` say what
    each operation does to that sequence; the class `Stack` keeps its
    elements in an array of `m_size` slots with a cursor `count` (the
    source's `m_current - m_start`) and is proved to follow them. */
module StaticStack {
  import opened Errors

  /** push(v): E000I when the stack already holds `capacity` elements. */
  function Pushed<T>(s: seq<T>, capacity: nat, v: T): Result<seq<T>> {
    if |s| == capacity then Err(E000I) else Ok(s + [v])
  }

  /** top(): E000H on an empty stack. */
  function TopOf<T>(s: seq<T>): Result<T> {
    if |s| == 0 then Err(E000H) else Ok(s[|s| - 1])
  }

  /** pop(): the removed top element and the remaining stack, E000H on an
      empty stack. */
  function Popped<T>(s: seq<T>): Result<(T, seq<T>)> {
    if |s| == 0 then Err(E000H) else Ok((s[|s| - 1], s[..|s| - 1]))
  }

  /** pop_no_return(): the remaining stack, E000H on an empty stack. */
  function Dropped<T>(s: seq<T>): Result<seq<T>> {
    if |s| == 0 then Err(E000H) else Ok(s[..|s| - 1])
  }

  /** The order in which the iterator visits the elements: from the top
      down to the base. */
  function Walk<T>(s: seq<T>): seq<T> {
    if |s| == 0 then [] else [s[|s| - 1]] + Walk(s[..|s| - 1])
  }

  /** Pushing `vs` one after the other, stopping at the first failure. */
  function PushAll<T>(s: seq<T>, capacity: nat, vs: seq<T>): Result<seq<T>>
    decreases |vs|
  {
    if |vs| == 0 then Ok(s)
    else match Pushed(s, capacity, vs[0])
      case Err(e) => Err(e)
      case Ok(s') => PushAll(s', capacity, vs[1..])
  }

  /** Popping `n` times: the popped values in the order they come out, and
      the remaining stack.  */
  function PopN<T>(s: seq<T>, n: nat): Result<(seq<T>, seq<T>)>
    decreases n
  {
    if n == 0 then Ok(([], s))
    else match Popped(s)
      case Err(e) => Err(e)
      case Ok((v, rest)) =>
        match PopN(rest, n - 1)
        case Err(e) => Err(e)
        case Ok((vs, rest')) => Ok(([v] + vs, rest'))
  }

  /** The iterator visits every element once, the k-th visit being the
      k-th element counted from the top. */
  lemma {:induction false} WalkAt<T>(s: seq<T>, k: nat)
    requires k < |s|
    ensures |Walk(s)| == |s|
    ensures Walk(s)[k] == s[|s| - 1 - k]
  {
    WalkLength(s);
    if k > 0 {
      WalkAt(s[..|s| - 1], k - 1);
    }
  }

  /** The iterator visits exactly `size()` elements. */
  lemma {:induction false} WalkLength<T>(s: seq<T>)
    ensures |Walk(s)| == |s|
  {
    if |s| > 0 {
      WalkLength(s[..|s| - 1]);
    }
  }

  /** push(v) then top() yields v, then pop() returns v and restores the
      previous contents; all three succeed exactly when the stack had room. */
  lemma PushTopPop<T>(s: seq<T>, capacity: nat, v: T)
    requires |s| < capacity
    ensures Pushed(s, capacity, v) == Ok(s + [v])
    ensures TopOf(s + [v]) == Ok(v)
    ensures Popped(s + [v]) == Ok((v, s))
    ensures Dropped(s + [v]) == Ok(s)
  {
    assert (s + [v])[..|s|] == s;
  }

  /** A successful push never takes the stack beyond its capacity. */
  lemma PushedBound<T>(s: seq<T>, capacity: nat, v: T)
    requires |s| <= capacity
    ensures Pushed(s, capacity, v).Ok? <==> |s| < capacity
    ensures Pushed(s, capacity, v).Ok? ==> |Pushed(s, capacity, v).value| <= capacity
  {
  }

  /** Pushing v1..vn on a stack with room for them all succeeds, and popping
      n times then yields vn..v1 (the iteration order of the pushed values)
      and leaves the original stack. */
  lemma {:induction false} Lifo<T>(s: seq<T>, capacity: nat, vs: seq<T>)
    requires |s| + |vs| <= capacity
    ensures PushAll(s, capacity, vs) == Ok(s + vs)
    ensures PopN(s + vs, |vs|) == Ok((Walk(vs), s))
    decreases |vs|
  {
    if |vs| > 0 {
      assert Pushed(s, capacity, vs[0]) == Ok(s + [vs[0]]);
      Lifo(s + [vs[0]], capacity, vs[1..]);
      assert s + [vs[0]] + vs[1..] == s + vs;
      PopAllPushed(s, vs);
    } else {
      assert s + vs == s;
    }
  }

  /** Popping |vs| times from `s + vs` yields the values of vs top first. */
  lemma {:induction false} PopAllPushed<T>(s: seq<T>, vs: seq<T>)
    ensures PopN(s + vs, |vs|) == Ok((Walk(vs), s))
  {
    if |vs| > 0 {
      var t := s + vs;
      var init := vs[..|vs| - 1];
      assert t[..|t| - 1] == s + init;
      assert t[|t| - 1] == vs[|vs| - 1];
      assert Popped(t) == Ok((vs[|vs| - 1], s + init));
      PopAllPushed(s, init);
      assert PopN(s + init, |vs| - 1) == Ok((Walk(init), s));
    } else {
      assert s + vs == s;
    }
  }

  /** Pushing more values than there is room for fails with E000I, the
      push that fails being the first one beyond the capacity. */
  lemma {:induction false} Overflow<T>(s: seq<T>, capacity: nat, vs: seq<T>)
    requires |s| <= capacity < |s| + |vs|
    ensures PushAll(s, capacity, vs) == Err(E000I)
    decreases |vs|
  {
    if |s| < capacity {
      Overflow(s + [vs[0]], capacity, vs[1..]);
    }
  }

  /** A handle on a stack position walking from the top (`count - 1`) down to
      one before the base (`-1`), as the source's iterator does. */
  datatype Cursor = Cursor(pos: int)

  class Stack<T(0)> {
    /** The `m_size` slots of storage; slots at `count` and above hold no
        live element. */
    const data: array<T>
    /** Number of live elements, `m_current - m_start`. */
    var count: nat

    ghost predicate Valid()
      reads this
    {
      count <= data.Length
    }

    /** The live elements, base first. */
    ghost function Contents(): seq<T>
      reads this, data
      requires Valid()
    {
      data[..count]
    }

    /** A new, empty stack with `capacity` slots (the template's m_size). */
    constructor (capacity: nat)
      ensures Valid() && fresh(data)
      ensures data.Length == capacity && Contents() == []
    {
      data := new T[capacity];
      count := 0;
    }

    function Empty(): (b: bool)
      reads this, data
      requires Valid()
      ensures b <==> Contents() == []
    {
      count == 0
    }

    function Size(): (n: nat)
      reads this, data
      requires Valid()
      ensures n == |Contents()| && n <= data.Length
    {
      count
    }

    function Full(): (b: bool)
      reads this, data
      requires Valid()
      ensures b <==> |Contents()| == data.Length
    {
      count == data.Length
    }

    /** top(): the most recently pushed element, E000H when empty. */
    function Top(): (r: Result<T>)
      reads this, data
      requires Valid()
      ensures r == TopOf(Contents())
      ensures r.Err? <==> Contents() == []
    {
      if Empty() then Err(E000H) else Ok(data[count - 1])
    }

    /** push(v): stores v in the next free slot; E000I when full, leaving the
        stack as it was. */
    method Push(v: T) returns (r: Outcome)
      requires Valid()
      modifies this, data
      ensures Valid()
      ensures r == Pushed(old(Contents()), data.Length, v).ToOutcome()
      ensures Contents() == Pushed(old(Contents()), data.Length, v).GetOr(old(Contents()))
    {
      if Full() {
        return Fail(E000I);
      }
      data[count] := v;
      count := count + 1;
      r := Pass;
    }

    /** pop(): removes and returns the top element; E000H when empty,
        leaving the stack as it was. */
    method Pop() returns (r: Result<T>)
      requires Valid()
      modifies this
      ensures Valid()
      ensures r == TopOf(old(Contents()))
      ensures Contents() == Dropped(old(Contents())).GetOr(old(Contents()))
      ensures r.Ok? ==> Popped(old(Contents())) == Ok((r.value, Contents()))
    {
      if Empty() {
        return Err(E000H);
      }
      count := count - 1;
      r := Ok(data[count]);
    }

    /** pop_no_return(): removes the top element; E000H when empty, leaving
        the stack as it was. */
    method PopNoReturn() returns (r: Outcome)
      requires Valid()
      modifies this
      ensures Valid()
      ensures r == Dropped(old(Contents())).ToOutcome()
      ensures Contents() == Dropped(old(Contents())).GetOr(old(Contents()))
    {
      if Empty() {
        return Fail(E000H);
      }
      count := count - 1;
      r := Pass;
    }

    /** begin(): the top slot. It is end() exactly on an empty stack, and
        otherwise `*begin()` is top(). */
    function Begin(): (c: Cursor)
      reads this, data
      requires Valid()
      ensures c == End() <==> Contents() == []
      ensures Contents() != [] ==> 0 <= c.pos < count && Deref(c) == TopOf(Contents()).value
    {
      Cursor(count - 1)
    }

    /** end(): one before the base. */
    function End(): (c: Cursor)
      ensures c.pos == -1
    {
      Cursor(-1)
    }

    /** ++it on a dereferenceable cursor: one slot towards the base. The
        step after the base reaches end(); any other step reaches the
        element the top-down walk visits right after the one at `c`. */
    function Next(c: Cursor): (c': Cursor)
      reads this, data
      requires Valid() && 0 <= c.pos < count
      ensures |Walk(Contents())| == count
      ensures c'.pos == c.pos - 1
      ensures c' == End() <==> c.pos == 0
      ensures c' != End() ==> 0 <= c'.pos < count && Deref(c') == Walk(Contents())[count - c.pos]
    {
      WalkLength(Contents());
      if c.pos > 0 then WalkAt(Contents(), count - c.pos); Cursor(c.pos - 1)
      else Cursor(c.pos - 1)
    }

    /** *it on a cursor that lies between begin() and end(). */
    function Deref(c: Cursor): (v: T)
      reads this, data
      requires Valid() && 0 <= c.pos < count
      ensures v == Contents()[c.pos]
    {
      data[c.pos]
    }

    /** Iterating from begin() to end() visits exactly the size() live
        elements, the most recently pushed first. */
    method Elements() returns (r: seq<T>)
      requires Valid()
      ensures r == Walk(Contents())
    {
      var it := Begin();
      r := [];
      while it != End()
        invariant -1 <= it.pos < count
        invariant |r| == count - 1 - it.pos
        invariant forall k :: 0 <= k < |r| ==> r[k] == data[count - 1 - k]
        decreases it.pos
      {
        r := r + [Deref(it)];
        it := Next(it);
      }
      WalkLength(Contents());
      forall k | 0 <= k < count
        ensures r[k] == Walk(Contents())[k]
      {
        WalkAt(Contents(), k);
      }
    }

    /** ~stack_type(): destroys the live elements from the top down; returns
        them in the order they are destroyed. */
    method Dispose() returns (destroyed: seq<T>)
      requires Valid()
      modifies this
      ensures Valid() && Contents() == []
      ensures destroyed == Walk(old(Contents()))
    {
      destroyed := [];
      while count != 0
        invariant count <= old(count) && old(Contents()) == data[..old(count)]
        invariant Walk(old(Contents())) == destroyed + Walk(data[..count])
      {
        assert data[..count][..count - 1] == data[..count - 1];
        count := count - 1;
        destroyed := destroyed + [data[count]];
      }
    }
  }
}
