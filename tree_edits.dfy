/** The structural edits of `tree_type<T>` on its arena, as facts about
    maps and shapes: each lemma takes a well-formed arena, performs on it
    exactly the link writes the source performs, and shows that the result
    is the well-formed arena of the edited shape, with the value the edit
    promises. */
module TreeEdits {
  import opened TreeShape

  /** A well-formed arena: the child links spell out `s`, the parent links
      are correct or missing, every allocated node belongs to the tree,
      `root` is its root and every id is below `next`. */
  ghost predicate Arena<T>(nodes: map<NodeId, Node<T>>, s: Shape, root: Handle, next: nat) {
    && Distinct(s)
    && Shaped(nodes, s)
    && Parented(nodes, s, None, false)
    && nodes.Keys == Ids(s)
    && root == RootId(s)
    && (forall k :: k in nodes ==> k < next)
  }

  /** The value of the subtree `it` denotes; the null handle denotes the
      empty tree. */
  ghost function ValueAt<T>(nodes: map<NodeId, Node<T>>, s: Shape, it: Handle): Value<T>
    requires Distinct(s) && Shaped(nodes, s) && (it.None? || it.value in Ids(s))
  {
    if it.None? then Empty
    else
      FindProps(nodes, s, it.value, None, false);
      ValueOf(nodes, Find(s, it.value))
  }

  /** What an operation at `x` needs to know about `x`: its subtree, its
      parent in the tree, and that its parent link, when set, names it. */
  lemma Locate<T>(n1: map<NodeId, Node<T>>, s: Shape, root: Handle, next: nat, x: NodeId)
    requires Arena(n1, s, root, next) && x in Ids(s)
    ensures var F, Q := Find(s, x), ParentIn(s, x, None);
            && x in n1 && F.Fork? && F.id == x && Distinct(F) && Shaped(n1, F) && Ids(F) <= Ids(s)
            && Parented(n1, F, Q, false)
            && (Parented(n1, s, None, true) ==> Parented(n1, F, Q, true))
            && (root == Some(x) ==> Q.None? && n1[x].parent.None?)
            && (root != Some(x) ==>
                  && Q.Some? && Q.value in Ids(s) - Ids(F)
                  && (n1[Q.value].left == Some(x) || n1[Q.value].right == Some(x)))
            && (n1[x].parent.Some? ==> n1[x].parent == Q)
            && next !in Ids(s)
  {
    FindProps(n1, s, x, None, false);
    FindProps(n1, s, x, None, true);
    if root != Some(x) {
      ParentSlot(n1, s, x, None);
    }
  }

  /** The bookkeeping of copy: a fresh node `id` is allocated, its left
      subtree is copied to fresh ids above it and linked in, then its right
      subtree is copied; the final arena extends the first by exactly the
      ids of the copy. */
  lemma CopyFrame<T>(n0: map<NodeId, Node<T>>, id: NodeId, node: Node<T>,
                     nl: map<NodeId, Node<T>>, cl: Shape, mid: nat,
                     n2: map<NodeId, Node<T>>, cr: Shape, hi: nat)
    requires forall k :: k in n0 ==> k < id
    requires nl.Keys == n0.Keys + {id} + Ids(cl)
    requires forall y :: y in n0[id := node] ==> nl[y] == n0[id := node][y]
    requires forall y :: y in Ids(cl) ==> id + 1 <= y < mid
    requires forall k :: k in nl ==> k < mid
    requires var n1 := nl[id := nl[id].(left := RootId(cl))];
             && n2.Keys == n1.Keys + Ids(cr)
             && (forall y :: y in n1 ==> n2[y] == n1[y])
    requires forall y :: y in Ids(cr) ==> mid <= y < hi
    requires forall k :: k in n2 ==> k < hi
    ensures Ids(cl) !! Ids(cr) && id !in Ids(cl) && id !in Ids(cr)
    ensures id in n2 && n2[id] == node.(left := RootId(cl))
    ensures forall y :: y in Ids(cl) ==> y in nl && n2[y] == nl[y]
    ensures var n3 := n2[id := n2[id].(right := RootId(cr))];
            && n3.Keys == n0.Keys + Ids(Fork(id, cl, cr))
            && (forall y :: y in n0 ==> y in n3 && n3[y] == n0[y])
            && (forall y :: y in Ids(Fork(id, cl, cr)) ==> id <= y < hi)
            && (forall k :: k in n3 ==> k < hi)
  {
  }

  /** The last step of copy: a fresh node `id` below `parent`, linked to
      its copied left subtree, is linked to its copied right subtree. */
  lemma CopyJoin<T>(n2: map<NodeId, Node<T>>, id: NodeId, parent: Handle, cl: Shape, cr: Shape)
    requires id in n2 && n2[id].parent == parent && n2[id].left == RootId(cl)
    requires Distinct(cl) && Distinct(cr) && Ids(cl) !! Ids(cr) && id !in Ids(cl) && id !in Ids(cr)
    requires Shaped(n2, cl) && Parented(n2, cl, Some(id), true)
    requires Shaped(n2, cr) && Parented(n2, cr, Some(id), true)
    ensures var n3 := n2[id := n2[id].(right := RootId(cr))];
            var c := Fork(id, cl, cr);
            && Distinct(c) && Shaped(n3, c) && Parented(n3, c, parent, true)
            && ValueOf(n3, c) == Bin(ValueOf(n2, cl), n2[id].data, ValueOf(n2, cr))
  {
    var n3 := n2[id := n2[id].(right := RootId(cr))];
    KeepOutsideWrite(n2, cl, id, n3[id], Some(id));
    KeepOutsideWrite(n2, cr, id, n3[id], Some(id));
  }

  /** The step every splice ends with: the subtree at `x` replaced by `t`
      in `n2`, where `n2` agrees with `n1` outside the old subtree except
      for the parent's relinked slot, `t` is well linked below that parent
      and its ids are fresh, and no other node is allocated. */
  lemma Splice<T>(n1: map<NodeId, Node<T>>, n2: map<NodeId, Node<T>>, s: Shape, root: Handle,
                  next: nat, x: NodeId, t: Shape, next2: nat)
    requires Arena(n1, s, root, next) && x in Ids(s)
    requires Distinct(t) && Ids(t) !! (Ids(s) - Ids(Find(s, x)))
    requires Shaped(n2, t) && Parented(n2, t, ParentIn(s, x, None), false)
    requires forall y :: y in Ids(s) - Ids(Find(s, x)) && Some(y) != ParentIn(s, x, None) ==>
               y in n2 && n2[y] == n1[y]
    requires var q := ParentIn(s, x, None);
             q.Some? && q.value in n1 ==> q.value in n2 && n2[q.value] == Relink(n1[q.value], x, RootId(t))
    requires n2.Keys == (n1.Keys - Ids(Find(s, x))) + Ids(t)
    requires forall k :: k in n2 ==> k < next2
    ensures Arena(n2, Replace(s, x, t), if root == Some(x) then RootId(t) else root, next2)
    ensures Parented(n1, s, None, true) && Parented(n2, t, ParentIn(s, x, None), true) ==>
              Parented(n2, Replace(s, x, t), None, true)
    ensures t.Fork? ==> ValueAt(n2, Replace(s, x, t), Some(t.id)) == ValueOf(n2, t)
  {
    FindProps(n1, s, x, None, false);
    ReplaceLinks(n1, n2, s, x, t, None, false);
    ReplaceIds(s, x, t);
    if Parented(n1, s, None, true) && Parented(n2, t, ParentIn(s, x, None), true) {
      ReplaceLinks(n1, n2, s, x, t, None, true);
    }
    if t.Fork? {
      FindReplaced(s, x, t);
    }
  }

  /** insert_root_* on the root: a new parentless root holding the old tree
      on `side`; the old root's parent link stays unset. */
  lemma InsertAtRoot<T>(n1: map<NodeId, Node<T>>, s: Shape, root: Handle, next: nat, side: Side, v: T)
    requires Arena(n1, s, root, next)
    ensures var n2 := n1[next := NewNode(None, side, root, v)];
            var s2 := Hang(next, side, s);
            && Arena(n2, s2, Some(next), next + 1)
            && ValueOf(n2, s2) == HangValue(side, ValueOf(n1, s), v)
            && ValueAt(n2, s2, Some(next)) == HangValue(side, ValueAt(n1, s, root), v)
            && (s.Nil? ==> Parented(n2, s2, None, true))
            && (s.Fork? ==> n2[s.id].parent.None?)
  {
    var n2 := n1[next := NewNode(None, side, root, v)];
    if s.Fork? {
      Reparented(n1, n2, s, None, Some(next), false);
    }
  }

  /** insert_root_* below the root: a new node takes `x`'s place under
      `x`'s parent and holds `x`'s subtree on `side`. */
  lemma InsertAboveNode<T>(n1: map<NodeId, Node<T>>, s: Shape, root: Handle, next: nat,
                           x: NodeId, side: Side, v: T)
    requires Arena(n1, s, root, next) && x in Ids(s) && root != Some(x) && n1[x].parent.Some?
    ensures var q := n1[x].parent;
            var n2 := RelinkAt(n1[next := NewNode(q, side, Some(x), v)], q, x, Some(next))
                        [x := n1[x].(parent := Some(next))];
            var s2 := Replace(s, x, Hang(next, side, Find(s, x)));
            && Arena(n2, s2, root, next + 1)
            && ValueAt(n2, s2, Some(next)) == HangValue(side, ValueAt(n1, s, Some(x)), v)
            && (Parented(n1, s, None, true) ==> Parented(n2, s2, None, true))
  {
    var F, Q := Find(s, x), ParentIn(s, x, None);
    FindProps(n1, s, x, None, false);
    FindProps(n1, s, x, None, true);
    ParentSlot(n1, s, x, None);
    var q := n1[x].parent;
    var n2 := RelinkAt(n1[next := NewNode(q, side, Some(x), v)], q, x, Some(next))
                [x := n1[x].(parent := Some(next))];
    var t := Hang(next, side, F);
    Reparented(n1, n2, F, Q, Some(next), false);
    if Parented(n1, s, None, true) {
      Reparented(n1, n2, F, Q, Some(next), true);
      assert Parented(n2, t, Q, true);
    }
    Splice(n1, n2, s, root, next, x, t, next + 1);
  }

  /** A new node `next` below `x` holding the subtree `sub` on `side`, with
      `sub`'s root re-parented to it; no other node changes. */
  lemma HangBelow<T>(m: map<NodeId, Node<T>>, sub: Shape, x: NodeId, next: nat, side: Side, v: T)
    requires Distinct(sub) && Shaped(m, sub) && next !in m && x !in Ids(sub)
    ensures var c := RootId(sub);
            var m2 := SetParent(m[next := NewNode(Some(x), side, c, v)], c, Some(next));
            var h := Hang(next, side, sub);
            && Shaped(m2, h) && ValueOf(m2, h) == HangValue(side, ValueOf(m, sub), v)
            && (Parented(m, sub, Some(x), false) ==> Parented(m2, h, Some(x), false))
            && (Parented(m, sub, Some(x), true) ==> Parented(m2, h, Some(x), true))
            && m2.Keys == m.Keys + {next} && Ids(h) == Ids(sub) + {next}
            && (forall y :: y in m && y !in Ids(sub) ==> m2[y] == m[y])
  {
    ShapedIds(m, sub);
    var c := RootId(sub);
    var m1 := m[next := NewNode(Some(x), side, c, v)];
    WithChildIds(Fork(next, Nil, Nil), side, sub);
    KeepOutsideWrite(m, sub, next, m1[next], Some(x));
    if c.Some? {
      ReparentRoot(m1, sub, Some(x), Some(next));
    }
  }

  /** The writes of insert_<slot>_<side> at the root `x` of a subtree `F`:
      `F` becomes `x` with a new node `next` in its `slot` holding the old
      `slot` child on `side`; nothing else changes. */
  lemma InsertBelowLocal<T>(n1: map<NodeId, Node<T>>, F: Shape, Q: Handle, next: nat,
                            slot: Side, side: Side, v: T)
    requires F.Fork? && Distinct(F) && Shaped(n1, F) && next !in n1
    ensures var x := F.id;
            var c := Child(n1[x], slot);
            var n2 := SetParent(n1[next := NewNode(Some(x), side, c, v)], c, Some(next))
                        [x := WithChild(n1[x], slot, Some(next))];
            var t := WithShapeChild(F, slot, Hang(next, side, ShapeChild(F, slot)));
            var before := ValueOf(n1, F);
            && Shaped(n2, t) && Ids(t) == Ids(F) + {next} && Distinct(t)
            && ValueOf(n2, t) == WithValueChild(before, slot, HangValue(side, ValueChild(before, slot), v))
            && (Parented(n1, F, Q, false) ==> Parented(n2, t, Q, false))
            && (Parented(n1, F, Q, true) ==> Parented(n2, t, Q, true))
            && n2.Keys == n1.Keys + {next}
            && (forall y :: y in n1 && y !in Ids(F) ==> n2[y] == n1[y])
  {
    var x := F.id;
    ShapedIds(n1, F);
    var sub, other := ShapeChild(F, slot), ShapeChild(F, Other(slot));
    WithChildIds(F, slot, Hang(next, side, sub));
    var c := Child(n1[x], slot);
    assert c == RootId(sub) && Child(n1[x], Other(slot)) == RootId(other);
    HangBelow(n1, sub, x, next, side, v);
    var m2 := SetParent(n1[next := NewNode(Some(x), side, c, v)], c, Some(next));
    var h := Hang(next, side, sub);
    var n2 := m2[x := WithChild(n1[x], slot, Some(next))];
    Unaffected(n1, m2, other, Some(x), false);
    Unaffected(n1, m2, other, Some(x), true);
    KeepOutsideWrite(m2, other, x, n2[x], Some(x));
    KeepOutsideWrite(m2, h, x, n2[x], Some(x));
  }

  /** insert_<slot>_<side>: a new node takes the `slot` child's place below
      `x` and holds the old child on `side`. */
  lemma InsertBelowNode<T>(n1: map<NodeId, Node<T>>, s: Shape, root: Handle, next: nat,
                           x: NodeId, slot: Side, side: Side, v: T)
    requires Arena(n1, s, root, next) && x in Ids(s)
    ensures var c := Child(n1[x], slot);
            var F := Find(s, x);
            var n2 := SetParent(n1[next := NewNode(Some(x), side, c, v)], c, Some(next))
                        [x := WithChild(n1[x], slot, Some(next))];
            var s2 := Replace(s, x, WithShapeChild(F, slot, Hang(next, side, ShapeChild(F, slot))));
            var before := ValueAt(n1, s, Some(x));
            && Arena(n2, s2, root, next + 1)
            && ValueAt(n2, s2, Some(x)) == WithValueChild(before, slot, HangValue(side, ValueChild(before, slot), v))
            && (Parented(n1, s, None, true) ==> Parented(n2, s2, None, true))
  {
    Locate(n1, s, root, next, x);
    var F, Q := Find(s, x), ParentIn(s, x, None);
    InsertBelowLocal(n1, F, Q, next, slot, side, v);
    var t := WithShapeChild(F, slot, Hang(next, side, ShapeChild(F, slot)));
    var n2 := SetParent(n1[next := NewNode(Some(x), side, Child(n1[x], slot), v)], Child(n1[x], slot), Some(next))
                [x := WithChild(n1[x], slot, Some(next))];
    Splice(n1, n2, s, root, next, x, t, next + 1);
  }

  /** erase below the root: relinking the parent's slot to null leaves the
      subtree at `x` intact for destroy, and deleting it leaves the arena of
      the tree without that subtree. */
  lemma EraseNode<T>(n1: map<NodeId, Node<T>>, s: Shape, root: Handle, next: nat, x: NodeId)
    requires Arena(n1, s, root, next) && x in Ids(s) && root != Some(x) && n1[x].parent.Some?
    ensures var q := n1[x].parent;
            var m := RelinkAt(n1, q, x, None);
            var F := Find(s, x);
            && Distinct(F) && Shaped(m, F) && RootId(F) == Some(x)
            && Arena(m - Ids(F), Replace(s, x, Nil), root, next)
            && q.value in m - Ids(F)
            && (Parented(n1, s, None, true) ==> Parented(m - Ids(F), Replace(s, x, Nil), None, true))
  {
    var F, Q := Find(s, x), ParentIn(s, x, None);
    FindProps(n1, s, x, None, false);
    ParentSlot(n1, s, x, None);
    var m := RelinkAt(n1, n1[x].parent, x, None);
    Unaffected(n1, m, F, Q, false);
    Splice(n1, m - Ids(F), s, root, next, x, Nil, next);
  }

  /** The writes of erase_<slot> inside the subtree `F` at `x`: the
      `slot` subtree is deleted and `x` forgets it; the other subtree and
      everything outside `F` stay as they were. */
  lemma EraseChildLocal<T>(n1: map<NodeId, Node<T>>, F: Shape, Q: Handle, slot: Side)
    requires F.Fork? && Distinct(F) && Shaped(n1, F)
    ensures var x, sub := F.id, ShapeChild(F, slot);
            var n2 := (n1 - Ids(sub))[x := WithChild(n1[x], slot, None)];
            var t := WithShapeChild(F, slot, Nil);
            && Distinct(sub) && Shaped(n1, sub) && Child(n1[x], slot) == RootId(sub)
            && Distinct(t) && Shaped(n2, t) && Ids(t) == Ids(F) - Ids(sub)
            && ValueOf(n2, t) == WithValueChild(ValueOf(n1, F), slot, Empty)
            && (Parented(n1, F, Q, false) ==> Parented(n2, t, Q, false))
            && (Parented(n1, F, Q, true) ==> Parented(n2, t, Q, true))
            && n2.Keys == n1.Keys - Ids(sub)
            && (forall y :: y in n1 && y !in Ids(F) ==> n2[y] == n1[y])
  {
    var x := F.id;
    ShapedIds(n1, F);
    WithChildIds(F, slot, Nil);
    var sub, other := ShapeChild(F, slot), ShapeChild(F, Other(slot));
    var m := n1 - Ids(sub);
    var n2 := m[x := WithChild(n1[x], slot, None)];
    KeepRemove(n1, other, Ids(sub), Some(x));
    KeepOutsideWrite(m, other, x, n2[x], Some(x));
  }

  /** erase_<slot>: the `slot` child's subtree is what destroy deletes, and
      clearing the slot afterwards leaves the arena of the tree without it. */
  lemma EraseChildNode<T>(n1: map<NodeId, Node<T>>, s: Shape, root: Handle, next: nat,
                          x: NodeId, slot: Side)
    requires Arena(n1, s, root, next) && x in Ids(s)
    ensures var F := Find(s, x);
            var sub := ShapeChild(F, slot);
            var n2 := (n1 - Ids(sub))[x := WithChild(n1[x], slot, None)];
            var s2 := Replace(s, x, WithShapeChild(F, slot, Nil));
            && Distinct(sub) && Shaped(n1, sub) && Child(n1[x], slot) == RootId(sub)
            && Arena(n2, s2, root, next)
            && ValueAt(n2, s2, Some(x)) == WithValueChild(ValueAt(n1, s, Some(x)), slot, Empty)
            && (Parented(n1, s, None, true) ==> Parented(n2, s2, None, true))
  {
    Locate(n1, s, root, next, x);
    var F, Q := Find(s, x), ParentIn(s, x, None);
    EraseChildLocal(n1, F, Q, slot);
    var n2 := (n1 - Ids(ShapeChild(F, slot)))[x := WithChild(n1[x], slot, None)];
    Splice(n1, n2, s, root, next, x, WithShapeChild(F, slot, Nil), next);
  }

  /** The writes of reserve_<slot> inside the subtree `F` at `x`: the
      `slot` child is cut off from `x` and hung below `q`. What destroy then
      deletes is `x` with its other subtree; nothing outside `F` changes. */
  lemma ReserveLocal<T>(n1: map<NodeId, Node<T>>, F: Shape, Q: Handle, q: Handle, slot: Side)
    requires F.Fork? && Distinct(F) && Shaped(n1, F) && Child(n1[F.id], slot).Some?
    ensures var x := F.id;
            var c := Child(n1[x], slot);
            var m2 := SetParent(n1[x := WithChild(n1[x], slot, None)], c, q);
            var sub, D := ShapeChild(F, slot), WithShapeChild(F, slot, Nil);
            && sub.Fork? && c == Some(sub.id) && Distinct(sub)
            && Distinct(D) && Shaped(m2, D) && RootId(D) == Some(x)
            && Ids(D) == {x} + Ids(ShapeChild(F, Other(slot))) && Ids(D) !! Ids(sub)
            && Ids(F) == Ids(D) + Ids(sub)
            && Shaped(m2, sub) && ValueOf(m2, sub) == ValueChild(ValueOf(n1, F), slot)
            && (Parented(n1, F, Q, false) ==> Parented(m2, sub, q, false))
            && (Parented(n1, F, Q, true) ==> Parented(m2, sub, q, true))
            && m2.Keys == n1.Keys
            && (forall y :: y in n1 && y !in Ids(F) ==> m2[y] == n1[y])
  {
    var x := F.id;
    ShapedIds(n1, F);
    var sub, other := ShapeChild(F, slot), ShapeChild(F, Other(slot));
    WithChildIds(F, slot, Nil);
    var c := Child(n1[x], slot);
    assert c == RootId(sub) && Child(n1[x], Other(slot)) == RootId(other);
    var m1 := n1[x := WithChild(n1[x], slot, None)];
    var m2 := m1[c.value := n1[c.value].(parent := q)];
    assert SetParent(m1, c, q) == m2;
    KeepOutsideWrite(n1, sub, x, m1[x], Some(x));
    ReparentRoot(m1, sub, Some(x), q);
    KeepOutsideWrite(n1, other, x, m1[x], Some(x));
    KeepOutsideWrite(m1, other, c.value, m2[c.value], Some(x));
  }

  /** reserve_<slot>: after the three link writes, `x` with its other
      subtree is what destroy deletes, and the `slot` child's subtree has
      taken `x`'s place. */
  lemma ReserveNode<T>(n1: map<NodeId, Node<T>>, s: Shape, root: Handle, next: nat,
                       x: NodeId, slot: Side)
    requires Arena(n1, s, root, next) && x in Ids(s)
    requires root == Some(x) || n1[x].parent.Some?
    requires Child(n1[x], slot).Some?
    ensures var F := Find(s, x);
            var c, q := Child(n1[x], slot), n1[x].parent;
            var D := WithShapeChild(F, slot, Nil);
            var m := RelinkAt(SetParent(n1[x := WithChild(n1[x], slot, None)], c, q), q, x, c);
            var s2 := Replace(s, x, ShapeChild(F, slot));
            var root2 := if root == Some(x) then c else root;
            && Distinct(D) && Shaped(m, D) && RootId(D) == Some(x)
            && Ids(D) == {x} + Ids(ShapeChild(F, Other(slot)))
            && Arena(m - Ids(D), s2, root2, next)
            && c.value in m - Ids(D)
            && (m - Ids(D))[c.value].parent == q
            && ValueAt(m - Ids(D), s2, c) == ValueChild(ValueAt(n1, s, Some(x)), slot)
            && (Parented(n1, s, None, true) ==> Parented(m - Ids(D), s2, None, true))
  {
    Locate(n1, s, root, next, x);
    var F, Q := Find(s, x), ParentIn(s, x, None);
    var c, q := Child(n1[x], slot), n1[x].parent;
    assert q == Q;
    ReserveLocal(n1, F, Q, q, slot);
    var sub, D := ShapeChild(F, slot), WithShapeChild(F, slot, Nil);
    var m2 := SetParent(n1[x := WithChild(n1[x], slot, None)], c, q);
    var m := RelinkAt(m2, q, x, c);
    if q.Some? {
      assert m == m2[q.value := Relink(n1[q.value], x, c)];
      KeepOutsideWrite(m2, sub, q.value, m[q.value], q);
      KeepOutsideWrite(m2, D, q.value, m[q.value], Some(x));
    }
    KeepRemove(m, sub, Ids(D), q);
    Splice(n1, m - Ids(D), s, root, next, x, sub, next);
  }

  /** Outside the copy, merge's final arena is the old one with the
      parent's slot relinked and the subtree at `x` deleted. */
  lemma MergeFrame<T>(n1: map<NodeId, Node<T>>, m1: map<NodeId, Node<T>>, gone: set<NodeId>,
                      added: set<NodeId>, q: Handle, x: NodeId, c: Handle)
    requires m1.Keys == n1.Keys + added && added !! n1.Keys
    requires forall y :: y in n1 ==> m1[y] == n1[y]
    ensures RelinkAt(m1, q, x, c) - gone - added == RelinkAt(n1, q, x, c) - gone
  {
    var a, b := RelinkAt(m1, q, x, c) - gone - added, RelinkAt(n1, q, x, c) - gone;
    assert a.Keys == b.Keys;
    forall y | y in a
      ensures a[y] == b[y]
    {
    }
  }

  /** The links merge relies on: relinking `x`'s parent `q` to the copy
      `g` leaves the subtree `F` at `x` intact for destroy, and once `F` is
      deleted the copy still hangs exactly below `q`. */
  lemma MergeLocal<T>(n1: map<NodeId, Node<T>>, m1: map<NodeId, Node<T>>, F: Shape, Q: Handle,
                      g: Shape, q: Handle)
    requires F.Fork? && Shaped(n1, F) && Parented(n1, F, Q, false)
    requires Shaped(m1, g) && Parented(m1, g, q, true)
    requires m1.Keys == n1.Keys + Ids(g) && Ids(g) !! n1.Keys
    requires forall y :: y in n1 ==> m1[y] == n1[y]
    requires q.Some? ==> q.value in n1 && q.value !in Ids(F)
    ensures var m := RelinkAt(m1, q, F.id, RootId(g));
            && Shaped(m, F) && Parented(m, F, Q, false)
            && Shaped(m - Ids(F), g) && ValueOf(m - Ids(F), g) == ValueOf(m1, g)
            && Parented(m - Ids(F), g, q, true) && Parented(m - Ids(F), g, q, false)
  {
    var x := F.id;
    ShapedIds(n1, F);
    ShapedIds(m1, g);
    var m := RelinkAt(m1, q, x, RootId(g));
    Unaffected(n1, m1, F, Q, false);
    if q.Some? {
      assert m == m1[q.value := Relink(n1[q.value], x, RootId(g))];
      KeepOutsideWrite(m1, F, q.value, m[q.value], Q);
      KeepOutsideWrite(m1, g, q.value, m[q.value], q);
    }
    KeepRemove(m, g, Ids(F), q);
    ExactIsWeak(m - Ids(F), g, q);
  }

  /** merge: `m1` is `n1` extended by a fresh copy `g` hung below `x`'s
      parent. After relinking the parent's slot to the copy, the subtree at
      `x` is what destroy deletes, and the copy has taken `x`'s place. */
  lemma MergeNode<T>(n1: map<NodeId, Node<T>>, s: Shape, root: Handle, next: nat, x: NodeId,
                     m1: map<NodeId, Node<T>>, g: Shape, next2: nat)
    requires Arena(n1, s, root, next) && x in Ids(s)
    requires root == Some(x) || n1[x].parent.Some?
    requires Distinct(g) && Shaped(m1, g) && Parented(m1, g, n1[x].parent, true)
    requires forall y :: y in Ids(g) ==> next <= y < next2
    requires m1.Keys == n1.Keys + Ids(g)
    requires forall y :: y in n1 ==> y in m1 && m1[y] == n1[y]
    requires forall k :: k in m1 ==> k < next2
    ensures var F, q := Find(s, x), n1[x].parent;
            var m := RelinkAt(m1, q, x, RootId(g));
            var s2 := Replace(s, x, g);
            var root2 := if root == Some(x) then RootId(g) else root;
            && Distinct(F) && Shaped(m, F) && RootId(F) == Some(x)
            && Arena(m - Ids(F), s2, root2, next2)
            && (RootId(g).None? || RootId(g).value in m - Ids(F))
            && ValueAt(m - Ids(F), s2, RootId(g)) == ValueOf(m1, g)
            && m - Ids(F) - Ids(g) == RelinkAt(n1, q, x, RootId(g)) - Ids(F)
            && Parented(m - Ids(F), g, q, true)
            && (Parented(n1, s, None, true) ==> Parented(m - Ids(F), s2, None, true))
  {
    Locate(n1, s, root, next, x);
    var F, Q := Find(s, x), ParentIn(s, x, None);
    var q := n1[x].parent;
    assert q == Q;
    MergeLocal(n1, m1, F, Q, g, q);
    var m := RelinkAt(m1, q, x, RootId(g));
    Splice(n1, m - Ids(F), s, root, next, x, g, next2);
    MergeFrame(n1, m1, Ids(F), Ids(g), q, x, RootId(g));
  }
}
