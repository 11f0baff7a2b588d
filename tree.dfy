/** The linked binary tree `tree_type<T>`.

    The nodes of one tree live in an arena `nodes` keyed by node id; a
    handle (the source's iterator) is a node id or no node. The ghost
    `shape` records the tree the child links spell out, so that each
    operation can be stated as an edit of that tree and of its value.

    Parent links are kept only weakly: insert_root_* on the root leaves the
    old root without a parent link, so a node's parent link is either its
    parent or missing. Operations that follow a parent link require it to
    be set (ParentKnown); every operation keeps exact links exact except
    that one. */
module BinaryTree {
  import opened Errors
  import opened TreeShape
  import opened TreeEdits

  class Tree<T> {
    /** Every allocated tree_node of this tree. */
    var nodes: map<NodeId, Node<T>>
    /** mRoot. */
    var root: Handle
    /** The id the next `new tree_node` receives. */
    var nextId: nat
    /** The tree of ids the child links form. */
    ghost var shape: Shape

    ghost predicate Valid()
      reads this
    {
      Arena(nodes, shape, root, nextId)
    }

    /** Every parent link is set and names the node's parent. */
    ghost predicate LinksExact()
      reads this
    {
      Parented(nodes, shape, None, true)
    }

    /** The tree's payloads in tree form. */
    ghost function Contents(): Value<T>
      reads this
      requires Valid()
    {
      ValueOf(nodes, shape)
    }

    /** A handle that denotes a node of this tree, or the null handle. */
    predicate Live(it: Handle)
      reads this
    {
      it.None? || it.value in nodes
    }

    /** `it` is the root, or its parent link is set. */
    predicate ParentKnown(it: Handle)
      reads this
      requires Live(it)
    {
      it.None? || it == root || nodes[it.value].parent.Some?
    }

    /** With exact links every live handle's parent link is known, so the
        operations that follow it apply to any node. */
    lemma ExactKnown(it: Handle)
      requires Valid() && LinksExact() && Live(it)
      ensures ParentKnown(it)
    {
      if it.Some? {
        ExactParent(nodes, shape, it.value);
      }
    }

    /** The subtree `it` denotes. */
    ghost function Subtree(it: Handle): Shape
      reads this
    {
      if it.None? then Nil else Find(shape, it.value)
    }

    /** The value of the subtree `it` denotes. */
    ghost function SubtreeValue(it: Handle): Value<T>
      reads this
      requires Valid() && Live(it)
    {
      ValueAt(nodes, shape, it)
    }

    /** destroy(raw): deletes every node of the subtree at `raw`. */
    method Destroy(raw: Handle, ghost s: Shape)
      requires Distinct(s) && Shaped(nodes, s) && raw == RootId(s)
      modifies this`nodes
      ensures nodes == old(nodes) - Ids(s)
      decreases s
    {
      if raw.Some? {
        var n := nodes[raw.value];
        ShapedIds(nodes, s.right);
        Destroy(n.left, s.left);
        Unaffected(old(nodes), nodes, s.right, None, false);
        Destroy(n.right, s.right);
        nodes := nodes - {raw.value};
      }
    }

    /** copy(raw, parent): allocates a copy of the subtree at `raw` of the
        arena `src` below `parent`; returns the copy's root. */
    method Copy(src: map<NodeId, Node<T>>, ghost ss: Shape, raw: Handle, parent: Handle)
      returns (r: Handle, ghost c: Shape)
      requires Shaped(src, ss) && raw == RootId(ss)
      requires forall k :: k in nodes ==> k < nextId
      modifies this`nodes, this`nextId
      ensures forall k :: k in nodes ==> k < nextId
      ensures old(nextId) <= nextId
      ensures r == RootId(c) && Distinct(c)
      ensures forall y :: y in Ids(c) ==> old(nextId) <= y < nextId
      ensures nodes.Keys == old(nodes).Keys + Ids(c)
      ensures forall y :: y in old(nodes) ==> y in nodes && nodes[y] == old(nodes)[y]
      ensures Shaped(nodes, c) && Parented(nodes, c, parent, true)
      ensures ValueOf(nodes, c) == ValueOf(src, ss)
      decreases ss
    {
      if raw.None? {
        return None, Nil;
      }
      var d := src[raw.value];
      var id := nextId;
      nextId := nextId + 1;
      nodes := nodes[id := Node(parent, None, None, d.data)];
      var left, cl := Copy(src, ss.left, d.left, Some(id));
      ghost var nl, mid := nodes, nextId;
      nodes := nodes[id := nodes[id].(left := left)];
      KeepOutsideWrite(nl, cl, id, nodes[id], Some(id));
      var right, cr := Copy(src, ss.right, d.right, Some(id));
      CopyFrame(old(nodes), id, Node(parent, None, None, d.data), nl, cl, mid, nodes, cr, nextId);
      Unaffected(nl, nodes, cl, Some(id), true);
      CopyJoin(nodes, id, parent, cl, cr);
      nodes := nodes[id := nodes[id].(right := right)];
      c := Fork(id, cl, cr);
      r := Some(id);
    }

    /** An empty tree. */
    constructor ()
      ensures Valid() && LinksExact() && Contents() == Empty
      ensures nodes == map[] && root == None && nextId == 0
    {
      nodes, root, nextId := map[], None, 0;
      shape := Nil;
    }

    /** tree_type(iterator it): a copy of the subtree `it` denotes in `src`. */
    constructor FromHandle(src: Tree<T>, it: Handle)
      requires src.Valid() && src.Live(it)
      ensures Valid() && LinksExact() && Contents() == src.SubtreeValue(it)
    {
      nodes, root, nextId := map[], None, 0;
      shape := Nil;
      new;
      if it.Some? {
        FindProps(src.nodes, src.shape, it.value, None, false);
      }
      var r;
      ghost var c;
      r, c := Copy(src.nodes, src.Subtree(it), it, None);
      root, shape := r, c;
      ExactIsWeak(nodes, c, None);
    }

    /** tree_type(const tree_type&): a copy of `t`. */
    constructor Clone(t: Tree<T>)
      requires t.Valid()
      ensures Valid() && LinksExact() && Contents() == t.Contents()
    {
      nodes, root, nextId := map[], None, 0;
      shape := Nil;
      new;
      var r;
      ghost var c;
      r, c := Copy(t.nodes, t.shape, t.root, None);
      root, shape := r, c;
      ExactIsWeak(nodes, c, None);
    }

    /** tree_type(tree_type&&): takes over the nodes of `t`, leaving it empty. */
    constructor Moved(t: Tree<T>)
      requires t.Valid()
      modifies t
      ensures Valid() && Contents() == old(t.Contents())
      ensures t.Valid() && t.Contents() == Empty
    {
      nodes, root, nextId := map[], None, 0;
      shape := Nil;
      new;
      Swap(t);
    }

    /** swap(t) and operator=(tree_type&&): the two trees exchange their
        nodes. */
    method Swap(t: Tree<T>)
      requires Valid() && t.Valid()
      modifies this, t
      ensures Valid() && t.Valid()
      ensures nodes == old(t.nodes) && root == old(t.root) && nextId == old(t.nextId)
      ensures shape == old(t.shape)
      ensures t.nodes == old(nodes) && t.root == old(root) && t.nextId == old(nextId)
      ensures t.shape == old(shape)
      ensures Contents() == old(t.Contents()) && t.Contents() == old(Contents())
    {
      nodes, t.nodes := t.nodes, nodes;
      root, t.root := t.root, root;
      nextId, t.nextId := t.nextId, nextId;
      shape, t.shape := t.shape, shape;
    }

    /** ~tree_type(): deletes every node. */
    method Dispose()
      requires Valid()
      modifies this
      ensures nodes == map[] && root == old(root)
    {
      Destroy(root, shape);
      assert nodes.Keys == {};
    }

    /** operator=(const tree_type&) and assign(t): replaces the tree by a
        copy of `t`; assigning a tree to itself changes nothing. */
    method Assign(t: Tree<T>)
      requires Valid() && t.Valid()
      modifies this
      ensures Valid() && Contents() == old(t.Contents())
      ensures t == this ==> unchanged(this)
      ensures t != this ==> LinksExact() && forall y :: y in nodes ==> old(nextId) <= y
    {
      if t != this {
        Destroy(root, shape);
        var r;
        ghost var c;
        r, c := Copy(t.nodes, t.shape, t.root, None);
        root, shape := r, c;
        ExactIsWeak(nodes, c, None);
      }
    }

    /** empty(). */
    function IsEmpty(): (b: bool)
      reads this
      requires Valid()
      ensures b <==> Contents() == Empty
    {
      root.None?
    }

    /** clear(): deletes every node and leaves an empty tree. */
    method Clear()
      requires Valid()
      modifies this
      ensures Valid() && LinksExact() && Contents() == Empty
      ensures nodes == map[] && root == None && nextId == old(nextId)
    {
      Destroy(root, shape);
      assert nodes.Keys == {};
      root := None;
      shape := Nil;
    }

    /** root(): the root handle, null exactly for an empty tree; the root
        has no parent. */
    function Root(): (r: Handle)
      reads this
      requires Valid()
      ensures Live(r) && (r.None? <==> Contents() == Empty)
      ensures r.Some? ==> nodes[r.value].parent.None? && SubtreeValue(r) == Contents()
    {
      root
    }

    /** iterator::data(): the payload at `it`; E000E on a null handle. */
    function Data(it: Handle): (r: Result<T>)
      reads this
      requires Valid() && Live(it)
      ensures r.Err? <==> it.None?
      ensures r.Err? ==> r.error == E000E
      ensures r.Ok? ==> SubtreeValue(it).Bin? && r.value == SubtreeValue(it).data
    {
      if it.None? then Err(E000E)
      else
        FindProps(nodes, shape, it.value, None, false);
        Ok(nodes[it.value].data)
    }

    /** iterator::left() and iterator::right(): the child on `side`, whose
        subtree is that side of the subtree at `it`; E000E on a null handle. */
    function ChildOf(it: Handle, side: Side): (r: Result<Handle>)
      reads this
      requires Valid() && Live(it)
      ensures r.Err? <==> it.None?
      ensures r.Err? ==> r.error == E000E
      ensures r.Ok? ==> Live(r.value) && SubtreeValue(r.value) == ValueChild(SubtreeValue(it), side)
    {
      if it.None? then Err(E000E)
      else
        var x := it.value;
        FindProps(nodes, shape, x, None, false);
        ShapedIds(nodes, shape);
        var c := Child(nodes[x], side);
        assert ValueChild(SubtreeValue(it), side) == ValueOf(nodes, ShapeChild(Find(shape, x), side));
        if c.Some? then
          FindNested(shape, x, c.value);
          Ok(c)
        else
          Ok(c)
    }

    /** iterator::root(): the parent link at `it`. When set it names the
        parent, and with exact links it is set for every node but the root;
        E000E on a null handle. */
    function Parent(it: Handle): (r: Result<Handle>)
      reads this
      requires Valid() && Live(it)
      ensures r.Err? <==> it.None?
      ensures r.Err? ==> r.error == E000E
      ensures r.Ok? ==> Live(r.value)
      ensures r.Ok? && (r.value.Some? || LinksExact()) ==> r.value == ParentIn(shape, it.value, None)
      ensures r.Ok? && LinksExact() ==> (r.value.None? <==> it == root)
    {
      if it.None? then Err(E000E)
      else
        var x := it.value;
        FindProps(nodes, shape, x, None, false);
        FindProps(nodes, shape, x, None, true);
        ShapedIds(nodes, shape);
        if root != Some(x) then
          ParentSlot(nodes, shape, x, None);
          Ok(nodes[x].parent)
        else
          Ok(nodes[x].parent)
    }

    /** The write path of iterator::data(): stores `v` at `it`; E000E on a
        null handle. */
    method SetData(it: Handle, v: T) returns (r: Outcome)
      requires Valid() && Live(it)
      modifies this
      ensures Valid()
      ensures r == if it.None? then Fail(E000E) else Pass
      ensures it.None? ==> unchanged(this)
      ensures it.Some? ==> nodes == old(nodes)[it.value := old(nodes)[it.value].(data := v)]
      ensures shape == old(shape) && root == old(root) && nextId == old(nextId)
      ensures it.Some? ==> Data(it) == Ok(v)
      ensures old(LinksExact()) ==> LinksExact()
    {
      if it.None? {
        return Fail(E000E);
      }
      ghost var n1 := nodes;
      nodes := nodes[it.value := nodes[it.value].(data := v)];
      Relabelled(n1, nodes, shape, None, false);
      Relabelled(n1, nodes, shape, None, true);
      r := Pass;
    }

    /** insert_root_left / insert_root_right (and emplace_root_*): a new node
        holding `v` takes `it`'s place, with `it`'s subtree on `side`. When
        `it` is the root (including the null handle of an empty tree) the new
        node becomes the root and the old root's parent link is left unset;
        otherwise the null handle is E000E. */
    method InsertAbove(it: Handle, side: Side, v: T) returns (r: Result<Handle>)
      requires Valid() && Live(it) && ParentKnown(it)
      modifies this
      ensures Valid()
      ensures r.Err? <==> it.None? && old(root).Some?
      ensures r.Err? ==> r.error == E000E && unchanged(this)
      ensures r.Ok? ==> r == Ok(Some(old(nextId))) && nextId == old(nextId) + 1
      ensures r.Ok? ==> Live(r.value) && SubtreeValue(r.value) == HangValue(side, old(SubtreeValue(it)), v)
      ensures r.Ok? && it == old(root) ==>
                && root == r.value
                && nodes == old(nodes)[old(nextId) := NewNode(None, side, it, v)]
                && Contents() == HangValue(side, old(Contents()), v)
      ensures r.Ok? && it != old(root) ==>
                var x, n := it.value, old(nextId);
                var q := old(nodes)[x].parent;
                && root == old(root) && shape == Replace(old(shape), x, Hang(n, side, old(Subtree(it))))
                && nodes == RelinkAt(old(nodes)[n := NewNode(q, side, it, v)], q, x, Some(n))
                              [x := old(nodes)[x].(parent := Some(n))]
      ensures old(LinksExact()) && (it != old(root) || old(root).None?) ==> LinksExact()
    {
      if it == root {
        InsertAtRoot(nodes, shape, root, nextId, side, v);
        var n := nextId;
        nodes := nodes[n := NewNode(None, side, root, v)];
        shape := Hang(n, side, shape);
        root, nextId := Some(n), n + 1;
        return Ok(root);
      }
      if it.None? {
        return Err(E000E);
      }
      var x := it.value;
      InsertAboveNode(nodes, shape, root, nextId, x, side, v);
      var nx := nodes[x];
      var q := nx.parent;
      var n := nextId;
      nodes := nodes[n := NewNode(q, side, it, v)];
      nodes := RelinkAt(nodes, q, x, Some(n));
      nodes := nodes[x := nx.(parent := Some(n))];
      shape := Replace(shape, x, Hang(n, side, Find(shape, x)));
      nextId := n + 1;
      r := Ok(Some(n));
    }

    /** insert_left_left, insert_left_right, insert_right_left and
        insert_right_right (and emplace_*): a new node holding `v` takes the
        `slot` child's place below `it`, with the old child on `side`;
        E000E on a null handle. */
    method InsertBelow(it: Handle, slot: Side, side: Side, v: T) returns (r: Result<Handle>)
      requires Valid() && Live(it)
      modifies this
      ensures Valid()
      ensures r.Err? <==> it.None?
      ensures r.Err? ==> r.error == E000E && unchanged(this)
      ensures it.Some? ==>
                var x, n := it.value, old(nextId);
                var c := Child(old(nodes)[x], slot);
                && r == Ok(Some(n)) && nextId == n + 1 && root == old(root)
                && shape == Replace(old(shape), x, WithShapeChild(old(Subtree(it)), slot,
                                      Hang(n, side, ShapeChild(old(Subtree(it)), slot))))
                && nodes == SetParent(old(nodes)[n := NewNode(it, side, c, v)], c, Some(n))
                              [x := WithChild(old(nodes)[x], slot, Some(n))]
                && Live(it)
                && SubtreeValue(it) == WithValueChild(old(SubtreeValue(it)), slot,
                                         HangValue(side, ValueChild(old(SubtreeValue(it)), slot), v))
      ensures old(LinksExact()) ==> LinksExact()
    {
      if it.None? {
        return Err(E000E);
      }
      var x := it.value;
      InsertBelowNode(nodes, shape, root, nextId, x, slot, side, v);
      ghost var F := Find(shape, x);
      var nx := nodes[x];
      var c := Child(nx, slot);
      var n := nextId;
      nodes := nodes[n := NewNode(it, side, c, v)];
      nodes := SetParent(nodes, c, Some(n));
      nodes := nodes[x := WithChild(nx, slot, Some(n))];
      shape := Replace(shape, x, WithShapeChild(F, slot, Hang(n, side, ShapeChild(F, slot))));
      nextId := n + 1;
      r := Ok(Some(n));
    }

    /** erase(it): deletes the subtree at `it` and clears the parent's slot
        that held it; returns the parent. Erasing the root empties the tree.
        E000E on a null handle. */
    method Erase(it: Handle) returns (r: Result<Handle>)
      requires Valid() && Live(it) && ParentKnown(it)
      modifies this
      ensures Valid()
      ensures r.Err? <==> it.None?
      ensures r.Err? ==> r.error == E000E && unchanged(this)
      ensures it.Some? && it == old(root) ==> r == Ok(None) && nodes == map[] && Contents() == Empty
      ensures it.Some? && it != old(root) ==>
                var x := it.value;
                var q := old(nodes)[x].parent;
                && r == Ok(q) && Live(q) && root == old(root) && nextId == old(nextId)
                && shape == Replace(old(shape), x, Nil)
                && nodes == RelinkAt(old(nodes), q, x, None) - Ids(old(Subtree(it)))
      ensures old(LinksExact()) ==> LinksExact()
    {
      if it.None? {
        return Err(E000E);
      }
      var x := it.value;
      if it == root {
        Destroy(root, shape);
        assert nodes.Keys == {};
        root := None;
        shape := Nil;
        return Ok(None);
      }
      EraseNode(nodes, shape, root, nextId, x);
      ghost var F := Find(shape, x);
      var q := nodes[x].parent;
      nodes := RelinkAt(nodes, q, x, None);
      Destroy(it, F);
      shape := Replace(shape, x, Nil);
      r := Ok(q);
    }

    /** erase_left / erase_right: deletes the `slot` child's subtree and
        clears the slot; returns `it`. E000E on a null handle. */
    method EraseChild(it: Handle, slot: Side) returns (r: Result<Handle>)
      requires Valid() && Live(it)
      modifies this
      ensures Valid()
      ensures r.Err? <==> it.None?
      ensures r.Err? ==> r.error == E000E && unchanged(this)
      ensures it.Some? ==>
                var x := it.value;
                && r == Ok(it) && root == old(root) && nextId == old(nextId)
                && shape == Replace(old(shape), x, WithShapeChild(old(Subtree(it)), slot, Nil))
                && nodes == (old(nodes) - Ids(ShapeChild(old(Subtree(it)), slot)))
                              [x := WithChild(old(nodes)[x], slot, None)]
                && Live(it) && SubtreeValue(it) == WithValueChild(old(SubtreeValue(it)), slot, Empty)
      ensures old(LinksExact()) ==> LinksExact()
    {
      if it.None? {
        return Err(E000E);
      }
      var x := it.value;
      EraseChildNode(nodes, shape, root, nextId, x, slot);
      ghost var F := Find(shape, x);
      var nx := nodes[x];
      Destroy(Child(nx, slot), ShapeChild(F, slot));
      nodes := nodes[x := WithChild(nx, slot, None)];
      shape := Replace(shape, x, WithShapeChild(F, slot, Nil));
      r := Ok(it);
    }

    /** reserve_left / reserve_right: the `slot` child's subtree takes
        `it`'s place; `it` and its other subtree are deleted. Returns the
        promoted child. The source dereferences that child unchecked, so it
        must exist. E000E on a null handle. */
    method Reserve(it: Handle, slot: Side) returns (r: Result<Handle>)
      requires Valid() && Live(it) && ParentKnown(it)
      requires it.Some? ==> Child(nodes[it.value], slot).Some?
      modifies this
      ensures Valid()
      ensures r.Err? <==> it.None?
      ensures r.Err? ==> r.error == E000E && unchanged(this)
      ensures it.Some? ==>
                var x := it.value;
                var c := Child(old(nodes)[x], slot);
                var q := old(nodes)[x].parent;
                && r == Ok(c) && nextId == old(nextId)
                && root == (if it == old(root) then c else old(root))
                && shape == Replace(old(shape), x, ShapeChild(old(Subtree(it)), slot))
                && nodes == RelinkAt(SetParent(old(nodes)[x := WithChild(old(nodes)[x], slot, None)], c, q), q, x, c)
                              - ({x} + Ids(ShapeChild(old(Subtree(it)), Other(slot))))
                && Live(c) && SubtreeValue(c) == ValueChild(old(SubtreeValue(it)), slot)
                && nodes[c.value].parent == q
      ensures old(LinksExact()) ==> LinksExact()
    {
      if it.None? {
        return Err(E000E);
      }
      var x := it.value;
      ReserveNode(nodes, shape, root, nextId, x, slot);
      ghost var F := Find(shape, x);
      var nx := nodes[x];
      var reserve := Child(nx, slot);
      var q := nx.parent;
      nodes := nodes[x := WithChild(nx, slot, None)];
      nodes := SetParent(nodes, reserve, q);
      nodes := RelinkAt(nodes, q, x, reserve);
      Destroy(it, WithShapeChild(F, slot, Nil));
      if it == root {
        root := reserve;
      }
      shape := Replace(shape, x, ShapeChild(F, slot));
      r := Ok(reserve);
    }

    /** merge(it, t): a copy of `t` takes `it`'s place and the subtree at
        `it` is deleted; returns the copy's root (null when `t` is empty).
        `t` may be this very tree: it is copied before anything is deleted.
        E000E on a null handle. */
    method Merge(it: Handle, t: Tree<T>) returns (r: Result<Handle>, ghost graft: Shape)
      requires Valid() && Live(it) && ParentKnown(it) && t.Valid()
      modifies this
      ensures Valid()
      ensures r.Err? <==> it.None?
      ensures r.Err? ==> r.error == E000E && unchanged(this)
      ensures t != this ==> unchanged(t)
      ensures it.Some? ==>
                var x := it.value;
                var q := old(nodes)[x].parent;
                && r == Ok(RootId(graft))
                && root == (if it == old(root) then RootId(graft) else old(root))
                && shape == Replace(old(shape), x, graft)
                && (forall y :: y in Ids(graft) ==> old(nextId) <= y < nextId)
                && nodes - Ids(graft) == RelinkAt(old(nodes), q, x, RootId(graft)) - Ids(old(Subtree(it)))
                && Live(r.value) && SubtreeValue(r.value) == old(t.Contents())
                && (r.value.Some? ==> nodes[r.value.value].parent == q)
      ensures old(LinksExact()) ==> LinksExact()
    {
      if it.None? {
        return Err(E000E), Nil;
      }
      var x := it.value;
      Locate(nodes, shape, root, nextId, x);
      var q := nodes[x].parent;
      ghost var n1, s1, next1 := nodes, shape, nextId;
      var subroot;
      subroot, graft := Copy(t.nodes, t.shape, t.root, q);
      MergeNode(n1, s1, root, next1, x, nodes, graft, nextId);
      nodes := RelinkAt(nodes, q, x, subroot);
      Destroy(it, Find(s1, x));
      if it == root {
        root := subroot;
      }
      shape := Replace(s1, x, graft);
      r := Ok(subroot);
    }
  }
}
