/** The arena representation of `tree_type<T>` and the facts about it that
    the tree operations are proved with.

    A tree's nodes live in a map from node ids to `Node` records (the
    source's `tree_node`: parent back-link, two child links, payload). The
    map alone does not say that the links form a tree, so the model pairs
    it with a `Shape`: the tree of node ids that the child links are meant
    to spell out. `Shaped` says the child links agree with the shape,
    `Parented` what the parent back-links hold, and `ValueOf` reads the
    tree's payloads off the map, forgetting node identities. */
module TreeShape {

  type NodeId = nat

  datatype Option<+V> = None | Some(value: V)

  /** A tree handle (the source's iterator): a node id, or no node. */
  type Handle = Option<NodeId>

  /** tree_node: `parent` is the source's `root` field. */
  datatype Node<T> = Node(parent: Handle, left: Handle, right: Handle, data: T)

  /** Which child slot, or on which side of a new node an old subtree goes. */
  datatype Side = Left | Right

  function Child<T>(n: Node<T>, side: Side): Handle {
    if side == Left then n.left else n.right
  }

  function WithChild<T>(n: Node<T>, side: Side, c: Handle): Node<T> {
    if side == Left then n.(left := c) else n.(right := c)
  }

  /** The parent-side relink every splicing operation performs: the slot of
      `n` that holds `x` (the left one if it does, otherwise the right one)
      now holds `c`. */
  function Relink<T>(n: Node<T>, x: NodeId, c: Handle): Node<T> {
    if n.left == Some(x) then n.(left := c) else n.(right := c)
  }

  function Other(side: Side): Side {
    if side == Left then Right else Left
  }

  /** A new node below `parent` whose only child `c` sits on `side`. */
  function NewNode<T>(parent: Handle, side: Side, c: Handle, data: T): Node<T> {
    Node(parent, if side == Left then c else None, if side == Right then c else None, data)
  }

  /** `if (c != nullptr) c->root = p;` */
  function SetParent<T>(nodes: map<NodeId, Node<T>>, c: Handle, p: Handle): map<NodeId, Node<T>> {
    if c.Some? && c.value in nodes then nodes[c.value := nodes[c.value].(parent := p)] else nodes
  }

  /** `if (q != nullptr)` relink q's slot holding `x` to `c`. */
  function RelinkAt<T>(nodes: map<NodeId, Node<T>>, q: Handle, x: NodeId, c: Handle): map<NodeId, Node<T>> {
    if q.Some? && q.value in nodes then nodes[q.value := Relink(nodes[q.value], x, c)] else nodes
  }

  /** The id skeleton of a tree. */
  datatype Shape = Nil | Fork(id: NodeId, left: Shape, right: Shape)

  /** A tree's payloads without node identities. */
  datatype Value<T> = Empty | Bin(left: Value<T>, data: T, right: Value<T>)

  /** The subtree on one side of a tree value (none below an empty tree). */
  function ValueChild<T>(v: Value<T>, side: Side): Value<T> {
    if v.Empty? then Empty else if side == Left then v.left else v.right
  }

  /** A tree value with the subtree on one side replaced. */
  function WithValueChild<T>(v: Value<T>, side: Side, c: Value<T>): Value<T> {
    if v.Empty? then Empty else if side == Left then v.(left := c) else v.(right := c)
  }

  /** The value of a new node `d` holding `sub` on `side`. */
  function HangValue<T>(side: Side, sub: Value<T>, d: T): Value<T> {
    if side == Left then Bin(sub, d, Empty) else Bin(Empty, d, sub)
  }

  function RootId(s: Shape): Handle {
    if s.Nil? then None else Some(s.id)
  }

  function Ids(s: Shape): set<NodeId> {
    match s
    case Nil => {}
    case Fork(id, l, r) => {id} + Ids(l) + Ids(r)
  }

  /** No node id occurs twice. */
  predicate Distinct(s: Shape) {
    match s
    case Nil => true
    case Fork(id, l, r) =>
      id !in Ids(l) && id !in Ids(r) && Ids(l) !! Ids(r) && Distinct(l) && Distinct(r)
  }

  function ShapeChild(s: Shape, side: Side): Shape {
    if s.Nil? then Nil else if side == Left then s.left else s.right
  }

  function WithShapeChild(s: Shape, side: Side, c: Shape): Shape {
    if s.Nil? then Nil else if side == Left then s.(left := c) else s.(right := c)
  }

  /** A new node `id` holding `sub` on the given side. */
  function Hang(id: NodeId, side: Side, sub: Shape): Shape {
    if side == Left then Fork(id, sub, Nil) else Fork(id, Nil, sub)
  }

  /** The ids of a shape after one child subtree is replaced. */
  lemma WithChildIds(s: Shape, side: Side, c: Shape)
    requires s.Fork?
    ensures Ids(s) == {s.id} + Ids(ShapeChild(s, side)) + Ids(ShapeChild(s, Other(side)))
    ensures Ids(WithShapeChild(s, side, c)) == {s.id} + Ids(c) + Ids(ShapeChild(s, Other(side)))
    ensures Ids(Hang(s.id, side, c)) == {s.id} + Ids(c)
  {
    if side == Left {
      assert Ids(Hang(s.id, side, c)) == {s.id} + Ids(c) + Ids(Nil);
    } else {
      assert Ids(Hang(s.id, side, c)) == {s.id} + Ids(Nil) + Ids(c);
    }
  }

  /** Every node of `s` is in the map and its child links name its children
      in `s`. */
  predicate Shaped<T>(nodes: map<NodeId, Node<T>>, s: Shape) {
    match s
    case Nil => true
    case Fork(id, l, r) =>
      && id in nodes
      && nodes[id].left == RootId(l) && nodes[id].right == RootId(r)
      && Shaped(nodes, l) && Shaped(nodes, r)
  }

  /** A parent link as it should be (`expected`), or, unless `exact`, absent. */
  predicate ParentOk(actual: Handle, expected: Handle, exact: bool) {
    actual == expected || (!exact && actual.None?)
  }

  /** The parent links of `s`, whose root hangs below `p`, are correct; if
      not `exact`, some of them may be missing. */
  predicate Parented<T>(nodes: map<NodeId, Node<T>>, s: Shape, p: Handle, exact: bool) {
    match s
    case Nil => true
    case Fork(id, l, r) =>
      && id in nodes
      && ParentOk(nodes[id].parent, p, exact)
      && Parented(nodes, l, Some(id), exact) && Parented(nodes, r, Some(id), exact)
  }

  function ValueOf<T>(nodes: map<NodeId, Node<T>>, s: Shape): Value<T>
    requires Shaped(nodes, s)
  {
    match s
    case Nil => Empty
    case Fork(id, l, r) => Bin(ValueOf(nodes, l), nodes[id].data, ValueOf(nodes, r))
  }

  /** The subtree rooted at `x`. */
  function Find(s: Shape, x: NodeId): Shape {
    match s
    case Nil => Nil
    case Fork(id, l, r) =>
      if id == x then s else if x in Ids(l) then Find(l, x) else Find(r, x)
  }

  /** The parent of `x` in `s`, `p` being the parent of `s`'s root. */
  function ParentIn(s: Shape, x: NodeId, p: Handle): Handle {
    match s
    case Nil => None
    case Fork(id, l, r) =>
      if id == x then p
      else if x in Ids(l) then ParentIn(l, x, Some(id))
      else ParentIn(r, x, Some(id))
  }

  /** `s` with the subtree rooted at `x` replaced by `t`. */
  function Replace(s: Shape, x: NodeId, t: Shape): Shape {
    match s
    case Nil => Nil
    case Fork(id, l, r) =>
      if id == x then t
      else if x in Ids(l) then Fork(id, Replace(l, x, t), r)
      else Fork(id, l, Replace(r, x, t))
  }

  lemma {:induction false} ShapedIds<T>(nodes: map<NodeId, Node<T>>, s: Shape)
    requires Shaped(nodes, s)
    ensures Ids(s) <= nodes.Keys
  {
    if s.Fork? {
      ShapedIds(nodes, s.left);
      ShapedIds(nodes, s.right);
    }
  }

  /** The child links determine the shape: two shapes the same arena spells
      out from the same root are the same shape. */
  lemma {:induction false} ShapedUnique<T>(nodes: map<NodeId, Node<T>>, s1: Shape, s2: Shape)
    requires Shaped(nodes, s1) && Shaped(nodes, s2) && RootId(s1) == RootId(s2)
    ensures s1 == s2
  {
    if s1.Fork? {
      ShapedUnique(nodes, s1.left, s2.left);
      ShapedUnique(nodes, s1.right, s2.right);
    }
  }

  /** Correct parent links are in particular acceptable ones. */
  lemma {:induction false} ExactIsWeak<T>(nodes: map<NodeId, Node<T>>, s: Shape, p: Handle)
    requires Parented(nodes, s, p, true)
    ensures Parented(nodes, s, p, false)
  {
    if s.Fork? {
      ExactIsWeak(nodes, s.left, Some(s.id));
      ExactIsWeak(nodes, s.right, Some(s.id));
    }
  }

  /** What holds of a subtree holds in any map that agrees on its nodes. */
  lemma {:induction false} Unaffected<T>(n1: map<NodeId, Node<T>>, n2: map<NodeId, Node<T>>,
                                        s: Shape, p: Handle, exact: bool)
    requires Shaped(n1, s)
    requires forall y :: y in Ids(s) ==> y in n1 && y in n2 && n2[y] == n1[y]
    ensures Shaped(n2, s) && ValueOf(n2, s) == ValueOf(n1, s)
    ensures Parented(n1, s, p, exact) ==> Parented(n2, s, p, exact)
  {
    if s.Fork? {
      Unaffected(n1, n2, s.left, Some(s.id), exact);
      Unaffected(n1, n2, s.right, Some(s.id), exact);
    }
  }

  /** A write to a node outside a subtree leaves the subtree's links and
      payloads as they were. */
  lemma KeepOutsideWrite<T>(m: map<NodeId, Node<T>>, s: Shape, k: NodeId, n: Node<T>, p: Handle)
    requires Shaped(m, s) && k !in Ids(s)
    ensures Shaped(m[k := n], s) && ValueOf(m[k := n], s) == ValueOf(m, s)
    ensures Parented(m, s, p, false) ==> Parented(m[k := n], s, p, false)
    ensures Parented(m, s, p, true) ==> Parented(m[k := n], s, p, true)
  {
    ShapedIds(m, s);
    Unaffected(m, m[k := n], s, p, false);
    Unaffected(m, m[k := n], s, p, true);
  }

  /** Deleting nodes outside a subtree leaves it as it was. */
  lemma KeepRemove<T>(m: map<NodeId, Node<T>>, s: Shape, gone: set<NodeId>, p: Handle)
    requires Shaped(m, s) && Ids(s) !! gone
    ensures Shaped(m - gone, s) && ValueOf(m - gone, s) == ValueOf(m, s)
    ensures Parented(m, s, p, false) ==> Parented(m - gone, s, p, false)
    ensures Parented(m, s, p, true) ==> Parented(m - gone, s, p, true)
  {
    ShapedIds(m, s);
    Unaffected(m, m - gone, s, p, false);
    Unaffected(m, m - gone, s, p, true);
  }

  /** Setting a subtree root's parent link to `p2` hangs the subtree below
      `p2`, exactly. */
  lemma ReparentRoot<T>(m: map<NodeId, Node<T>>, s: Shape, p: Handle, p2: Handle)
    requires s.Fork? && Distinct(s) && Shaped(m, s)
    ensures var m2 := m[s.id := m[s.id].(parent := p2)];
            && Shaped(m2, s) && ValueOf(m2, s) == ValueOf(m, s)
            && (Parented(m, s, p, false) ==> Parented(m2, s, p2, false))
            && (Parented(m, s, p, true) ==> Parented(m2, s, p2, true))
  {
    var m2 := m[s.id := m[s.id].(parent := p2)];
    ShapedIds(m, s);
    Unaffected(m, m2, s.left, Some(s.id), false);
    Unaffected(m, m2, s.left, Some(s.id), true);
    Unaffected(m, m2, s.right, Some(s.id), false);
    Unaffected(m, m2, s.right, Some(s.id), true);
  }

  /** Child and parent links carry over to a map that changes only payloads. */
  lemma {:induction false} Relabelled<T>(n1: map<NodeId, Node<T>>, n2: map<NodeId, Node<T>>,
                                        s: Shape, p: Handle, exact: bool)
    requires Shaped(n1, s)
    requires forall y :: y in Ids(s) ==> y in n1 && y in n2 && n2[y] == n1[y].(data := n2[y].data)
    ensures Shaped(n2, s)
    ensures Parented(n1, s, p, exact) ==> Parented(n2, s, p, exact)
  {
    if s.Fork? {
      Relabelled(n1, n2, s.left, Some(s.id), exact);
      Relabelled(n1, n2, s.right, Some(s.id), exact);
    }
  }

  /** With exact parent links, a node's parent link is its parent, and it
      is set for every node but a parentless root. */
  lemma ExactParent<T>(nodes: map<NodeId, Node<T>>, s: Shape, x: NodeId)
    requires Distinct(s) && Shaped(nodes, s) && Parented(nodes, s, None, true) && x in Ids(s)
    ensures x in nodes && nodes[x].parent == ParentIn(s, x, None)
    ensures nodes[x].parent.None? <==> RootId(s) == Some(x)
  {
    FindProps(nodes, s, x, None, true);
    if RootId(s) != Some(x) {
      ParentSlot(nodes, s, x, None);
    }
  }

  /** A subtree keeps its shape, payloads and inner parent links when only
      its root's parent link changes. */
  lemma Reparented<T>(n1: map<NodeId, Node<T>>, n2: map<NodeId, Node<T>>,
                      s: Shape, p: Handle, p2: Handle, exact: bool)
    requires s.Fork? && Distinct(s) && Shaped(n1, s) && Parented(n1, s, p, exact)
    requires s.id in n2 && n2[s.id] == n1[s.id].(parent := n2[s.id].parent)
    requires forall y :: y in Ids(s) && y != s.id ==> y in n1 && y in n2 && n2[y] == n1[y]
    requires ParentOk(n2[s.id].parent, p2, exact)
    ensures Shaped(n2, s) && ValueOf(n2, s) == ValueOf(n1, s)
    ensures Parented(n2, s, p2, exact)
  {
    Unaffected(n1, n2, s.left, Some(s.id), exact);
    Unaffected(n1, n2, s.right, Some(s.id), exact);
  }

  /** The subtree at `x` is rooted at `x` and lies within `s`. */
  lemma {:induction false} FindShape(s: Shape, x: NodeId)
    requires x in Ids(s)
    ensures Find(s, x).Fork? && Find(s, x).id == x && Ids(Find(s, x)) <= Ids(s)
    ensures Distinct(s) ==> Distinct(Find(s, x))
  {
    if s.id != x {
      if x in Ids(s.left) {
        FindShape(s.left, x);
      } else {
        FindShape(s.right, x);
      }
    }
  }

  /** Looking a node up inside one of the subtrees finds what looking it up
      in the whole tree finds. */
  lemma {:induction false} FindNested(s: Shape, x: NodeId, y: NodeId)
    requires Distinct(s) && x in Ids(s) && y in Ids(Find(s, x))
    ensures Find(s, y) == Find(Find(s, x), y)
  {
    FindShape(s, x);
    if s.id != x {
      if x in Ids(s.left) {
        FindShape(s.left, x);
        FindNested(s.left, x, y);
      } else {
        FindShape(s.right, x);
        FindNested(s.right, x, y);
      }
    }
  }

  /** After replacing the subtree at `x` by a tree with fresh ids, looking up
      that tree's root finds it. */
  lemma {:induction false} FindReplaced(s: Shape, x: NodeId, t: Shape)
    requires Distinct(s) && Distinct(t) && x in Ids(s) && t.Fork?
    requires Ids(t) !! (Ids(s) - Ids(Find(s, x)))
    ensures Find(Replace(s, x, t), t.id) == t
  {
    FindShape(s, x);
    if s.id != x {
      if x in Ids(s.left) {
        FindShape(s.left, x);
        ReplaceIds(s.left, x, t);
        FindReplaced(s.left, x, t);
      } else {
        FindShape(s.right, x);
        ReplaceIds(s.right, x, t);
        FindReplaced(s.right, x, t);
      }
    }
  }

  /** The subtree at `x` inherits `s`'s child and parent links, its root
      hanging below ParentIn. */
  lemma {:induction false} FindProps<T>(nodes: map<NodeId, Node<T>>, s: Shape, x: NodeId,
                                       p: Handle, exact: bool)
    requires x in Ids(s)
    ensures Find(s, x).Fork? && Find(s, x).id == x && Ids(Find(s, x)) <= Ids(s)
    ensures Distinct(s) ==> Distinct(Find(s, x))
    ensures Shaped(nodes, s) ==> Shaped(nodes, Find(s, x))
    ensures Parented(nodes, s, p, exact) ==> Parented(nodes, Find(s, x), ParentIn(s, x, p), exact)
  {
    FindShape(s, x);
    if s.id != x {
      if x in Ids(s.left) {
        FindProps(nodes, s.left, x, Some(s.id), exact);
      } else {
        FindProps(nodes, s.right, x, Some(s.id), exact);
      }
    }
  }

  /** A node other than the root has a parent inside `s`, outside its own
      subtree, and one of that parent's child links holds it. */
  lemma {:induction false} ParentSlot<T>(nodes: map<NodeId, Node<T>>, s: Shape, x: NodeId, p: Handle)
    requires Distinct(s) && Shaped(nodes, s) && x in Ids(s) && RootId(s) != Some(x)
    ensures ParentIn(s, x, p).Some?
    ensures ParentIn(s, x, p).value in Ids(s) - Ids(Find(s, x))
    ensures ParentIn(s, x, p).value in nodes
    ensures nodes[ParentIn(s, x, p).value].left == Some(x) || nodes[ParentIn(s, x, p).value].right == Some(x)
  {
    ShapedIds(nodes, s);
    FindProps(nodes, s, x, p, false);
    var l, r := s.left, s.right;
    if x in Ids(l) {
      FindProps(nodes, l, x, p, false);
      if l.id != x {
        ParentSlot(nodes, l, x, Some(s.id));
      }
    } else {
      FindProps(nodes, r, x, p, false);
      if r.id != x {
        ParentSlot(nodes, r, x, Some(s.id));
      }
    }
  }

  /** Replacing the subtree at `x` by `t` with fresh ids keeps ids distinct:
      the new ids are the old ones minus the subtree's, plus `t`'s. */
  lemma {:induction false} ReplaceIds(s: Shape, x: NodeId, t: Shape)
    requires Distinct(s) && Distinct(t) && x in Ids(s)
    requires Ids(t) !! (Ids(s) - Ids(Find(s, x)))
    ensures Distinct(Replace(s, x, t))
    ensures Ids(Replace(s, x, t)) == (Ids(s) - Ids(Find(s, x))) + Ids(t)
    ensures RootId(Replace(s, x, t)) == if RootId(s) == Some(x) then RootId(t) else RootId(s)
  {
    FindShape(s, x);
    match s
    case Fork(id, l, r) =>
      if id != x {
        if x in Ids(l) {
          FindShape(l, x);
          ReplaceIds(l, x, t);
        } else {
          FindShape(r, x);
          ReplaceIds(r, x, t);
        }
      }
  }

  /** The splicing step shared by every structural operation: the subtree
      at `x` is replaced by `t` in the map `n2`, which agrees with `n1`
      outside the old subtree except that the parent of `x` has its slot
      relinked to `t`'s root, and in which `t` is well linked below that
      parent. Then `n2` is well linked along the new shape. */
  lemma {:induction false} ReplaceLinks<T>(n1: map<NodeId, Node<T>>, n2: map<NodeId, Node<T>>,
                                          s: Shape, x: NodeId, t: Shape, p: Handle, exact: bool)
    requires Distinct(s) && x in Ids(s) && Shaped(n1, s) && Parented(n1, s, p, exact)
    requires Shaped(n2, t) && Parented(n2, t, ParentIn(s, x, p), exact)
    requires forall y :: y in Ids(s) - Ids(Find(s, x)) && Some(y) != ParentIn(s, x, p) ==>
               y in n1 && y in n2 && n2[y] == n1[y]
    requires var q := ParentIn(s, x, p);
             q.Some? && q.value in n1 ==> q.value in n2 && n2[q.value] == Relink(n1[q.value], x, RootId(t))
    ensures Shaped(n2, Replace(s, x, t)) && Parented(n2, Replace(s, x, t), p, exact)
  {
    var id, l, r := s.id, s.left, s.right;
    if id == x {
      return;
    }
    FindProps(n1, s, x, p, exact);
    ShapedIds(n1, s);
    if x in Ids(l) {
      FindProps(n1, l, x, Some(id), exact);
      ReplaceLinks(n1, n2, l, x, t, Some(id), exact);
      if l.id != x {
        ParentSlot(n1, l, x, Some(id));
      }
      Unaffected(n1, n2, r, Some(id), exact);
    } else {
      FindProps(n1, r, x, Some(id), exact);
      ReplaceLinks(n1, n2, r, x, t, Some(id), exact);
      if r.id != x {
        ParentSlot(n1, r, x, Some(id));
      }
      Unaffected(n1, n2, l, Some(id), exact);
    }
  }
}
