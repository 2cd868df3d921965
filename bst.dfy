/** The binary search tree demonstration: a tree of heap nodes that grows
    by one leaf per insertion (smaller values to the left, equal and larger
    ones to the right), and in-order and pre-order walks that report each
    node they visit. Node colours and positions are not modelled. */
module Bst {
  import opened Common
  import opened Resources
  import opened Graphics
  import opened Lifecycle

  /** The shape of every node. */
  const SPHERE := "sphere"
  const NODE_SPHERE: seq<string> := ["0.6", "32", "32"]

  // ---------------------------------------------------------------
  // The tree as a value
  // ---------------------------------------------------------------

  datatype Tree = Leaf | Branch(left: Tree, val: int, right: Tree)

  function Size(t: Tree): nat {
    match t
    case Leaf => 0
    case Branch(l, _, r) => Size(l) + 1 + Size(r)
  }

  /** The values of the tree, each as often as a node holds it. */
  function Elems(t: Tree): multiset<int> {
    match t
    case Leaf => multiset{}
    case Branch(l, x, r) => Elems(l) + multiset{x} + Elems(r)
  }

  /** Every value on the left of a node is below it, every value on its
      right is not. */
  ghost predicate IsBst(t: Tree) {
    match t
    case Leaf => true
    case Branch(l, x, r) =>
      IsBst(l) && IsBst(r)
      && (forall y :: y in Elems(l) ==> y < x)
      && (forall y :: y in Elems(r) ==> x <= y)
  }

  /** `u` is `t` with exactly one empty child replaced by a new leaf node
      holding `v`; every node of `t` keeps its value and its links. */
  ghost predicate Grafted(t: Tree, u: Tree, v: int) {
    match t
    case Leaf => u == Branch(Leaf, v, Leaf)
    case Branch(l, x, r) =>
      u.Branch? && u.val == x
      && ((Grafted(l, u.left, v) && u.right == r) || (u.left == l && Grafted(r, u.right, v)))
  }

  /** Insertion: down the left of a node whose value is above `v`, down the
      right otherwise, and a new leaf at the first empty child. */
  function Insert(t: Tree, v: int): (u: Tree)
    ensures Grafted(t, u, v)
  {
    match t
    case Leaf => Branch(Leaf, v, Leaf)
    case Branch(l, x, r) =>
      if v < x then Branch(Insert(l, v), x, r) else Branch(l, x, Insert(r, v))
  }

  /** The tree built by inserting `vs` in order into `t`. */
  function InsertAll(t: Tree, vs: seq<int>): Tree
    decreases |vs|
  {
    if vs == [] then t else InsertAll(Insert(t, vs[0]), vs[1..])
  }

  /** The values in visiting order: left subtree, node, right subtree. */
  function InOrder(t: Tree): seq<int> {
    match t
    case Leaf => []
    case Branch(l, x, r) => InOrder(l) + [x] + InOrder(r)
  }

  /** The values in visiting order: node, left subtree, right subtree. */
  function PreOrder(t: Tree): seq<int> {
    match t
    case Leaf => []
    case Branch(l, x, r) => [x] + PreOrder(l) + PreOrder(r)
  }

  predicate NonDecreasing(s: seq<int>) {
    forall p, q :: 0 <= p < q < |s| ==> s[p] <= s[q]
  }

  /** Adding `d` to the left or the right part of `a + b + c` adds it to
      the whole. */
  lemma AddToPart<T>(a: multiset<T>, b: multiset<T>, c: multiset<T>, d: multiset<T>)
    ensures (a + d) + b + c == a + b + c + d
    ensures a + b + (c + d) == a + b + c + d
  {
  }

  /** Insertion adds the value once and leaves every other value. */
  lemma {:induction false} InsertElems(t: Tree, v: int)
    ensures Elems(Insert(t, v)) == Elems(t) + multiset{v}
    ensures Size(Insert(t, v)) == Size(t) + 1
  {
    match t
    case Leaf =>
    case Branch(l, x, r) =>
      AddToPart(Elems(l), multiset{x}, Elems(r), multiset{v});
      if v < x {
        InsertElems(l, v);
      } else {
        InsertElems(r, v);
      }
  }

  /** A bound every value of `m` meets, and `v` meets too, holds for
      `m + {v}`: below `x` when `below`, at least `x` otherwise. */
  lemma BoundedGrows(m: multiset<int>, v: int, x: int, below: bool)
    requires below ==> v < x && forall y :: y in m ==> y < x
    requires !below ==> x <= v && forall y :: y in m ==> x <= y
    ensures below ==> forall y :: y in m + multiset{v} ==> y < x
    ensures !below ==> forall y :: y in m + multiset{v} ==> x <= y
  {
  }

  /** Insertion keeps the search-tree order. */
  lemma {:induction false} InsertKeepsBst(t: Tree, v: int)
    requires IsBst(t)
    ensures IsBst(Insert(t, v))
  {
    match t
    case Leaf =>
    case Branch(l, x, r) =>
      if v < x {
        InsertKeepsBst(l, v);
        InsertElems(l, v);
        BoundedGrows(Elems(l), v, x, true);
      } else {
        InsertKeepsBst(r, v);
        InsertElems(r, v);
        BoundedGrows(Elems(r), v, x, false);
      }
  }

  /** Every tree built by insertions from the empty tree is a search tree. */
  lemma {:induction false} InsertAllKeepsBst(t: Tree, vs: seq<int>)
    requires IsBst(t)
    ensures IsBst(InsertAll(t, vs))
    decreases |vs|
  {
    if vs != [] {
      InsertKeepsBst(t, vs[0]);
      InsertAllKeepsBst(Insert(t, vs[0]), vs[1..]);
    }
  }

  /** Each walk visits every node exactly once. */
  lemma {:induction false} WalksVisitEveryNode(t: Tree)
    ensures multiset(InOrder(t)) == Elems(t) && |InOrder(t)| == Size(t)
    ensures multiset(PreOrder(t)) == Elems(t) && |PreOrder(t)| == Size(t)
  {
    match t
    case Leaf =>
    case Branch(l, x, r) =>
      WalksVisitEveryNode(l);
      WalksVisitEveryNode(r);
  }

  /** On a search tree the in-order walk visits the values in
      non-decreasing order. */
  lemma {:induction false} InOrderSorted(t: Tree)
    requires IsBst(t)
    ensures NonDecreasing(InOrder(t))
  {
    match t
    case Leaf =>
    case Branch(l, x, r) =>
      InOrderSorted(l);
      InOrderSorted(r);
      WalksVisitEveryNode(l);
      WalksVisitEveryNode(r);
      var a, b := InOrder(l), InOrder(r);
      forall k | 0 <= k < |a|
        ensures a[k] < x
      {
        assert a[k] in multiset(a);
      }
      forall k | 0 <= k < |b|
        ensures x <= b[k]
      {
        assert b[k] in multiset(b);
      }
      JoinSorted(a, x, b);
  }

  /** Two sorted runs on either side of a value, all of the first below it
      and none of the second, make one sorted run. */
  lemma JoinSorted(a: seq<int>, x: int, b: seq<int>)
    requires NonDecreasing(a) && NonDecreasing(b)
    requires forall k :: 0 <= k < |a| ==> a[k] < x
    requires forall k :: 0 <= k < |b| ==> x <= b[k]
    ensures NonDecreasing(a + [x] + b)
  {
    var s := a + [x] + b;
    forall p, q | 0 <= p < q < |s|
      ensures s[p] <= s[q]
    {
      if q < |a| {
        assert s[p] == a[p] && s[q] == a[q];
      } else if p < |a| {
        assert s[p] == a[p];
        if q > |a| {
          assert s[q] == b[q - |a| - 1];
        }
      } else if p == |a| {
        assert s[q] == b[q - |a| - 1];
      } else {
        assert s[p] == b[p - |a| - 1] && s[q] == b[q - |a| - 1];
      }
    }
  }

  /** Inserting 50, 30, 70, 20, 40 into the empty tree: the in-order walk
      gives them sorted, the pre-order walk root first. */
  lemma FiveInsertions()
    ensures InOrder(InsertAll(Leaf, [50, 30, 70, 20, 40])) == [20, 30, 40, 50, 70]
    ensures PreOrder(InsertAll(Leaf, [50, 30, 70, 20, 40])) == [50, 30, 20, 40, 70]
  {
    var t := InsertAll(Leaf, [50, 30, 70, 20, 40]);
    assert t == Branch(Branch(Branch(Leaf, 20, Leaf), 30, Branch(Leaf, 40, Leaf)), 50, Branch(Leaf, 70, Leaf));
  }

  // ---------------------------------------------------------------
  // The tree on the heap
  // ---------------------------------------------------------------

  /** A node of the tree. `repr` is the set of nodes of its subtree and
      `tree` the subtree's value. */
  class Node {
    const val: int
    const mesh: Mesh
    var left: Node?
    var right: Node?
    ghost var repr: set<Node>
    ghost var tree: Tree

    ghost predicate Valid()
      reads this, repr
      decreases repr
    {
      this in repr
      && (left != null ==> left in repr && left.repr <= repr && this !in left.repr && left.Valid())
      && (right != null ==> right in repr && right.repr <= repr && this !in right.repr && right.Valid())
      && (left != null && right != null ==> left.repr !! right.repr)
      && tree == Branch(if left == null then Leaf else left.tree, val,
                        if right == null then Leaf else right.tree)
    }

    /** A node without children. */
    constructor (v: int, m: Mesh)
      ensures Valid() && fresh(repr - {this}) && repr == {this}
      ensures val == v && mesh == m && tree == Branch(Leaf, v, Leaf)
    {
      val, mesh := v, m;
      left, right := null, null;
      repr := {this};
      tree := Branch(Leaf, v, Leaf);
    }
  }

  /** The value of the subtree at `n`, empty for no node. */
  ghost function TreeOf(n: Node?): Tree
    reads n
  {
    if n == null then Leaf else n.tree
  }

  /** The nodes of the subtree at `n`. */
  ghost function ReprOf(n: Node?): set<Node>
    reads n
  {
    if n == null then {} else n.repr
  }

  class BstModule {
    const base: ModuleBase
    const gfx: GraphicsEngine
    var root: Node?

    ghost predicate Valid()
      reads this, base, gfx, gfx.resources, root, ReprOf(root)
    {
      base.gfx == gfx && gfx.Valid() && (root != null ==> root.Valid())
    }

    /** The tree the module holds. */
    ghost function Contents(): Tree
      reads this, root
    {
      TreeOf(root)
    }

    /** A fresh module holds the empty tree. */
    constructor (engine: GraphicsEngine)
      requires engine.Valid()
      modifies engine, engine.hoveredObject
      ensures Valid() && gfx == engine && fresh(base) && !base.cancelToken
      ensures Contents() == Leaf && gfx.objects == [] && gfx.arrows == []
    {
      base := new ModuleBase(engine);
      gfx := engine;
      root := null;
    }

    /** Inserts `floor(r * 99)`: an empty tree gets it as its root at once;
        otherwise it goes down from the root, each node on the way being
        looked at with a suspension, and a torn-down module stops at the
        root with the tree unchanged. */
    method InsertRandom(r: real) returns (status: Status)
      requires Valid() && 0.0 <= r < 1.0
      modifies this, ReprOf(root), gfx, gfx.resources
      ensures Valid() && fresh(ReprOf(root) - old(ReprOf(root)))
      ensures var v := RandomBelow(r, 99);
              status == (if old(root) != null && base.cancelToken then Cancelled else Done)
              && (status == Done ==> Contents() == Insert(old(Contents()), v))
              && (status == Cancelled ==> Contents() == old(Contents()))
      ensures old(root) == null ==> Contents() == Branch(Leaf, RandomBelow(r, 99), Leaf)
    {
      var v := RandomBelow(r, 99);
      if root == null {
        root := CreateNode(v);
        return Done;
      }
      status := InsertRec(root, v);
    }

    /** A node for `v`, its sphere registered with `v` as its label. */
    method CreateNode(v: int) returns (node: Node)
      requires gfx.Valid()
      modifies gfx, gfx.resources
      ensures gfx.Valid() && fresh(node) && node.Valid() && node.repr == {node}
      ensures node.tree == Branch(Leaf, v, Leaf) && fresh(node.mesh)
      ensures gfx.objects == old(gfx.objects) + [node.mesh] && gfx.arrows == old(gfx.arrows)
    {
      var mesh := NewMesh(gfx.resources, SPHERE, NODE_SPHERE, SUCCESS);
      gfx.AddObj(mesh, Some(Number(v)), None);
      node := new Node(v, mesh);
    }

    /** One step down from `node`: after a suspension, `v` goes left when
        it is below the node's value and right otherwise. */
    method InsertRec(node: Node, v: int) returns (status: Status)
      requires gfx.Valid() && node.Valid()
      modifies node.repr, gfx, gfx.resources
      decreases node.repr, 1
      ensures gfx.Valid() && node.Valid() && fresh(node.repr - old(node.repr))
      ensures status == (if base.cancelToken then Cancelled else Done)
      ensures status == Cancelled ==> node.tree == old(node.tree) && node.repr == old(node.repr)
      ensures status == Done ==> node.tree == Insert(old(node.tree), v)
    {
      var ok := base.Sleep();
      if !ok {
        return Cancelled;
      }
      if v < node.val {
        InsertLeft(node, v);
      } else {
        InsertRight(node, v);
      }
      return Done;
    }

    /** Puts `v` into the left subtree of `node`: a new leaf joined by an
        arrow where there is none, and down into it otherwise. */
    method InsertLeft(node: Node, v: int)
      requires gfx.Valid() && node.Valid() && !base.cancelToken
      modifies node.repr, gfx, gfx.resources
      decreases node.repr, 0
      ensures gfx.Valid() && node.Valid() && fresh(node.repr - old(node.repr))
      ensures node.tree == Branch(Insert(old(node.tree).left, v), node.val, old(node.tree).right)
    {
      if node.left == null {
        AttachLeft(node, v);
      } else {
        var status := InsertRec(node.left, v);
        node.repr := node.repr + node.left.repr;
        node.tree := Branch(node.left.tree, node.val, TreeOf(node.right));
      }
    }

    /** A new leaf for `v` as the missing left child of `node`, joined to it
        by an arrow. */
    method AttachLeft(node: Node, v: int)
      requires gfx.Valid() && node.Valid() && node.left == null
      modifies node, gfx, gfx.resources
      ensures gfx.Valid() && node.Valid() && fresh(node.repr - old(node.repr))
      ensures node.tree == Branch(Branch(Leaf, v, Leaf), node.val, old(node.tree).right)
    {
      var n := CreateNode(v);
      node.left := n;
      gfx.AddArrow(WHITE, None);
      node.repr := node.repr + n.repr;
      node.tree := Branch(n.tree, node.val, TreeOf(node.right));
    }

    /** Puts `v` into the right subtree of `node`: a new leaf joined by an
        arrow where there is none, and down into it otherwise. */
    method InsertRight(node: Node, v: int)
      requires gfx.Valid() && node.Valid() && !base.cancelToken
      modifies node.repr, gfx, gfx.resources
      decreases node.repr, 0
      ensures gfx.Valid() && node.Valid() && fresh(node.repr - old(node.repr))
      ensures node.tree == Branch(old(node.tree).left, node.val, Insert(old(node.tree).right, v))
    {
      if node.right == null {
        AttachRight(node, v);
      } else {
        var status := InsertRec(node.right, v);
        node.repr := node.repr + node.right.repr;
        node.tree := Branch(TreeOf(node.left), node.val, node.right.tree);
      }
    }

    /** A new leaf for `v` as the missing right child of `node`, joined to it
        by an arrow. */
    method AttachRight(node: Node, v: int)
      requires gfx.Valid() && node.Valid() && node.right == null
      modifies node, gfx, gfx.resources
      ensures gfx.Valid() && node.Valid() && fresh(node.repr - old(node.repr))
      ensures node.tree == Branch(old(node.tree).left, node.val, Branch(Leaf, v, Leaf))
    {
      var n := CreateNode(v);
      node.right := n;
      gfx.AddArrow(WHITE, None);
      node.repr := node.repr + n.repr;
      node.tree := Branch(TreeOf(node.left), node.val, n.tree);
    }

    /** Walks the tree in the order `kind` names ("inorder" or "preorder")
        and returns the values it reports, one per visit; any other kind
        visits nothing. Every visit reports its node and then suspends, so
        a torn-down module reports only the first node. */
    method Traverse(kind: string) returns (visited: seq<int>, status: Status)
      requires Valid()
      ensures var order := if kind == "inorder" then InOrder(Contents())
                           else if kind == "preorder" then PreOrder(Contents())
                           else [];
              status == (if base.cancelToken && order != [] then Cancelled else Done)
              && visited == (if status == Done then order else order[..1])
    {
      var resumed := true;
      visited := [];
      if kind == "inorder" {
        visited, resumed := InOrderWalk(root);
      } else if kind == "preorder" {
        visited, resumed := PreOrderWalk(root);
      }
      status := if resumed then Done else Cancelled;
    }

    /** The in-order walk of the subtree at `node`. */
    method InOrderWalk(node: Node?) returns (visited: seq<int>, resumed: bool)
      requires node != null ==> node.Valid()
      decreases ReprOf(node)
      ensures resumed <==> !(base.cancelToken && node != null)
      ensures visited == if resumed then InOrder(TreeOf(node)) else InOrder(TreeOf(node))[..1]
    {
      if node == null {
        return [], true;
      }
      var before, ok := InOrderWalk(node.left);
      if !ok {
        return before, false;
      }
      visited := before + [node.val];
      ok := base.Sleep();
      if !ok {
        return visited, false;
      }
      var after;
      after, ok := InOrderWalk(node.right);
      return visited + after, true;
    }

    /** The pre-order walk of the subtree at `node`. */
    method PreOrderWalk(node: Node?) returns (visited: seq<int>, resumed: bool)
      requires node != null ==> node.Valid()
      decreases ReprOf(node)
      ensures resumed <==> !(base.cancelToken && node != null)
      ensures visited == if resumed then PreOrder(TreeOf(node)) else PreOrder(TreeOf(node))[..1]
    {
      if node == null {
        return [], true;
      }
      visited := [node.val];
      var ok := base.Sleep();
      if !ok {
        return visited, false;
      }
      var before, after;
      before, ok := PreOrderWalk(node.left);
      after, ok := PreOrderWalk(node.right);
      return visited + before + after, true;
    }
  }
}
