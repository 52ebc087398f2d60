/** The intrusive AVL tree of src/avl_tree.cpp on heap nodes.  Every method takes, as ghost
    arguments, the tree (and position) that its nodes form and is proved against the function
    of the same name in AvlShape.

    Heights are signed with height(NULL) = -1.  The source keeps them in uint32_t, where the
    same comparisons wrap around (lines 86-88, 222-224 and 242); see module AsWritten. */
module AvlTree {
  import opened AvlShape

  // ---------- representation ----------

  /** The root of `t` and its two children point at each other. */
  ghost predicate Linked(t: Tree)
    requires t.Node?
    reads Nodes(t)
  {
    && t.n.left == Root(t.left) && t.n.right == Root(t.right)
    && (t.left.Node? ==> t.left.n.parent == t.n)
    && (t.right.Node? ==> t.right.n.parent == t.n)
  }

  /** The heap holds `t`: child and parent links agree, heights and counts are exact. */
  ghost predicate Rep(t: Tree)
    reads Nodes(t)
  {
    t.Node? ==>
      && Linked(t) && t.n.height == Height(t) && t.n.cnt == Size(t)
      && Rep(t.left) && Rep(t.right)
  }

  /** As Rep, but the root's own height and count may be out of date. */
  ghost predicate Kids(t: Tree)
    requires t.Node?
    reads Nodes(t)
  {
    Linked(t) && Rep(t.left) && Rep(t.right)
  }

  /** The heap holds the ancestors and side trees of `c`, whose innermost slot contains `hole`. */
  ghost predicate CtxLinked(c: Ctx, hole: ZNode?)
    reads CtxNodes(c)
  {
    c.Step? ==>
      && c.n.left == (if c.left then hole else Root(c.side))
      && c.n.right == (if c.left then Root(c.side) else hole)
      && (c.side.Node? ==> c.side.n.parent == c.n) && Rep(c.side)
      && c.n.parent == Up(c.up) && CtxLinked(c.up, c.n)
  }

  /** The ancestors in `c` have exact heights and counts for a hole of height `h` and size `k`. */
  ghost predicate CtxExact(c: Ctx, h: int, k: nat)
    reads CtxNodes(c)
  {
    c.Step? ==>
      && c.n.height == 1 + Max(h, Height(c.side)) && c.n.cnt == 1 + k + Size(c.side)
      && CtxExact(c.up, 1 + Max(h, Height(c.side)), 1 + k + Size(c.side))
  }

  /** A whole tree hanging from a root pointer. */
  ghost predicate IsTree(root: ZNode?, t: Tree)
    reads Nodes(t)
  {
    Distinct(t) && Rep(t) && root == Root(t) && (t.Node? ==> t.n.parent == null)
  }

  /** Any position of a represented tree can be looked at on its own. */
  lemma {:induction false} Focus(c: Ctx, t: Tree)
    requires Rep(Plug(c, t))
    requires Plug(c, t).Node? && Plug(c, t).n.parent == null
    ensures Nodes(Plug(c, t)) == CtxNodes(c) + Nodes(t)
    ensures Rep(t) && CtxLinked(c, Root(t)) && (t.Node? ==> t.n.parent == Up(c))
    decreases c
  {
    PlugDistinct(c, t);
    if c.Step? {
      Focus(c.up, Above(c, t));
    }
  }

  /** Everything `Rep` reads in `s` is as before, except possibly the parent of `top`. */
  twostate predicate Kept(s: set<ZNode>, top: ZNode?)
    reads s
  {
    forall n | n in s ::
      && n.left == old(n.left) && n.right == old(n.right)
      && n.height == old(n.height) && n.cnt == old(n.cnt)
      && (n != top ==> n.parent == old(n.parent))
  }

  lemma {:induction false} NodesAllocated(t: Tree)
    ensures forall n | n in Nodes(t) :: allocated(n)
    ensures forall n | n in InOrder(t) :: allocated(n)
  {
    if t.Node? {
      NodesAllocated(t.left);
      NodesAllocated(t.right);
    }
  }

  twostate lemma {:induction false} RepKept(t: Tree)
    requires Distinct(t) && old(Rep(t)) && Kept(Nodes(t), Root(t))
    ensures Rep(t)
  {
    if t.Node? {
      RepKept(t.left);
      RepKept(t.right);
    }
  }

  // ---------- updates and rotations ----------

  function AvlHeight(node: ZNode?): int
    reads node
  {
    if node == null then -1 else node.height
  }

  function AvlCnt(node: ZNode?): nat
    reads node
  {
    if node == null then 0 else node.cnt
  }

  lemma Exact(t: Tree)
    requires Rep(t)
    ensures AvlHeight(Root(t)) == Height(t) && AvlCnt(Root(t)) == Size(t)
  {
  }

  method AvlUpdate(node: ZNode, ghost t: Tree)
    requires t.Node? && t.n == node && Distinct(t) && Kids(t)
    modifies node`height, node`cnt
    ensures Rep(t)
  {
    node.height := 1 + Max(AvlHeight(node.left), AvlHeight(node.right));
    node.cnt := 1 + AvlCnt(node.left) + AvlCnt(node.right);
  }

  /** The three subtrees that a rotation moves around survive it; only the parent link at the
      top of the inner one may have changed. */
  twostate lemma RotatedL(t: Tree)
    requires t.Node? && t.right.Node? && Distinct(t) && old(Kids(t))
    requires var a, b, c := t.left, t.right.left, t.right.right;
             Kept(Nodes(a), null) && Kept(Nodes(b), Root(b)) && Kept(Nodes(c), null)
    ensures Rep(t.left) && Rep(t.right.left) && Rep(t.right.right)
  {
    RepKept(t.left);
    RepKept(t.right.left);
    RepKept(t.right.right);
  }

  method RotLeft(node: ZNode, ghost t: Tree) returns (newRoot: ZNode)
    requires t.Node? && t.n == node && t.right.Node? && Distinct(t) && Kids(t)
    modifies Nodes(t)`left, Nodes(t)`right, Nodes(t)`parent, Nodes(t)`height, Nodes(t)`cnt
    ensures Rep(RotL(t)) && newRoot == RotL(t).n && newRoot.parent == old(node.parent)
  {
    ghost var a, b, c := t.left, t.right.left, t.right.right;
    newRoot := node.right;
    var inner := newRoot.left;
    newRoot.left := node;
    node.right := inner;
    newRoot.parent := node.parent;
    node.parent := newRoot;
    if inner != null {
      inner.parent := node;
    }
    RotatedL(t);
    RotDistinct(t);
    assert node !in Nodes(c) && newRoot !in Nodes(c) && node != newRoot;
    NodesAllocated(c);
    AvlUpdate(node, Node(a, node, b));
    assert Rep(c);
    AvlUpdate(newRoot, Node(Node(a, node, b), newRoot, c));
  }

  twostate lemma RotatedR(t: Tree)
    requires t.Node? && t.left.Node? && Distinct(t) && old(Kids(t))
    requires var a, b, c := t.left.left, t.left.right, t.right;
             Kept(Nodes(a), null) && Kept(Nodes(b), Root(b)) && Kept(Nodes(c), null)
    ensures Rep(t.left.left) && Rep(t.left.right) && Rep(t.right)
  {
    RepKept(t.left.left);
    RepKept(t.left.right);
    RepKept(t.right);
  }

  method RotRight(node: ZNode, ghost t: Tree) returns (newRoot: ZNode)
    requires t.Node? && t.n == node && t.left.Node? && Distinct(t) && Kids(t)
    modifies Nodes(t)`left, Nodes(t)`right, Nodes(t)`parent, Nodes(t)`height, Nodes(t)`cnt
    ensures Rep(RotR(t)) && newRoot == RotR(t).n && newRoot.parent == old(node.parent)
  {
    ghost var a, b, c := t.left.left, t.left.right, t.right;
    newRoot := node.left;
    var inner := newRoot.right;
    newRoot.right := node;
    node.left := inner;
    newRoot.parent := node.parent;
    node.parent := newRoot;
    if inner != null {
      inner.parent := node;
    }
    RotatedR(t);
    RotDistinct(t);
    assert node !in Nodes(a) && newRoot !in Nodes(a) && node != newRoot;
    NodesAllocated(a);
    AvlUpdate(node, Node(b, node, c));
    assert Rep(a);
    AvlUpdate(newRoot, Node(a, newRoot, Node(b, node, c)));
  }

  // ---------- repairing one node ----------

  method FixLeft(node: ZNode, ghost t: Tree) returns (newRoot: ZNode)
    requires t.Node? && t.n == node && t.left.Node? && Distinct(t) && Kids(t)
    modifies Nodes(t)`left, Nodes(t)`right, Nodes(t)`parent, Nodes(t)`height, Nodes(t)`cnt
    ensures Rep(FixL(t)) && newRoot == FixL(t).n && newRoot.parent == old(node.parent)
  {
    ghost var t1 := t;
    Exact(t.left.left);
    Exact(t.left.right);
    if AvlHeight(node.left.right) > AvlHeight(node.left.left) {
      NodesAllocated(t.right);
      RotDistinct(t.left);
      var l := RotLeft(node.left, t.left);
      node.left := l;
      t1 := Node(RotL(t.left), node, t.right);
    }
    newRoot := RotRight(node, t1);
  }

  method FixRight(node: ZNode, ghost t: Tree) returns (newRoot: ZNode)
    requires t.Node? && t.n == node && t.right.Node? && Distinct(t) && Kids(t)
    modifies Nodes(t)`left, Nodes(t)`right, Nodes(t)`parent, Nodes(t)`height, Nodes(t)`cnt
    ensures Rep(FixR(t)) && newRoot == FixR(t).n && newRoot.parent == old(node.parent)
  {
    ghost var t1 := t;
    Exact(t.right.left);
    Exact(t.right.right);
    if AvlHeight(node.right.left) > AvlHeight(node.right.right) {
      NodesAllocated(t.left);
      RotDistinct(t.right);
      var r := RotRight(node.right, t.right);
      node.right := r;
      t1 := Node(t.left, node, RotR(t.right));
    }
    newRoot := RotLeft(node, t1);
  }

  // ---------- the climb ----------

  lemma {:induction false} CtxAllocated(c: Ctx)
    ensures forall n | n in CtxNodes(c) :: allocated(n)
  {
    if c.Step? {
      CtxAllocated(c.up);
      NodesAllocated(c.side);
    }
  }

  lemma RebalanceDistinct(t: Tree)
    requires t.Node? && Distinct(t)
    ensures Distinct(Rebalance(t)) && Nodes(Rebalance(t)) == Nodes(t)
  {
    RebalanceInOrder(t);
    DistinctIffNoDup(t);
    DistinctIffNoDup(Rebalance(t));
  }

  /** The test and the dispatch of one round of `avl_fix`. */
  method FixNode(node: ZNode, ghost t: Tree) returns (top: ZNode)
    requires t.Node? && t.n == node && Distinct(t) && Kids(t)
    modifies Nodes(t)`left, Nodes(t)`right, Nodes(t)`parent, Nodes(t)`height, Nodes(t)`cnt
    ensures Rep(Rebalance(t)) && top == Rebalance(t).n && top.parent == old(node.parent)
  {
    AvlUpdate(node, t);
    Exact(t.left);
    Exact(t.right);
    var lh, rh := AvlHeight(node.left), AvlHeight(node.right);
    top := node;
    if lh - rh > 1 {
      top := FixLeft(node, t);
    } else if lh - rh < -1 {
      top := FixRight(node, t);
    }
  }

  /** `node` is the root of the subtree `t` at position `c`; its own height and count may be stale. */
  ghost predicate At(node: ZNode, c: Ctx, t: Tree)
    reads CtxNodes(c), Nodes(t)
  {
    && t.Node? && t.n == node && Kids(t) && node.parent == Up(c) && CtxLinked(c, node)
    && Distinct(t) && DistinctCtx(c) && CtxNodes(c) !! Nodes(t)
  }

  method WriteLeft(p: ZNode, node: ZNode?, ghost c: Ctx, ghost hole: ZNode, ghost t: Tree)
    requires c.Step? && c.n == p && c.left
    requires CtxLinked(c, hole) && DistinctCtx(c) && Distinct(t) && CtxNodes(c) !! Nodes(t)
    requires Root(t) == node && Rep(t) && (node != null ==> node.parent == p)
    modifies p`left
    ensures At(p, c.up, Above(c, t))
    ensures CtxNodes(c.up) + Nodes(Above(c, t)) == CtxNodes(c) + Nodes(t)
    ensures Rep(t) && (old(CtxExact(c, Height(t), Size(t))) ==> CtxExact(c, Height(t), Size(t)))
  {
    p.left := node;
  }

  method WriteRight(p: ZNode, node: ZNode?, ghost c: Ctx, ghost hole: ZNode, ghost t: Tree)
    requires c.Step? && c.n == p && !c.left
    requires CtxLinked(c, hole) && DistinctCtx(c) && Distinct(t) && CtxNodes(c) !! Nodes(t)
    requires Root(t) == node && Rep(t) && (node != null ==> node.parent == p)
    modifies p`right
    ensures At(p, c.up, Above(c, t))
    ensures CtxNodes(c.up) + Nodes(Above(c, t)) == CtxNodes(c) + Nodes(t)
    ensures Rep(t) && (old(CtxExact(c, Height(t), Size(t))) ==> CtxExact(c, Height(t), Size(t)))
  {
    p.right := node;
  }

  /** `*from = node`: the slot of `p` that held the old subtree root receives the new one. */
  method WriteSlot(p: ZNode, fromLeft: bool, node: ZNode?, ghost c: Ctx, ghost hole: ZNode, ghost t: Tree)
    requires c.Step? && c.n == p && fromLeft == c.left
    requires CtxLinked(c, hole) && DistinctCtx(c) && Distinct(t) && CtxNodes(c) !! Nodes(t)
    requires Root(t) == node && Rep(t) && (node != null ==> node.parent == p)
    modifies p`left, p`right
    ensures At(p, c.up, Above(c, t))
    ensures CtxNodes(c.up) + Nodes(Above(c, t)) == CtxNodes(c) + Nodes(t)
    ensures Rep(t) && (old(CtxExact(c, Height(t), Size(t))) ==> CtxExact(c, Height(t), Size(t)))
  {
    if fromLeft {
      WriteLeft(p, node, c, hole, t);
    } else {
      WriteRight(p, node, c, hole, t);
    }
  }

  /** `avl_fix`: from the node at position `c0` up to the root. */
  method AvlFix(node0: ZNode, ghost c0: Ctx, ghost t0: Tree) returns (root: ZNode)
    requires At(node0, c0, t0)
    modifies (CtxNodes(c0) + Nodes(t0))`left, (CtxNodes(c0) + Nodes(t0))`right, (CtxNodes(c0) + Nodes(t0))`parent,
             (CtxNodes(c0) + Nodes(t0))`height, (CtxNodes(c0) + Nodes(t0))`cnt
    ensures IsTree(root, Climb(c0, t0))
  {
    var node: ZNode := node0;
    ghost var c, t := c0, t0;
    while true
      invariant At(node, c, t)
      invariant CtxNodes(c) + Nodes(t) == CtxNodes(c0) + Nodes(t0)
      invariant Climb(c, t) == Climb(c0, t0)
      decreases c
    {
      var p := node.parent;
      var fromLeft := p != null && p.left == node; // the slot `from` is p.left or p.right
      ghost var hole := node;
      CtxAllocated(c);
      RebalanceDistinct(t);
      node := FixNode(node, t);
      if p == null {
        return node;
      }
      assert CtxLinked(c, hole);
      WriteSlot(p, fromLeft, node, c, hole, Rebalance(t));
      c, t := c.up, Above(c, Rebalance(t));
      node := node.parent;
    }
  }

  // ---------- deletion ----------

  lemma {:induction false} FocusExact(c: Ctx, t: Tree)
    requires Rep(Plug(c, t))
    ensures Rep(t) && CtxExact(c, Height(t), Size(t))
    decreases c
  {
    if c.Step? {
      FocusExact(c.up, Above(c, t));
    }
  }

  lemma {:induction false} Unfocus(c: Ctx, t: Tree)
    requires t.Node? && Rep(t) && t.n.parent == Up(c)
    requires CtxLinked(c, t.n) && CtxExact(c, Height(t), Size(t))
    ensures Rep(Plug(c, t)) && Plug(c, t).Node? && Plug(c, t).n.parent == null
    decreases c
  {
    if c.Step? {
      Unfocus(c.up, Above(c, t));
    }
  }

  /** The subtree `t` is complete and knows its parent, whose slot still contains `hole`. */
  ghost predicate Ready(c: Ctx, hole: ZNode, t: Tree)
    reads CtxNodes(c), Nodes(t)
  {
    && CtxLinked(c, hole) && DistinctCtx(c) && Distinct(t) && CtxNodes(c) !! Nodes(t)
    && t.Node? && Rep(t) && t.n.parent == Up(c) && CtxExact(c, Height(t), Size(t))
  }

  /** Writing the slot of a parent whose other data are already exact completes the tree. */
  method Reattach(p: ZNode, fromLeft: bool, node: ZNode, ghost c: Ctx, ghost hole: ZNode, ghost t: Tree)
    requires c.Step? && c.n == p && fromLeft == c.left
    requires Ready(c, hole, t) && t.n == node
    modifies p`left, p`right
    ensures Rep(Plug(c, t)) && Plug(c, t).Node? && Plug(c, t).n.parent == null
  {
    WriteSlot(p, fromLeft, node, c, hole, t);
    Unfocus(c.up, Above(c, t));
  }

  /** `node` at position `c`, with everything around it exact. */
  ghost predicate Open(node: ZNode, c: Ctx, t: Tree)
    reads CtxNodes(c), Nodes(t)
  {
    At(node, c, t) && Rep(t) && CtxExact(c, Height(t), Size(t))
  }

  lemma OpenAt(root: ZNode?, c: Ctx, t: Tree)
    requires t.Node? && IsTree(root, Plug(c, t))
    ensures Open(t.n, c, t) && Nodes(Plug(c, t)) == CtxNodes(c) + Nodes(t)
  {
    PlugDistinct(c, t);
    Focus(c, t);
    FocusExact(c, t);
  }

  /** Line 49: `*victim = *node` on the embedded tree links. */
  method CopyLinks(victim: ZNode, node: ZNode)
    modifies victim`left, victim`right, victim`parent, victim`height, victim`cnt
    ensures victim.left == node.left && victim.right == node.right && victim.parent == node.parent
    ensures victim.height == node.height && victim.cnt == node.cnt
  {
    victim.left, victim.right, victim.parent := node.left, node.right, node.parent;
    victim.height, victim.cnt := node.height, node.cnt;
  }

  /** Lines 51-56: the children follow. */
  method AdoptChildren(victim: ZNode, ghost u: Tree)
    requires u.Node? && u.n == victim && Distinct(u) && Rep(u.left) && Rep(u.right)
    requires victim.left == Root(u.left) && victim.right == Root(u.right)
    requires victim.height == Height(u) && victim.cnt == Size(u)
    modifies Nodes(u.left)`parent, Nodes(u.right)`parent
    ensures Rep(u)
  {
    if victim.left != null {
      victim.left.parent := victim;
    }
    if victim.right != null {
      victim.right.parent := victim;
    }
    RepKept(u.left);
    RepKept(u.right);
  }

  /** Lines 49-56: `victim` takes over the links of `node`; the parent still points at `node`. */
  method MoveIn(victim: ZNode, node: ZNode, ghost c: Ctx, ghost t: Tree)
    requires Open(node, c, t) && victim !in CtxNodes(c) + Nodes(t)
    modifies victim`left, victim`right, victim`parent, victim`height, victim`cnt
    modifies Nodes(t.left)`parent, Nodes(t.right)`parent
    ensures Ready(c, node, Node(t.left, victim, t.right))
  {
    CtxAllocated(c);
    NodesAllocated(t);
    CopyLinks(victim, node);
    AdoptChildren(victim, Node(t.left, victim, t.right));
  }

  /** Lines 49-63: `victim` replaces `node`, wherever the rebalancing has left `node`. */
  method TakePlace(victim: ZNode, node: ZNode, root: ZNode?, ghost c: Ctx, ghost t: Tree) returns (newRoot: ZNode?)
    requires Open(node, c, t) && root == Root(Plug(c, t)) && victim !in CtxNodes(c) + Nodes(t)
    modifies victim`left, victim`right, victim`parent, victim`height, victim`cnt
    modifies (CtxNodes(c) + Nodes(t))`left, (CtxNodes(c) + Nodes(t))`right, (CtxNodes(c) + Nodes(t))`parent
    ensures IsTree(newRoot, Plug(c, Node(t.left, victim, t.right)))
  {
    ghost var u := Node(t.left, victim, t.right);
    NodesAllocated(t);
    CtxAllocated(c);
    MoveIn(victim, node, c, t);
    PlugDistinct(c, u);
    var parent := node.parent;
    if parent == null {
      return victim;
    }
    Reattach(parent, parent.left == node, victim, c, node, u);
    PlugRoot(c, t, u);
    newRoot := root;
  }

  /** Lines 32-41: a node without a right child leaves; its left child takes the slot. */
  method Unlink(node: ZNode, ghost c: Ctx, ghost t: Tree) returns (root: ZNode?)
    requires Open(node, c, t) && t.right.Leaf?
    modifies (CtxNodes(c) + Nodes(t))`left, (CtxNodes(c) + Nodes(t))`right, (CtxNodes(c) + Nodes(t))`parent,
             (CtxNodes(c) + Nodes(t))`height, (CtxNodes(c) + Nodes(t))`cnt
    ensures IsTree(root, Delete(c, t))
  {
    var parent := node.parent;
    if node.left != null {
      node.left.parent := parent;
    }
    RepKept(t.left);
    if parent == null {
      return node.left;
    }
    WriteSlot(parent, parent.left == node, node.left, c, node, t.left);
    root := AvlFix(parent, c.up, Above(c, t.left));
  }

  /** Lines 44-45: down the left spine. */
  method Smallest(top: ZNode, ghost c: Ctx, ghost t: Tree) returns (victim: ZNode)
    requires t.Node? && t.n == top && Rep(t)
    ensures victim == Leftmost(c, t).1.n
  {
    victim := top;
    ghost var d, u := c, t;
    while victim.left != null
      invariant u.Node? && u.n == victim && Rep(u) && Leftmost(d, u) == Leftmost(c, t)
      decreases u
    {
      victim := victim.left;
      d, u := Step(d, u.n, u.right, true), u.left;
    }
  }

  /** `avl_del`: detaches the node at position `c` and returns the new root.  The recursion is
      on a victim strictly below the node; it may rotate the node itself. */
  method AvlDel(node: ZNode, ghost root0: ZNode?, ghost c: Ctx, ghost t: Tree) returns (root: ZNode?)
    requires t.Node? && t.n == node && IsTree(root0, Plug(c, t))
    modifies Nodes(Plug(c, t))`left, Nodes(Plug(c, t))`right, Nodes(Plug(c, t))`parent,
             Nodes(Plug(c, t))`height, Nodes(Plug(c, t))`cnt
    ensures IsTree(root, Delete(c, t))
    decreases Size(t)
  {
    OpenAt(root0, c, t);
    if node.right == null {
      root := Unlink(node, c, t);
    } else {
      ghost var (d, u) := Leftmost(Step(c, node, t.left, false), t.right);
      VictimFacts(c, t);
      NodesAllocated(Plug(c, t));
      var victim := Smallest(node.right, Step(c, node, t.left, false), t.right);
      root := AvlDel(victim, root0, d, u);
      root := Swap(victim, node, root, Delete(d, u));
    }
  }

  /** Lines 49-63 once more, finding where `node` is now. */
  method Swap(victim: ZNode, node: ZNode, root: ZNode?, ghost t: Tree) returns (newRoot: ZNode?)
    requires IsTree(root, t) && node in Nodes(t) && victim !in Nodes(t)
    modifies victim`left, victim`right, victim`parent, victim`height, victim`cnt
    modifies Nodes(t)`left, Nodes(t)`right, Nodes(t)`parent
    ensures IsTree(newRoot, Subst(t, node, victim))
  {
    ghost var (e, w) := Locate(Top, t, node);
    OpenAt(root, e, w);
    SubstAt(e, w, victim);
    newRoot := TakePlace(victim, node, root, e, w);
  }
}
