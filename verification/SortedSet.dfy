/** The sorted set of src/zset.cpp: an AVL tree ordered by (score, name) and a hash map by
    name over the same nodes. */
module SortedSet {
  import opened ByteStrings
  import opened AvlShape
  import opened AvlTree
  import opened HashTable
  import opened HashMap

  /** `zless` on what it compares.  The source uses strcmp on names that carry no terminator
      (src/zset.cpp:163); lexicographic order on the bytes is what the length-delimited names need. */
  predicate Precedes(s: real, a: Bytes, s': real, b: Bytes) {
    if s != s' then s < s' else LexLess(a, b)
  }

  predicate ZLess(lhs: ZNode, rhs: ZNode)
    reads lhs`score, rhs`score
  {
    Precedes(lhs.score, lhs.name, rhs.score, rhs.name)
  }

  lemma ZLessTransitive(x: ZNode, y: ZNode, z: ZNode)
    requires ZLess(x, y) && ZLess(y, z)
    ensures ZLess(x, z)
  {
    if x.score == y.score == z.score {
      LexTransitive(x.name, y.name, z.name);
    }
  }

  lemma ZLessTotal(x: ZNode, y: ZNode)
    requires x.name != y.name
    ensures ZLess(x, y) <==> !ZLess(y, x)
  {
    LexTotal(x.name, y.name);
  }

  /** Strictly increasing by (score, name). */
  ghost predicate Sorted(s: seq<ZNode>)
    reads s`score
  {
    forall i, j {:trigger ZLess(s[i], s[j])} | 0 <= i < j < |s| :: ZLess(s[i], s[j])
  }

  ghost predicate AllBefore(s: seq<ZNode>, n: ZNode)
    reads s`score, n`score
  {
    forall i {:trigger ZLess(s[i], n)} | 0 <= i < |s| :: ZLess(s[i], n)
  }

  ghost predicate AllAfter(n: ZNode, s: seq<ZNode>)
    reads s`score, n`score
  {
    forall i {:trigger ZLess(n, s[i])} | 0 <= i < |s| :: ZLess(n, s[i])
  }

  /** Sortedness around one element. */
  lemma SortedAround(a: seq<ZNode>, n: ZNode, b: seq<ZNode>)
    ensures Sorted(a + [n] + b) ==> Sorted(a) && Sorted(b) && AllBefore(a, n) && AllAfter(n, b)
    ensures Sorted(a) && Sorted(b) && AllBefore(a, n) && AllAfter(n, b) ==> Sorted(a + [n] + b)
    ensures Sorted(a + [n] + b) ==> Sorted(a + b)
  {
    var s, t := a + [n] + b, a + b;
    if Sorted(s) {
      forall i, j | 0 <= i < j < |t| ensures ZLess(t[i], t[j]) {
        assert t[i] == s[if i < |a| then i else i + 1] && t[j] == s[if j < |a| then j else j + 1];
      }
      forall i | 0 <= i < |a| ensures ZLess(a[i], n) { assert s[i] == a[i] && s[|a|] == n; }
      forall i | 0 <= i < |b| ensures ZLess(n, b[i]) { assert s[|a| + 1 + i] == b[i] && s[|a|] == n; }
      forall i, j | 0 <= i < j < |a| ensures ZLess(a[i], a[j]) { assert s[i] == a[i] && s[j] == a[j]; }
      forall i, j | 0 <= i < j < |b| ensures ZLess(b[i], b[j]) { assert s[|a| + 1 + i] == b[i] && s[|a| + 1 + j] == b[j]; }
    }
    if Sorted(a) && Sorted(b) && AllBefore(a, n) && AllAfter(n, b) {
      forall i, j | 0 <= i < j < |s| ensures ZLess(s[i], s[j]) {
        if i < |a| && j > |a| {
          ZLessTransitive(s[i], n, s[j]);
        }
      }
    }
  }

  /** Sortedness depends on nothing but the scores. */
  twostate lemma StillSorted(s: seq<ZNode>)
    requires old(Sorted(s)) && forall z | z in s :: z.score == old(z.score)
    ensures Sorted(s)
  {
    forall i, j | 0 <= i < j < |s| ensures ZLess(s[i], s[j]) {
      assert old(ZLess(s[i], s[j])) && s[i] in s && s[j] in s;
    }
  }

  lemma SortedHalves(a: seq<ZNode>, b: seq<ZNode>)
    requires Sorted(a + b)
    ensures Sorted(a) && Sorted(b)
  {
    var t := a + b;
    forall i, j | 0 <= i < j < |a| ensures ZLess(a[i], a[j]) { assert t[i] == a[i] && t[j] == a[j]; }
    forall i, j | 0 <= i < j < |b| ensures ZLess(b[i], b[j]) { assert t[|a| + i] == b[i] && t[|a| + j] == b[j]; }
  }

  /** Below a node that `n` precedes, everything from that node on comes after `n`. */
  lemma GoLeft(n: ZNode, t: Tree, c: Ctx)
    requires t.Node? && Sorted(InOrder(t)) && ZLess(n, t.n) && AllAfter(n, After(c))
    ensures Sorted(InOrder(t.left)) && AllAfter(n, After(Step(c, t.n, t.right, true)))
  {
    SortedAround(InOrder(t.left), t.n, InOrder(t.right));
    forall i | 0 <= i < |InOrder(t.right)| ensures ZLess(n, InOrder(t.right)[i]) {
      ZLessTransitive(n, t.n, InOrder(t.right)[i]);
    }
  }

  lemma GoRight(n: ZNode, t: Tree, c: Ctx)
    requires t.Node? && Sorted(InOrder(t)) && ZLess(t.n, n) && AllBefore(Before(c), n)
    ensures Sorted(InOrder(t.right)) && AllBefore(Before(Step(c, t.n, t.left, false)), n)
  {
    SortedAround(InOrder(t.left), t.n, InOrder(t.right));
    forall i | 0 <= i < |InOrder(t.left)| ensures ZLess(InOrder(t.left)[i], n) {
      ZLessTransitive(InOrder(t.left)[i], t.n, n);
    }
  }

  /** From the least score up, and equal scores by name: a proper prefix first, else the smaller octet
      where two names first differ. */
  ghost predicate Ascending(s: seq<ZNode>)
    reads s`score
  {
    forall i, j {:trigger s[i], s[j]} | 0 <= i < j < |s| ::
      && s[i].score <= s[j].score
      && (s[i].score == s[j].score ==> NameBefore(s[i].name, s[j].name))
  }

  /** What being sorted means. */
  lemma SortedAscends(s: seq<ZNode>)
    ensures Sorted(s) <==> Ascending(s)
  {
    hide LexLess, NameBefore;
    forall i, j | 0 <= i < j < |s|
      ensures ZLess(s[i], s[j]) <==>
                s[i].score <= s[j].score && (s[i].score == s[j].score ==> NameBefore(s[i].name, s[j].name))
    {
      LexLessMeans(s[i].name, s[j].name);
    }
  }

  class ZSet {
    var tree: ZNode?
    const hmap: HMap<ZNode>
    /** The tree that hangs from `tree`, and its nodes. */
    ghost var shape: Tree
    ghost var members: set<ZNode>

    ghost predicate TreeOk()
      reads this, Nodes(shape), InOrder(shape)
    {
      IsTree(tree, shape) && Balanced(shape) && Sorted(InOrder(shape)) && Nodes(shape) == members
    }

    /** The in-order walk is from the least score up. */
    lemma WalkAscends()
      requires TreeOk()
      ensures Ascending(InOrder(shape))
    {
      SortedAscends(InOrder(shape));
    }

    /** The descent of `tree_add`: the slot where a node belongs, and the position it is at. */
    method FindSlot(node: ZNode) returns (cur: ZNode?, left: bool, ghost c: Ctx, ghost steps: nat)
      requires TreeOk() && node !in members
      requires forall z | z in members :: z.name != node.name
      ensures Plug(c, Leaf) == shape && cur == Up(c) && (c.Step? ==> left == c.left)
      ensures AllBefore(Before(c), node) && AllAfter(node, After(c))
      ensures steps <= Height(shape) + 1 && Logarithmic(steps, members) && TreeOk()
      ensures cur == null <==> tree == null
      ensures cur != null ==> cur in members && left == ZLess(node, cur) && (if left then cur.left else cur.right) == null
    {
      hide Balanced, Logarithmic, Sorted, Height, ZLess;
      NodesAllocated(shape);
      cur, left, c, steps := null, false, Top, 0;
      ghost var t := shape;
      var from := tree; // *from
      while from != null
        invariant Plug(c, t) == shape && Rep(t) && from == Root(t)
        invariant cur == Up(c) && (c.Step? ==> left == c.left)
        invariant steps == Depth(c)
        invariant cur == null ==> from == tree
        invariant cur != null ==> tree != null && cur in members && left == ZLess(node, cur)
        invariant cur != null ==> from == if left then cur.left else cur.right
        invariant AllBefore(Before(c), node) && AllAfter(node, After(c)) && Sorted(InOrder(t))
        decreases t
      {
        PlugDistinct(c, t);
        steps := steps + 1;
        cur := from;
        left := ZLess(node, cur);
        if left {
          GoLeft(node, t, c);
          c, t := Step(c, t.n, t.right, true), t.left;
          from := cur.left;
        } else {
          ZLessTotal(node, cur);
          GoRight(node, t, c);
          c, t := Step(c, t.n, t.left, false), t.right;
          from := cur.right;
        }
      }
      DepthBounded(c, Leaf);
      WalkIsShort(shape, steps);
      StillSorted(InOrder(shape));
    }

    /** Lines 142-143: the new leaf takes its slot. */
    method Attach(node: ZNode, cur: ZNode?, left: bool, ghost c: Ctx)
      requires IsTree(tree, shape) && node !in Nodes(shape) && Plug(c, Leaf) == shape
      requires cur == Up(c) && (c.Step? ==> left == c.left)
      requires node.left == null && node.right == null
      modifies this`tree, CtxNodes(c)`left, CtxNodes(c)`right, node`parent
      ensures At(node, c, Node(Leaf, node, Leaf))
    {
      PlugDistinct(c, Leaf);
      if c.Step? {
        Focus(c, Leaf);
      }
      if cur == null {
        tree := node;
      } else if left {
        cur.left := node;
      } else {
        cur.right := node;
      }
      node.parent := cur;
    }

    /** `tree_add`. */
    method TreeAdd(node: ZNode) returns (ghost steps: nat)
      requires TreeOk() && node !in members
      requires node.left == null && node.right == null
      requires forall z | z in members :: z.name != node.name
      modifies this`tree, this`shape, this`members
      modifies (members + {node})`left, (members + {node})`right, (members + {node})`parent,
               (members + {node})`height, (members + {node})`cnt
      ensures TreeOk() && members == old(members) + {node}
      ensures steps <= old(Height(shape)) + 1
      ensures Logarithmic(steps, old(members))
    {
      hide Logarithmic, Climb, Plug, AllBefore, AllAfter, Sorted, Balanced, Height, InOrder, Nodes, IsTree;
      var cur, left; ghost var c;
      cur, left, c, steps := FindSlot(node);
      AddedInOrder(c, node);
      Grow(node, cur, left, c);
      members := members + {node};
    }

    /** Lines 142-144: attach and rebalance. */
    method Grow(node: ZNode, cur: ZNode?, left: bool, ghost c: Ctx)
      requires IsTree(tree, shape) && node !in Nodes(shape) && Plug(c, Leaf) == shape
      requires cur == Up(c) && (c.Step? ==> left == c.left)
      requires node.left == null && node.right == null
      requires var u := Climb(c, Node(Leaf, node, Leaf)); Balanced(u) && Sorted(InOrder(u))
      modifies this`tree, this`shape
      modifies (Nodes(shape) + {node})`left, (Nodes(shape) + {node})`right, (Nodes(shape) + {node})`parent,
               (Nodes(shape) + {node})`height, (Nodes(shape) + {node})`cnt
      ensures IsTree(tree, shape) && shape == Climb(c, Node(Leaf, node, Leaf)) && Sorted(InOrder(shape))
    {
      hide Climb, Plug, Balanced, InOrder, Sorted, IsTree, Up;
      ghost var u := Climb(c, Node(Leaf, node, Leaf));
      NodesAllocated(u);
      tree := Link(node, cur, left, c);
      StillSorted(InOrder(u));
      shape := u;
    }

    method Link(node: ZNode, cur: ZNode?, left: bool, ghost c: Ctx) returns (root: ZNode)
      requires IsTree(tree, shape) && node !in Nodes(shape) && Plug(c, Leaf) == shape
      requires cur == Up(c) && (c.Step? ==> left == c.left)
      requires node.left == null && node.right == null
      modifies this`tree
      modifies (Nodes(shape) + {node})`left, (Nodes(shape) + {node})`right, (Nodes(shape) + {node})`parent,
               (Nodes(shape) + {node})`height, (Nodes(shape) + {node})`cnt
      ensures IsTree(root, Climb(c, Node(Leaf, node, Leaf)))
    {
      PlugDistinct(c, Leaf);
      Attach(node, cur, left, c);
      root := AvlFix(node, c, Node(Leaf, node, Leaf));
    }

    lemma AddedElems(a: seq<ZNode>, n: ZNode, b: seq<ZNode>)
      ensures Elems(a + ([] + [n] + []) + b) == Elems(a + [] + b) + {n}
    {
    }

    lemma AddedNodes(c: Ctx, node: ZNode)
      requires Distinct(Plug(c, Leaf)) && node !in Nodes(Plug(c, Leaf))
      ensures Nodes(Climb(c, Node(Leaf, node, Leaf))) == Nodes(Plug(c, Leaf)) + {node}
    {
      var t := Node(Leaf, node, Leaf);
      PlugInOrder(c, Leaf);
      ClimbInOrder(c, t);
      DistinctIffNoDup(Plug(c, Leaf));
      DistinctIffNoDup(Climb(c, t));
      AddedElems(Before(c), node, After(c));
    }

    /** The tree after an insertion, as a sequence. */
    lemma AddedInOrder(c: Ctx, node: ZNode)
      requires TreeOk() && Plug(c, Leaf) == shape && node !in Nodes(shape)
      requires AllBefore(Before(c), node) && AllAfter(node, After(c))
      ensures var u := Climb(c, Node(Leaf, node, Leaf));
              Balanced(u) && Sorted(InOrder(u)) && Nodes(u) == Nodes(shape) + {node}
    {
      var t := Node(Leaf, node, Leaf);
      PlugBalanced(c, Leaf);
      ClimbBalanced(c, t, -1);
      AddedNodes(c, node);
      ClimbInOrder(c, t);
      PlugInOrder(c, Leaf);
      AddedSorted(Before(c), node, After(c));
      assert InOrder(t) == [] + [node] + [];
    }

    lemma AddedSorted(a: seq<ZNode>, n: ZNode, b: seq<ZNode>)
      requires Sorted(a + [] + b) && AllBefore(a, n) && AllAfter(n, b)
      ensures Sorted(a + ([] + [n] + []) + b)
    {
      assert a + [] + b == a + b && a + ([] + [n] + []) + b == a + [n] + b;
      SortedHalves(a, b);
      SortedAround(a, n, b);
    }

    lemma RemovedSorted(a: seq<ZNode>, l: seq<ZNode>, n: ZNode, r: seq<ZNode>, b: seq<ZNode>)
      requires Sorted(a + (l + [n] + r) + b)
      ensures Sorted(a + l + r + b)
    {
      assert a + (l + [n] + r) + b == (a + l) + [n] + (r + b);
      assert a + l + r + b == (a + l) + (r + b);
      SortedAround(a + l, n, r + b);
    }

    lemma RemovedOk(c: Ctx, t: Tree)
      requires TreeOk() && t.Node? && Plug(c, t) == shape
      ensures var u := Delete(c, t);
              Balanced(u) && Sorted(InOrder(u)) && Nodes(u) == Nodes(shape) - {t.n}
    {
      DeleteBalanced(c, t);
      DeleteNodes(c, t);
      DeleteInOrder(c, t);
      PlugInOrder(c, t);
      RemovedSorted(Before(c), InOrder(t.left), t.n, InOrder(t.right), After(c));
    }

    /** `zset->tree = avl_del(&node->tree)`. */
    method TreeDel(node: ZNode)
      requires TreeOk() && node in members
      modifies this`tree, this`shape, this`members, members`left, members`right, members`parent,
               members`height, members`cnt
      ensures TreeOk() && members == old(members) - {node}
    {
      hide Balanced, Delete;
      ghost var (c, t) := Locate(Top, shape, node);
      ghost var u := Delete(c, t);
      RemovedOk(c, t);
      NodesAllocated(u);
      tree := AvlDel(node, tree, c, t);
      StillSorted(InOrder(u));
      shape, members := u, members - {node};
    }

    // ---------- the two indexes together ----------

    /** The hash map and the tree hold the same nodes, one per name. */
    ghost predicate Index()
      reads this, hmap
    {
      && (forall k | k in hmap.dict ::
            var h := hmap.dict[k];
            h.owner.name == k && h.owner in members && h.hcode == StrHash(k))
      && (forall z | z in members :: z.name in hmap.dict && hmap.dict[z.name].owner == z)
    }

    ghost predicate Valid()
      reads this, Nodes(shape), InOrder(shape)
      reads hmap, hmap.tb1, hmap.tb2, hmap.tb1.tab, hmap.tb2.tab, hmap.tb1.nodes, hmap.tb2.nodes
    {
      TreeOk() && hmap.Valid() && Index()
    }

    /** The abstract value: the score of each name. */
    ghost function Model(): map<Bytes, real>
      requires Index()
      reads this, hmap, members
    {
      map k | k in hmap.dict :: hmap.dict[k].owner.score
    }

    /** The walk lists the map: every name with its score, in ascending order. */
    lemma WalkListsMap()
      requires Valid()
      ensures var walk := InOrder(shape);
              && Ascending(walk)
              && (forall z | z in walk :: z.name in Model() && Model()[z.name] == z.score)
              && (forall k | k in Model() :: exists z :: z in walk && z.name == k)
    {
      hide HMap.Valid, Ascending, Sorted;
      WalkAscends();
      DistinctIffNoDup(shape);
      forall k | k in Model() ensures exists z :: z in InOrder(shape) && z.name == k {
        assert hmap.dict[k].owner in Elems(InOrder(shape));
      }
      forall z | z in InOrder(shape) ensures z.name in Model() && Model()[z.name] == z.score {
        assert z in Elems(InOrder(shape));
      }
    }

    constructor ()
      ensures Valid() && Model() == map[] && fresh(hmap) && fresh(hmap.tb1) && fresh(hmap.tb2)
      ensures members == {} && hmap.tb1.tab == null && hmap.tb2.tab == null
      ensures hmap.tb1.nodes == hmap.tb2.nodes == {}
    {
      tree := null;
      shape, members := Leaf, {};
      hmap := new HMap<ZNode>();
    }

    /** Nothing that the tree is made of has changed. */
    twostate predicate TreeKept()
      reads this, members
    {
      tree == old(tree) && shape == old(shape) && members == old(members) && Kept(members, null)
      && forall z | z in members :: z.score == old(z.score)
    }

    twostate lemma StillTree()
      requires old(TreeOk()) && TreeKept()
      ensures TreeOk()
    {
      RepKept(shape);
      DistinctIffNoDup(shape);
      assert forall z | z in InOrder(shape) :: z in Elems(InOrder(shape));
      StillSorted(InOrder(shape));
    }

    /** Where the storage of the set may have come from since the call began. */
    twostate predicate Grown()
      reads this, hmap, hmap.tb1, hmap.tb2
    {
      && fresh(members - old(members))
      && fresh(hmap.tb1.nodes + hmap.tb2.nodes - old(hmap.tb1.nodes + hmap.tb2.nodes))
      && (hmap.tb1.tab == old(hmap.tb1.tab) || fresh(hmap.tb1.tab))
      && (hmap.tb2.tab == null || hmap.tb2.tab == old(hmap.tb2.tab) || hmap.tb2.tab == old(hmap.tb1.tab) || fresh(hmap.tb2.tab))
    }

    twostate lemma Untouched()
      requires old(Index()) && hmap.dict == old(hmap.dict) && TreeKept()
      ensures Index() && Model() == old(Model())
    {
      assert forall k | k in hmap.dict :: hmap.dict[k].owner in members;
    }

    method HashFind(name: Bytes) returns (h: HNode?<ZNode>)
      requires Valid()
      modifies hmap`resizingPos, hmap.tb1, hmap.tb2, hmap.tb1.tab, hmap.tb2.tab, hmap.tb2.nodes`next
      ensures Valid() && TreeKept() && hmap.dict == old(hmap.dict)
      ensures h == if name in hmap.dict then hmap.dict[name] else null
      ensures hmap.tb1.nodes + hmap.tb2.nodes == old(hmap.tb1.nodes + hmap.tb2.nodes)
      ensures hmap.tb1.tab == old(hmap.tb1.tab) && (hmap.tb2.tab == null || hmap.tb2.tab == old(hmap.tb2.tab))
    {
      hide HMap.Valid;
      NodesAllocated(shape);
      h := hmap.Lookup(StrHash(name), name, K_RESIZING_WORK);
      StillTree();
    }

    /** `zset_lookup`, including its shortcut for an empty tree. */
    method Lookup(name: Bytes) returns (found: ZNode?)
      requires Valid()
      modifies hmap`resizingPos, hmap.tb1, hmap.tb2, hmap.tb1.tab, hmap.tb2.tab, hmap.tb2.nodes`next
      ensures Valid() && TreeKept() && hmap.dict == old(hmap.dict) && Grown() && Model() == old(Model())
      ensures found == if name in hmap.dict then hmap.dict[name].owner else null
      ensures found != null <==> name in Model()
      ensures found != null ==> found in members && found.name == name
      ensures hmap.tb1.nodes + hmap.tb2.nodes == old(hmap.tb1.nodes + hmap.tb2.nodes)
      ensures hmap.tb1.tab == old(hmap.tb1.tab) && (hmap.tb2.tab == null || hmap.tb2.tab == old(hmap.tb2.tab))
    {
      if tree == null {
        Untouched();
        return null;
      }
      var h := HashFind(name);
      Untouched();
      found := if h == null then null else h.owner;
    }

    /** Lines 83-84: the new score, and `avl_init`. */
    method ResetNode(node: ZNode, score: real)
      requires TreeOk() && node !in members
      modifies node`left, node`right, node`parent, node`height, node`cnt, node`score
      ensures TreeOk() && node.score == score && node.left == null && node.right == null
    {
      node.score := score;
      node.left, node.right, node.parent, node.height, node.cnt := null, null, null, 0, 1;
      StillTree();
    }

    /** Lines 82-85: out of the tree, and back in under the new score. */
    method Reinsert(node: ZNode, score: real)
      requires TreeOk() && Index() && node in members
      modifies this`tree, this`shape, this`members, node`score
      modifies members`left, members`right, members`parent, members`height, members`cnt
      ensures TreeOk() && Index() && members == old(members) && node.score == score
      ensures forall z | z in members && z != node :: z.score == old(z.score)
    {
      hide ZSet.TreeOk, Logarithmic;
      assert forall z | z in members && z != node :: z.name != node.name;
      TreeDel(node);
      ResetNode(node, score);
      ghost var steps := TreeAdd(node);
    }

    /** One node, and no other, may have a new score. */
    twostate lemma ModelAfter(node: ZNode)
      requires old(Index()) && Index() && hmap.dict == old(hmap.dict) && node in members
      requires members == old(members) && forall z | z in members && z != node :: z.score == old(z.score)
      ensures Model() == old(Model())[node.name := node.score]
    {
      forall k | k in hmap.dict ensures Model()[k] == old(Model())[node.name := node.score][k] {
        assert hmap.dict[k].owner.name == k;
      }
    }

    method Rescore(node: ZNode, score: real)
      requires TreeOk() && Index() && node in members
      modifies this`tree, this`shape, this`members, node`score
      modifies members`left, members`right, members`parent, members`height, members`cnt
      ensures TreeOk() && Index() && members == old(members) && node.score == score
      ensures hmap.Same() && forall z | z in members && z != node :: z.score == old(z.score)
    {
      hide ZSet.TreeOk, ZSet.Index;
      Reinsert(node, score);
    }

    /** `zset_update`. */
    method Update(node: ZNode, score: real)
      requires Valid() && node in members
      modifies this`tree, this`shape, this`members, node`score
      modifies members`left, members`right, members`parent, members`height, members`cnt
      ensures Valid() && members == old(members) && Model() == old(Model())[node.name := score]
    {
      if node.score != score {
        Rescore(node, score);
        hmap.StillValid();
      }
      ModelAfter(node);
    }

    /** Line 64: the hash index takes a new node; the tree is not touched. */
    method Enlist(h: HNode<ZNode>)
      requires TreeOk() && hmap.Valid() && h.key !in hmap.dict
      modifies hmap`resizingPos, hmap`dict, hmap.tb1, hmap.tb2, hmap.tb1.tab, hmap.tb2.tab,
               hmap.tb1.nodes`next, hmap.tb2.nodes`next, h`next
      ensures hmap.Valid() && TreeOk() && TreeKept() && hmap.dict == old(hmap.dict)[h.key := h]
      ensures hmap.tb1.nodes + hmap.tb2.nodes == old(hmap.tb1.nodes + hmap.tb2.nodes) + {h}
      ensures hmap.tb1.tab == old(hmap.tb1.tab) || fresh(hmap.tb1.tab)
      ensures hmap.tb2.tab == null || hmap.tb2.tab == old(hmap.tb2.tab) || hmap.tb2.tab == old(hmap.tb1.tab) || fresh(hmap.tb2.tab)
    {
      hide HMap.Valid, HMap.Due;
      NodesAllocated(shape);
      hmap.Insert(h, K_RESIZING_WORK);
      StillTree();
    }

    /** Line 66: the tree takes a new node; the hash index is not touched. */
    method Plant(node: ZNode)
      requires TreeOk() && node !in members && node.left == null && node.right == null
      requires forall z | z in members :: z.name != node.name
      modifies this`tree, this`shape, this`members
      modifies (members + {node})`left, (members + {node})`right, (members + {node})`parent,
               (members + {node})`height, (members + {node})`cnt
      ensures TreeOk() && members == old(members) + {node} && hmap.Same()
      ensures node.score == old(node.score) && forall z | z in old(members) :: z.score == old(z.score)
    {
      hide Logarithmic;
      NodesAllocated(shape);
      ghost var steps := TreeAdd(node);
    }

    /** `znode_new`: a node for the tree and the node for the hash chain inside it. */
    static method ZNodeNew(name: Bytes, score: real) returns (node: ZNode, h: HNode<ZNode>)
      ensures fresh(node) && fresh(h) && node.name == name && node.score == score
      ensures node.left == null && node.right == null
      ensures h.owner == node && h.key == name && h.hcode == StrHash(name)
    {
      node := new ZNode(name, score);
      h := new HNode<ZNode>(node, name, StrHash(name));
    }

    /** Lines 62-66, up to the tree. */
    method AddHashed(name: Bytes, score: real) returns (node: ZNode)
      requires Valid() && name !in hmap.dict
      modifies hmap`resizingPos, hmap`dict, hmap.tb1, hmap.tb2, hmap.tb1.tab, hmap.tb2.tab,
               hmap.tb1.nodes`next, hmap.tb2.nodes`next
      ensures hmap.Valid() && TreeOk() && TreeKept()
      ensures fresh(node) && node.name == name && node.score == score && node.left == null && node.right == null
      ensures name in hmap.dict && hmap.dict[name].owner == node && hmap.dict[name].hcode == StrHash(name)
      ensures hmap.dict == old(hmap.dict)[name := hmap.dict[name]] && Grown()
    {
      NodesAllocated(shape);
      var h;
      node, h := ZNodeNew(name, score);
      StillTree();
      hmap.StillValid();
      Enlist(h);
    }

    method AddNew(name: Bytes, score: real)
      requires Valid() && name !in hmap.dict
      modifies this`tree, this`shape, this`members
      modifies members`left, members`right, members`parent, members`height, members`cnt
      modifies hmap`resizingPos, hmap`dict, hmap.tb1, hmap.tb2, hmap.tb1.tab, hmap.tb2.tab,
               hmap.tb1.nodes`next, hmap.tb2.nodes`next
      ensures Valid() && Grown() && Model() == old(Model())[name := score]
    {
      var node := AddHashed(name, score);
      label L:
      Plant(node);
      hmap.StillValid@L();
      Gained(node);
    }

    /** What both indexes gain, the set gains. */
    twostate lemma Gained(new node: ZNode)
      requires old(Index()) && members == old(members) + {node}
      requires node.name !in old(hmap.dict) && node.name in hmap.dict && hmap.dict[node.name].owner == node
      requires hmap.dict[node.name].hcode == StrHash(node.name)
      requires hmap.dict == old(hmap.dict)[node.name := hmap.dict[node.name]]
      requires forall z | z in old(members) :: z.score == old(z.score)
      ensures Index() && Model() == old(Model())[node.name := node.score]
    {
      assert Index();
      forall k | k in hmap.dict ensures Model()[k] == old(Model())[node.name := node.score][k] {
        assert k != node.name ==> old(hmap.dict)[k].owner in old(members);
      }
    }

    /** Line 58. */
    method AddExisting(node: ZNode, score: real)
      requires Valid() && node in members
      modifies this`tree, this`shape, this`members, members
      ensures Valid() && Grown() && Model() == old(Model())[node.name := score]
    {
      Update(node, score);
    }

    /** `zset_add`. */
    method Add(name: Bytes, score: real) returns (added: bool)
      requires Valid()
      modifies this`tree, this`shape, this`members, members
      modifies hmap`resizingPos, hmap`dict, hmap.tb1, hmap.tb2, hmap.tb1.tab, hmap.tb2.tab,
               hmap.tb1.nodes`next, hmap.tb2.nodes`next
      ensures Valid() && Grown() && Model() == old(Model())[name := score] && added == (name !in old(Model()))
    {
      hide HMap.Valid, ZSet.TreeOk, ZSet.Index, ZSet.Model;
      var found := Lookup(name);
      if found != null {
        AddExisting(found, score);
        return false;
      }
      AddNew(name, score);
      added := true;
    }

    /** Line 104: the hash index lets a node go; the tree is not touched. */
    method Delist(name: Bytes) returns (h: HNode?<ZNode>)
      requires Valid()
      modifies hmap`dict, hmap.tb1, hmap.tb2, hmap.tb1.tab, hmap.tb2.tab, hmap.tb1.nodes`next, hmap.tb2.nodes`next
      ensures hmap.Valid() && TreeOk() && TreeKept() && hmap.dict == old(hmap.dict) - {name}
      ensures h == if name in old(hmap.dict) then old(hmap.dict[name]) else null
      ensures hmap.tb1.nodes + hmap.tb2.nodes <= old(hmap.tb1.nodes + hmap.tb2.nodes)
      ensures hmap.tb1.tab == old(hmap.tb1.tab) && hmap.tb2.tab == old(hmap.tb2.tab)
    {
      hide HMap.Valid;
      NodesAllocated(shape);
      h := hmap.Pop(StrHash(name), name);
      StillTree();
    }

    /** Line 109: the tree lets a node go; the hash index is not touched. */
    method Uproot(node: ZNode)
      requires TreeOk() && node in members
      modifies this`tree, this`shape, this`members
      modifies members`left, members`right, members`parent, members`height, members`cnt
      ensures TreeOk() && members == old(members) - {node} && hmap.Same()
      ensures forall z | z in old(members) :: z.score == old(z.score)
    {
      TreeDel(node);
    }

    method Drop(node: ZNode)
      requires TreeOk() && hmap.Valid() && node in members
      modifies this`tree, this`shape, this`members
      modifies members`left, members`right, members`parent, members`height, members`cnt
      ensures TreeOk() && hmap.Valid() && members == old(members) - {node} && hmap.Same()
      ensures forall z | z in old(members) :: z.score == old(z.score)
    {
      hide ZSet.TreeOk;
      Uproot(node);
      hmap.StillValid();
    }

    /** What both indexes lose, the set loses. */
    twostate lemma Lost(node: ZNode)
      requires old(Index()) && node in old(members) && members == old(members) - {node}
      requires hmap.dict == old(hmap.dict) - {node.name}
      requires forall z | z in old(members) :: z.score == old(z.score)
      ensures Index() && Model() == old(Model()) - {node.name}
    {
      assert Index();
    }

    /** `zset_pop`; line 98 returns nothing where NULL is meant. */
    method Pop(name: Bytes) returns (found: ZNode?)
      requires Valid()
      modifies this`tree, this`shape, this`members, members
      modifies hmap`dict, hmap.tb1, hmap.tb2, hmap.tb1.tab, hmap.tb2.tab, hmap.tb1.nodes`next, hmap.tb2.nodes`next
      ensures Valid() && Model() == old(Model()) - {name}
      ensures hmap.tb1.nodes + hmap.tb2.nodes <= old(hmap.tb1.nodes + hmap.tb2.nodes)
      ensures hmap.tb1.tab == old(hmap.tb1.tab) && hmap.tb2.tab == old(hmap.tb2.tab)
      ensures found == null <==> name !in old(Model())
      ensures found != null ==> found.name == name && found.score == old(Model())[name]
      ensures members == if found == null then old(members) else old(members) - {found}
    {
      hide HMap.Valid, ZSet.TreeOk;
      var h := Delist(name);
      if h == null {
        assert hmap.dict == old(hmap.dict);
        Untouched();
        found := null;
      } else {
        found := h.owner;
        Drop(found);
        Lost(found);
      }
    }
  }
}
