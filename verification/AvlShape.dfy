/** The mathematical side of the AVL tree: ghost trees over node references, zippers that
    name one position in a tree, and the two whole-tree algorithms (the rebalancing climb and
    the successor-swap deletion) as functions.  Nothing here reads the heap. */
module AvlShape {

  import opened Bits
  import opened ByteStrings

  /** One object stands for a `ZNode` together with the `AVLNode` embedded in it, so that
      container_of(node, ZNode, tree) is the identity.  A name never changes; a score may. */
  class ZNode {
    var left: ZNode?
    var right: ZNode?
    var parent: ZNode?
    var height: int
    var cnt: nat
    var score: real
    const name: Bytes

    constructor (name: Bytes, score: real)
      ensures this.name == name && this.score == score
      ensures left == right == parent == null && height == 0 && cnt == 1
    {
      this.name, this.score := name, score;
      left, right, parent, height, cnt := null, null, null, 0, 1;
    }
  }

  datatype Tree = Leaf | Node(left: Tree, n: ZNode, right: Tree)

  /** A position in a tree: the path of ancestors, each with the subtree on its other side;
      `left` says that the hole is the left child. */
  datatype Ctx = Top | Step(up: Ctx, n: ZNode, side: Tree, left: bool)

  function Max(a: int, b: int): int { if a > b then a else b }

  function Height(t: Tree): (h: int)
    ensures -1 <= h && (h == -1 <==> t.Leaf?)
  {
    if t.Leaf? then -1 else 1 + Max(Height(t.left), Height(t.right))
  }

  function Size(t: Tree): nat { if t.Leaf? then 0 else 1 + Size(t.left) + Size(t.right) }

  function InOrder(t: Tree): seq<ZNode> {
    if t.Leaf? then [] else InOrder(t.left) + [t.n] + InOrder(t.right)
  }

  ghost function Nodes(t: Tree): (s: set<ZNode>)
    ensures t.Node? ==> t.n in s
  {
    if t.Leaf? then {} else Nodes(t.left) + {t.n} + Nodes(t.right)
  }

  ghost predicate Distinct(t: Tree) {
    t.Node? ==>
      && Distinct(t.left) && Distinct(t.right)
      && t.n !in Nodes(t.left) && t.n !in Nodes(t.right) && Nodes(t.left) !! Nodes(t.right)
  }

  ghost predicate Near(a: int, b: int) { -1 <= a - b <= 1 }

  /** The AVL condition. */
  ghost predicate Balanced(t: Tree) {
    t.Node? ==> Balanced(t.left) && Balanced(t.right) && Near(Height(t.left), Height(t.right))
  }

  function Root(t: Tree): ZNode? { if t.Leaf? then null else t.n }

  // ---------- zippers ----------

  /** The subtree one level up from position `c`, whose hole contains `t`. */
  function Above(c: Ctx, t: Tree): Tree
    requires c.Step?
  {
    if c.left then Node(t, c.n, c.side) else Node(c.side, c.n, t)
  }

  function Plug(c: Ctx, t: Tree): Tree {
    if c.Top? then t else Plug(c.up, Above(c, t))
  }

  function Up(c: Ctx): ZNode? { if c.Top? then null else c.n }

  /** What the in-order walk meets before (after) the hole. */
  function Before(c: Ctx): seq<ZNode> {
    if c.Top? then [] else if c.left then Before(c.up) else Before(c.up) + (InOrder(c.side) + [c.n])
  }

  function After(c: Ctx): seq<ZNode> {
    if c.Top? then [] else if c.left then [c.n] + InOrder(c.side) + After(c.up) else After(c.up)
  }

  ghost function CtxNodes(c: Ctx): set<ZNode> {
    if c.Top? then {} else CtxNodes(c.up) + {c.n} + Nodes(c.side)
  }

  ghost predicate DistinctCtx(c: Ctx) {
    c.Step? ==>
      && DistinctCtx(c.up) && Distinct(c.side)
      && c.n !in CtxNodes(c.up) && c.n !in Nodes(c.side) && CtxNodes(c.up) !! Nodes(c.side)
  }

  /** The tree around the hole is AVL when the hole is filled with a subtree of height `h`. */
  ghost predicate BalancedCtx(c: Ctx, h: int) {
    c.Step? ==>
      Balanced(c.side) && Near(h, Height(c.side)) && BalancedCtx(c.up, 1 + Max(h, Height(c.side)))
  }

  function Depth(c: Ctx): nat { if c.Top? then 0 else 1 + Depth(c.up) }

  lemma AboveInOrder(c: Ctx, t: Tree)
    requires c.Step?
    ensures Before(c.up) + InOrder(Above(c, t)) + After(c.up) == Before(c) + InOrder(t) + After(c)
  {
  }

  lemma {:induction false} PlugInOrder(c: Ctx, t: Tree)
    ensures InOrder(Plug(c, t)) == Before(c) + InOrder(t) + After(c)
    decreases c
  {
    if c.Step? {
      PlugInOrder(c.up, Above(c, t));
      AboveInOrder(c, t);
    }
  }

  lemma {:induction false} PlugDistinct(c: Ctx, t: Tree)
    ensures Nodes(Plug(c, t)) == CtxNodes(c) + Nodes(t)
    ensures Distinct(Plug(c, t)) <==> DistinctCtx(c) && Distinct(t) && CtxNodes(c) !! Nodes(t)
    decreases c
  {
    if c.Step? {
      PlugDistinct(c.up, Above(c, t));
    }
  }

  lemma NodeBalanced(l: Tree, n: ZNode, r: Tree)
    ensures Height(Node(l, n, r)) == 1 + Max(Height(l), Height(r))
    ensures Balanced(Node(l, n, r)) <==> Balanced(l) && Balanced(r) && Near(Height(l), Height(r))
  {
  }

  lemma AboveBalanced(c: Ctx, t: Tree)
    requires c.Step?
    ensures Height(Above(c, t)) == 1 + Max(Height(t), Height(c.side))
    ensures Balanced(Above(c, t)) <==> Balanced(t) && Balanced(c.side) && Near(Height(t), Height(c.side))
  {
  }

  lemma {:induction false} PlugBalanced(c: Ctx, t: Tree)
    ensures Balanced(Plug(c, t)) <==> Balanced(t) && BalancedCtx(c, Height(t))
    decreases c
  {
    if c.Step? {
      AboveBalanced(c, t);
      PlugBalanced(c.up, Above(c, t));
    }
  }

  /** What hangs below a parent does not decide the root. */
  lemma {:induction false} PlugRoot(c: Ctx, t: Tree, u: Tree)
    requires c.Step?
    ensures Root(Plug(c, t)) == Root(Plug(c, u))
    decreases c
  {
    if c.up.Step? {
      PlugRoot(c.up, Above(c, t), Above(c, u));
    }
  }

  // ---------- the in-order sequence carries the node set ----------

  ghost predicate NoDup(s: seq<ZNode>) { forall x | x in s :: multiset(s)[x] == 1 }

  ghost function Elems(s: seq<ZNode>): set<ZNode> { set x | x in s }

  lemma NoDupConcat(a: seq<ZNode>, b: seq<ZNode>)
    ensures NoDup(a + b) <==> NoDup(a) && NoDup(b) && Elems(a) !! Elems(b)
    ensures Elems(a + b) == Elems(a) + Elems(b)
  {
    var m, ma, mb := multiset(a + b), multiset(a), multiset(b);
    assert m == ma + mb;
    if NoDup(a + b) {
      forall x | x in a ensures ma[x] == 1 { assert x in a + b && m[x] == 1; }
      forall x | x in b ensures mb[x] == 1 { assert x in a + b && m[x] == 1; }
      forall x | x in a ensures x !in b { assert x in a + b && m[x] == 1; }
    }
    if NoDup(a) && NoDup(b) && Elems(a) !! Elems(b) {
      forall x | x in a + b ensures m[x] == 1 { assert x in Elems(a) || x in Elems(b); }
    }
  }

  lemma NoDupAround(a: seq<ZNode>, n: ZNode, b: seq<ZNode>)
    ensures NoDup(a + [n] + b) <==>
              NoDup(a) && NoDup(b) && n !in Elems(a) && n !in Elems(b) && Elems(a) !! Elems(b)
    ensures Elems(a + [n] + b) == Elems(a) + {n} + Elems(b)
  {
    NoDupConcat(a + [n], b);
    NoDupConcat(a, [n]);
    assert Elems([n]) == {n};
    assert NoDup([n]);
  }

  lemma {:induction false} DistinctIffNoDup(t: Tree)
    ensures Elems(InOrder(t)) == Nodes(t)
    ensures Distinct(t) <==> NoDup(InOrder(t))
  {
    if t.Node? {
      DistinctIffNoDup(t.left);
      DistinctIffNoDup(t.right);
      NoDupAround(InOrder(t.left), t.n, InOrder(t.right));
    }
  }

  // ---------- rotations and the climb ----------

  function RotL(t: Tree): Tree
    requires t.Node? && t.right.Node?
  {
    Node(Node(t.left, t.n, t.right.left), t.right.n, t.right.right)
  }

  function RotR(t: Tree): Tree
    requires t.Node? && t.left.Node?
  {
    Node(t.left.left, t.left.n, Node(t.left.right, t.n, t.right))
  }

  function FixL(t: Tree): Tree
    requires t.Node? && t.left.Node?
  {
    if Height(t.left.right) > Height(t.left.left) then RotR(t.(left := RotL(t.left))) else RotR(t)
  }

  function FixR(t: Tree): Tree
    requires t.Node? && t.right.Node?
  {
    if Height(t.right.left) > Height(t.right.right) then RotL(t.(right := RotR(t.right))) else RotL(t)
  }

  function Rebalance(t: Tree): (u: Tree)
    requires t.Node?
    ensures u.Node?
  {
    var d := Height(t.left) - Height(t.right);
    if d > 1 then FixL(t) else if d < -1 then FixR(t) else t
  }

  /** One pass of `avl_fix` from the subtree `t` at position `c` up to the root. */
  function Climb(c: Ctx, t: Tree): (u: Tree)
    requires t.Node?
    ensures u.Node?
    decreases c
  {
    if c.Top? then Rebalance(t) else Climb(c.up, Above(c, Rebalance(t)))
  }

  lemma RotInOrder(t: Tree)
    ensures t.Node? && t.right.Node? ==> InOrder(RotL(t)) == InOrder(t)
    ensures t.Node? && t.left.Node? ==> InOrder(RotR(t)) == InOrder(t)
  {
  }

  lemma RotDistinct(t: Tree)
    requires t.Node? && Distinct(t)
    ensures t.right.Node? ==> Distinct(RotL(t)) && Nodes(RotL(t)) == Nodes(t)
    ensures t.left.Node? ==> Distinct(RotR(t)) && Nodes(RotR(t)) == Nodes(t)
  {
  }

  lemma RebalanceInOrder(t: Tree)
    requires t.Node?
    ensures InOrder(Rebalance(t)) == InOrder(t)
  {
    RotInOrder(t);
    RotInOrder(t.left);
    RotInOrder(t.right);
    if t.left.Node? && t.left.right.Node? { RotInOrder(t.(left := RotL(t.left))); }
    if t.right.Node? && t.right.left.Node? { RotInOrder(t.(right := RotR(t.right))); }
  }

  lemma {:induction false} ClimbInOrder(c: Ctx, t: Tree)
    requires t.Node?
    ensures InOrder(Climb(c, t)) == Before(c) + InOrder(t) + After(c)
    decreases c
  {
    RebalanceInOrder(t);
    if c.Step? {
      ClimbInOrder(c.up, Above(c, Rebalance(t)));
      AboveInOrder(c, Rebalance(t));
    }
  }

  lemma FixLNear(l: Tree, n: ZNode, r: Tree)
    requires Balanced(l) && Balanced(r) && Height(l) == Height(r) + 2
    ensures var u := FixL(Node(l, n, r)); Balanced(u) && Height(l) <= Height(u) <= Height(l) + 1
  {
    NodeBalanced(l.left, l.n, l.right);
    if Height(l.right) > Height(l.left) {
      var m := l.right;
      NodeBalanced(m.left, m.n, m.right);
      NodeBalanced(l.left, l.n, m.left);
      NodeBalanced(m.right, n, r);
      NodeBalanced(Node(l.left, l.n, m.left), m.n, Node(m.right, n, r));
    } else {
      NodeBalanced(l.right, n, r);
      NodeBalanced(l.left, l.n, Node(l.right, n, r));
    }
  }

  lemma FixRNear(l: Tree, n: ZNode, r: Tree)
    requires Balanced(l) && Balanced(r) && Height(r) == Height(l) + 2
    ensures var u := FixR(Node(l, n, r)); Balanced(u) && Height(r) <= Height(u) <= Height(r) + 1
  {
    NodeBalanced(r.left, r.n, r.right);
    if Height(r.left) > Height(r.right) {
      var m := r.left;
      NodeBalanced(m.left, m.n, m.right);
      NodeBalanced(m.right, r.n, r.right);
      NodeBalanced(l, n, m.left);
      NodeBalanced(Node(l, n, m.left), m.n, Node(m.right, r.n, r.right));
    } else {
      NodeBalanced(l, n, r.left);
      NodeBalanced(Node(l, n, r.left), r.n, r.right);
    }
  }

  /** Rebalancing a parent after the height at the hole moved from `h` by at most one. */
  lemma RebalanceNear(c: Ctx, t: Tree, h: int)
    requires c.Step? && Balanced(t) && Balanced(c.side) && Near(h, Height(c.side)) && Near(Height(t), h)
    ensures var u := Rebalance(Above(c, t));
            Balanced(u) && Near(Height(u), 1 + Max(h, Height(c.side)))
  {
    var a := Above(c, t);
    var d := Height(a.left) - Height(a.right);
    if d > 1 {
      FixLNear(a.left, a.n, a.right);
    } else if d < -1 {
      FixRNear(a.left, a.n, a.right);
    } else {
      NodeBalanced(a.left, a.n, a.right);
    }
  }

  /** The climb restores the AVL condition when the height at the hole moved by at most one. */
  lemma {:induction false} ClimbBalanced(c: Ctx, t: Tree, h: int)
    requires t.Node? && Balanced(Rebalance(t)) && Near(Height(Rebalance(t)), h)
    requires BalancedCtx(c, h)
    ensures Balanced(Climb(c, t))
    decreases c
  {
    if c.Step? {
      RebalanceNear(c, Rebalance(t), h);
      ClimbBalanced(c.up, Above(c, Rebalance(t)), 1 + Max(h, Height(c.side)));
    }
  }

  // ---------- deletion ----------

  /** The position of the smallest node at or below the hole. */
  function Leftmost(c: Ctx, t: Tree): (p: (Ctx, Tree))
    requires t.Node?
    ensures p.1.Node? && p.1.left.Leaf? && Size(p.1) <= Size(t)
    ensures Plug(p.0, p.1) == Plug(c, t)
    decreases t
  {
    if t.left.Leaf? then (c, t) else Leftmost(Step(c, t.n, t.right, true), t.left)
  }

  lemma {:induction false} LeftmostBelow(c: Ctx, t: Tree)
    requires t.Node?
    ensures Leftmost(c, t).1.n in Nodes(t)
    decreases t
  {
    if t.left.Node? {
      LeftmostBelow(Step(c, t.n, t.right, true), t.left);
    }
  }

  lemma {:induction false} LeftmostOrder(c: Ctx, t: Tree)
    requires t.Node?
    ensures var (d, u) := Leftmost(c, t);
            Before(d) == Before(c) && InOrder(t) + After(c) == [u.n] + InOrder(u.right) + After(d)
    decreases t
  {
    if t.left.Node? {
      var c' := Step(c, t.n, t.right, true);
      LeftmostOrder(c', t.left);
      assert InOrder(t) + After(c) == InOrder(t.left) + After(c') by {
        assert InOrder(t) == InOrder(t.left) + [t.n] + InOrder(t.right);
        assert After(c') == [t.n] + InOrder(t.right) + After(c);
      }
    } else {
      assert InOrder(t) == [t.n] + InOrder(t.right);
    }
  }

  /** `t` with node `v` in the place of node `n`. */
  function Subst(t: Tree, n: ZNode, v: ZNode): (u: Tree)
    ensures Height(u) == Height(t) && Size(u) == Size(t)
  {
    if t.Leaf? then Leaf
    else Node(Subst(t.left, n, v), if t.n == n then v else t.n, Subst(t.right, n, v))
  }

  function SubstSeq(s: seq<ZNode>, n: ZNode, v: ZNode): seq<ZNode> {
    seq(|s|, i requires 0 <= i < |s| => if s[i] == n then v else s[i])
  }

  lemma {:induction false} SubstShape(t: Tree, n: ZNode, v: ZNode)
    ensures InOrder(Subst(t, n, v)) == SubstSeq(InOrder(t), n, v)
    ensures Balanced(Subst(t, n, v)) <==> Balanced(t)
  {
    if t.Node? {
      SubstShape(t.left, n, v);
      SubstShape(t.right, n, v);
    }
  }

  lemma {:induction false} SubstAbsent(t: Tree, n: ZNode, v: ZNode)
    requires n !in Nodes(t)
    ensures Subst(t, n, v) == t
  {
    if t.Node? {
      SubstAbsent(t.left, n, v);
      SubstAbsent(t.right, n, v);
    }
  }

  lemma {:induction false} SubstPlug(c: Ctx, t: Tree, n: ZNode, v: ZNode)
    requires n !in CtxNodes(c)
    ensures Subst(Plug(c, t), n, v) == Plug(c, Subst(t, n, v))
    decreases c
  {
    if c.Step? {
      SubstPlug(c.up, Above(c, t), n, v);
      SubstAbsent(c.side, n, v);
    }
  }

  /** Where node `n` sits below the hole of `c`. */
  ghost function Locate(c: Ctx, t: Tree, n: ZNode): (p: (Ctx, Tree))
    requires n in Nodes(t)
    ensures p.1.Node? && p.1.n == n && Plug(p.0, p.1) == Plug(c, t)
    decreases t
  {
    if t.n == n then (c, t)
    else if n in Nodes(t.left) then Locate(Step(c, t.n, t.right, true), t.left, n)
    else Locate(Step(c, t.n, t.left, false), t.right, n)
  }

  /** Replacing the node at one position of a tree. */
  lemma SubstAt(c: Ctx, t: Tree, v: ZNode)
    requires t.Node? && Distinct(Plug(c, t))
    ensures Subst(Plug(c, t), t.n, v) == Plug(c, Node(t.left, v, t.right))
  {
    PlugDistinct(c, t);
    SubstPlug(c, t, t.n, v);
    SubstAbsent(t.left, t.n, v);
    SubstAbsent(t.right, t.n, v);
  }

  /** Putting `t` at position `c` and climbing from its parent. */
  function ClimbFrom(c: Ctx, t: Tree): Tree {
    if c.Top? then t else Climb(c.up, Above(c, t))
  }

  lemma ClimbFromInOrder(c: Ctx, t: Tree)
    ensures InOrder(ClimbFrom(c, t)) == Before(c) + InOrder(t) + After(c)
  {
    if c.Step? {
      ClimbInOrder(c.up, Above(c, t));
      AboveInOrder(c, t);
    }
  }

  lemma ClimbFromBalanced(c: Ctx, t: Tree, h: int)
    requires Balanced(t) && BalancedCtx(c, h) && Near(Height(t), h)
    ensures Balanced(ClimbFrom(c, t))
  {
    if c.Step? {
      RebalanceNear(c, t, h);
      ClimbBalanced(c.up, Above(c, t), 1 + Max(h, Height(c.side)));
    }
  }

  /** `avl_del` on the root node of the subtree `t` at position `c`. */
  function Delete(c: Ctx, t: Tree): Tree
    requires t.Node?
    decreases Size(t)
  {
    if t.right.Leaf? then
      ClimbFrom(c, t.left)
    else
      var (d, victim) := Leftmost(Step(c, t.n, t.left, false), t.right);
      Subst(Delete(d, victim), t.n, victim.n)
  }

  lemma SubstSeqConcat(a: seq<ZNode>, b: seq<ZNode>, n: ZNode, v: ZNode)
    ensures SubstSeq(a + b, n, v) == SubstSeq(a, n, v) + SubstSeq(b, n, v)
  {
  }

  lemma SubstSeqAbsent(a: seq<ZNode>, n: ZNode, v: ZNode)
    requires n !in a
    ensures SubstSeq(a, n, v) == a
  {
  }

  lemma SubstOnce(a: seq<ZNode>, n: ZNode, b: seq<ZNode>, v: ZNode)
    requires NoDup(a + [n] + ([v] + b))
    ensures SubstSeq(a + [n] + b, n, v) == a + [v] + b
  {
    NoDupAround(a, n, [v] + b);
    NoDupConcat([v], b);
    SubstSeqConcat(a + [n], b, n, v);
    SubstSeqConcat(a, [n], n, v);
    SubstSeqAbsent(a, n, v);
    SubstSeqAbsent(b, n, v);
  }

  /** The sequence step of a deletion: the victim `v` heads what follows `n`; it leaves its
      place and takes that of `n`. */
  lemma SwapVictim(before: seq<ZNode>, l: seq<ZNode>, n: ZNode, r: seq<ZNode>, after: seq<ZNode>,
                   v: ZNode, r': seq<ZNode>, after': seq<ZNode>)
    requires NoDup(before + (l + [n] + r) + after)
    requires r + after == [v] + r' + after'
    ensures SubstSeq(before + (l + [n]) + [] + r' + after', n, v) == before + l + r + after
  {
    var a, b := before + l, r' + after';
    assert before + (l + [n] + r) + after == a + [n] + ([v] + b) by {
      assert before + (l + [n] + r) + after == a + [n] + (r + after);
      assert [v] + r' + after' == [v] + b;
    }
    SubstOnce(a, n, b, v);
    assert before + (l + [n]) + [] + r' + after' == a + [n] + b;
    assert before + l + r + after == a + (r + after);
    assert a + [v] + b == a + ([v] + r' + after');
  }

  /** Deletion removes exactly its node from the in-order sequence. */
  lemma {:induction false} DeleteInOrder(c: Ctx, t: Tree)
    requires t.Node? && Distinct(Plug(c, t))
    ensures InOrder(Delete(c, t)) == Before(c) + InOrder(t.left) + InOrder(t.right) + After(c)
    decreases Size(t)
  {
    if t.right.Leaf? {
      ClimbFromInOrder(c, t.left);
    } else {
      var c0 := Step(c, t.n, t.left, false);
      var (d, u) := Leftmost(c0, t.right);
      LeftmostOrder(c0, t.right);
      DeleteInOrder(d, u);
      SubstShape(Delete(d, u), t.n, u.n);
      PlugInOrder(c, t);
      DistinctIffNoDup(Plug(c, t));
      SwapVictim(Before(c), InOrder(t.left), t.n, InOrder(t.right), After(c), u.n, InOrder(u.right), After(d));
    }
  }

  lemma DropMiddle(before: seq<ZNode>, l: seq<ZNode>, n: ZNode, r: seq<ZNode>, after: seq<ZNode>)
    requires NoDup(before + (l + [n] + r) + after)
    ensures NoDup(before + l + r + after)
    ensures Elems(before + l + r + after) == Elems(before + (l + [n] + r) + after) - {n}
  {
    var a, b := before + l, r + after;
    assert before + (l + [n] + r) + after == a + [n] + b;
    assert before + l + r + after == a + b;
    NoDupAround(a, n, b);
    NoDupConcat(a, b);
  }

  /** Deletion keeps all other nodes, each once. */
  lemma DeleteNodes(c: Ctx, t: Tree)
    requires t.Node? && Distinct(Plug(c, t))
    ensures Distinct(Delete(c, t)) && Nodes(Delete(c, t)) == Nodes(Plug(c, t)) - {t.n}
  {
    DeleteInOrder(c, t);
    PlugInOrder(c, t);
    DistinctIffNoDup(Plug(c, t));
    DistinctIffNoDup(Delete(c, t));
    DropMiddle(Before(c), InOrder(t.left), t.n, InOrder(t.right), After(c));
  }

  /** The victim of a deletion: it lies below `t.n`, and `t.n` survives the victim's removal. */
  lemma VictimFacts(c: Ctx, t: Tree)
    requires t.Node? && t.right.Node? && Distinct(Plug(c, t))
    ensures var (d, u) := Leftmost(Step(c, t.n, t.left, false), t.right);
            && Plug(d, u) == Plug(c, t) && Size(u) < Size(t)
            && u.n in Nodes(Plug(c, t)) && t.n in Nodes(Delete(d, u))
            && Distinct(Delete(d, u)) && Nodes(Delete(d, u)) == Nodes(Plug(c, t)) - {u.n}
  {
    var (d, u) := Leftmost(Step(c, t.n, t.left, false), t.right);
    LeftmostBelow(Step(c, t.n, t.left, false), t.right);
    assert t == Node(t.left, t.n, t.right);
    DeleteNodes(d, u);
    PlugDistinct(c, t);
  }

  /** Deletion keeps the AVL condition. */
  lemma {:induction false} DeleteBalanced(c: Ctx, t: Tree)
    requires t.Node? && Balanced(Plug(c, t))
    ensures Balanced(Delete(c, t))
    decreases Size(t)
  {
    if t.right.Leaf? {
      PlugBalanced(c, t);
      ClimbFromBalanced(c, t.left, Height(t));
    } else {
      var (d, u) := Leftmost(Step(c, t.n, t.left, false), t.right);
      DeleteBalanced(d, u);
      SubstShape(Delete(d, u), t.n, u.n);
    }
  }

  lemma Around<T>(a: seq<T>, l: seq<T>, x: T, r: seq<T>, b: seq<T>)
    ensures a + (l + [x] + r) + b == (a + l) + [x] + (r + b)
    ensures a + l + r + b == (a + l) + (r + b)
  {
  }

  /** A deletion takes exactly the node at the position out of the walk, and the tree stays AVL. */
  lemma DeleteIsRemoval(c: Ctx, t: Tree)
    requires t.Node? && Distinct(Plug(c, t)) && Balanced(Plug(c, t))
    ensures var a, b := Before(c) + InOrder(t.left), InOrder(t.right) + After(c);
            InOrder(Plug(c, t)) == a + [t.n] + b && InOrder(Delete(c, t)) == a + b
    ensures Balanced(Delete(c, t)) && Distinct(Delete(c, t)) && Nodes(Delete(c, t)) == Nodes(Plug(c, t)) - {t.n}
  {
    Around(Before(c), InOrder(t.left), t.n, InOrder(t.right), After(c));
    hide Delete, Plug, Before, After, Distinct, Balanced;
    PlugInOrder(c, t);
    DeleteInOrder(c, t);
    DeleteNodes(c, t);
    DeleteBalanced(c, t);
  }

  // ---------- how deep an AVL tree can be ----------

  function Fib(n: nat): nat { if n < 2 then n else Fib(n - 1) + Fib(n - 2) }

  lemma FibMonotone(n: nat)
    ensures Fib(n) <= Fib(n + 1)
  {
  }

  lemma FibSum(n: nat)
    ensures Fib(n + 2) == Fib(n + 1) + Fib(n)
  {
  }

  lemma FibStarts()
    ensures Fib(2) == 1
  {
  }

  lemma {:induction false} FibGrows(m: nat, n: nat)
    requires m <= n
    ensures Fib(m) <= Fib(n)
    decreases n
  {
    if m < n {
      FibGrows(m, n - 1);
      FibMonotone(n - 1);
    }
  }

  lemma {:induction false} FibDoubles(n: nat)
    ensures Pow2(n / 2) <= Fib(n + 2)
  {
    if n >= 2 {
      FibDoubles(n - 2);
      FibMonotone(n);
      assert n / 2 == (n - 2) / 2 + 1;
    }
  }

  /** An AVL tree of height h has at least Fib(h + 3) - 1 nodes. */
  lemma {:induction false} SizeAtLeastFib(t: Tree)
    requires Balanced(t)
    ensures Size(t) >= Fib(Height(t) + 3) - 1
  {
    hide Fib;
    FibStarts();
    if t.Node? {
      SizeAtLeastFib(t.left);
      SizeAtLeastFib(t.right);
      var h := Height(t);
      FibSum(h + 1);
      FibMonotone(h + 1);
    }
  }

  /** Every position hangs at a depth below the height of its tree plus one. */
  lemma {:induction false} DepthBounded(c: Ctx, t: Tree)
    ensures Depth(c) + Height(t) <= Height(Plug(c, t))
    decreases c
  {
    if c.Step? {
      DepthBounded(c.up, Above(c, t));
    }
  }

  lemma {:induction false} SizeIsCount(t: Tree)
    requires Distinct(t)
    ensures Size(t) == |Nodes(t)|
  {
    if t.Node? {
      SizeIsCount(t.left);
      SizeIsCount(t.right);
      assert Nodes(t) == Nodes(t.left) + {t.n} + Nodes(t.right);
    }
  }

  /** So many steps are logarithmic in the number of these nodes. */
  ghost predicate Logarithmic(steps: nat, nodes: set<ZNode>) {
    Fib(steps + 2) <= |nodes| + 1 && Pow2(steps / 2) <= |nodes| + 1
  }

  lemma WalkIsShort(t: Tree, steps: nat)
    requires Balanced(t) && Distinct(t) && steps <= Height(t) + 1
    ensures Logarithmic(steps, Nodes(t))
  {
    hide Fib, Pow2, Size, Nodes, Height, Balanced, Distinct;
    SizeAtLeastFib(t);
    SizeIsCount(t);
    FibGrows(steps + 2, Height(t) + 3);
    FibDoubles(steps);
  }
}
