/** One chained hash table: the `HTab` half of src/hashtable.cpp. */
module HashTable {
  import opened Bits

  import opened ByteStrings
  import opened Options

  /** An intrusive chain node.  `owner` is the struct it is embedded in, so container_of reads
      that field; the key and its hash never change while a node exists. */
  class HNode<T> {
    const owner: T
    const key: Bytes
    const hcode: nat
    var next: HNode?<T>

    constructor (owner: T, key: Bytes, hcode: nat)
      ensures this.owner == owner && this.key == key && this.hcode == hcode && next == null
    {
      this.owner, this.key, this.hcode, next := owner, key, hcode, null;
    }
  }

  /** What an `HNode **from` can point to: a bucket of the table or the `next` field of a node. */
  datatype Slot<T> = Bucket(i: nat) | NextOf(node: HNode<T>)

  function Nth<T>(chain: seq<HNode<T>>, k: nat): HNode?<T> { if k < |chain| then chain[k] else null }

  /** Which nodes a table holds: the nodes of each bucket from the head on, and for each node
      its bucket and how far down the chain it is. */
  datatype Layout<T> = Layout(chains: seq<seq<HNode<T>>>, place: map<HNode<T>, (nat, nat)>) {

    predicate InRange(i: int, j: int) { 0 <= i < |chains| && 0 <= j < |chains[i]| }

    /** Chains and places describe each other, so every node is in exactly one place. */
    ghost predicate Spread() {
      && (forall i, j {:trigger chains[i][j]} | InRange(i, j) ::
            chains[i][j] in place && place[chains[i][j]] == (i, j))
      && (forall n {:trigger place[n]} | n in place ::
            InRange(place[n].0, place[n].1) && chains[place[n].0][place[n].1] == n)
    }

    /** The bucket of a node is the one its masked hash code selects. */
    ghost predicate Hashed(mask: nat) {
      forall n {:trigger And(n.hcode, mask)} | n in place :: place[n].0 == And(n.hcode, mask)
    }

    ghost function Prepend(i: nat, n: HNode<T>): Layout<T>
      requires i < |chains|
    {
      Layout(chains[i := [n] + chains[i]],
             map x | x in place.Keys + {n} ::
               if x == n then (i, 0) else if place[x].0 == i then (i, place[x].1 + 1) else place[x])
    }

    ghost function Remove(i: nat, j: nat): Layout<T>
      requires InRange(i, j)
    {
      Layout(chains[i := chains[i][..j] + chains[i][j + 1..]],
             map x | x in place.Keys - {chains[i][j]} ::
               if place[x].0 == i && place[x].1 > j then (i, place[x].1 - 1) else place[x])
    }

    lemma PrependSpread(i: nat, n: HNode<T>)
      requires Spread() && n !in place && i < |chains|
      ensures Prepend(i, n).Spread()
      ensures forall k, j | InRange(k, j) :: chains[k][j] != n
    {
    }

    lemma RemoveSpread(i: nat, j: nat)
      requires Spread() && InRange(i, j)
      ensures Remove(i, j).Spread()
    {
    }

    lemma KeepHashed(mask: nat, i: nat, j: nat, n: HNode<T>)
      requires Hashed(mask) && i < |chains|
      ensures i == And(n.hcode, mask) ==> Prepend(i, n).Hashed(mask)
      ensures InRange(i, j) ==> Remove(i, j).Hashed(mask)
    {
    }
  }

  /** The first `n` chains one after another. */
  ghost function Flat<T>(chains: seq<seq<HNode<T>>>, n: nat): seq<HNode<T>>
    requires n <= |chains|
  {
    if n == 0 then [] else Flat(chains, n - 1) + chains[n - 1]
  }

  /** How many nodes the first `n` chains have. */
  ghost function Total<T>(chains: seq<seq<HNode<T>>>, n: nat): nat
    requires n <= |chains|
  {
    if n == 0 then 0 else Total(chains, n - 1) + |chains[n - 1]|
  }

  lemma {:induction false} TotalUpdate<T>(chains: seq<seq<HNode<T>>>, i: nat, c: seq<HNode<T>>, n: nat)
    requires i < |chains| && n <= |chains|
    ensures Total(chains[i := c], n) == Total(chains, n) + if i < n then |c| - |chains[i]| else 0
  {
    if n > 0 { TotalUpdate(chains, i, c, n - 1); }
  }

  lemma {:induction false} TotalIsFlat<T>(chains: seq<seq<HNode<T>>>, n: nat)
    requires n <= |chains|
    ensures |Flat(chains, n)| == Total(chains, n)
  {
    if n > 0 { TotalIsFlat(chains, n - 1); }
  }

  /** A positive total means a non-empty chain. */
  lemma {:induction false} TotalPositive<T>(chains: seq<seq<HNode<T>>>, n: nat) returns (i: nat)
    requires n <= |chains| && Total(chains, n) > 0
    ensures i < n && |chains[i]| > 0
  {
    i := n - 1;
    if |chains[i]| == 0 { i := TotalPositive(chains, n - 1); }
  }

  lemma {:induction false} TotalZero<T>(chains: seq<seq<HNode<T>>>, n: nat)
    requires n <= |chains|
    ensures (forall i | 0 <= i < n :: chains[i] == []) ==> Total(chains, n) == 0
    ensures forall i | 0 <= i < n :: |chains[i]| <= Total(chains, n)
  {
    if n > 0 { TotalZero(chains, n - 1); }
  }

  /** The nodes in buckets before `i` and in the first `j` places of bucket `i`. */
  ghost function Below<T>(l: Layout<T>, i: nat, j: nat): set<HNode<T>> {
    set x | x in l.place && (l.place[x].0 < i || (l.place[x].0 == i && l.place[x].1 < j))
  }

  lemma BelowStep<T>(l: Layout<T>, i: nat, j: nat)
    requires l.Spread() && l.InRange(i, j)
    ensures multiset(Below(l, i, j + 1)) == multiset(Below(l, i, j)) + multiset{l.chains[i][j]}
  {
  }

  lemma BelowNext<T>(l: Layout<T>, i: nat)
    requires l.Spread() && i < |l.chains|
    ensures Below(l, i + 1, 0) == Below(l, i, |l.chains[i]|)
  {
  }

  lemma TakeOne<T>(c: seq<T>, j: nat)
    requires j < |c|
    ensures multiset(c[..j + 1]) == multiset(c[..j]) + multiset{c[j]}
  {
    assert c[..j + 1] == c[..j] + [c[j]];
  }

  lemma TakeAll<T>(c: seq<T>)
    ensures c[..|c|] == c
  {
  }

  lemma {:induction false} WalkIsBelow<T>(l: Layout<T>, i: nat, j: nat)
    requires l.Spread() && i < |l.chains| && j <= |l.chains[i]|
    ensures multiset(Flat(l.chains, i)) + multiset(l.chains[i][..j]) == multiset(Below(l, i, j))
    decreases i, j
  {
    if j > 0 {
      WalkIsBelow(l, i, j - 1);
      TakeOne(l.chains[i], j - 1);
      BelowStep(l, i, j - 1);
    } else if i > 0 {
      WalkIsBelow(l, i - 1, |l.chains[i - 1]|);
      TakeAll(l.chains[i - 1]);
      BelowNext(l, i - 1);
    } else {
      assert Below(l, 0, 0) == {};
    }
  }

  /** A walk over all chains meets every node of the table once. */
  lemma FlatIsAll<T>(l: Layout<T>)
    requires l.Spread()
    ensures multiset(Flat(l.chains, |l.chains|)) == multiset(l.place.Keys)
  {
    var n := |l.chains|;
    if n > 0 {
      WalkIsBelow(l, n - 1, |l.chains[n - 1]|);
      TakeAll(l.chains[n - 1]);
      BelowNext(l, n - 1);
      assert Below(l, n, 0) == l.place.Keys;
    } else {
      assert l.place.Keys == {};
    }
  }

  /** From `head` the `next` fields lead through exactly the nodes of `c`. */
  ghost predicate Linked<T>(head: HNode?<T>, c: seq<HNode<T>>)
    reads c
  {
    head == Nth(c, 0) && forall j {:trigger c[j].next} | 0 <= j < |c| :: c[j].next == Nth(c, j + 1)
  }

  ghost predicate LinkedAt<T>(tab: array<HNode?<T>>, chains: seq<seq<HNode<T>>>, i: nat, nodes: set<HNode<T>>)
    requires i < |chains| == tab.Length
    reads tab, nodes
  {
    (forall j | 0 <= j < |chains[i]| :: chains[i][j] in nodes) && Linked(tab[i], chains[i])
  }

  /** The heap contains these chains, all made of nodes from `nodes`. */
  ghost predicate AllLinked<T>(tab: array<HNode?<T>>, chains: seq<seq<HNode<T>>>, nodes: set<HNode<T>>)
    reads tab, nodes
  {
    tab.Length == |chains| && forall i | 0 <= i < |chains| :: LinkedAt(tab, chains, i, nodes)
  }

  class HTab<T> {
    var tab: array?<HNode?<T>>
    var mask: nat
    var size: nat
    ghost var nodes: set<HNode<T>>
    ghost var layout: Layout<T>
    /** log2 of the number of buckets. */
    ghost var log: nat

    ghost predicate Valid()
      reads this, tab, nodes
    {
      && size == Total(layout.chains, |layout.chains|) && nodes == layout.place.Keys && layout.Spread()
      && (tab == null ==> nodes == {} && layout.chains == [])
      && (tab != null ==>
        && |layout.chains| == tab.Length == mask + 1 == Pow2(log) && log >= 2
        && layout.Hashed(mask) && AllLinked(tab, layout.chains, nodes))
    }

    /** Nothing that the table is made of has changed. */
    twostate predicate Same()
      reads this, tab, nodes
    {
      unchanged(this) && (tab != null ==> unchanged(tab)) && forall n | n in nodes :: n.next == old(n.next)
    }

    twostate lemma StillValid()
      requires old(Valid()) && Same()
      ensures Valid()
    {
      if tab != null {
        forall i | 0 <= i < |layout.chains| ensures LinkedAt(tab, layout.chains, i, nodes) {
          assert old(LinkedAt(tab, layout.chains, i, nodes));
        }
      }
    }

    constructor ()
      ensures Valid() && tab == null && nodes == {} && size == 0
    {
      tab, mask, size := null, 0, 0;
      nodes, layout, log := {}, Layout([], map[]), 0;
    }

    /** `h_init` with n = 2^k buckets; its assertion is Bits.InitAssertion. */
    method Init(n: nat, ghost k: nat)
      requires n == Pow2(k) && k >= 2
      modifies this
      ensures Valid() && tab != null && fresh(tab) && mask == n - 1 && log == k && nodes == {} && size == 0
    {
      assert And(n - 1, n) == 0 by { InitAssertion(n); }
      tab := new HNode?<T>[n](_ => null);
      mask := n - 1;
      size := 0;
      nodes, layout, log := {}, Layout(seq(n, _ => []), map[]), k;
      TotalZero(layout.chains, n);
    }

    /** The struct assignment `*this = t`. */
    method CopyFrom(t: HTab<T>)
      requires t.Valid() && t != this
      modifies this
      ensures Valid() && tab == t.tab && mask == t.mask && size == t.size
      ensures nodes == t.nodes && layout == t.layout && log == t.log
    {
      tab, mask, size := t.tab, t.mask, t.size;
      nodes, layout, log := t.nodes, t.layout, t.log;
    }

    /** `*this = HTab{}`. */
    method Reset()
      modifies this
      ensures Valid() && tab == null && nodes == {} && size == 0
    {
      tab, mask, size := null, 0, 0;
      nodes, layout, log := {}, Layout([], map[]), 0;
    }

    method Insert(node: HNode<T>)
      requires Valid() && tab != null && node !in nodes
      modifies this`size, this`nodes, this`layout, tab, node`next
      ensures Valid() && nodes == old(nodes) + {node} && size == old(size) + 1
      ensures layout == old(layout).Prepend(And(node.hcode, mask), node)
    {
      var pos := And(node.hcode, mask);
      layout.PrependSpread(pos, node);
      layout.KeepHashed(mask, pos, 0, node);
      Hook(tab, pos, node, layout.chains, nodes);
      size := size + 1;
      TotalUpdate(layout.chains, pos, [node] + layout.chains[pos], |layout.chains|);
      Commit(nodes + {node}, layout.Prepend(pos, node));
    }

    /** The pointers and the size are in place; the abstract state follows. */
    ghost method Commit(nodes': set<HNode<T>>, layout': Layout<T>)
      requires tab != null && |layout'.chains| == tab.Length == mask + 1 == Pow2(log) && log >= 2
      requires size == Total(layout'.chains, |layout'.chains|) && nodes' == layout'.place.Keys
      requires layout'.Spread() && layout'.Hashed(mask)
      requires AllLinked(tab, layout'.chains, nodes')
      modifies this`nodes, this`layout
      ensures Valid() && nodes == nodes' && layout == layout'
    {
      nodes, layout := nodes', layout';
    }

    static method Hook(tab: array<HNode?<T>>, pos: nat, node: HNode<T>, ghost chains: seq<seq<HNode<T>>>,
                       ghost nodes: set<HNode<T>>)
      requires AllLinked(tab, chains, nodes) && pos < |chains| && node !in nodes
      modifies tab, node`next
      ensures AllLinked(tab, chains[pos := [node] + chains[pos]], nodes + {node})
    {
      assert LinkedAt(tab, chains, pos, nodes);
      node.next := tab[pos];
      tab[pos] := node;
      assert Linked(node.next, chains[pos]);
      assert Linked(node, [node] + chains[pos]);
      ghost var chains' := chains[pos := [node] + chains[pos]];
      forall i | 0 <= i < |chains| ensures LinkedAt(tab, chains', i, nodes + {node}) {
        assert old(LinkedAt(tab, chains, i, nodes));
      }
    }

    /** Where the node at place `j` of bucket `i` hangs. */
    ghost function SlotFor(i: nat, j: nat): Slot<T>
      requires layout.InRange(i, j)
      reads this
    {
      if j == 0 then Bucket(i) else NextOf(layout.chains[i][j - 1])
    }

    method Deref(from: Slot<T>, ghost i: nat, ghost j: nat) returns (node: HNode<T>)
      requires Valid() && layout.InRange(i, j) && from == SlotFor(i, j)
      ensures node == layout.chains[i][j]
    {
      assert LinkedAt(tab, layout.chains, i, nodes);
      node := if from.Bucket? then tab[from.i] else from.node.next;
    }

    /** `h_lookup`: the slot of the node in the key's chain with this code and key. */
    method Lookup(hcode: nat, key: Bytes) returns (from: Option<Slot<T>>, ghost i: nat, ghost j: nat)
      requires Valid()
      ensures from == None ==> forall n | n in nodes :: !(n.hcode == hcode && n.key == key)
      ensures from.Some? ==> layout.InRange(i, j) && from.value == SlotFor(i, j)
                             && layout.chains[i][j].hcode == hcode && layout.chains[i][j].key == key
                             && layout.chains[i][j] in nodes
    {
      i, j := 0, 0;
      if tab == null {
        return None, i, j;
      }
      var pos := And(hcode, mask);
      i := pos;
      var slot := Bucket(pos);
      var cur := tab[pos];
      assert LinkedAt(tab, layout.chains, i, nodes);
      while cur != null
        invariant j <= |layout.chains[i]| && cur == Nth(layout.chains[i], j)
        invariant slot == if j == 0 then Bucket(i) else NextOf(layout.chains[i][j - 1])
        invariant forall k | 0 <= k < j :: !(layout.chains[i][k].hcode == hcode && layout.chains[i][k].key == key)
        decreases |layout.chains[i]| - j
      {
        if cur.hcode == hcode && cur.key == key {
          return Some(slot), i, j;
        }
        slot := NextOf(cur);
        cur := cur.next;
        j := j + 1;
      }
      from := None;
      assert forall n | n in nodes && n.hcode == hcode :: layout.place[n].0 == And(n.hcode, mask);
    }

    /** `h_detach`: unhooks the node that the slot leads to; the rest of its chain moves up. */
    method Detach(from: Slot<T>, ghost i: nat, ghost j: nat) returns (detached: HNode<T>)
      requires Valid() && layout.InRange(i, j) && from == SlotFor(i, j)
      modifies this`size, this`nodes, this`layout, tab, nodes`next
      ensures Valid() && detached == old(layout.chains[i][j]) && size == old(size) - 1
      ensures detached in old(nodes) && nodes == old(nodes) - {detached}
      ensures layout == old(layout).Remove(i, j)
    {
      detached := Deref(from, i, j);
      layout.RemoveSpread(i, j);
      layout.KeepHashed(mask, i, j, detached);
      Unhook(tab, from, detached, i, j, layout, nodes);
      TotalZero(layout.chains, |layout.chains|);
      size := size - 1;
      TotalUpdate(layout.chains, i, layout.chains[i][..j] + layout.chains[i][j + 1..], |layout.chains|);
      Commit(nodes - {detached}, layout.Remove(i, j));
    }

    /** `h_scan`: the nodes in the order in which the callback sees them. */
    method Scan() returns (visited: seq<HNode<T>>)
      requires Valid()
      ensures visited == Flat(layout.chains, |layout.chains|)
      ensures multiset(visited) == multiset(nodes) && |visited| == size
    {
      visited := [];
      FlatIsAll(layout);
      TotalIsFlat(layout.chains, |layout.chains|);
      if size == 0 {
        return;
      }
      for i := 0 to mask + 1
        invariant visited == Flat(layout.chains, i)
      {
        var target := tab[i];
        ghost var j := 0;
        assert LinkedAt(tab, layout.chains, i, nodes);
        while target != null
          invariant j <= |layout.chains[i]| && target == Nth(layout.chains[i], j)
          invariant visited == Flat(layout.chains, i) + layout.chains[i][..j]
          decreases |layout.chains[i]| - j
        {
          visited := visited + [target];
          target := target.next;
          j := j + 1;
        }
      }
    }

    lemma EmptyIffZero()
      requires Valid()
      ensures size == 0 <==> nodes == {}
    {
      TotalZero(layout.chains, |layout.chains|);
      if size > 0 {
        var i := TotalPositive(layout.chains, |layout.chains|);
        assert layout.InRange(i, 0) && layout.chains[i][0] in nodes;
      }
      forall n | n in nodes ensures size > 0 {
        var p := layout.place[n];
        assert layout.InRange(p.0, p.1);
      }
    }

    /** The size field counts the nodes. */
    lemma SizeIsCount()
      requires Valid()
      ensures size == |nodes|
    {
      FlatIsAll(layout);
      TotalIsFlat(layout.chains, |layout.chains|);
      assert |multiset(Flat(layout.chains, |layout.chains|))| == |multiset(nodes)|;
    }

    static method UnhookHead(tab: array<HNode?<T>>, pos: nat, detached: HNode<T>,
                             ghost l: Layout<T>, ghost nodes: set<HNode<T>>)
      requires AllLinked(tab, l.chains, nodes) && l.InRange(pos, 0) && l.Spread() && detached == l.chains[pos][0]
      modifies tab
      ensures AllLinked(tab, l.Remove(pos, 0).chains, nodes - {detached})
    {
      ghost var c, d := l.chains[pos], l.Remove(pos, 0).chains;
      assert LinkedAt(tab, l.chains, pos, nodes);
      tab[pos] := detached.next;
      assert d[pos] == c[1..];
      forall k | 0 <= k < |d| ensures LinkedAt(tab, d, k, nodes - {detached}) {
        assert old(LinkedAt(tab, l.chains, k, nodes));
      }
    }

    static method UnhookInner(tab: array<HNode?<T>>, prev: HNode<T>, detached: HNode<T>, ghost i: nat, ghost j: nat,
                              ghost l: Layout<T>, ghost nodes: set<HNode<T>>)
      requires AllLinked(tab, l.chains, nodes) && l.InRange(i, j) && j > 0 && l.Spread()
      requires prev == l.chains[i][j - 1] && detached == l.chains[i][j]
      modifies prev`next
      ensures AllLinked(tab, l.Remove(i, j).chains, nodes - {detached})
    {
      ghost var c, d := l.chains[i], l.Remove(i, j).chains;
      assert LinkedAt(tab, l.chains, i, nodes);
      prev.next := detached.next;
      ghost var e := c[..j] + c[j + 1..];
      forall k | 0 <= k < |e| ensures e[k].next == Nth(e, k + 1) && e[k] in nodes && e[k] != detached {
        var k' := if k < j then k else k + 1;
        assert e[k] == c[k'] && l.place[c[k']] == (i, k') && l.place[c[j]] == (i, j) && l.place[c[j - 1]] == (i, j - 1);
      }
      assert Linked(tab[i], e) && d[i] == e;
      forall k | 0 <= k < |d| ensures LinkedAt(tab, d, k, nodes - {detached}) {
        assert old(LinkedAt(tab, l.chains, k, nodes));
      }
    }

    static method Unhook(tab: array<HNode?<T>>, from: Slot<T>, detached: HNode<T>, ghost i: nat, ghost j: nat,
                         ghost l: Layout<T>, ghost nodes: set<HNode<T>>)
      requires AllLinked(tab, l.chains, nodes) && l.InRange(i, j) && nodes == l.place.Keys && l.Spread()
      requires detached == l.chains[i][j] && from == if j == 0 then Bucket(i) else NextOf(l.chains[i][j - 1])
      modifies tab, nodes`next
      ensures AllLinked(tab, l.Remove(i, j).chains, nodes - {detached})
    {
      if from.Bucket? {
        UnhookHead(tab, from.i, detached, l, nodes);
      } else {
        UnhookInner(tab, from.node, detached, i, j, l, nodes);
      }
    }
  }
}
