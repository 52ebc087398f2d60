/** The two-table hash map of src/hashtable.cpp: nodes move from `tb2` to `tb1` a few at a
    time, and every operation sees the one finite map `dict`. */
module HashMap {
  import opened Bits
  import opened ByteStrings
  import opened HashTable

  const K_MAX_LOAD_FACTOR: nat := 8
  const K_RESIZING_WORK: nat := 128

  /** How many nodes a call moves out of `left`. */
  function Budgeted(work: nat, left: nat): nat { if work < left then work else left }

  class HMap<T> {
    const tb1: HTab<T>
    const tb2: HTab<T>
    var resizingPos: nat
    /** The abstract value. */
    ghost var dict: map<Bytes, HNode<T>>

    /** Each table on its own, and the two apart from each other. */
    ghost predicate Tables()
      reads tb1, tb2, tb1.tab, tb2.tab, tb1.nodes, tb2.nodes
    {
      && tb1 != tb2 && tb1.Valid() && tb2.Valid() && tb1.nodes !! tb2.nodes
      && (tb2.tab != null ==> tb1.tab != null && tb1.tab != tb2.tab && tb1.log == tb2.log + 1)
    }

    /** The two tables together hold exactly the nodes of `dict`. */
    ghost predicate Indexed()
      reads this`dict, tb1, tb2
    {
      && (forall n | n in tb1.nodes + tb2.nodes :: n.key in dict && dict[n.key] == n)
      && (forall k | k in dict :: dict[k].key == k && dict[k] in tb1.nodes + tb2.nodes)
    }

    /** Buckets of `tb2` before the cursor are empty. */
    ghost predicate Swept()
      reads this`resizingPos, tb2
    {
      tb2.tab != null ==> forall i | 0 <= i < resizingPos && i < |tb2.layout.chains| :: tb2.layout.chains[i] == []
    }

    ghost predicate Shape()
      reads this, tb1, tb2, tb1.tab, tb2.tab, tb1.nodes, tb2.nodes
    {
      Tables() && Indexed() && Swept()
    }

    /** The load bound, and what keeps it: while a resize is under way, every insertion moves a
        node, so twice the backlog still fits. */
    ghost predicate Load()
      reads tb1, tb2
    {
      && (tb1.tab != null ==> tb1.size + tb2.size < 9 * (tb1.mask + 1))
      && (tb2.tab != null ==>
        && tb1.size + 2 * tb2.size < 9 * (tb1.mask + 1)
        && (tb2.size == 0 ==> tb1.size + 1 < 9 * (tb1.mask + 1)))
    }

    ghost predicate Valid()
      reads this, tb1, tb2, tb1.tab, tb2.tab, tb1.nodes, tb2.nodes
    {
      Shape() && Load()
    }

    constructor ()
      ensures Valid() && dict == map[] && fresh(tb1) && fresh(tb2)
      ensures tb1.tab == tb2.tab == null && tb1.nodes == tb2.nodes == {}
    {
      tb1 := new HTab<T>();
      tb2 := new HTab<T>();
      resizingPos := 0;
      dict := map[];
    }

    /** Nothing that the map is made of has changed. */
    twostate predicate Same()
      reads this, tb1, tb2, tb1.tab, tb2.tab, tb1.nodes, tb2.nodes
    {
      dict == old(dict) && resizingPos == old(resizingPos) && tb1.Same() && tb2.Same()
    }

    twostate lemma StillValid()
      requires old(Valid()) && Same()
      ensures Valid()
    {
      tb1.StillValid();
      tb2.StillValid();
    }

    /** A non-empty `tb2` has a non-empty bucket at or after the cursor. */
    lemma CursorInBounds()
      requires Shape() && tb2.size > 0
      ensures tb2.tab != null && resizingPos < |tb2.layout.chains| == tb2.tab.Length
    {
      var i := TotalPositive(tb2.layout.chains, |tb2.layout.chains|);
    }

    twostate lemma StillIndexed()
      requires old(Indexed()) && dict == old(dict) && tb1.nodes + tb2.nodes == old(tb1.nodes + tb2.nodes)
      ensures Indexed()
    {
      forall n | n in tb1.nodes + tb2.nodes ensures n.key in dict && dict[n.key] == n {
        assert n in old(tb1.nodes + tb2.nodes);
      }
      forall k | k in dict ensures dict[k].key == k && dict[k] in tb1.nodes + tb2.nodes {
        assert dict[k] in old(tb1.nodes + tb2.nodes);
      }
    }

    twostate lemma StillSwept()
      requires old(Swept()) && tb2.tab == old(tb2.tab) && resizingPos == old(resizingPos)
      requires tb2.tab != null && old(tb2.layout).InRange(resizingPos, 0)
      requires tb2.layout == old(tb2.layout).Remove(resizingPos, 0)
      ensures Swept()
    {
    }

    lemma MoveUnion(a: set<HNode<T>>, b: set<HNode<T>>, n: HNode<T>)
      requires n in b
      ensures (a + {n}) + (b - {n}) == a + b
    {
    }

    /** A node of old bucket i belongs in bucket i of the new table or in i plus the old number of buckets. */
    lemma Rehashed(n: HNode<T>)
      requires Tables() && tb2.tab != null && n in tb2.nodes
      ensures var i := tb2.layout.place[n].0;
              And(n.hcode, tb1.mask) == i || And(n.hcode, tb1.mask) == i + tb2.mask + 1
    {
      AndDoubled(n.hcode, tb2.log);
    }

    /** Detaching from one table, seen from both. */
    method DetachFirst(from: Slot<T>, ghost i: nat, ghost j: nat) returns (deleted: HNode<T>)
      requires Tables() && tb1.layout.InRange(i, j) && from == tb1.SlotFor(i, j)
      modifies tb1, tb1.tab, tb1.nodes`next
      ensures Tables() && deleted == old(tb1.layout.chains[i][j]) && deleted in old(tb1.nodes)
      ensures tb1.nodes == old(tb1.nodes) - {deleted} && tb1.size == old(tb1.size) - 1
      ensures tb1.nodes + tb2.nodes == old(tb1.nodes + tb2.nodes) - {deleted}
      ensures tb1.tab == old(tb1.tab) && tb1.mask == old(tb1.mask)
    {
      deleted := tb1.Detach(from, i, j);
    }

    method DetachSecond(from: Slot<T>, ghost i: nat, ghost j: nat) returns (deleted: HNode<T>)
      requires Tables() && tb2.layout.InRange(i, j) && from == tb2.SlotFor(i, j)
      modifies tb2, tb2.tab, tb2.nodes`next
      ensures Tables() && deleted == old(tb2.layout.chains[i][j]) && deleted in old(tb2.nodes)
      ensures tb2.nodes == old(tb2.nodes) - {deleted} && tb2.size == old(tb2.size) - 1
      ensures tb1.nodes + tb2.nodes == old(tb1.nodes + tb2.nodes) - {deleted}
      ensures tb2.tab == old(tb2.tab) && tb2.mask == old(tb2.mask) && tb2.layout == old(tb2.layout).Remove(i, j)
    {
      deleted := tb2.Detach(from, i, j);
    }

    method InsertFirst(node: HNode<T>)
      requires Tables() && tb1.tab != null && node !in tb1.nodes + tb2.nodes
      modifies tb1, tb1.tab, node`next
      ensures Tables() && tb1.nodes == old(tb1.nodes) + {node} && tb1.size == old(tb1.size) + 1
      ensures tb1.tab == old(tb1.tab) && tb1.mask == old(tb1.mask)
      ensures tb1.layout.place[node].0 == And(node.hcode, tb1.mask)
    {
      tb1.Insert(node);
    }

    /** Lines 136-137, seen from the two tables. */
    method MoveHead() returns (toMove: HNode<T>)
      requires Tables() && tb2.tab != null && tb2.layout.InRange(resizingPos, 0)
      modifies tb1, tb2, tb1.tab, tb2.tab, tb2.nodes`next
      ensures Tables() && tb1.tab == old(tb1.tab) && tb2.tab == old(tb2.tab) && tb1.mask == old(tb1.mask)
      ensures toMove in old(tb2.nodes)
      ensures tb1.nodes == old(tb1.nodes) + {toMove} && tb2.nodes == old(tb2.nodes) - {toMove}
      ensures tb1.layout.place[toMove].0 in {resizingPos, resizingPos + tb2.mask + 1}
      ensures tb2.layout == old(tb2.layout).Remove(resizingPos, 0)
      ensures tb2.size == old(tb2.size) - 1 && tb1.size == old(tb1.size) + 1
    {
      HeadMoves();
      hide HMap.Tables, And;
      toMove := DetachSecond(Bucket(resizingPos), resizingPos, 0);
      InsertFirst(toMove);
    }

    lemma HeadMoves()
      requires Tables() && tb2.tab != null && tb2.layout.InRange(resizingPos, 0)
      ensures var n := tb2.layout.chains[resizingPos][0];
              && n in tb2.nodes && n !in tb1.nodes && tb1.tab != null && tb1.tab != tb2.tab
              && And(n.hcode, tb1.mask) in {resizingPos, resizingPos + tb2.mask + 1}
    {
      Rehashed(tb2.layout.chains[resizingPos][0]);
    }

    /** Lines 136-137: the head of the bucket at the cursor changes tables. */
    method MoveOne()
      requires Shape() && tb2.tab != null && tb2.layout.InRange(resizingPos, 0)
      modifies tb1, tb2, tb1.tab, tb2.tab, tb2.nodes`next
      ensures Shape() && tb1.nodes + tb2.nodes == old(tb1.nodes + tb2.nodes) && tb2.nodes <= old(tb2.nodes)
      ensures tb1.tab == old(tb1.tab) && tb2.tab == old(tb2.tab) && tb1.mask == old(tb1.mask)
      ensures tb2.size == old(tb2.size) - 1 && tb1.size == old(tb1.size) + 1
    {
      var toMove := MoveHead();
      MoveUnion(old(tb1.nodes), old(tb2.nodes), toMove);
      StillIndexed();
      StillSwept();
    }

    /** Lines 133-134: past an empty bucket. */
    method Advance()
      requires Shape() && tb2.tab != null && resizingPos < tb2.tab.Length && tb2.tab[resizingPos] == null
      modifies this`resizingPos
      ensures Shape() && resizingPos == old(resizingPos) + 1
    {
      assert LinkedAt(tb2.tab, tb2.layout.chains, resizingPos, tb2.nodes);
      resizingPos := resizingPos + 1;
    }

    /** `hm_help_resizing`, for any budget: advance past empty buckets, otherwise move one node
        and count it.  The loop in the source (lines 131-138) never counts; see AsWritten. */
    method HelpResizing(work: nat)
      requires Shape()
      modifies this`resizingPos, tb1, tb2, tb1.tab, tb2.tab, tb2.nodes`next
      ensures Shape() && tb1.nodes + tb2.nodes == old(tb1.nodes + tb2.nodes)
      ensures tb1.tab == old(tb1.tab) && tb1.mask == old(tb1.mask)
      ensures var moved := Budgeted(work, old(tb2.size));
              tb2.size == old(tb2.size) - moved && tb1.size == old(tb1.size) + moved
      ensures tb2.tab == (if tb2.size == 0 then null else old(tb2.tab))
    {
      Migrate(work);
      if tb2.size == 0 && tb2.tab != null {
        Release();
      }
    }

    /** Lines 140-143. */
    method Release()
      requires Shape() && tb2.size == 0
      modifies tb2
      ensures Shape() && tb2.tab == null && tb2.nodes == {} && tb2.size == 0 && old(tb2.nodes) == {}
    {
      tb2.EmptyIffZero();
      tb2.Reset();
      StillIndexed();
    }

    method Migrate(work: nat)
      requires Shape()
      modifies this`resizingPos, tb1, tb2, tb1.tab, tb2.tab, tb2.nodes`next
      ensures Shape() && tb1.nodes + tb2.nodes == old(tb1.nodes + tb2.nodes)
      ensures tb1.tab == old(tb1.tab) && tb1.mask == old(tb1.mask) && tb2.tab == old(tb2.tab)
      ensures var moved := Budgeted(work, old(tb2.size));
              tb2.size == old(tb2.size) - moved && tb1.size == old(tb1.size) + moved
    {
      var nWork := 0;
      while nWork < work && tb2.size > 0
        invariant Shape() && tb1.nodes + tb2.nodes == old(tb1.nodes + tb2.nodes)
        invariant tb1.tab == old(tb1.tab) && tb1.mask == old(tb1.mask) && tb2.tab == old(tb2.tab)
        invariant nWork <= work && tb2.size == old(tb2.size) - nWork && tb1.size == old(tb1.size) + nWork
        invariant tb2.nodes <= old(tb2.nodes)
        decreases tb2.size, |tb2.layout.chains| - resizingPos
      {
        CursorInBounds();
        if tb2.tab[resizingPos] == null {
          Advance();
        } else {
          assert LinkedAt(tb2.tab, tb2.layout.chains, resizingPos, tb2.nodes);
          MoveOne();
          nWork := nWork + 1;
        }
      }
    }

    /** `hm_start_resizing`. */
    method StartResizing()
      requires Shape() && tb1.tab != null && tb2.tab == null
      modifies this`resizingPos, tb1, tb2
      ensures Shape() && tb1.nodes == {} && tb2.nodes == old(tb1.nodes) && tb2.tab == old(tb1.tab)
      ensures tb1.size == 0 && tb2.size == old(tb1.size)
      ensures tb1.tab != null && fresh(tb1.tab) && tb1.mask + 1 == 2 * (old(tb1.mask) + 1)
      ensures resizingPos == 0
    {
      tb2.CopyFrom(tb1);
      tb1.Init(2 * (tb1.mask + 1), tb1.log + 1);
      resizingPos := 0;
    }

    lemma LoadFactor(size: nat, buckets: nat)
      requires buckets > 0
      ensures size / buckets > K_MAX_LOAD_FACTOR <==> size >= 9 * buckets
    {
    }

    lemma Added(node: HNode<T>)
      requires Indexed() && node.key !in dict
      ensures node !in tb1.nodes + tb2.nodes
    {
    }

    /** What the new table gains, the map gains. */
    twostate lemma Gained(node: HNode<T>)
      requires old(Indexed()) && node.key !in old(dict) && dict == old(dict)[node.key := node]
      requires tb1.nodes == old(tb1.nodes) + {node} && tb2.nodes == old(tb2.nodes)
      ensures Indexed()
    {
    }

    /** Line 98. */
    method Add(node: HNode<T>)
      requires Shape() && tb1.tab != null && node.key !in dict
      modifies this`dict, tb1, tb1.tab, node`next
      ensures Shape() && dict == old(dict)[node.key := node] && tb1.nodes == old(tb1.nodes) + {node}
      ensures tb1.size == old(tb1.size) + 1 && tb1.tab == old(tb1.tab) && tb1.mask == old(tb1.mask)
    {
      Added(node);
      hide HMap.Tables, HMap.Indexed;
      InsertFirst(node);
      dict := dict[node.key := node];
      Gained(node);
    }

    /** The load after an insertion, before the migration step pays for it. */
    ghost predicate Loading()
      reads this, tb1, tb2
    {
      && tb1.tab != null
      && (tb2.tab == null ==> tb2.size == 0 && tb1.size < 9 * (tb1.mask + 1))
      && (tb2.tab != null ==>
        && tb1.size + 2 * tb2.size <= 9 * (tb1.mask + 1)
        && (tb2.size == 0 ==> tb1.size < 9 * (tb1.mask + 1)))
    }

    /** Lines 101-106: a full table becomes `tb2` of a table twice its size. */
    method CheckLoad()
      requires Shape() && tb1.tab != null
      requires if tb2.tab == null then tb1.size <= 9 * (tb1.mask + 1) else Loading()
      modifies this`resizingPos, tb1, tb2
      ensures Shape() && Loading() && tb1.nodes + tb2.nodes == old(tb1.nodes + tb2.nodes)
      ensures tb1.tab == old(tb1.tab) || fresh(tb1.tab)
      ensures if old(tb2.tab) == null && old(tb1.size) >= 9 * (old(tb1.mask) + 1)
              then tb2.tab == old(tb1.tab) && tb2.size == old(tb1.size) && tb1.mask + 1 == 2 * (old(tb1.mask) + 1)
              else tb1.tab == old(tb1.tab) && tb2.tab == old(tb2.tab) && tb2.size == old(tb2.size) && tb1.mask == old(tb1.mask)
    {
      if tb2.tab == null {
        var loadFactor := tb1.size / (tb1.mask + 1);
        LoadFactor(tb1.size, tb1.mask + 1);
        if loadFactor > K_MAX_LOAD_FACTOR {
          StartResizing();
        }
      }
    }

    /** Lines 95-98. */
    method InitAndAdd(node: HNode<T>)
      requires Valid() && node.key !in dict
      modifies this`dict, tb1, tb1.tab, node`next
      ensures Shape() && tb1.tab != null
      ensures if tb2.tab == null then tb1.size <= 9 * (tb1.mask + 1) else Loading()
      ensures dict == old(dict)[node.key := node] && tb1.nodes == old(tb1.nodes) + {node}
      ensures if old(tb1.tab) == null then fresh(tb1.tab) && tb1.mask == 3 && tb1.size == 1
              else tb1.tab == old(tb1.tab) && tb1.mask == old(tb1.mask) && tb1.size == old(tb1.size) + 1
    {
      if tb1.tab == null {
        tb1.EmptyIffZero();
        tb1.Init(4, 2);
      }
      Add(node);
    }

    /** An insertion that starts a resize. */
    ghost predicate Due()
      reads this, tb1, tb2
    {
      tb1.tab != null && tb2.tab == null && tb1.size + 1 >= 9 * (tb1.mask + 1)
    }

    /** Lines 95-106. */
    method Enter(node: HNode<T>)
      requires Valid() && node.key !in dict
      modifies this`resizingPos, this`dict, tb1, tb2, tb1.tab, node`next
      ensures Shape() && Loading() && dict == old(dict)[node.key := node]
      ensures tb1.nodes + tb2.nodes == old(tb1.nodes + tb2.nodes) + {node}
      ensures tb1.tab == old(tb1.tab) || fresh(tb1.tab)
      ensures tb2.tab == if old(Due()) then old(tb1.tab) else old(tb2.tab)
      ensures tb2.size == if old(Due()) then old(tb1.size) + 1 else old(tb2.size)
      ensures tb1.mask + 1 == old(if tb1.tab == null then 4 else if Due() then 2 * (tb1.mask + 1) else tb1.mask + 1)
    {
      hide HMap.Indexed, HMap.Swept;
      InitAndAdd(node);
      CheckLoad();
    }

    /** `hm_insert` of a node whose key is absent. */
    method Insert(node: HNode<T>, work: nat)
      requires Valid() && node.key !in dict && work >= 1
      modifies this`resizingPos, this`dict, tb1, tb2, tb1.tab, tb2.tab, tb1.nodes`next, tb2.nodes`next, node`next
      ensures Valid() && dict == old(dict)[node.key := node]
      ensures tb1.nodes + tb2.nodes == old(tb1.nodes + tb2.nodes) + {node}
      ensures tb1.tab == old(tb1.tab) || fresh(tb1.tab)
      ensures tb2.tab == null || tb2.tab == old(tb2.tab) || tb2.tab == old(tb1.tab) || fresh(tb2.tab)
      ensures tb1.mask + 1 == old(if tb1.tab == null then 4 else if Due() then 2 * (tb1.mask + 1) else tb1.mask + 1)
      ensures var left := old(if Due() then tb1.size + 1 else tb2.size); tb2.size == left - Budgeted(work, left)
    {
      Enter(node);
      assert tb2.nodes <= old(tb1.nodes + tb2.nodes) + {node};
      HelpResizing(work);
    }

    /** Lines 149-151: first one table, then the other. */
    method Find(hcode: nat, key: Bytes) returns (found: HNode?<T>)
      requires Shape() && (key in dict ==> dict[key].hcode == hcode)
      ensures found == if key in dict then dict[key] else null
    {
      found := null;
      var from, i, j := tb1.Lookup(hcode, key);
      if from.Some? {
        found := tb1.Deref(from.value, i, j);
        return;
      }
      from, i, j := tb2.Lookup(hcode, key);
      if from.Some? {
        found := tb2.Deref(from.value, i, j);
      }
    }

    /** `hm_lookup`: the result does not depend on how far the migration has come. */
    method Lookup(hcode: nat, key: Bytes, work: nat) returns (found: HNode?<T>)
      requires Valid() && (key in dict ==> dict[key].hcode == hcode)
      modifies this`resizingPos, tb1, tb2, tb1.tab, tb2.tab, tb2.nodes`next
      ensures Valid() && dict == old(dict) && tb1.nodes + tb2.nodes == old(tb1.nodes + tb2.nodes)
      ensures tb1.tab == old(tb1.tab) && (tb2.tab == null || tb2.tab == old(tb2.tab))
      ensures found == if key in dict then dict[key] else null
      ensures tb2.size == old(tb2.size) - Budgeted(work, old(tb2.size))
    {
      hide HMap.Tables, HMap.Indexed, HMap.Swept;
      HelpResizing(work);
      found := Find(hcode, key);
    }

    /** What one table loses, the map loses. */
    twostate lemma Dropped(node: HNode<T>)
      requires old(Indexed()) && dict == old(dict) - {node.key}
      requires node in old(tb1.nodes + tb2.nodes)
      requires tb1.nodes + tb2.nodes == old(tb1.nodes + tb2.nodes) - {node}
      ensures Indexed()
    {
      forall n | n in tb1.nodes + tb2.nodes ensures n.key in dict && dict[n.key] == n {
        assert n in old(tb1.nodes + tb2.nodes);
      }
      forall k | k in dict ensures dict[k].key == k && dict[k] in tb1.nodes + tb2.nodes {
        assert dict[k] in old(tb1.nodes + tb2.nodes);
      }
    }

    method PopFirst(from: Slot<T>, ghost i: nat, ghost j: nat) returns (deleted: HNode<T>)
      requires Valid() && tb1.layout.InRange(i, j) && from == tb1.SlotFor(i, j)
      modifies this`dict, tb1, tb1.tab, tb1.nodes`next
      ensures Valid() && deleted == old(tb1.layout.chains[i][j]) && dict == old(dict) - {deleted.key}
      ensures tb1.tab == old(tb1.tab) && tb1.nodes == old(tb1.nodes) - {deleted} && tb1.size == old(tb1.size) - 1
    {
      hide HMap.Tables, HMap.Indexed;
      deleted := DetachFirst(from, i, j);
      dict := dict - {deleted.key};
      Dropped(deleted);
    }

    method PopSecond(from: Slot<T>, ghost i: nat, ghost j: nat) returns (deleted: HNode<T>)
      requires Valid() && tb2.layout.InRange(i, j) && from == tb2.SlotFor(i, j)
      modifies this`dict, tb2, tb2.tab, tb2.nodes`next
      ensures Valid() && deleted == old(tb2.layout.chains[i][j]) && dict == old(dict) - {deleted.key}
      ensures tb2.tab == old(tb2.tab) && tb2.nodes == old(tb2.nodes) - {deleted} && tb2.size == old(tb2.size) - 1
    {
      hide HMap.Tables, HMap.Indexed;
      deleted := DetachSecond(from, i, j);
      dict := dict - {deleted.key};
      Dropped(deleted);
    }

    /** `hm_pop`: never helps the migration. */
    method Pop(hcode: nat, key: Bytes) returns (deleted: HNode?<T>)
      requires Valid() && (key in dict ==> dict[key].hcode == hcode)
      modifies this`dict, tb1, tb2, tb1.tab, tb2.tab, tb1.nodes`next, tb2.nodes`next
      ensures Valid() && deleted == (if key in old(dict) then old(dict[key]) else null)
      ensures dict == old(dict) - {key} && tb1.tab == old(tb1.tab) && tb2.tab == old(tb2.tab)
      ensures tb1.nodes + tb2.nodes <= old(tb1.nodes + tb2.nodes)
      ensures old(tb2.size) - 1 <= tb2.size <= old(tb2.size)
      ensures tb1.size + tb2.size == old(tb1.size) + old(tb2.size) - if deleted == null then 0 else 1
    {
      hide HMap.Load, HMap.Swept, HTab.Valid;
      var from, i, j := tb1.Lookup(hcode, key);
      if from.Some? {
        assert dict[key] == tb1.layout.chains[i][j];
        deleted := PopFirst(from.value, i, j);
        return;
      }
      from, i, j := tb2.Lookup(hcode, key);
      if from.Some? {
        assert dict[key] == tb2.layout.chains[i][j];
        deleted := PopSecond(from.value, i, j);
        return;
      }
      assert key !in dict;
      deleted := null;
    }

    static lemma {:induction false} OneKeyEach(d: map<Bytes, HNode<T>>, nodes: set<HNode<T>>)
      requires forall n | n in nodes :: n.key in d && d[n.key] == n
      requires forall k | k in d :: d[k] in nodes && d[k].key == k
      ensures |d| == |nodes|
      decreases nodes
    {
      if nodes == {} {
        assert d.Keys == {};
      } else {
        var n :| n in nodes;
        OneKeyEach(d - {n.key}, nodes - {n});
        assert d.Keys == (d - {n.key}).Keys + {n.key};
      }
    }

    /** At all times fewer than nine nodes a bucket of the new table. */
    lemma LoadBound()
      requires Valid()
      ensures |dict| == tb1.size + tb2.size
      ensures tb1.tab != null ==> tb1.size + tb2.size < 9 * (tb1.mask + 1)
      ensures tb1.tab == null ==> dict == map[] && tb2.tab == null
    {
      tb1.SizeIsCount();
      tb2.SizeIsCount();
      OneKeyEach(dict, tb1.nodes + tb2.nodes);
      assert tb1.tab == null ==> dict.Keys == {};
    }

    /** `h_scan` of both tables: every node of the map once. */
    method Scan() returns (visited: seq<HNode<T>>)
      requires Valid()
      ensures multiset(visited) == multiset(tb1.nodes + tb2.nodes) && |visited| == |dict|
    {
      var first := tb1.Scan();
      var second := tb2.Scan();
      visited := first + second;
      OneKeyEach(dict, tb1.nodes + tb2.nodes);
      ScanUnion(visited, tb1.nodes, tb2.nodes, tb1.nodes + tb2.nodes);
    }

    static lemma ScanUnion(u: seq<HNode<T>>, a: set<HNode<T>>, b: set<HNode<T>>, c: set<HNode<T>>)
      requires multiset(u) == multiset(a) + multiset(b) && a !! b && c == a + b
      ensures multiset(u) == multiset(c) && |u| == |c|
    {
      assert multiset(c) == multiset(a) + multiset(b);
      assert |multiset(u)| == |u| && |multiset(c)| == |c|;
    }

    /** `hm_size`. */
    method Size() returns (count: nat)
      requires Valid()
      ensures count == |dict|
    {
      var visited := Scan();
      count := |visited|;
    }
  }
}
