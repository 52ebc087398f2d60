/** Whole runs of the sorted set: any sequence of additions, lookups and pops from an empty set
    answers like a finite map from names to scores. */
module SortedSetRuns {
  import opened ByteStrings
  import opened Options
  import opened AvlShape
  import opened HashMap
  import opened SortedSet

  datatype Op = Add(name: Bytes, score: real) | Find(name: Bytes) | Pop(name: Bytes)

  /** What a caller observes: whether a name was new, or the score that was found. */
  datatype Reply = Added(isNew: bool) | Found(score: Option<real>) | Popped(score: Option<real>)

  function Get(m: map<Bytes, real>, name: Bytes): Option<real> { if name in m then Some(m[name]) else None }

  function After(m: map<Bytes, real>, op: Op): map<Bytes, real> {
    match op
    case Add(name, score) => m[name := score]
    case Find(name) => m
    case Pop(name) => m - {name}
  }

  function Answer(m: map<Bytes, real>, op: Op): Reply {
    match op
    case Add(name, score) => Added(name !in m)
    case Find(name) => Found(Get(m, name))
    case Pop(name) => Popped(Get(m, name))
  }

  /** The map and the replies after a sequence of operations. */
  function RunOnMap(ops: seq<Op>): (map<Bytes, real>, seq<Reply>) {
    if ops == [] then (map[], [])
    else
      var (m, replies) := RunOnMap(ops[..|ops| - 1]);
      var op := ops[|ops| - 1];
      (After(m, op), replies + [Answer(m, op)])
  }

  /** The whole storage of a set is younger than the current call. */
  twostate predicate Owned(new zs: ZSet)
    reads zs, zs.hmap, zs.hmap.tb1, zs.hmap.tb2
  {
    && fresh(zs) && fresh(zs.members) && fresh(zs.hmap) && fresh(zs.hmap.tb1) && fresh(zs.hmap.tb2)
    && fresh(zs.hmap.tb1.nodes) && fresh(zs.hmap.tb2.nodes)
    && (zs.hmap.tb1.tab != null ==> fresh(zs.hmap.tb1.tab)) && (zs.hmap.tb2.tab != null ==> fresh(zs.hmap.tb2.tab))
  }

  method Step(zs: ZSet, op: Op) returns (reply: Reply)
    requires zs.Valid()
    modifies zs`tree, zs`shape, zs`members, zs.members
    modifies zs.hmap`resizingPos, zs.hmap`dict, zs.hmap.tb1, zs.hmap.tb2, zs.hmap.tb1.tab, zs.hmap.tb2.tab,
             zs.hmap.tb1.nodes`next, zs.hmap.tb2.nodes`next
    ensures zs.Valid() && zs.Grown() && zs.Model() == After(old(zs.Model()), op) && reply == Answer(old(zs.Model()), op)
  {
    hide HMap.Valid, ZSet.TreeOk;
    match op
    case Add(name, score) =>
      var isNew := zs.Add(name, score);
      reply := Added(isNew);
    case Find(name) =>
      var z := zs.Lookup(name);
      reply := Found(if z == null then None else Some(z.score));
    case Pop(name) =>
      var z := zs.Pop(name);
      reply := Popped(if z == null then None else Some(z.score));
  }

  method Run(ops: seq<Op>) returns (zs: ZSet, replies: seq<Reply>)
    ensures zs.Valid() && (zs.Model(), replies) == RunOnMap(ops)
    ensures var m, walk := RunOnMap(ops).0, InOrder(zs.shape);
            && Ascending(walk)
            && (forall z | z in walk :: z.name in m && m[z.name] == z.score)
            && (forall k | k in m :: exists z :: z in walk && z.name == k)
  {
    hide HMap.Valid, ZSet.TreeOk;
    zs := new ZSet();
    replies := [];
    for i := 0 to |ops|
      invariant Owned(zs) && zs.Valid() && (zs.Model(), replies) == RunOnMap(ops[..i])
    {
      assert ops[..i + 1][..i] == ops[..i];
      var reply := Step(zs, ops[i]);
      replies := replies + [reply];
    }
    assert ops[..|ops|] == ops;
    zs.WalkListsMap();
  }
}
