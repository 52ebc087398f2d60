/** Whole runs of the hash map of src/hashtable.cpp, for any hash function and any amount of
    migration work per call. */
module HashMapRuns {
  import opened ByteStrings
  import opened HashTable
  import opened Options
  import opened HashMap

  /** `work` stands for `k_resizing_work`. */
  datatype Op = Put(key: Bytes, value: int, work: nat) | Look(key: Bytes, work: nat) | Remove(key: Bytes)

  function Get(m: map<Bytes, int>, key: Bytes): Option<int> { if key in m then Some(m[key]) else None }

  function After(m: map<Bytes, int>, op: Op): map<Bytes, int> {
    match op
    case Put(key, value, _) => m[key := value]
    case Look(_, _) => m
    case Remove(key) => m - {key}
  }

  function RunOnMap(ops: seq<Op>): (map<Bytes, int>, seq<Option<int>>) {
    if ops == [] then (map[], [])
    else
      var (m, replies) := RunOnMap(ops[..|ops| - 1]);
      var op := ops[|ops| - 1];
      (After(m, op), replies + [Get(m, op.key)])
  }

  ghost function Content(d: map<Bytes, HNode<int>>): map<Bytes, int> { map k | k in d :: d[k].owner }

  ghost predicate Coded(d: map<Bytes, HNode<int>>, hash: Bytes -> nat) { forall k | k in d :: d[k].hcode == hash(k) }

  lemma AfterPut(d: map<Bytes, HNode<int>>, d': map<Bytes, HNode<int>>, key: Bytes, hash: Bytes -> nat)
    requires Coded(d, hash) && key !in d && d'.Keys == d.Keys + {key} && forall k | k in d :: d'[k] == d[k]
    requires d'[key].hcode == hash(key)
    ensures Content(d') == Content(d)[key := d'[key].owner] && Coded(d', hash)
  {
  }

  lemma AtKey(d: map<Bytes, HNode<int>>, key: Bytes, hash: Bytes -> nat)
    requires Coded(d, hash)
    ensures Content(d - {key}) == Content(d) - {key} && Coded(d - {key}, hash)
    ensures Get(Content(d), key) == if key in d then Some(d[key].owner) else None
    ensures key in d ==> d[key].hcode == hash(key)
    ensures key in Content(d) <==> key in d
  {
  }

  /** `hm_insert` is for keys that are absent, and its migration step has some work to do. */
  predicate Allowed(m: map<Bytes, int>, op: Op) { op.Put? ==> op.key !in m && op.work >= 1 }

  /** All that the map is made of was made during this run. */
  twostate predicate Owned(new m: HMap<int>)
    reads m, m.tb1, m.tb2
  {
    && fresh(m) && fresh(m.tb1) && fresh(m.tb2) && fresh(m.tb1.nodes) && fresh(m.tb2.nodes)
    && (m.tb1.tab != null ==> fresh(m.tb1.tab)) && (m.tb2.tab != null ==> fresh(m.tb2.tab))
  }

  method PutNew(m: HMap<int>, hash: Bytes -> nat, key: Bytes, value: int, work: nat)
    requires m.Valid() && Coded(m.dict, hash) && key !in m.dict && work >= 1
    modifies m`resizingPos, m`dict, m.tb1, m.tb2, m.tb1.tab, m.tb2.tab, m.tb1.nodes`next, m.tb2.nodes`next
    ensures m.Valid() && Coded(m.dict, hash) && Content(m.dict) == old(Content(m.dict))[key := value]
    ensures fresh(m.tb1.nodes + m.tb2.nodes - old(m.tb1.nodes + m.tb2.nodes))
    ensures m.tb1.tab == old(m.tb1.tab) || fresh(m.tb1.tab)
    ensures m.tb2.tab == null || m.tb2.tab == old(m.tb2.tab) || m.tb2.tab == old(m.tb1.tab) || fresh(m.tb2.tab)
  {
    hide HMap.Valid, HMap.Due, Coded, Content;
    var node := new HNode<int>(value, key, hash(key));
    m.StillValid();
    m.Insert(node, work);
    AfterPut(old(m.dict), m.dict, key, hash);
  }

  method LookUp(m: HMap<int>, hash: Bytes -> nat, key: Bytes, work: nat) returns (reply: Option<int>)
    requires m.Valid() && Coded(m.dict, hash)
    modifies m`resizingPos, m.tb1, m.tb2, m.tb1.tab, m.tb2.tab, m.tb2.nodes`next
    ensures m.Valid() && m.dict == old(m.dict) && reply == Get(Content(m.dict), key)
    ensures m.tb1.nodes + m.tb2.nodes == old(m.tb1.nodes + m.tb2.nodes)
    ensures m.tb1.tab == old(m.tb1.tab) && (m.tb2.tab == null || m.tb2.tab == old(m.tb2.tab))
  {
    hide HMap.Valid, Coded, Content;
    AtKey(m.dict, key, hash);
    var h := m.Lookup(hash(key), key, work);
    reply := if h == null then None else Some(h.owner);
  }

  method TakeOut(m: HMap<int>, hash: Bytes -> nat, key: Bytes) returns (reply: Option<int>)
    requires m.Valid() && Coded(m.dict, hash)
    modifies m`dict, m.tb1, m.tb2, m.tb1.tab, m.tb2.tab, m.tb1.nodes`next, m.tb2.nodes`next
    ensures m.Valid() && Coded(m.dict, hash) && Content(m.dict) == old(Content(m.dict)) - {key}
    ensures reply == Get(old(Content(m.dict)), key)
    ensures m.tb1.nodes + m.tb2.nodes <= old(m.tb1.nodes + m.tb2.nodes)
    ensures m.tb1.tab == old(m.tb1.tab) && m.tb2.tab == old(m.tb2.tab)
  {
    hide HMap.Valid, Coded, Content;
    AtKey(m.dict, key, hash);
    var h := m.Pop(hash(key), key);
    reply := if h == null then None else Some(h.owner);
  }

  method Step(m: HMap<int>, hash: Bytes -> nat, op: Op) returns (reply: Option<int>)
    requires m.Valid() && Coded(m.dict, hash) && Allowed(Content(m.dict), op)
    modifies m`resizingPos, m`dict, m.tb1, m.tb2, m.tb1.tab, m.tb2.tab, m.tb1.nodes`next, m.tb2.nodes`next
    ensures m.Valid() && Coded(m.dict, hash)
    ensures Content(m.dict) == After(old(Content(m.dict)), op) && reply == Get(old(Content(m.dict)), op.key)
    ensures fresh(m.tb1.nodes + m.tb2.nodes - old(m.tb1.nodes + m.tb2.nodes))
    ensures m.tb1.tab == old(m.tb1.tab) || fresh(m.tb1.tab)
    ensures m.tb2.tab == null || m.tb2.tab == old(m.tb2.tab) || m.tb2.tab == old(m.tb1.tab) || fresh(m.tb2.tab)
  {
    AtKey(m.dict, op.key, hash);
    hide HMap.Valid, Coded, Content;
    match op {
      case Put(key, value, work) =>
        PutNew(m, hash, key, value, work);
        reply := None;
      case Look(key, work) =>
        reply := LookUp(m, hash, key, work);
      case Remove(key) =>
        reply := TakeOut(m, hash, key);
    }
  }

  /** The load stays below nine nodes a bucket: a resize is over before the next one is due. */
  method Run(hash: Bytes -> nat, ops: seq<Op>) returns (m: HMap<int>, replies: seq<Option<int>>)
    requires forall i | 0 <= i < |ops| :: Allowed(RunOnMap(ops[..i]).0, ops[i])
    ensures m.Valid() && (Content(m.dict), replies) == RunOnMap(ops)
    ensures m.tb1.tab != null ==> |m.dict| == m.tb1.size + m.tb2.size < 9 * (m.tb1.mask + 1)
  {
    hide HMap.Valid;
    m := new HMap<int>();
    replies := [];
    for i := 0 to |ops|
      invariant Owned(m) && m.Valid() && Coded(m.dict, hash)
      invariant (Content(m.dict), replies) == RunOnMap(ops[..i])
    {
      assert ops[..i + 1][..i] == ops[..i];
      var reply := Step(m, hash, ops[i]);
      replies := replies + [reply];
    }
    assert ops[..|ops|] == ops;
    m.LoadBound();
  }
}
