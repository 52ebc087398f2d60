/** The key space and the `do_*` handlers of src/server_utils.cpp. */
module KeyValue {
  import opened ByteStrings
  import opened HashTable
  import opened HashMap
  import opened Wire
  import opened Request
  import opened Stream

  const ERR_2BIG := 0
  const ERR_UNKNOWN := 1

  // ---------- what the commands mean ----------

  function Ascii(s: string): Bytes { seq(|s|, i requires 0 <= i < |s| => s[i] as int % 256) }

  /** `word.c_str()`: up to the first NUL. */
  function CStr(word: Bytes): Bytes {
    if word == [] || word[0] == 0 then [] else [word[0]] + CStr(word[1..])
  }

  function Lower(b: Byte): Byte { if 65 <= b <= 90 then b + 32 else b }

  /** `cmd_is`: strcasecmp with a lower-case name. */
  predicate CmdIs(word: Bytes, name: string) {
    var w := CStr(word);
    seq(|w|, i requires 0 <= i < |w| => Lower(w[i])) == Ascii(name)
  }

  lemma CmdIsLength(word: Bytes, name: string)
    requires CmdIs(word, name)
    ensures |word| >= |name|
  {
    CStrLength(word);
  }

  lemma {:induction false} CStrLength(word: Bytes)
    ensures |CStr(word)| <= |word|
  {
    if word != [] { CStrLength(word[1..]); }
  }

  lemma {:induction false} CStrStops(word: Bytes, junk: Bytes)
    requires 0 !in word
    ensures CStr(word + [0] + junk) == CStr(word) == word
  {
    if word != [] {
      CStrStops(word[1..], junk);
      assert (word + [0] + junk)[1..] == word[1..] + [0] + junk;
    }
  }

  /** The case of letters does not matter, and neither does anything behind a NUL in the word. */
  lemma CmdIsLoosely(word: Bytes, other: Bytes, junk: Bytes, name: string)
    requires 0 !in word && 0 !in other && |word| == |other|
    requires forall i | 0 <= i < |word| :: Lower(word[i]) == Lower(other[i])
    ensures CmdIs(word, name) <==> CmdIs(other + [0] + junk, name)
    ensures CmdIs(word, name) ==> |word| == |name|
  {
    CStrStops(word, []);
    CStrStops(word, junk);
    CStrStops(other, junk);
    var a := seq(|word|, i requires 0 <= i < |word| => Lower(word[i]));
    var b := seq(|other|, i requires 0 <= i < |other| => Lower(other[i]));
    assert a == b;
  }

  // The command words letter by letter, each in either case, up to the end of the word or a NUL.

  predicate Ends(word: Bytes, n: nat) { |word| == n || (|word| > n && word[n] == 0) }

  predicate SaysGet(word: Bytes) {
    |word| >= 3 && (word[0] == 103 || word[0] == 71) && (word[1] == 101 || word[1] == 69) &&
    (word[2] == 116 || word[2] == 84) && Ends(word, 3)
  }

  predicate SaysSet(word: Bytes) {
    |word| >= 3 && (word[0] == 115 || word[0] == 83) && (word[1] == 101 || word[1] == 69) &&
    (word[2] == 116 || word[2] == 84) && Ends(word, 3)
  }

  predicate SaysDel(word: Bytes) {
    |word| >= 3 && (word[0] == 100 || word[0] == 68) && (word[1] == 101 || word[1] == 69) &&
    (word[2] == 108 || word[2] == 76) && Ends(word, 3)
  }

  predicate SaysKeys(word: Bytes) {
    |word| >= 4 && (word[0] == 107 || word[0] == 75) && (word[1] == 101 || word[1] == 69) &&
    (word[2] == 121 || word[2] == 89) && (word[3] == 115 || word[3] == 83) && Ends(word, 4)
  }

  /** The word with its first letter split off. */
  lemma CmdIsFirst(word: Bytes, name: string)
    requires forall i | 0 <= i < |name| :: 'a' <= name[i] <= 'z'
    ensures CmdIs(word, name) <==>
              if name == "" then Ends(word, 0)
              else word != [] && Lower(word[0]) == name[0] as int && CmdIs(word[1..], name[1..])
  {
    var w, a := CStr(word), Ascii(name);
    var low := seq(|w|, i requires 0 <= i < |w| => Lower(w[i]));
    if name != "" {
      assert a == [name[0] as int] + Ascii(name[1..]);
      if w != [] {
        var u := CStr(word[1..]);
        var rest := seq(|u|, i requires 0 <= i < |u| => Lower(u[i]));
        assert low == [Lower(w[0])] + rest;
        assert low[1..] == rest && a[1..] == Ascii(name[1..]);
      }
    }
  }

  lemma {:induction false} Spelled(word: Bytes, name: string)
    requires forall i | 0 <= i < |name| :: 'a' <= name[i] <= 'z'
    ensures CmdIs(word, name) <==>
              |word| >= |name| && Ends(word, |name|) && forall i | 0 <= i < |name| :: Lower(word[i]) == name[i] as int
  {
    hide CmdIs;
    CmdIsFirst(word, name);
    if name != "" && word != [] {
      var w, n := word[1..], name[1..];
      Spelled(w, n);
      assert forall i | 0 < i < |name| :: name[i] == n[i - 1] && (i < |word| ==> word[i] == w[i - 1]);
      assert forall i | 0 <= i < |n| :: n[i] == name[i + 1] && (i < |w| ==> w[i] == word[i + 1]);
    }
  }

  /** Which words are which command. */
  lemma Words(word: Bytes)
    ensures CmdIs(word, "get") <==> SaysGet(word)
    ensures CmdIs(word, "set") <==> SaysSet(word)
    ensures CmdIs(word, "del") <==> SaysDel(word)
    ensures CmdIs(word, "keys") <==> SaysKeys(word)
  {
    hide CmdIs;
    Spelled(word, "get");
    Spelled(word, "set");
    Spelled(word, "del");
    Spelled(word, "keys");
  }

  /** A word and as many arguments as it takes. */
  predicate Known(cmd: seq<Bytes>) {
    || (|cmd| == 1 && SaysKeys(cmd[0]))
    || (|cmd| == 2 && (SaysGet(cmd[0]) || SaysDel(cmd[0])))
    || (|cmd| == 3 && SaysSet(cmd[0]))
  }

  /** "Unknown cmd" */
  const UNKNOWN_CMD: Bytes := [85, 110, 107, 110, 111, 119, 110, 32, 99, 109, 100]

  datatype Command = Keys | Get(key: Bytes) | Set(key: Bytes, val: Bytes) | Del(key: Bytes) | Unknown

  function Classify(cmd: seq<Bytes>): Command {
    if |cmd| == 1 && CmdIs(cmd[0], "keys") then Keys
    else if |cmd| == 2 && CmdIs(cmd[0], "get") then Get(cmd[1])
    else if |cmd| == 3 && CmdIs(cmd[0], "set") then Set(cmd[1], cmd[2])
    else if |cmd| == 2 && CmdIs(cmd[0], "del") then Del(cmd[1])
    else Unknown
  }

  /** A plain map after a command. */
  function After(m: map<Bytes, Bytes>, cmd: seq<Bytes>): map<Bytes, Bytes> {
    match Classify(cmd)
    case Set(k, v) => m[k := v]
    case Del(k) => m - {k}
    case _ => m
  }

  /** `ks` names each key of `m` once. */
  ghost predicate Lists(ks: seq<Bytes>, m: map<Bytes, Bytes>) {
    (forall i, j | 0 <= i < j < |ks| :: ks[i] != ks[j]) && (forall k :: k in ks <==> k in m) && |ks| == |m|
  }

  function Strs(ks: seq<Bytes>): seq<Value> { seq(|ks|, i requires 0 <= i < |ks| => Str(ks[i])) }

  /** `out` is the reply that a plain map gives.  Only the order of `keys` is left open. */
  ghost predicate Replies(m: map<Bytes, Bytes>, cmd: seq<Bytes>, out: Bytes) {
    match Classify(cmd)
    case Keys => exists ks :: Lists(ks, m) && out == Encode(Arr(Strs(ks)))
    case Get(k) => out == Encode(if k in m then Str(m[k]) else Nil)
    case Set(k, v) => out == Encode(Nil)
    case Del(k) => out == Encode(Int(if k in m then 1 else 0))
    case Unknown => out == Encode(Err(ERR_UNKNOWN, Ascii("Unknown cmd")))
  }

  /** What a command does to a plain map and what it answers, from the octets of its word. */
  lemma PlainMap(m: map<Bytes, Bytes>, cmd: seq<Bytes>, out: Bytes)
    requires Replies(m, cmd, out)
    ensures |cmd| == 2 && SaysGet(cmd[0]) ==> After(m, cmd) == m && out == Encode(if cmd[1] in m then Str(m[cmd[1]]) else Nil)
    ensures |cmd| == 3 && SaysSet(cmd[0]) ==> After(m, cmd) == m[cmd[1] := cmd[2]] && out == Encode(Nil)
    ensures |cmd| == 2 && SaysDel(cmd[0]) ==> After(m, cmd) == m - {cmd[1]} && out == Encode(Int(if cmd[1] in m then 1 else 0))
    ensures |cmd| == 1 && SaysKeys(cmd[0]) ==> After(m, cmd) == m && exists ks :: Lists(ks, m) && out == Encode(Arr(Strs(ks)))
    ensures !Known(cmd) ==> After(m, cmd) == m && out == Encode(Err(1, UNKNOWN_CMD))
  {
    hide CmdIs, Encode, Lists;
    assert Ascii("Unknown cmd") == UNKNOWN_CMD;
    if cmd != [] {
      Words(cmd[0]);
    }
  }

  /** Key and value of every pair leave room for the other fields of the request they came in. */
  ghost predicate Fitting(m: map<Bytes, Bytes>) {
    forall k | k in m :: |k| + |m[k]| <= K_MAX_MSG - 19
  }

  lemma StaysFitting(m: map<Bytes, Bytes>, cmd: seq<Bytes>)
    requires Fitting(m) && FromRequest(cmd)
    ensures Fitting(After(m, cmd))
  {
    if Classify(cmd).Set? {
      CmdIsLength(cmd[0], "set");
      Request.SizeOfStrings(cmd);
      var t, u := cmd[1..], cmd[2..];
      assert t[1..] == u && u[1..] == [];
      assert Request.TotalSize(u) == 4 + |cmd[2]| + Request.TotalSize(u[1..]);
      assert Request.TotalSize(t) == 4 + |cmd[1]| + Request.TotalSize(t[1..]);
    }
  }

  /** No reply other than to keys is ever too big. */
  lemma ReplyFits(m: map<Bytes, Bytes>, cmd: seq<Bytes>, out: Bytes)
    requires Fitting(m) && Replies(m, cmd, out) && !Classify(cmd).Keys?
    ensures 4 + |out| <= K_MAX_MSG - 10
  {
  }

  /** One command that was carried out: the map it found and the answer it got. */
  datatype Exchange = Exchange(before: map<Bytes, Bytes>, cmd: seq<Bytes>, out: Bytes)

  ghost predicate Lawful(x: Exchange) {
    FromRequest(x.cmd) && Fitting(x.before) && Replies(x.before, x.cmd, x.out)
  }

  /** A plain map that starts empty and carries out the same commands gives the same answers, and
      ends as `m`. */
  ghost predicate Explains(history: seq<Exchange>, m: map<Bytes, Bytes>) {
    if history == [] then m == map[]
    else
      var x := history[|history| - 1];
      Explains(history[..|history| - 1], x.before) && Lawful(x) && m == After(x.before, x.cmd)
  }

  function AfterAll(cmds: seq<Exchange>): map<Bytes, Bytes> {
    if cmds == [] then map[] else After(AfterAll(cmds[..|cmds| - 1]), cmds[|cmds| - 1].cmd)
  }

  /** So each answer is that of the map which only the commands before it have made. */
  lemma {:induction false} HistoryIsRun(history: seq<Exchange>, m: map<Bytes, Bytes>)
    requires Explains(history, m)
    ensures m == AfterAll(history)
    ensures forall i | 0 <= i < |history| ::
              history[i].before == AfterAll(history[..i]) && Replies(AfterAll(history[..i]), history[i].cmd, history[i].out)
  {
    hide Replies, After, Fitting, FromRequest;
    if history != [] {
      var n := |history| - 1;
      HistoryIsRun(history[..n], history[n].before);
      forall i | 0 <= i < |history|
        ensures history[i].before == AfterAll(history[..i])
        ensures Replies(AfterAll(history[..i]), history[i].cmd, history[i].out)
      {
        if i < n {
          assert history[..n][i] == history[i] && history[..n][..i] == history[..i];
        }
      }
    }
  }

  // ---------- the code ----------

  class Entry {
    const key: Bytes
    var val: Bytes

    constructor (key: Bytes, val: Bytes)
      ensures this.key == key && this.val == val
    {
      this.key, this.val := key, val;
    }
  }

  class Database {
    const db: HMap<Entry>
    ghost var entries: set<Entry>
    /** Every command carried out so far, over all connections. */
    ghost var history: seq<Exchange>
    /** The objects that the key space is made of. */
    ghost var repr: set<object>

    ghost predicate Index()
      reads this`entries, db
    {
      forall k | k in db.dict ::
        var h := db.dict[k];
        h.owner.key == k && h.owner in entries && h.hcode == StrHash(k)
    }

    ghost predicate Valid()
      reads this`entries, entries, db, db.tb1, db.tb2, db.tb1.tab, db.tb2.tab, db.tb1.nodes, db.tb2.nodes
    {
      db.Valid() && Index() && Fitting(Model())
    }

    ghost function Model(): map<Bytes, Bytes>
      requires Index()
      reads this`entries, db, entries
    {
      map k | k in db.dict :: db.dict[k].owner.val
    }

    /** Where the storage of the key space may have come from since the call began. */
    twostate predicate Grown()
      reads this, db, db.tb1, db.tb2
    {
      && fresh(entries - old(entries))
      && fresh(db.tb1.nodes + db.tb2.nodes - old(db.tb1.nodes + db.tb2.nodes))
      && (db.tb1.tab == old(db.tb1.tab) || fresh(db.tb1.tab))
      && (db.tb2.tab == null || db.tb2.tab == old(db.tb2.tab) || db.tb2.tab == old(db.tb1.tab) || fresh(db.tb2.tab))
    }

    /** Looking up changes nothing that a caller can see. */
    twostate predicate Unchanged()
      reads this, db, entries, db.tb1, db.tb2
    {
      && db.dict == old(db.dict) && entries == old(entries) && (forall e | e in entries :: e.val == old(e.val))
      && db.tb1.nodes + db.tb2.nodes == old(db.tb1.nodes + db.tb2.nodes)
      && db.tb1.tab == old(db.tb1.tab) && (db.tb2.tab == null || db.tb2.tab == old(db.tb2.tab))
    }

    twostate lemma Untouched()
      requires old(Index()) && Unchanged()
      ensures Index() && Model() == old(Model()) && Grown()
    {
      assert forall k | k in db.dict :: db.dict[k].owner in entries;
    }

    method Find(key: Bytes) returns (found: Entry?)
      requires Valid()
      modifies db`resizingPos, db.tb1, db.tb2, db.tb1.tab, db.tb2.tab, db.tb2.nodes`next
      ensures Valid() && Unchanged() && Grown() && Model() == old(Model()) && entries == old(entries)
      ensures found == if key in db.dict then db.dict[key].owner else null
      ensures found != null ==> found.key == key && found in entries
      ensures if key in Model() then found != null && found.val == Model()[key] else found == null
    {
      hide HMap.Valid, StrHash, Fitting;
      var h := db.Lookup(StrHash(key), key, K_RESIZING_WORK);
      Untouched();
      found := if h == null then null else h.owner;
    }

    method DoGet(cmd: seq<Bytes>) returns (out: Bytes)
      requires Valid() && |cmd| == 2
      modifies db`resizingPos, db.tb1, db.tb2, db.tb1.tab, db.tb2.tab, db.tb2.nodes`next
      ensures Valid() && Grown() && Model() == old(Model())
      ensures out == Encode(if cmd[1] in Model() then Str(Model()[cmd[1]]) else Nil)
    {
      hide HMap.Valid, Encode, Database.Index, Database.Model;
      var found := Find(cmd[1]);
      if found == null {
        out := OutNil([]);
      } else {
        assert |found.val| < K_MAX_MSG; // the assertion at line 316
        out := OutStr([], found.val);
      }
    }

    /** Line 327: the stored value is exchanged in place. */
    method Overwrite(found: Entry, val: Bytes)
      requires db.Valid() && Index() && found.key in db.dict && db.dict[found.key].owner == found
      modifies found`val
      ensures db.Valid() && Index() && db.Same() && entries == old(entries)
      ensures Model() == old(Model())[found.key := val]
    {
      hide HMap.Valid, StrHash;
      found.val := val;
      db.StillValid();
    }

    /** Lines 329-333: a new entry, linked into the map. */
    method Store(key: Bytes, val: Bytes)
      requires db.Valid() && Index() && key !in db.dict
      modifies this`entries, db`resizingPos, db`dict, db.tb1, db.tb2, db.tb1.tab, db.tb2.tab,
               db.tb1.nodes`next, db.tb2.nodes`next
      ensures db.Valid() && Index() && Grown() && Model() == old(Model())[key := val]
    {
      hide HMap.Valid, HMap.Due, StrHash, Database.Index, Database.Model;
      var entry, h := NewEntry(key, val);
      db.StillValid();
      db.Insert(h, K_RESIZING_WORK);
      entries := entries + {entry};
      Stored(entry);
    }

    static method NewEntry(key: Bytes, val: Bytes) returns (entry: Entry, h: HNode<Entry>)
      ensures fresh(entry) && fresh(h) && entry.key == key && entry.val == val
      ensures h.owner == entry && h.key == key && h.hcode == StrHash(key)
    {
      entry := new Entry(key, val);
      h := new HNode<Entry>(entry, key, StrHash(key));
    }

    twostate lemma Stored(new entry: Entry)
      requires old(Index()) && entries == old(entries) + {entry}
      requires entry.key !in old(db.dict) && entry.key in db.dict
      requires db.dict[entry.key].owner == entry && db.dict[entry.key].hcode == StrHash(entry.key)
      requires db.dict == old(db.dict)[entry.key := db.dict[entry.key]]
      requires forall e | e in old(entries) :: e.val == old(e.val)
      ensures Index() && Model() == old(Model())[entry.key := entry.val]
    {
      assert Index();
      forall k | k in db.dict ensures Model()[k] == old(Model())[entry.key := entry.val][k] {
        assert k != entry.key ==> old(db.dict)[k].owner in old(entries);
      }
    }

    /** Lines 325-334. */
    method Put(key: Bytes, val: Bytes)
      requires Valid()
      modifies this`entries, entries`val
      modifies db`resizingPos, db`dict, db.tb1, db.tb2, db.tb1.tab, db.tb2.tab, db.tb1.nodes`next, db.tb2.nodes`next
      ensures db.Valid() && Index() && Grown() && Model() == old(Model())[key := val]
    {
      hide HMap.Valid, HMap.Same, StrHash, Fitting, Database.Index, Database.Model, Database.Unchanged;
      var query := Find(key);
      if query != null {
        Overwrite(query, val);
      } else {
        Store(key, val);
      }
    }

    method DoSet(cmd: seq<Bytes>) returns (out: Bytes)
      requires Valid() && |cmd| == 3 && Fitting(Model()[cmd[1] := cmd[2]])
      modifies this`entries, entries`val
      modifies db`resizingPos, db`dict, db.tb1, db.tb2, db.tb1.tab, db.tb2.tab, db.tb1.nodes`next, db.tb2.nodes`next
      ensures Valid() && Grown() && Model() == old(Model())[cmd[1] := cmd[2]] && out == Encode(Nil)
    {
      hide HMap.Valid, Encode, Fitting, Database.Index, Database.Model, Database.Grown;
      Put(cmd[1], cmd[2]);
      out := OutNil([]);
    }

    /** Lines 346-349. */
    method Erase(key: Bytes) returns (existed: bool)
      requires db.Valid() && Index()
      modifies db`dict, db.tb1, db.tb2, db.tb1.tab, db.tb2.tab, db.tb1.nodes`next, db.tb2.nodes`next
      ensures db.Valid() && Index() && Grown() && Model() == old(Model()) - {key} && existed == (key in old(Model()))
    {
      hide HMap.Valid, StrHash, Database.Model;
      var delNode := db.Pop(StrHash(key), key);
      existed := delNode != null;
      Erased(key);
    }

    twostate lemma Erased(key: Bytes)
      requires old(Index()) && entries == old(entries) && db.dict == old(db.dict) - {key}
      requires forall e | e in entries :: e.val == old(e.val)
      ensures Index() && Model() == old(Model()) - {key} && (key in old(Model()) <==> key in old(db.dict))
    {
      hide StrHash;
      forall k | k in db.dict ensures Model()[k] == old(Model())[k] {
        assert old(db.dict)[k].owner in old(entries);
      }
    }

    method DoDel(cmd: seq<Bytes>) returns (out: Bytes)
      requires Valid() && |cmd| == 2
      modifies db`dict, db.tb1, db.tb2, db.tb1.tab, db.tb2.tab, db.tb1.nodes`next, db.tb2.nodes`next
      ensures Valid() && Grown() && Model() == old(Model()) - {cmd[1]}
      ensures out == Encode(Int(if cmd[1] in old(Model()) then 1 else 0))
    {
      hide HMap.Valid, Encode, Database.Index, Database.Model;
      var existed := Erase(cmd[1]);
      out := OutInt([], if existed then 1 else 0);
    }

    static lemma NoRepeat(s: seq<HNode<Entry>>, all: set<HNode<Entry>>, i: nat, j: nat)
      requires multiset(s) == multiset(all) && i < j < |s|
      ensures s[i] != s[j]
    {
      assert s == s[..j] + s[j..];
      assert s[..j][i] == s[i] && s[j..][0] == s[j];
      assert multiset(s)[s[j]] == multiset(s[..j])[s[j]] + multiset(s[j..])[s[j]];
      assert multiset(all)[s[j]] <= 1;
    }

    static lemma Meets(s: seq<HNode<Entry>>, all: set<HNode<Entry>>, n: HNode<Entry>)
      requires multiset(s) == multiset(all)
      ensures n in s <==> n in all
    {
      assert n in s <==> n in multiset(s);
    }

    /** The map and the nodes, node by node and key by key. */
    lemma NodeKey(n: HNode<Entry>)
      requires db.Valid() && Index() && n in db.tb1.nodes + db.tb2.nodes
      ensures n.owner.key in db.dict && db.dict[n.owner.key] == n
    {
    }

    lemma KeyNode(k: Bytes)
      requires db.Valid() && Index() && k in db.dict
      ensures db.dict[k] in db.tb1.nodes + db.tb2.nodes && db.dict[k].owner.key == k
    {
    }

    /** The keys behind the nodes of a walk: each key of the map once. */
    lemma WalkLists(visited: seq<HNode<Entry>>, ks: seq<Bytes>)
      requires db.Valid() && Index()
      requires multiset(visited) == multiset(db.tb1.nodes + db.tb2.nodes) && |visited| == |db.dict|
      requires |ks| == |visited| && forall i | 0 <= i < |ks| :: ks[i] == visited[i].owner.key
      ensures Lists(ks, Model())
    {
      hide HMap.Valid, StrHash;
      var all := db.tb1.nodes + db.tb2.nodes;
      forall i | 0 <= i < |ks| ensures ks[i] in db.dict && db.dict[ks[i]] == visited[i] {
        Meets(visited, all, visited[i]);
        NodeKey(visited[i]);
      }
      forall k | k in db.dict ensures k in ks {
        KeyNode(k);
        Meets(visited, all, db.dict[k]);
        var i :| 0 <= i < |visited| && visited[i] == db.dict[k];
        assert ks[i] == k;
      }
      forall i, j | 0 <= i < j < |ks| ensures ks[i] != ks[j] {
        NoRepeat(visited, all, i, j);
      }
      assert Model().Keys == db.dict.Keys;
    }

    /** The callback `cb_scan` over a walk. */
    static method EmitKeys(out: Bytes, visited: seq<HNode<Entry>>, ghost ks: seq<Bytes>) returns (out': Bytes)
      requires |ks| == |visited| && forall i | 0 <= i < |ks| :: ks[i] == visited[i].owner.key
      ensures out' == out + EncodeAll(Strs(ks))
    {
      hide Encode;
      out' := out;
      for i := 0 to |visited|
        invariant out' + EncodeAll(Strs(ks[i..])) == out + EncodeAll(Strs(ks))
      {
        var s := visited[i].owner.key;
        assert Strs(ks[i..])[0] == Str(s) && Strs(ks[i..])[1..] == Strs(ks[i + 1..]);
        var rest := EncodeAll(Strs(ks[i + 1..]));
        assert out' + (Encode(Str(s)) + rest) == (out' + Encode(Str(s))) + rest;
        out' := OutStr(out', s);
      }
      assert out' + EncodeAll(Strs(ks[|visited|..])) == out';
    }

    /** Nothing that the key space is made of has changed. */
    twostate predicate Same()
      reads this, entries, db, db.tb1, db.tb2, db.tb1.tab, db.tb2.tab, db.tb1.nodes, db.tb2.nodes
    {
      db.Same() && entries == old(entries) && forall e | e in entries :: e.val == old(e.val)
    }

    twostate lemma StillValid()
      requires old(db.Valid()) && old(Index()) && Same()
      ensures db.Valid() && Index() && Model() == old(Model())
    {
      hide HMap.Valid, StrHash;
      db.StillValid();
      assert forall k | k in db.dict :: db.dict[k].owner in entries;
    }

    /** Lines 297-298, with the keys that the callback will meet. */
    method Walk() returns (visited: seq<HNode<Entry>>, ghost ks: seq<Bytes>)
      requires db.Valid() && Index()
      ensures |ks| == |visited| && forall i | 0 <= i < |ks| :: ks[i] == visited[i].owner.key
      ensures Lists(ks, Model()) && |ks| == |db.dict|
    {
      hide HMap.Valid, Database.Index, Database.Model, Lists;
      visited := db.Scan();
      ks := seq(|visited|, i requires 0 <= i < |visited| => visited[i].owner.key);
      StillValid();
      WalkLists(visited, ks);
    }

    method DoKeys() returns (out: Bytes)
      requires db.Valid() && Index()
      ensures exists ks :: Lists(ks, Model()) && out == Encode(Arr(Strs(ks)))
    {
      hide HMap.Valid, Encode, Lists, Database.Index, Database.Model;
      var size := db.Size();
      out := OutArr([], size);
      StillValid();
      var visited, ks := Walk();
      out := EmitKeys(out, visited, ks);
      StillValid();
      assert out == [] + Encode(Arr(Strs(ks)));
    }

    /** `do_request`. */
    method DoRequest(cmd: seq<Bytes>) returns (out: Bytes)
      requires Valid() && FromRequest(cmd)
      modifies this`entries, entries`val
      modifies db`resizingPos, db`dict, db.tb1, db.tb2, db.tb1.tab, db.tb2.tab, db.tb1.nodes`next, db.tb2.nodes`next
      ensures Valid() && Grown() && Model() == After(old(Model()), cmd) && Replies(old(Model()), cmd, out)
      ensures |cmd| == 2 && SaysGet(cmd[0]) ==> var m := old(Model());
                Model() == m && out == Encode(if cmd[1] in m then Str(m[cmd[1]]) else Nil)
      ensures |cmd| == 3 && SaysSet(cmd[0]) ==> Model() == old(Model())[cmd[1] := cmd[2]] && out == Encode(Nil)
      ensures |cmd| == 2 && SaysDel(cmd[0]) ==>
                Model() == old(Model()) - {cmd[1]} && out == Encode(Int(if cmd[1] in old(Model()) then 1 else 0))
      ensures |cmd| == 1 && SaysKeys(cmd[0]) ==>
                Model() == old(Model()) && exists ks :: Lists(ks, old(Model())) && out == Encode(Arr(Strs(ks)))
      ensures !Known(cmd) ==> Model() == old(Model()) && out == Encode(Err(1, UNKNOWN_CMD))
    {
      hide HMap.Valid, Fitting, Database.Index, Database.Model, SaysGet, SaysSet, SaysDel, SaysKeys;
      out := Dispatch(cmd);
      PlainMap(old(Model()), cmd, out);
    }

    /** Lines 97-107. */
    method Dispatch(cmd: seq<Bytes>) returns (out: Bytes)
      requires Valid() && FromRequest(cmd)
      modifies this`entries, entries`val
      modifies db`resizingPos, db`dict, db.tb1, db.tb2, db.tb1.tab, db.tb2.tab, db.tb1.nodes`next, db.tb2.nodes`next
      ensures Valid() && Grown() && Model() == After(old(Model()), cmd) && Replies(old(Model()), cmd, out)
    {
      hide HMap.Valid, Encode, Fitting, Lists, Database.Index, Database.Model, CmdIs;
      StaysFitting(Model(), cmd);
      if |cmd| == 1 && CmdIs(cmd[0], "keys") {
        out := DoKeys();
        StillValid();
      } else if |cmd| == 2 && CmdIs(cmd[0], "get") {
        out := DoGet(cmd);
      } else if |cmd| == 3 && CmdIs(cmd[0], "set") {
        out := DoSet(cmd);
      } else if |cmd| == 2 && CmdIs(cmd[0], "del") {
        out := DoDel(cmd);
      } else {
        out := OutErr([], ERR_UNKNOWN, Ascii("Unknown cmd"));
        StillValid();
      }
    }

    ghost function Footprint(): set<object>
      reads this`entries, db, db.tb1, db.tb2
    {
      var tab1: set<object> := if db.tb1.tab == null then {} else {db.tb1.tab};
      var tab2: set<object> := if db.tb2.tab == null then {} else {db.tb2.tab};
      {this, db, db.tb1, db.tb2} + tab1 + tab2 + db.tb1.nodes + db.tb2.nodes + entries
    }

    ghost predicate Ready()
      reads this, repr
    {
      {this, db, db.tb1, db.tb2} <= repr && Footprint() <= repr && Valid() && Explains(history, Model())
    }

    ghost function Now(): map<Bytes, Bytes>
      requires Ready()
      reads this, repr
    {
      Model()
    }

    lemma HistoryGrows(h: seq<Exchange>, x: Exchange, m: map<Bytes, Bytes>)
      requires Explains(h, x.before) && Lawful(x) && m == After(x.before, x.cmd)
      ensures Explains(h + [x], m)
    {
    }

    twostate lemma FootprintGrown()
      requires Grown()
      ensures fresh(Footprint() - old(Footprint()))
    {
    }

    /** An empty key space. */
    constructor ()
      ensures Ready() && Now() == map[] && history == [] && fresh(repr)
    {
      db := new HMap<Entry>();
      entries, history, repr := {}, [], {};
      new;
      repr := Footprint();
    }

    ghost method Record(x: Exchange)
      requires Valid() && Explains(history, x.before) && Lawful(x) && Model() == After(x.before, x.cmd)
      modifies this`history, this`repr
      ensures Ready() && history == old(history) + [x] && repr == old(repr) + Footprint() && Model() == old(Model())
    {
      hide HMap.Valid, Fitting, Database.Index, Database.Model, Lawful, After, Explains;
      HistoryGrows(history, x, Model());
      repr := repr + Footprint();
      history := history + [x];
    }

    /** `do_request` with the books kept. */
    method Handle(cmd: seq<Bytes>) returns (out: Bytes)
      requires Ready() && FromRequest(cmd)
      modifies repr
      ensures Ready() && fresh(repr - old(repr))
      ensures history == old(history) + [Exchange(old(Now()), cmd, out)] && Lawful(Exchange(old(Now()), cmd, out))
      ensures Now() == After(old(Now()), cmd)
    {
      hide HMap.Valid, Fitting, Database.Index, Database.Model, Replies, After, Explains, FromRequest;
      hide Database.Grown, Known, SaysGet, SaysSet, SaysDel, SaysKeys, Encode, Lists;
      ghost var before := Model();
      assert Fitting(before);
      out := DoRequest(cmd);
      FootprintGrown();
      Record(Exchange(before, cmd, out));
    }
  }
}
