/** The system's side of a connection: what `read` and `write` do, taken from scripts, and how far a
    connection gets under them. */
module Sockets {
  import opened ByteStrings
  import opened Options
  import opened Request
  import opened Stream

  /** What a call of read or write does: errno EINTR, errno EAGAIN, another error, or up to `n`
      bytes are moved. */
  datatype Outcome = Interrupted | WouldBlock | Failed | Moved(n: nat)

  /** The next outcome of a script. */
  function First(script: seq<Outcome>): Outcome { if script == [] then WouldBlock else script[0] }

  function Rest(script: seq<Outcome>): seq<Outcome> { if script == [] then [] else script[1..] }

  /** The outcome that ends the retries of a script, and the script after it. */
  function Next(script: seq<Outcome>): (o: Outcome)
    ensures !o.Interrupted?
  {
    if script == [] then WouldBlock else if script[0].Interrupted? then Next(script[1..]) else script[0]
  }

  function Later(script: seq<Outcome>): (s: seq<Outcome>)
    ensures |s| <= |script| && (script != [] ==> |s| < |script|)
  {
    if script == [] then [] else if script[0].Interrupted? then Later(script[1..]) else script[1..]
  }

  function Least(a: nat, b: nat): nat { if a < b then a else b }

  /** How many bytes a read moves: none only if there is no room or nothing left. */
  function Arriving(n: nat, cap: nat, left: nat): (k: nat)
    ensures k <= cap && k <= left && (k == 0 <==> cap == 0 || left == 0)
  {
    var most := Least(cap, left);
    if n == 0 then Least(1, most) else Least(n, most)
  }

  /** The kernel's side: what the peer sends before it closes, and how the next calls will end.
      A call without a scripted outcome would block. */
  class Socket {
    const inbound: Bytes
    var pos: nat
    var outbound: Bytes
    var toRead: seq<Outcome>
    var toWrite: seq<Outcome>
    /** How the last calls ended. */
    ghost var lastRead: Outcome
    ghost var lastWrite: Outcome

    constructor (inbound: Bytes, toRead: seq<Outcome>, toWrite: seq<Outcome>)
      ensures this.inbound == inbound && pos == 0 && outbound == []
      ensures this.toRead == toRead && this.toWrite == toWrite
    {
      this.inbound, pos, outbound, this.toRead, this.toWrite := inbound, 0, [], toRead, toWrite;
      lastRead, lastWrite := WouldBlock, WouldBlock;
    }

    /** Zero bytes mean that there was no room or that the peer has closed. */
    method Read(cap: nat) returns (outcome: Outcome, data: Bytes)
      requires pos <= |inbound|
      modifies this`pos, this`toRead, this`lastRead
      ensures outcome == First(old(toRead)) == lastRead && toRead == Rest(old(toRead))
      ensures old(pos) <= pos <= |inbound| && data == inbound[old(pos)..pos] && |data| <= cap
      ensures |data| == if outcome.Moved? then Arriving(outcome.n, cap, |inbound| - old(pos)) else 0
    {
      data := [];
      outcome, toRead := First(toRead), Rest(toRead);
      if outcome.Moved? {
        var k := Arriving(outcome.n, cap, |inbound| - pos);
        data := inbound[pos..pos + k];
        pos := pos + k;
      }
      lastRead := outcome;
    }

    method Write(data: Bytes) returns (outcome: Outcome, k: nat)
      modifies this`outbound, this`toWrite, this`lastWrite
      ensures outcome == First(old(toWrite)) == lastWrite && toWrite == Rest(old(toWrite))
      ensures k == if outcome.Moved? then Least(outcome.n, |data|) else 0
      ensures outbound == old(outbound) + data[..k]
    {
      k := 0;
      outcome, toWrite := First(toWrite), Rest(toWrite);
      if outcome.Moved? {
        k := Least(outcome.n, |data|);
        outbound := outbound + data[..k];
      }
      lastWrite := outcome;
    }
  }

  // ---------- how far a script lets a connection get ----------

  /** What a connection does next: the same, wait, or nothing any more. */
  datatype Phase = Going | Blocked | Ended

  /** A writer that has got `count` bytes out, and a script for the writes to come. */
  datatype Writing = Writing(count: nat, script: seq<Outcome>, phase: Phase)

  /** Writes until all `n` bytes are out, or a write would block or fails. */
  function WriteUp(script: seq<Outcome>, n: nat): (w: Writing)
    ensures w.count <= n && |w.script| <= |Later(script)| && (w.phase == Going ==> w.count == n)
    decreases |script|
  {
    match Next(script)
    case Moved(k) =>
      if k >= n then Writing(n, Later(script), Going)
      else
        var w := WriteUp(Later(script), n - k);
        w.(count := k + w.count)
    case WouldBlock => Writing(0, Later(script), Blocked)
    case Failed => Writing(0, Later(script), Ended)
  }

  /** A peer that takes `k` responses, the first of `n` bytes and the others of any length, with no
      call that fails or would block. */
  predicate Takes(script: seq<Outcome>, n: nat, k: nat)
    decreases |script|
  {
    k == 0 ||
    match Next(script)
    case Moved(m) => if m >= n then Takes(Later(script), K_MAX_MSG, k - 1) else Takes(Later(script), n - m, k)
    case _ => false
  }

  /** Less is taken where more is. */
  lemma {:induction false} TakesLess(script: seq<Outcome>, n: nat, k: nat, n': nat, k': nat)
    requires Takes(script, n', k') && (k < k' || (k == k' && n <= n')) && n <= K_MAX_MSG && n' <= K_MAX_MSG
    ensures Takes(script, n, k)
    decreases |script|
  {
    if k > 0 {
      var s, m := Later(script), Next(script).n;
      var (a, i) := if m >= n then (K_MAX_MSG, k - 1) else (n - m, k);
      var (b, j) := if m >= n' then (K_MAX_MSG, k' - 1) else (n' - m, k');
      TakesLess(s, a, i, b, j);
    }
  }

  /** One response is written, whatever its length, and the others will be. */
  lemma {:induction false} TakesOne(script: seq<Outcome>, n: nat, n': nat, k: nat)
    requires Takes(script, n', k) && k > 0 && n <= n' <= K_MAX_MSG
    ensures var w := WriteUp(script, n); w.phase == Going && Takes(w.script, K_MAX_MSG, k - 1)
    decreases |script|
  {
    var s, m := Later(script), Next(script).n;
    if m < n {
      TakesOne(s, n - m, n' - m, k);
    } else if m < n' {
      TakesLess(s, K_MAX_MSG, k - 1, n' - m, k);
    }
  }

  /** A reader that has `pos` bytes and a script for the reads to come. */
  datatype Reading = Reading(pos: nat, script: seq<Outcome>, phase: Phase)

  /** The free part of the buffer when every whole request among the first bytes has been removed. */
  function Room(read: Bytes): nat {
    var kept := |Remainder(read)|;
    if kept <= 4 + K_MAX_MSG then 4 + K_MAX_MSG - kept else 0
  }

  /** One read, after which every whole request is removed again. */
  function ReadOnce(inbound: Bytes, pos: nat, script: seq<Outcome>): (r: Reading)
    requires pos <= |inbound|
    ensures pos <= r.pos <= |inbound| && r.script == Later(script)
    ensures r.phase == Going ==> |r.script| < |script|
  {
    match Next(script)
    case WouldBlock => Reading(pos, Later(script), Blocked)
    case Moved(n) =>
      var next := pos + Arriving(n, Room(inbound[..pos]), |inbound| - pos);
      var over := next == pos || FrontOf(Remainder(inbound[..next])).Malformed?;
      Reading(next, Later(script), if over then Ended else Going)
    case Failed => Reading(pos, Later(script), Ended)
  }

  /** Reads until one would block, or the connection ends. */
  function ReadUp(inbound: Bytes, pos: nat, script: seq<Outcome>): (r: Reading)
    requires pos <= |inbound|
    ensures pos <= r.pos <= |inbound| && r.phase != Going
    decreases |script|
  {
    var r := ReadOnce(inbound, pos, script);
    if r.phase == Going then ReadUp(inbound, r.pos, r.script) else r
  }

  /** After that many turns of the event loop. */
  function Reads(inbound: Bytes, script: seq<Outcome>, turns: nat): (r: Reading)
    ensures r.pos <= |inbound| && r.phase != Going
  {
    if turns == 0 then Reading(0, script, Blocked)
    else
      var r := Reads(inbound, script, turns - 1);
      if r.phase == Ended then r else ReadUp(inbound, r.pos, r.script)
  }

  /** Reads that bring in `n` bytes: the first alone, if they fit the buffer, or one for each byte. */
  predicate Brings(script: seq<Outcome>, n: nat) {
    || (n <= 4 + K_MAX_MSG && Next(script).Moved? && Next(script).n >= n)
    || (|script| >= n && forall k | 0 <= k < |script| :: script[k].Moved?)
  }

  lemma OneRead(inbound: Bytes, script: seq<Outcome>)
    requires |inbound| <= 4 + K_MAX_MSG && Next(script).Moved? && Next(script).n >= |inbound|
    ensures ReadUp(inbound, 0, script).pos == |inbound|
  {
    hide FrontOf;
    assert inbound[..0] == [] && Remainder([]) == [] by { EmptyRest(); }
  }

  lemma EmptyRest()
    ensures Remainder([]) == []
  {
  }

  /** Every read of a part of legal requests finds room. */
  lemma {:induction false} ManyReads(cmds: seq<seq<Bytes>>, pos: nat, script: seq<Outcome>)
    requires forall i | 0 <= i < |cmds| :: FromRequest(cmds[i])
    requires pos <= |Requests(cmds)| <= pos + |script| && forall k | 0 <= k < |script| :: script[k].Moved?
    ensures ReadUp(Requests(cmds), pos, script).pos == |Requests(cmds)|
    decreases |script|
  {
    hide Requests, FromRequest, Remainder, FrontOf;
    var s := Requests(cmds);
    if pos < |s| {
      LegalSoFar(cmds, pos);
      HasRoom(s[..pos]);
      var r := ReadOnce(s, pos, script);
      LegalSoFar(cmds, r.pos);
      assert Later(script) == script[1..];
      ManyReads(cmds, r.pos, r.script);
    }
  }

  lemma HasRoom(read: Bytes)
    requires FrontOf(Remainder(read)).Incomplete?
    ensures Room(read) > 0
  {
  }

  lemma {:induction false} AllRead(inbound: Bytes, script: seq<Outcome>, turns: nat)
    requires turns > 0 && ReadUp(inbound, 0, script).pos == |inbound|
    ensures Reads(inbound, script, turns).pos == |inbound|
  {
    hide ReadUp;
    if turns == 1 {
      assert Reads(inbound, script, 0) == Reading(0, script, Blocked);
    } else {
      AllRead(inbound, script, turns - 1);
    }
  }

  /** The whole of a client's requests is read in the first turn. */
  lemma EverythingArrives(cmds: seq<seq<Bytes>>, script: seq<Outcome>, turns: nat)
    requires forall i | 0 <= i < |cmds| :: FromRequest(cmds[i])
    requires Brings(script, |Requests(cmds)|) && turns > 0
    ensures Reads(Requests(cmds), script, turns).pos == |Requests(cmds)|
  {
    hide Requests, FromRequest, ReadUp;
    var s := Requests(cmds);
    if |s| <= 4 + K_MAX_MSG && Next(script).Moved? && Next(script).n >= |s| {
      OneRead(s, script);
    } else {
      ManyReads(cmds, 0, script);
    }
    AllRead(s, script, turns);
  }
}
