/** Connections that take turns on one key space, as the event loop of src/server.cpp runs them. */
module Server {
  import opened ByteStrings
  import opened Request
  import opened Stream
  import opened KeyValue
  import opened Sockets
  import opened Connection

  /** All that a peer will send, and how the calls on its socket will end. */
  datatype Peer = Peer(inbound: Bytes, toRead: seq<Outcome>, toWrite: seq<Outcome>)

  /** A peer connects, or connection `i` is reported ready. */
  datatype Event = Accept(peer: Peer) | Ready(i: nat)

  /** It takes every response with no call that fails or would block. */
  predicate Patient(peer: Peer) { Takes(peer.toWrite, K_MAX_MSG, |Commands(peer.inbound)|) }

  /** Nothing more can happen on a connection: it has ended, or the peer neither sends nor takes any more. */
  ghost predicate Halted(c: Conn)
    reads c, c.sock
  {
    match c.state
    case Req => c.sock.toRead == []
    case Res => c.sock.toWrite == []
    case End => true
  }

  /** What a number of turns has come to.  A patient peer is served as far as the reads get, and for
      any peer each turn makes use of a scripted call until nothing more can happen. */
  ghost predicate Served(c: Conn, peer: Peer, turns: nat)
    reads c, c.rbuf, c.sock
  {
    && c.Sized() && c.sock.inbound == peer.inbound
    && (Patient(peer) ==> c.Flowing() && c.Standing(false) == Reads(peer.inbound, peer.toRead, turns))
    && (!Halted(c) ==> |c.sock.toRead| + |c.sock.toWrite| + turns <= |peer.toRead| + |peer.toWrite|)
  }

  /** What was carried out, and for which connection. */
  type Log = seq<(nat, Exchange)>

  function All(log: Log): seq<Exchange> { seq(|log|, i requires 0 <= i < |log| => log[i].1) }

  function Of(log: Log, i: nat): seq<Exchange> {
    if log == [] then []
    else
      var last := log[|log| - 1];
      Of(log[..|log| - 1], i) + if last.0 == i then [last.1] else []
  }

  function Tag(i: nat, xs: seq<Exchange>): Log { seq(|xs|, k requires 0 <= k < |xs| => (i, xs[k])) }

  lemma {:induction false} LogGrows(log: Log, i: nat, xs: seq<Exchange>, j: nat)
    ensures Of(log + Tag(i, xs), j) == Of(log, j) + if i == j then xs else []
  {
    if xs == [] {
      assert log + Tag(i, xs) == log;
    } else {
      var n := |xs| - 1;
      LogGrows(log, i, xs[..n], j);
      assert (log + Tag(i, xs))[..|log| + n] == log + Tag(i, xs[..n]);
      assert (log + Tag(i, xs))[|log| + n] == (i, xs[n]);
      assert xs[..n] + [xs[n]] == xs;
    }
  }

  lemma AllGrows(log: Log, i: nat, xs: seq<Exchange>)
    ensures All(log + Tag(i, xs)) == All(log) + xs
    ensures xs == [] ==> log + Tag(i, xs) == log
    ensures forall k | 0 <= k < |log + Tag(i, xs)| :: (log + Tag(i, xs))[k] == if k < |log| then log[k] else (i, xs[k - |log|])
  {
  }

  lemma {:induction false} NotYet(log: Log, j: nat)
    requires forall k | 0 <= k < |log| :: log[k].0 < j
    ensures Of(log, j) == []
  {
    if log != [] { NotYet(log[..|log| - 1], j); }
  }

  function Parts(c: Conn): set<object> { {c, c.sock, c.rbuf, c.wbuf} }

  /** One turn of a connection. */
  method TakeTurn(c: Conn, ghost peer: Peer, ghost turns: nat)
    requires c.Valid() && c.state != End && c.store.Ready() && c.Apart() && Served(c, peer, turns)
    modifies c, c.rbuf, c.wbuf, c.sock, c.store.repr
    ensures c.Valid() && c.store.Ready() && c.Apart() && fresh(c.store.repr - old(c.store.repr))
    ensures Advanced(old(c.executed), c.executed, old(c.store.history), c.store.history)
    ensures Served(c, peer, turns + 1)
    ensures c.state == Res ==> c.sock.lastWrite.WouldBlock?
    ensures old(c.state) == Req ==> |c.sock.toRead| <= |Rest(old(c.sock.toRead))| && (c.state == Req ==> c.sock.lastRead.WouldBlock?)
    ensures old(c.state) == Req && Next(old(c.sock.toRead)).Moved? && old(c.sock.pos) < |c.sock.inbound| ==> old(c.sock.pos) < c.sock.pos
    ensures c.state == Req && old(c.sock.pos) < c.sock.pos ==> FrontOf(c.Pending()).Incomplete?
  {
    hide Database.Ready, Advanced, FrontOf, Commands, Takes, ReadUp, Conn.Taking, Conn.ReadBooks, Conn.WriteBooks, Conn.Explained;
    c.ConnectionIo();
  }

  lemma NotServedYet(c: Conn, peer: Peer)
    requires c.Valid() && c.state == Req && c.executed == [] && c.rbufSize == 0 && c.sock.pos == 0
    requires (c.sock.inbound, c.sock.toRead, c.sock.toWrite) == (peer.inbound, peer.toRead, peer.toWrite)
    ensures Served(c, peer, 0)
  {
    hide Commands, Takes;
    assert c.Pending() == [];
  }

  lemma StillEnded(c: Conn, peer: Peer, turns: nat)
    requires Served(c, peer, turns) && c.state == End
    ensures Served(c, peer, turns + 1)
  {
    hide Commands, Takes, Conn.Flowing, ReadUp;
  }

  class EventLoop {
    const store: Database
    var conns: seq<Conn>
    ghost var log: Log
    /** For each connection its peer, and how often it was ready. */
    ghost var peers: seq<Peer>
    ghost var turns: seq<nat>
    /** The objects that the connections are made of. */
    ghost var repr: set<object>

    ghost predicate Separate()
      reads this, store`repr
    {
      && this !in repr && this !in store.repr && store.repr !! repr
      && (forall i | 0 <= i < |conns| :: Parts(conns[i]) <= repr && conns[i].store == store)
      && (forall i, j | 0 <= i < j < |conns| :: Parts(conns[i]) !! Parts(conns[j]))
    }

    ghost predicate Each()
      reads this, repr
    {
      && |peers| == |turns| == |conns|
      && forall i | 0 <= i < |conns| ::
           && Parts(conns[i]) <= repr && conns[i].Valid() && conns[i].executed == Of(log, i)
           && Served(conns[i], peers[i], turns[i])
    }

    ghost predicate Valid()
      reads this, repr, store, store.repr
    {
      && Separate() && Each() && store.Ready() && All(log) == store.history
      && forall k | 0 <= k < |log| :: log[k].0 < |conns|
    }

    constructor ()
      ensures Valid() && conns == [] && log == [] && repr == {} && fresh(store.repr) && peers == [] && turns == []
    {
      store := new Database();
      conns, log, repr, peers, turns := [], [], {}, [], [];
    }

    /** `accept_new_conn`. */
    method AcceptNewConn(peer: Peer)
      requires Valid()
      modifies this
      ensures Valid() && fresh(repr - old(repr)) && log == old(log)
      ensures |conns| == |old(conns)| + 1 && conns[..|old(conns)|] == old(conns)
      ensures peers == old(peers) + [peer] && turns == old(turns) + [0]
      ensures var c := conns[|old(conns)|];
              c.state == Req && c.sock.pos == 0 && (c.sock.inbound, c.sock.toRead, c.sock.toWrite) == (peer.inbound, peer.toRead, peer.toWrite)
    {
      hide Database.Ready, Conn.Valid, Served, Of, All;
      var sock := new Socket(peer.inbound, peer.toRead, peer.toWrite);
      var conn := new Conn(sock, store);
      NotServedYet(conn, peer);
      NotYet(log, |conns|);
      conns := conns + [conn];
      repr := repr + Parts(conn);
      peers, turns := peers + [peer], turns + [0];
    }

    /** Lines 79-80 of src/server.cpp: the connection is served until it would block.  One that has
        ended is not served again. */
    method Activate(i: nat)
      requires Valid() && i < |conns|
      modifies Parts(conns[i]), store.repr, this`log, this`turns
      ensures Valid() && fresh(store.repr - old(store.repr)) && old(log) <= log
      ensures forall k | |old(log)| <= k < |log| :: log[k].0 == i
      ensures turns == old(turns)[i := old(turns[i]) + 1]
      ensures old(conns[i].state) == End ==> log == old(log)
      ensures conns[i].state == Res ==> conns[i].sock.lastWrite.WouldBlock?
      ensures old(conns[i].state) == Req ==>
                && |conns[i].sock.toRead| <= |Rest(old(conns[i].sock.toRead))|
                && (conns[i].state == Req ==> conns[i].sock.lastRead.WouldBlock?)
      ensures old(conns[i].state) == Req && Next(old(conns[i].sock.toRead)).Moved? && old(conns[i].sock.pos) < |conns[i].sock.inbound| ==>
                old(conns[i].sock.pos) < conns[i].sock.pos
      ensures conns[i].state == Req && old(conns[i].sock.pos) < conns[i].sock.pos ==> FrontOf(conns[i].Pending()).Incomplete?
    {
      hide Database.Ready, Conn.Valid, All, Of, Tag, Served, FrontOf;
      var conn := conns[i];
      if conn.state == End {
        StillEnded(conn, peers[i], turns[i]);
      } else {
        TakeTurn(conn, peers[i], turns[i]);
      }
      ghost var done := conn.executed[|old(conn.executed)|..];
      AllGrows(log, i, done);
      forall j | 0 <= j < |conns| ensures Of(log + Tag(i, done), j) == conns[j].executed {
        LogGrows(log, i, done, j);
      }
      log := log + Tag(i, done);
      turns := turns[i := turns[i] + 1];
    }

    /** In every state: all commands together, in the order in which they were carried out, had
        the answers of one plain map. */
    lemma OneMap()
      requires Valid()
      ensures forall k | 0 <= k < |log| :: Replies(AfterAll(All(log)[..k]), log[k].1.cmd, log[k].1.out)
    {
      hide Replies, AfterAll, Explains;
      HistoryIsRun(store.history, store.Now());
      forall k | 0 <= k < |log| ensures Replies(AfterAll(All(log)[..k]), log[k].1.cmd, log[k].1.out) {
        assert All(log)[k] == log[k].1;
      }
    }

    /** And each connection's share of them is the beginning of its stream, answered in order. */
    lemma EachInOrder(i: nat)
      requires Valid() && i < |conns|
      ensures Cmds(Of(log, i)) <= Commands(conns[i].sock.inbound)
      ensures conns[i].sock.outbound <= Responses(Of(log, i))
    {
      hide Conn.Explained, Database.Ready, Cmds, Commands, Responses, Of, All, Served;
      conns[i].InOrder();
      conns[i].Answered();
    }

    /** A patient peer has its answers to all that was read, which is as much as its reads allow; any other
        peer has had as many turns as its calls allow. */
    lemma ServedAsFar(i: nat)
      requires Valid() && i < |conns|
      ensures Patient(peers[i]) ==>
                && Cmds(Of(log, i)) == Commands(peers[i].inbound[..Reads(peers[i].inbound, peers[i].toRead, turns[i]).pos])
                && conns[i].sock.outbound == Responses(Of(log, i))
      ensures conns[i].sock.inbound == peers[i].inbound
      ensures turns[i] >= |peers[i].toRead| + |peers[i].toWrite| ==> Halted(conns[i])
    {
      hide Conn.Explained, Database.Ready, Cmds, Commands, Responses, Of, All, Reads, Takes, FrontOf;
      if Patient(peers[i]) {
        conns[i].Leftover();
        conns[i].Answered();
      }
    }
  }

  /** The peers in the order in which they connect. */
  function Peers(events: seq<Event>): seq<Peer> {
    if events == [] then []
    else
      var last := events[|events| - 1];
      Peers(events[..|events| - 1]) + if last.Accept? then [last.peer] else []
  }

  /** How often connection `i` is reported ready. */
  function Turns(events: seq<Event>, i: nat): nat {
    if events == [] then 0
    else
      var before, last := events[..|events| - 1], events[|events| - 1];
      Turns(before, i) + if last == Ready(i) && i < |Peers(before)| then 1 else 0
  }

  lemma {:induction false} NoTurnsYet(events: seq<Event>, i: nat)
    requires |Peers(events)| <= i
    ensures Turns(events, i) == 0
  {
    if events != [] { NoTurnsYet(events[..|events| - 1], i); }
  }

  /** The event loop over a sequence of events. */
  method Loop(events: seq<Event>) returns (server: EventLoop)
    ensures server.Valid() && server.peers == Peers(events) && |server.turns| == |server.peers| == |server.conns|
    ensures forall i | 0 <= i < |server.turns| :: server.turns[i] == Turns(events, i)
  {
    hide Database.Ready, EventLoop.Each, All;
    server := new EventLoop();
    for n := 0 to |events|
      invariant server.Valid() && fresh(server) && fresh(server.repr) && fresh(server.store.repr)
      invariant server.peers == Peers(events[..n]) && |server.turns| == |server.peers| == |server.conns|
      invariant forall i | 0 <= i < |server.turns| :: server.turns[i] == Turns(events[..n], i)
    {
      assert events[..n + 1][..n] == events[..n];
      NoTurnsYet(events[..n], |server.peers|);
      match events[n] {
        case Accept(peer) =>
          server.AcceptNewConn(peer);
        case Ready(i) =>
          if i < |server.conns| {
            server.Activate(i);
          }
      }
    }
    assert events[..|events|] == events;
  }

  /** A run of the server from its start, for any events. */
  method Run(events: seq<Event>) returns (server: EventLoop)
    ensures server.Valid()
    ensures |server.conns| == |Peers(events)|
    ensures forall i | 0 <= i < |server.conns| :: server.conns[i].sock.inbound == Peers(events)[i].inbound
    // nothing but what was asked for
    ensures forall i | 0 <= i < |Peers(events)| ::
              && Cmds(Of(server.log, i)) <= Commands(Peers(events)[i].inbound)
              && server.conns[i].sock.outbound <= Responses(Of(server.log, i))
    ensures forall k | 0 <= k < |server.log| ::
              Replies(AfterAll(All(server.log)[..k]), server.log[k].1.cmd, server.log[k].1.out)
    // a patient peer has the answers to all that the reads brought in
    ensures forall i | 0 <= i < |Peers(events)| && Patient(Peers(events)[i]) ::
              var p := Peers(events)[i];
              && Cmds(Of(server.log, i)) == Commands(p.inbound[..Reads(p.inbound, p.toRead, Turns(events, i)).pos])
              && server.conns[i].sock.outbound == Responses(Of(server.log, i))
    // and no peer is left alone while a call of its could do something
    ensures forall i | 0 <= i < |Peers(events)| ::
              Turns(events, i) >= |Peers(events)[i].toRead| + |Peers(events)[i].toWrite| ==> Halted(server.conns[i])
  {
    hide Database.Ready, EventLoop.Valid, Replies, AfterAll, Commands, Responses, Cmds, Of, All, Reads, Takes;
    server := Loop(events);
    server.OneMap();
    forall i | 0 <= i < |server.conns|
      ensures server.conns[i].sock.inbound == Peers(events)[i].inbound
      ensures Cmds(Of(server.log, i)) <= Commands(Peers(events)[i].inbound)
      ensures server.conns[i].sock.outbound <= Responses(Of(server.log, i))
      ensures var p := Peers(events)[i];
              Patient(p) ==>
                && Cmds(Of(server.log, i)) == Commands(p.inbound[..Reads(p.inbound, p.toRead, Turns(events, i)).pos])
                && server.conns[i].sock.outbound == Responses(Of(server.log, i))
      ensures Turns(events, i) >= |Peers(events)[i].toRead| + |Peers(events)[i].toWrite| ==> Halted(server.conns[i])
    {
      server.EachInOrder(i);
      server.ServedAsFar(i);
    }
  }

  /** The connection that is accepted at `a` has its peer, and has had a turn if it is ready later. */
  lemma {:induction false} AcceptedAt(events: seq<Event>, a: nat)
    requires a < |events| && events[a].Accept?
    ensures var i := |Peers(events[..a])|; i < |Peers(events)| && Peers(events)[i] == events[a].peer
    ensures var i := |Peers(events[..a])|; (exists n | a < n < |events| :: events[n] == Ready(i)) ==> Turns(events, i) > 0
    decreases |events|
  {
    var before, i := events[..|events| - 1], |Peers(events[..a])|;
    if a == |before| {
      assert events[..a] == before;
    } else {
      assert before[..a] == events[..a];
      AcceptedAt(before, a);
      if exists n | a < n < |before| :: events[n] == Ready(i) {
        var n :| a < n < |before| && events[n] == Ready(i);
        assert before[n] == Ready(i);
      }
    }
  }

  /** A client that sends these commands, takes what it is sent and whose bytes can be read: once it has
      been reported ready, every command is executed, in order, and every response is on its way to it,
      whatever the other clients do.  It is accepted at `a` and ready at `n`. */
  method ServesClient(events: seq<Event>, a: nat, n: nat, cmds: seq<seq<Bytes>>) returns (server: EventLoop, i: nat)
    requires a < n < |events| && events[a].Accept? && events[n] == Ready(|Peers(events[..a])|)
    requires forall k | 0 <= k < |cmds| :: FromRequest(cmds[k])
    requires var p := events[a].peer;
             p.inbound == Requests(cmds) && Brings(p.toRead, |p.inbound|) && Takes(p.toWrite, K_MAX_MSG, |cmds|)
    ensures server.Valid() && i == |Peers(events[..a])| < |server.conns| && server.conns[i].sock.inbound == Requests(cmds)
    ensures Cmds(Of(server.log, i)) == cmds && server.conns[i].sock.outbound == Responses(Of(server.log, i))
  {
    hide Commands, Requests, Responses, FromRequest, Cmds, Of, EventLoop.Valid, Replies, AfterAll, All, Reads, Takes, Brings, Turns;
    hide Peers, Halted;
    i := |Peers(events[..a])|;
    ghost var p := events[a].peer;
    AcceptedAt(events, a);
    WholeStream(cmds);
    EverythingArrives(cmds, p.toRead, Turns(events, i));
    assert p.inbound[..|p.inbound|] == p.inbound;
    server := Run(events);
  }
}
