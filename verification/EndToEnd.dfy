/** Client, connection and key space together. */
module EndToEnd {
  import opened ByteStrings
  import opened Options
  import opened LittleEndian
  import opened Wire
  import opened Request
  import opened Stream
  import opened KeyValue
  import opened Sockets
  import opened Connection

  /** What a plain map would answer; a list of keys that has no room in a response, and only that, is
      replaced by an error. */
  ghost predicate RightAnswer(m: map<Bytes, Bytes>, cmd: seq<Bytes>, v: Value) {
    match Classify(cmd)
    case Keys => exists ks {:trigger Strs(ks)} :: Lists(ks, m)
                   && v == if 4 + |Encode(Arr(Strs(ks)))| > K_MAX_MSG then Err(ERR_2BIG, Ascii("response is too big"))
                           else Arr(Strs(ks))
    case Get(k) => v == if k in m then Str(m[k]) else Nil
    case Set(k, val) => v == Nil
    case Del(k) => v == Int(if k in m then 1 else 0)
    case Unknown => v == Err(ERR_UNKNOWN, Ascii("Unknown cmd"))
  }

  lemma {:induction false} ManyFit(ks: seq<Bytes>)
    ensures |EncodeAll(Strs(ks))| >= |ks|
    ensures |EncodeAll(Strs(ks))| < TWO_32 ==> AllWellSized(Strs(ks))
  {
    if ks != [] {
      assert Strs(ks)[0] == Str(ks[0]) && Strs(ks)[1..] == Strs(ks[1..]);
      ManyFit(ks[1..]);
    }
  }

  /** The value that was encoded, and that it survives the way to the client. */
  lemma WhichValue(x: Exchange) returns (v: Value)
    requires Lawful(x)
    ensures RightAnswer(x.before, x.cmd, v) && WellSized(v) && Payload(x.out) == Encode(v)
  {
    Widths();
    match Classify(x.cmd) {
      case Keys =>
        var ks :| Lists(ks, x.before) && x.out == Encode(Arr(Strs(ks)));
        if 4 + |x.out| > K_MAX_MSG {
          v := Err(ERR_2BIG, Ascii("response is too big"));
        } else {
          v := Arr(Strs(ks));
          ManyFit(ks);
        }
      case Get(k) =>
        ReplyFits(x.before, x.cmd, x.out);
        v := if k in x.before then Str(x.before[k]) else Nil;
      case Set(k, val) =>
        v := Nil;
      case Del(k) =>
        v := Int(if k in x.before then 1 else 0);
      case Unknown =>
        v := Err(ERR_UNKNOWN, Ascii("Unknown cmd"));
    }
  }

  /** The client's decoder reads the plain map's answer from what the server sent, whatever else
      is behind it in the client's buffer. */
  lemma ClientReads(x: Exchange, tail: Bytes) returns (v: Value)
    requires Lawful(x)
    ensures RightAnswer(x.before, x.cmd, v)
    ensures Decode(Payload(x.out) + tail, 8) == Some((v, |Payload(x.out)|))
  {
    v := WhichValue(x);
    DecodeEncode(v, tail, 8);
  }

  lemma NothingLeft(c: Conn)
    requires c.Valid() && c.sock.inbound == Requests(Cmds(c.executed))
    ensures c.Pending() == []
  {
    hide Requests, Responses, FrontOf, Cmds;
    assert |c.Pending()| == 0;
  }

  /** What the client sends is never taken for anything but requests. */
  lemma NeverBad(c: Conn, cmds: seq<seq<Bytes>>)
    requires c.Valid() && c.sock.inbound == Requests(cmds)
    requires forall i | 0 <= i < |cmds| :: FromRequest(cmds[i])
    ensures c.cause != BadFrame
  {
    hide Commands, Requests, Responses, FromRequest, Cmds;
    WholeStream(cmds);
    if c.cause == BadFrame {
      c.AtBadFrame();
      NothingLeft(c);
    }
  }

  /** A client that sends these commands and closes: they are executed, these and no others, in
      their order, if the connection saw the end of the stream with no response held up before it, or
      if all was read and the peer takes what it is sent. */
  lemma SentIsExecuted(c: Conn, cmds: seq<seq<Bytes>>)
    requires c.Valid() && c.sock.inbound == Requests(cmds)
    requires forall i | 0 <= i < |cmds| :: FromRequest(cmds[i])
    ensures Cmds(c.executed) <= cmds
    ensures c.cause == Eof && !c.resumed ==> Cmds(c.executed) == cmds
    ensures c.Flowing() && c.sock.pos == |c.sock.inbound| ==>
              Cmds(c.executed) == cmds && c.sock.outbound == Responses(c.executed)
  {
    hide Commands, Requests, Responses, FromRequest, Conn.Explained, Cmds;
    WholeStream(cmds);
    c.InOrder();
    if c.cause == Eof { c.AtEof(); }
    if c.Flowing() && c.sock.pos == |c.sock.inbound| {
      c.Leftover();
      c.Answered();
      assert c.sock.inbound[..c.sock.pos] == c.sock.inbound;
    }
  }

  lemma TwoFrames(a: seq<Bytes>, b: seq<Bytes>)
    requires FromRequest(a) && FromRequest(b)
    ensures var s := Requests([a, b]);
            && Commands(s) == [a, b] && |s| == 8 + |EncodeBody(a)| + |EncodeBody(b)|
            && FrontOf(s) == Complete(a, 4 + |EncodeBody(a)|)
            && FrontOf(s[4 + |EncodeBody(a)|..]).Complete?
  {
    var f, g := Frame(EncodeBody(a)), Frame(EncodeBody(b));
    WholeStream([a, b]);
    RequestsPlus([a], b);
    RequestsPlus([], a);
    assert [a] + [b] == [a, b] && [] + [a] == [a] && Requests([]) + f == f;
    FrontOfFrame(a, g);
    FrontOfFrame(b, []);
    assert g + [] == g;
  }

  /** A new connection after its first read, which takes all that there is. */
  method FirstRead(inbound: Bytes) returns (c: Conn)
    requires 0 < |inbound| <= 4 + K_MAX_MSG
    ensures c.Books() && c.state == Req && !c.resumed && c.store.Ready() && c.Apart() && c.executed == []
    ensures fresh(c) && fresh(c.sock) && fresh(c.rbuf) && fresh(c.wbuf) && fresh(c.store.repr)
    ensures c.sock.inbound == c.Pending() == inbound && c.sock.pos == |c.sock.inbound|
    ensures c.sock.toRead == [Moved(0)] && c.sock.toWrite == [WouldBlock, Moved(K_MAX_MSG)]
  {
    hide Requests, FrontOf, Responses, AllLawful, Database.Ready, Conn.ReadBooks, Conn.WriteBooks, Conn.Explained;
    var store := new Database();
    var sock := new Socket(inbound, [Moved(K_MAX_MSG + 4), Moved(0)], [WouldBlock, Moved(K_MAX_MSG)]);
    c := new Conn(sock, store);
    assert c.Pending() == [] && sock.pos == 0;
    var more := c.Receive();
    assert c.sock == sock && sock.inbound[0..|inbound|] == inbound;
  }

  /** Both requests arrive in one read; the response to the first has to wait. */
  method ArriveTogether(a: seq<Bytes>, b: seq<Bytes>) returns (c: Conn)
    requires FromRequest(a) && FromRequest(b) && |EncodeBody(a)| + |EncodeBody(b)| <= K_MAX_MSG - 4
    ensures c.Valid() && c.state == Res && c.store.Ready() && c.Apart()
    ensures fresh(c) && fresh(c.sock) && fresh(c.rbuf) && fresh(c.wbuf) && fresh(c.store.repr)
    ensures c.sock.inbound == Requests([a, b]) && c.sock.pos == |c.sock.inbound|
    ensures c.sock.toRead == [Moved(0)] && c.sock.toWrite == [Moved(K_MAX_MSG)]
    ensures Cmds(c.executed) == [a] && FrontOf(c.Pending()).Complete?
  {
    hide Requests, Commands, FrontOf, FromRequest, Conn.Explained, Responses, AllLawful, Database.Ready;
    hide Conn.ReadBooks, Conn.WriteBooks, EncodeBody;
    TwoFrames(a, b);
    c := FirstRead(Requests([a, b]));
    var again := c.TryOneRequest();
    c.SettledHasRoom();
  }

  /** Where the code fails its purpose.  Two requests arrive in one read, the first response has to
      wait once, and the peer closes after sending: the second request is never carried out, although
      it is in the read buffer.  It is not looked at when the response has been flushed, because
      only a further read leads to `try_one_request`.  AtEof says exactly when this happens. */
  method SecondRequestLost(a: seq<Bytes>, b: seq<Bytes>) returns (c: Conn)
    requires FromRequest(a) && FromRequest(b) && |EncodeBody(a)| + |EncodeBody(b)| <= K_MAX_MSG - 4
    ensures c.Valid() && c.state == End && c.cause == Eof
    ensures Commands(c.sock.inbound) == [a, b] && Cmds(c.executed) == [a]
  {
    hide Requests, Commands, FrontOf, FromRequest, Conn.Explained, Responses, AllLawful, Database.Ready;
    hide Conn.ReadBooks, Conn.WriteBooks, EncodeBody;
    TwoFrames(a, b);
    c := ArriveTogether(a, b);
    c.ConnectionIo();
    c.ConnectionIo();
  }
}
