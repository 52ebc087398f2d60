/** The connection state machine of src/server_utils.cpp: requests in, responses out, through
    two fixed buffers and a socket that may cut both streams anywhere. */
module Connection {
  import opened ByteStrings
  import opened Options
  import opened LittleEndian
  import opened Wire
  import opened Request
  import opened Stream
  import opened Sockets
  import opened KeyValue

  datatype State = Req | Res | End

  /** Why a connection has ended. */
  datatype Cause = NotEnded | BadFrame | Eof | Broken

  // ---------- what goes out ----------

  function TooBig(): Bytes { Encode(Err(ERR_2BIG, Ascii("response is too big"))) }

  /** Lines 141-144. */
  function Payload(out: Bytes): (p: Bytes)
    ensures 4 + |p| <= K_MAX_MSG
  {
    if 4 + |out| > K_MAX_MSG then TooBig() else out
  }

  function Responses(xs: seq<Exchange>): Bytes {
    if xs == [] then [] else Responses(xs[..|xs| - 1]) + Frame(Payload(xs[|xs| - 1].out))
  }

  function Cmds(xs: seq<Exchange>): seq<seq<Bytes>> { seq(|xs|, i requires 0 <= i < |xs| => xs[i].cmd) }

  lemma Plus(xs: seq<Exchange>, x: Exchange)
    ensures Cmds(xs + [x]) == Cmds(xs) + [x.cmd]
    ensures Responses(xs + [x]) == Responses(xs) + Frame(Payload(x.out))
    ensures Requests(Cmds(xs + [x])) == Requests(Cmds(xs)) + Frame(EncodeBody(x.cmd))
  {
  }

  ghost predicate AllLawful(xs: seq<Exchange>) { forall i | 0 <= i < |xs| :: Lawful(xs[i]) }

  /** What a connection has carried out since it stood at `e`, the history since `h` has too. */
  ghost predicate Advanced(e: seq<Exchange>, e': seq<Exchange>, h: seq<Exchange>, h': seq<Exchange>) {
    e <= e' && h' == h + e'[|e|..]
  }

  lemma AdvancedOne(e: seq<Exchange>, h: seq<Exchange>, x: Exchange)
    ensures Advanced(e, e + [x], h, h + [x])
  {
  }

  lemma AdvancedNone(e: seq<Exchange>, h: seq<Exchange>)
    ensures Advanced(e, e, h, h)
  {
  }

  lemma AdvancedTwice(e: seq<Exchange>, e': seq<Exchange>, e'': seq<Exchange>,
                      h: seq<Exchange>, h': seq<Exchange>, h'': seq<Exchange>)
    requires Advanced(e, e', h, h') && Advanced(e', e'', h', h'')
    ensures Advanced(e, e'', h, h'')
  {
  }

  // ---------- the code ----------

  class Conn {
    const sock: Socket
    const store: Database
    var state: State
    const rbuf: array<Byte>
    var rbufSize: nat
    const wbuf: array<Byte>
    var wbufSize: nat
    var wbufSent: nat
    /** The requests of this connection that were carried out, in order. */
    ghost var executed: seq<Exchange>
    ghost var cause: Cause
    /** A response had to wait, and nothing was read since. */
    ghost var resumed: bool

    ghost function Pending(): Bytes
      requires rbufSize <= rbuf.Length
      reads this, rbuf
    {
      rbuf[..rbufSize]
    }

    /** The buffers. */
    ghost predicate Sized()
      reads this
    {
      && rbuf != wbuf && rbuf.Length == wbuf.Length == 4 + K_MAX_MSG
      && rbufSize <= 4 + K_MAX_MSG && wbufSent <= wbufSize <= K_MAX_MSG
      && (state == Req ==> wbufSent == wbufSize == 0)
      && (state == Res ==> wbufSent < wbufSize)
      && (state == End <==> cause != NotEnded)
    }

    /** What was read is the frames of what was executed, then the read buffer. */
    ghost predicate ReadBooks()
      requires Sized()
      reads this, rbuf, sock
    {
      && sock.pos <= |sock.inbound| && AllLawful(executed)
      && sock.inbound[..sock.pos] == Requests(Cmds(executed)) + Pending()
    }

    /** What was written is the frames of the responses but for what waits in the write buffer. */
    ghost predicate WriteBooks()
      requires Sized()
      reads this, wbuf, sock
    {
      sock.outbound + wbuf[wbufSent..wbufSize] == Responses(executed)
    }

    ghost predicate Books()
      reads this, rbuf, wbuf, sock
    {
      Sized() && ReadBooks() && WriteBooks()
    }

    /** Why an ended connection has ended. */
    ghost predicate Explained()
      requires Sized()
      reads this, rbuf, sock
    {
      && (cause == BadFrame ==> FrontOf(Pending()).Malformed?)
      && (cause == Broken ==> sock.lastRead.Failed? || sock.lastWrite.Failed?)
      && (cause == Eof ==> sock.lastRead.Moved? && sock.pos == |sock.inbound| && (!resumed ==> FrontOf(Pending()).Incomplete?))
    }

    /** Between two activations. */
    ghost predicate Valid()
      reads this, rbuf, wbuf, sock
    {
      && Books() && Explained()
      && (state != End ==> rbufSize < 4 + K_MAX_MSG)
      && (state == Res ==> sock.lastWrite.WouldBlock?)
      && (state == Req && !resumed ==> FrontOf(Pending()).Incomplete?)
    }

    /** The peer takes every response that is still to come. */
    ghost predicate Taking()
      reads this, sock
    {
      var all := |Commands(sock.inbound)|;
      |executed| <= all && Takes(sock.toWrite, K_MAX_MSG, all - |executed|)
    }

    /** Every whole request that came was executed and its response written, and so it will be. */
    ghost predicate Flowing()
      requires Sized()
      reads this, rbuf, sock
    {
      state != Res && wbufSent == wbufSize && !FrontOf(Pending()).Complete? && Taking()
    }

    /** Where the reader stands. */
    ghost function Standing(again: bool): Reading
      reads this, sock
    {
      Reading(sock.pos, sock.toRead, if state == End then Ended else if again then Going else Blocked)
    }

    ghost predicate Apart()
      reads store`repr
    {
      store.repr !! {this, sock, rbuf, wbuf}
    }

    /** A connection as `accept_new_conn` sets it up. */
    constructor (sock: Socket, store: Database)
      requires sock.pos == 0 && sock.outbound == []
      ensures Valid() && this.sock == sock && this.store == store && executed == [] && state == Req
      ensures rbufSize == 0 && !resumed && fresh(rbuf) && fresh(wbuf)
    {
      this.sock, this.store := sock, store;
      state, rbufSize, wbufSize, wbufSent := Req, 0, 0, 0;
      rbuf := new Byte[4 + K_MAX_MSG];
      wbuf := new Byte[4 + K_MAX_MSG];
      executed, cause, resumed := [], NotEnded, false;
    }

    /** Lines 222-225. */
    method WriteSome() returns (outcome: Outcome, rv: nat)
      requires wbufSent <= wbufSize <= wbuf.Length
      modifies sock`outbound, sock`toWrite, sock`lastWrite
      ensures !outcome.Interrupted? && sock.lastWrite == outcome
      ensures rv == if outcome.Moved? then Least(outcome.n, wbufSize - wbufSent) else 0
      ensures sock.outbound == old(sock.outbound) + wbuf[wbufSent..wbufSent + rv]
      ensures outcome == Next(old(sock.toWrite)) && sock.toWrite == Later(old(sock.toWrite))
      ensures outcome.Moved? ==> old(sock.toWrite) != []
    {
      var data := wbuf[wbufSent..wbufSize];
      outcome, rv := sock.Write(data);
      while outcome.Interrupted?
        invariant rv == (if outcome.Moved? then Least(outcome.n, |data|) else 0) && sock.lastWrite == outcome
        invariant sock.outbound == if outcome.Interrupted? then old(sock.outbound) else old(sock.outbound) + data[..rv]
        invariant outcome.Moved? ==> old(sock.toWrite) != []
        invariant if outcome.Interrupted?
                  then Next(sock.toWrite) == Next(old(sock.toWrite)) && Later(sock.toWrite) == Later(old(sock.toWrite))
                  else outcome == Next(old(sock.toWrite)) && sock.toWrite == Later(old(sock.toWrite))
        decreases |sock.toWrite| + if outcome.Interrupted? then 1 else 0
      {
        outcome, rv := sock.Write(data);
      }
      assert data[..rv] == wbuf[wbufSent..wbufSent + rv];
    }

    static lemma SentSome(before: Bytes, a: array<Byte>, i: nat, j: nat, n: nat)
      requires i <= j <= n <= a.Length
      ensures (before + a[i..j]) + a[j..n] == before + a[i..n]
      ensures a[n..n] == a[0..0] == a[i..i] == []
    {
    }

    /** A flush goes on, or would block, or has failed, or is complete. */
    ghost predicate FlushDone(again: bool)
      reads this, wbuf, sock
    {
      && Sized() && WriteBooks()
      && match state
         case Res => !again ==> sock.lastWrite.WouldBlock?
         case End => cause == Broken && sock.lastWrite.Failed?
         case Req => true
    }

    /** What becomes of a response of which some was written since `before`; all of it is known when the
        flush is over. */
    ghost function Flushed(before: nat, again: bool): Writing
      requires Sized() && before <= |sock.outbound|
      reads this, sock
    {
      var sent := |sock.outbound| - before;
      if again then
        var w := WriteUp(sock.toWrite, wbufSize - wbufSent);
        w.(count := sent + w.count)
      else
        Writing(sent, sock.toWrite, match state case Req => Going case Res => Blocked case End => Ended)
    }

    /** `try_flush_buffer`. */
    method TryFlushBuffer() returns (again: bool)
      requires Sized() && WriteBooks() && state == Res
      modifies this`state, this`wbufSent, this`wbufSize, this`cause, sock`outbound, sock`toWrite, sock`lastWrite
      ensures FlushDone(again)
      ensures again ==> state == Res && |sock.toWrite| < old(|sock.toWrite|)
      ensures sock.toWrite == Later(old(sock.toWrite))
      ensures Next(old(sock.toWrite)).WouldBlock? ==> state == Res && !again
      ensures |sock.outbound| >= old(|sock.outbound|)
      ensures Flushed(old(|sock.outbound|), again) == WriteUp(old(sock.toWrite), old(wbufSize - wbufSent))
    {
      hide Responses;
      var outcome, rv := WriteSome();
      SentSome(old(sock.outbound), wbuf, wbufSent, wbufSent, wbufSize);
      if outcome.WouldBlock? {
        return false;
      }
      if outcome.Failed? {
        state, cause := End, Broken;
        return false;
      }
      SentSome(old(sock.outbound), wbuf, wbufSent, wbufSent + rv, wbufSize);
      wbufSent := wbufSent + rv;
      assert wbufSent <= wbufSize; // the assertion at line 240
      if wbufSent == wbufSize {
        state := Req;
        wbufSent := 0;
        wbufSize := 0;
        return false;
      }
      again := true;
    }

    /** `state_res`. */
    method StateRes()
      requires Sized() && WriteBooks() && state == Res
      modifies this`state, this`wbufSent, this`wbufSize, this`cause, sock`outbound, sock`toWrite, sock`lastWrite
      ensures FlushDone(false) && |sock.toWrite| <= |Later(old(sock.toWrite))|
      ensures Next(old(sock.toWrite)).WouldBlock? ==> state == Res && sock.toWrite == Later(old(sock.toWrite))
      ensures |sock.outbound| >= old(|sock.outbound|)
      ensures Flushed(old(|sock.outbound|), false) == WriteUp(old(sock.toWrite), old(wbufSize - wbufSent))
    {
      var again := TryFlushBuffer();
      while again
        invariant FlushDone(again) && (again ==> state == Res)
        invariant |sock.toWrite| <= |Later(old(sock.toWrite))|
        invariant Next(old(sock.toWrite)).WouldBlock? ==> state == Res && !again && sock.toWrite == Later(old(sock.toWrite))
        invariant |sock.outbound| >= old(|sock.outbound|)
        invariant Flushed(old(|sock.outbound|), again) == WriteUp(old(sock.toWrite), old(wbufSize - wbufSent))
        decreases again, |sock.toWrite|
      {
        again := TryFlushBuffer();
      }
    }

    /** Lines 141-150: the response goes into the write buffer. */
    method Pack(out: Bytes)
      requires wbuf.Length == 4 + K_MAX_MSG
      modifies this`wbufSize, wbuf
      ensures wbufSize == 4 + |Payload(out)| && wbuf[..wbufSize] == Frame(Payload(out))
    {
      var data := out;
      if 4 + |data| > K_MAX_MSG {
        data := OutErr([], ERR_2BIG, Ascii("response is too big"));
      }
      Append(wbuf, 0, Le(|data|, 4));
      Append(wbuf, 4, data);
      wbufSize := 4 + |data|;
    }

    /** Lines 154-158: the rest of the read buffer moves to its beginning. */
    method Consume(n: nat)
      requires n <= rbufSize <= rbuf.Length
      modifies this`rbufSize, rbuf
      ensures rbufSize == old(rbufSize) - n && Pending() == old(Pending())[n..]
    {
      var remain := rbufSize - n;
      if remain > 0 {
        forall i | 0 <= i < remain {
          rbuf[i] := rbuf[n + i];
        }
      }
      rbufSize := remain;
    }

    /** Lines 111-134: the request at the front of the read buffer, if there is one. */
    method NextRequest() returns (cmd: Option<seq<Bytes>>, len: nat)
      requires Sized() && state == Req
      modifies this`state, this`cause
      ensures Sized()
      ensures match FrontOf(Pending()) {
                case Incomplete => cmd == None && state == Req && cause == NotEnded
                case Malformed => cmd == None && state == End && cause == BadFrame
                case Complete(c, size) => cmd == Some(c) && size == 4 + len && state == Req && cause == NotEnded
              }
      ensures Refused(Pending()) <==> state == End
    {
      hide Parse, FromLe, Refused;
      MalformedExactly(Pending());
      cmd, len := None, 0;
      if rbufSize < 4 {
        return;
      }
      assert Pending()[..4] == rbuf[..4];
      len := FromLe(rbuf[..4]);
      if len > K_MAX_MSG {
        state, cause := End, BadFrame;
        return;
      }
      if rbufSize - 4 < len {
        return;
      }
      assert Pending()[4..4 + len] == rbuf[4..4 + len];
      var rc, words := ParseReq(rbuf[4..4 + len]);
      if rc != 0 {
        state, cause := End, BadFrame;
        return;
      }
      cmd := Some(words);
    }

    static lemma Taken(read: Bytes, done: Bytes, frame: Bytes, rest: Bytes, pending: Bytes)
      requires read == done + pending && pending == frame + rest
      ensures read == (done + frame) + rest
    {
    }

    /** The books after one more exchange. */
    twostate lemma BooksBalance(x: Exchange)
      requires old(Books()) && old(state) == Req && state == Res && Sized()
      requires sock.pos == old(sock.pos) && sock.outbound == old(sock.outbound)
      requires FrontOf(old(Pending())).Complete? && FrontOf(old(Pending())).cmd == x.cmd
      requires Pending() == old(Pending())[FrontOf(old(Pending())).size..]
      requires wbufSent == 0 && wbuf[..wbufSize] == Frame(Payload(x.out))
      requires executed == old(executed) + [x] && Lawful(x)
      ensures Books()
    {
      hide Frame, Payload, FrontOf, Lawful, Requests, Responses, Cmds;
      Plus(old(executed), x);
      FrontIsFrame(old(Pending()));
      Taken(sock.inbound[..sock.pos], Requests(Cmds(old(executed))), Frame(EncodeBody(x.cmd)), Pending(), old(Pending()));
      assert old(sock.outbound + wbuf[wbufSent..wbufSize]) == sock.outbound;
      assert wbuf[0..wbufSize] == wbuf[..wbufSize];
    }

    /** Lines 140-161: the answer `x.out` is packed and its request removed. */
    method Answer(out: Bytes, len: nat, ghost x: Exchange)
      requires Books() && state == Req && FrontOf(Pending()) == Complete(x.cmd, 4 + len)
      requires out == x.out && Lawful(x)
      modifies this`state, this`rbufSize, this`wbufSize, this`executed, rbuf, wbuf
      ensures Books() && state == Res && rbufSize == old(rbufSize) - (4 + len) && executed == old(executed) + [x]
      ensures Pending() == old(Pending())[4 + len..]
      ensures wbufSent == 0 && wbufSize == 4 + |Payload(x.out)|
    {
      hide FrontOf, Lawful, Frame, Requests, Responses, Payload;
      Pack(out);
      Consume(4 + len);
      state := Res;
      executed := executed + [x];
      BooksBalance(x);
    }

    /** Lines 137-161. */
    method Execute(cmd: seq<Bytes>, len: nat)
      requires Books() && state == Req && FrontOf(Pending()) == Complete(cmd, 4 + len)
      requires store.Ready() && Apart()
      modifies this`state, this`rbufSize, this`wbufSize, this`executed, rbuf, wbuf, store.repr
      ensures Books() && state == Res && rbufSize == old(rbufSize) - (4 + len)
      ensures store.Ready() && Apart() && fresh(store.repr - old(store.repr))
      ensures Pending() == old(Pending())[4 + len..]
      ensures |executed| == old(|executed|) + 1 && Cmds(executed) == Cmds(old(executed)) + [cmd]
      ensures Advanced(old(executed), executed, old(store.history), store.history)
      ensures wbufSent == 0 && wbufSize == 4 + |Payload(executed[|executed| - 1].out)|
    {
      hide Database.Ready, Database.Now, FrontOf, Lawful, Frame, Payload, FromRequest;
      hide Requests, Responses, Cmds, Advanced;
      FrontIsFrame(Pending());
      ghost var before := store.Now();
      var out := store.Handle(cmd);
      ghost var x := Exchange(before, cmd, out);
      Answer(out, len, x);
      AdvancedOne(old(executed), old(store.history), x);
      Plus(old(executed), x);
    }

    /** What holds when `try_one_request` asks to stop. */
    ghost predicate Settled()
      requires Sized()
      reads this, rbuf, sock
    {
      match state
      case Req => FrontOf(Pending()).Incomplete?
      case Res => rbufSize < 4 + K_MAX_MSG && sock.lastWrite.WouldBlock?
      case End => (cause == Broken && sock.lastWrite.Failed?) || (cause == BadFrame && FrontOf(Pending()).Malformed?)
    }

    /** A full buffer would hold a whole request, or the beginning of something too long. */
    lemma SettledHasRoom()
      requires Books() && Settled() && !resumed
      ensures Valid()
    {
    }

    /** A request at the front of the buffer is one that is still to come. */
    lemma OneMore()
      requires Books() && FrontOf(Pending()).Complete?
      ensures |executed| < |Commands(sock.inbound)|
    {
      hide Requests, Responses, FrontOf;
      InOrder();
      FrontStays(Pending(), sock.inbound[sock.pos..]);
    }

    /** Lines 168-171. */
    method Respond() returns (again: bool)
      requires Sized() && WriteBooks() && state == Res && 0 < |executed| <= |Commands(sock.inbound)|
      modifies this`state, this`wbufSent, this`wbufSize, this`cause, sock`outbound, sock`toWrite, sock`lastWrite
      ensures FlushDone(false) && again == (state == Req) && |sock.toWrite| <= old(|sock.toWrite|)
      ensures Next(old(sock.toWrite)).WouldBlock? ==> state == Res && sock.toWrite == Later(old(sock.toWrite))
      ensures |sock.outbound| >= old(|sock.outbound|)
      ensures Flushed(old(|sock.outbound|), false) == WriteUp(old(sock.toWrite), old(wbufSize - wbufSent))
      ensures Takes(old(sock.toWrite), K_MAX_MSG, |Commands(sock.inbound)| - |executed| + 1) ==> Taking() && again
    {
      hide Commands, Responses;
      ghost var k := |Commands(sock.inbound)| - |executed| + 1;
      if Takes(sock.toWrite, K_MAX_MSG, k) {
        TakesOne(sock.toWrite, wbufSize - wbufSent, K_MAX_MSG, k);
      }
      StateRes();
      again := state == Req;
    }

    /** `try_one_request`. */
    method TryOneRequest() returns (again: bool)
      requires Books() && state == Req && store.Ready() && Apart()
      modifies this`state, this`rbufSize, this`wbufSize, this`wbufSent, this`executed, this`cause, rbuf, wbuf
      modifies sock`outbound, sock`toWrite, sock`lastWrite, store.repr
      ensures Books() && store.Ready() && Apart() && fresh(store.repr - old(store.repr))
      ensures Advanced(old(executed), executed, old(store.history), store.history)
      ensures if again then state == Req && rbufSize < old(rbufSize) else Settled()
      ensures match FrontOf(old(Pending())) {
                case Incomplete => state == Req && executed == old(executed)
                case Malformed => state == End && executed == old(executed)
                case Complete(cmd, size) =>
                  && Cmds(executed) == Cmds(old(executed)) + [cmd] && Pending() == old(Pending())[size..]
                  && (Next(old(sock.toWrite)).WouldBlock? ==> state == Res && sock.toWrite == Later(old(sock.toWrite)))
                  && |sock.outbound| >= old(|sock.outbound|) && again == (state == Req)
                  && Flushed(old(|sock.outbound|), false) == WriteUp(old(sock.toWrite), 4 + |Payload(executed[|executed| - 1].out)|)
              }
      ensures |sock.toWrite| <= old(|sock.toWrite|)
      ensures Refused(old(Pending())) ==> state == End && cause == BadFrame && executed == old(executed)
      ensures old(Taking()) ==> Taking() && state != Res && cause != Broken && wbufSent == wbufSize
    {
      hide Database.Ready, FrontOf, AllLawful, Requests, Responses, Cmds, Commands, Refused, Payload;
      hide Advanced;
      AdvancedNone(executed, store.history);
      MalformedExactly(Pending());
      var cmd, len := NextRequest();
      if cmd == None {
        return false;
      }
      OneMore();
      Execute(cmd.value, len);
      again := Respond();
    }

    /** Lines 182-185: read, into the free part of the buffer. */
    method ReadSome() returns (outcome: Outcome, rv: nat)
      requires rbufSize <= rbuf.Length && sock.pos <= |sock.inbound|
      modifies rbuf, sock`pos, sock`toRead, sock`lastRead
      ensures !outcome.Interrupted? && sock.lastRead == outcome
      ensures sock.pos == old(sock.pos) + rv
      ensures rv == if outcome.Moved? then Arriving(outcome.n, rbuf.Length - rbufSize, |sock.inbound| - old(sock.pos)) else 0
      ensures rbuf[..rbufSize + rv] == old(rbuf[..rbufSize]) + sock.inbound[old(sock.pos)..sock.pos]
      ensures outcome == Next(old(sock.toRead)) && sock.toRead == Later(old(sock.toRead))
      ensures outcome.Moved? ==> old(sock.toRead) != []
    {
      var cap := rbuf.Length - rbufSize;
      ghost var was := rbuf[..rbufSize];
      var data;
      outcome, data := sock.Read(cap);
      while outcome.Interrupted?
        modifies sock`pos, sock`toRead, sock`lastRead
        invariant old(sock.pos) <= sock.pos <= |sock.inbound| && data == sock.inbound[old(sock.pos)..sock.pos]
        invariant |data| == if outcome.Moved? then Arriving(outcome.n, cap, |sock.inbound| - old(sock.pos)) else 0
        invariant sock.lastRead == outcome && (outcome.Moved? ==> old(sock.toRead) != [])
        invariant if outcome.Interrupted?
                  then Next(sock.toRead) == Next(old(sock.toRead)) && Later(sock.toRead) == Later(old(sock.toRead))
                  else outcome == Next(old(sock.toRead)) && sock.toRead == Later(old(sock.toRead))
        decreases |sock.toRead| + if outcome.Interrupted? then 1 else 0
      {
        outcome, data := sock.Read(cap);
      }
      assert rbuf[..rbufSize] == was;
      Append(rbuf, rbufSize, data);
      rv := |data|;
    }

    static lemma ReadOn(inbound: Bytes, i: nat, j: nat, done: Bytes, pending: Bytes)
      requires i <= j <= |inbound| && inbound[..i] == done + pending
      ensures inbound[..j] == done + (pending + inbound[i..j])
    {
    }

    /** Lines 182-207: true if bytes have come. */
    method Receive() returns (more: bool)
      requires Valid() && state == Req
      modifies this`state, this`rbufSize, this`cause, this`resumed, rbuf, sock`pos, sock`toRead, sock`lastRead
      ensures Books() && (more ==> state == Req && |sock.toRead| < old(|sock.toRead|) && !resumed)
      ensures sock.toRead == Later(old(sock.toRead)) && old(sock.pos) <= sock.pos
      ensures Pending() == old(Pending()) + sock.inbound[old(sock.pos)..sock.pos]
      ensures !more ==> Valid() && Pending() == old(Pending()) && sock.pos == old(sock.pos)
      ensures resumed == (old(resumed) && !more)
      ensures Taking() == old(Taking()) && (!more && old(Flowing()) ==> Flowing())
      ensures match Next(old(sock.toRead)) {
                case WouldBlock => state == Req && !more && sock.lastRead.WouldBlock?
                case Failed => state == End && cause == Broken
                case Moved(n) =>
                  && sock.pos == old(sock.pos) + Arriving(n, old(rbuf.Length - rbufSize), |sock.inbound| - old(sock.pos))
                  && (if sock.pos == old(sock.pos) then state == End && cause == Eof else more)
                case Interrupted => false
              }
    {
      hide FrontOf, Requests, Responses, Cmds, AllLawful, Commands, Takes;
      ghost var pos, pending := sock.pos, Pending();
      ReadOn(sock.inbound, pos, pos, Requests(Cmds(executed)), pending);
      var outcome, rv := ReadSome();
      ReadOn(sock.inbound, pos, sock.pos, Requests(Cmds(executed)), pending);
      if rv == 0 {
        assert rbuf[..rbufSize + rv] == pending;
      }
      if outcome.WouldBlock? {
        return false;
      }
      if outcome.Failed? {
        state, cause := End, Broken;
        return false;
      }
      if rv == 0 {
        state, cause := End, Eof;
        return false;
      }
      rbufSize := rbufSize + rv;
      assert rbufSize <= rbuf.Length; // the assertion at line 208, which says <
      resumed := false;
      more := true;
    }

    /** A reader that has taken every whole request from the buffer has executed those of the bytes read so
        far, and keeps the rest of them. */
    lemma Leftover()
      requires Books() && !FrontOf(Pending()).Complete?
      ensures Cmds(executed) == Commands(sock.inbound[..sock.pos]) && Pending() == Remainder(sock.inbound[..sock.pos])
    {
      hide Requests, Responses, FrontOf;
      CommandsOfRequests(Cmds(executed), Pending());
    }

    /** A read that goes as ReadOnce says. */
    twostate lemma AsReadOnce(again: bool)
      requires old(Books()) && old(Flowing()) && old(state) == Req && Books() && Flowing()
      requires old(Pending()) == Remainder(sock.inbound[..old(sock.pos)])
      requires sock.toRead == Later(old(sock.toRead)) && old(sock.pos) <= sock.pos
      requires match Next(old(sock.toRead)) {
                 case WouldBlock => sock.pos == old(sock.pos) && state == Req && !again
                 case Moved(n) =>
                   && sock.pos == old(sock.pos) + Arriving(n, old(rbuf.Length - rbufSize), |sock.inbound| - old(sock.pos))
                   && (state == End <==> sock.pos == old(sock.pos) || FrontOf(Pending()).Malformed?)
                   && again == (state == Req)
                 case _ => sock.pos == old(sock.pos) && state == End
               }
      ensures Standing(again) == ReadOnce(sock.inbound, old(sock.pos), old(sock.toRead))
    {
      hide FrontOf, Conn.ReadBooks, Conn.WriteBooks, Conn.Taking, Remainder;
      Leftover();
    }

    /** `try_fill_buffer`: one read, and then no whole request stays in the buffer while in STATE_REQ. */
    method TryFillBuffer() returns (again: bool)
      requires Valid() && state == Req && store.Ready() && Apart()
      modifies this, rbuf, wbuf, sock, store.repr
      ensures Valid() && store.Ready() && Apart() && fresh(store.repr - old(store.repr))
      ensures Advanced(old(executed), executed, old(store.history), store.history)
      ensures again ==> state == Req && |sock.toRead| < old(|sock.toRead|) && !resumed
      ensures !again && state == Req ==> sock.lastRead.WouldBlock?
      ensures sock.toRead == Later(old(sock.toRead)) && |sock.toWrite| <= old(|sock.toWrite|)
      ensures state == Req && old(sock.pos) < sock.pos ==> FrontOf(Pending()).Incomplete?
      ensures resumed == (old(resumed) && sock.pos == old(sock.pos)) && sock.pos <= |sock.inbound|
      ensures match Next(old(sock.toRead)) {
                case WouldBlock => state == Req && !again && Untouched(old(sock.pos), old(executed), old(Pending()))
                case Failed => cause == Broken && Untouched(old(sock.pos), old(executed), old(Pending()))
                case Moved(n) =>
                  && sock.pos == old(sock.pos) + Arriving(n, old(rbuf.Length - rbufSize), |sock.inbound| - old(sock.pos))
                  && (sock.pos == old(sock.pos) <==> old(sock.pos) == |sock.inbound|)
                  && (cause == Eof <==> sock.pos == old(sock.pos))
                  && (cause == Eof ==> Untouched(old(sock.pos), old(executed), old(Pending())))
                case Interrupted => false
              }
      ensures old(Flowing()) ==> Flowing() && Standing(again) == ReadOnce(sock.inbound, old(sock.pos), old(sock.toRead))
    {
      hide Database.Ready, FrontOf, AllLawful, Requests, Responses, Cmds, Advanced, Conn.Taking, Remainder, Commands;
      AdvancedNone(executed, store.history);
      if Flowing() {
        Leftover();
      }
      assert rbufSize < rbuf.Length; // the assertion at line 180
      var more := Receive();
      if !more {
        again := false;
      } else {
        again := Serve();
      }
      if old(Flowing()) {
        AsReadOnce(again);
      }
    }

    /** Nothing has been read or executed. */
    ghost predicate Untouched(pos: nat, done: seq<Exchange>, pending: Bytes)
      requires Sized()
      reads this, rbuf, sock
    {
      sock.pos == pos && executed == done && Pending() == pending
    }

    /** Lines 211-212: every whole request is executed. */
    method Serve() returns (again: bool)
      requires Books() && state == Req && !resumed && store.Ready() && Apart()
      modifies this`state, this`rbufSize, this`wbufSize, this`wbufSent, this`executed, this`cause, rbuf, wbuf
      modifies sock`outbound, sock`toWrite, sock`lastWrite, store.repr
      ensures Valid() && store.Ready() && Apart() && fresh(store.repr - old(store.repr))
      ensures Advanced(old(executed), executed, old(store.history), store.history)
      ensures again == (state == Req) && cause != Eof && |sock.toWrite| <= old(|sock.toWrite|)
      ensures state == Req ==> FrontOf(Pending()).Incomplete?
      ensures old(Taking()) ==> Flowing() && (state == End <==> FrontOf(Pending()).Malformed?)
    {
      hide Database.Ready, FrontOf, AllLawful, Requests, Responses, Cmds, Advanced, Commands, Payload, Refused, Conn.Taking;
      AdvancedNone(executed, store.history);
      again := true;
      while again
        invariant Books() && store.Ready() && Apart() && fresh(store.repr - old(store.repr))
        invariant Advanced(old(executed), executed, old(store.history), store.history)
        invariant if again then state == Req else Settled()
        invariant |sock.toWrite| <= old(|sock.toWrite|)
        invariant old(Taking()) ==> Taking() && state != Res && cause != Broken && wbufSent == wbufSize
        decreases again, rbufSize
      {
        ghost var e, h := executed, store.history;
        again := TryOneRequest();
        AdvancedTwice(old(executed), e, executed, old(store.history), h, store.history);
      }
      SettledHasRoom();
      again := state == Req;
    }

    /** `state_req`: while requests can be read, they are executed. */
    method StateReq()
      requires Valid() && state == Req && store.Ready() && Apart()
      modifies this, rbuf, wbuf, sock, store.repr
      ensures Valid() && store.Ready() && Apart() && fresh(store.repr - old(store.repr))
      ensures Advanced(old(executed), executed, old(store.history), store.history)
      ensures state == Req ==> sock.lastRead.WouldBlock?
      ensures |sock.toRead| <= |Later(old(sock.toRead))| && |sock.toWrite| <= old(|sock.toWrite|)
      ensures old(sock.pos) <= sock.pos
      ensures Next(old(sock.toRead)).Moved? && old(sock.pos) < |sock.inbound| ==> old(sock.pos) < sock.pos
      ensures (state == Req || cause == Eof) && old(sock.pos) < sock.pos ==> FrontOf(Pending()).Incomplete?
      ensures resumed == (old(resumed) && sock.pos == old(sock.pos))
      ensures Next(old(sock.toRead)).WouldBlock? ==> state == Req && Untouched(old(sock.pos), old(executed), old(Pending()))
      ensures Next(old(sock.toRead)).Moved? && old(sock.pos) == |sock.inbound| ==>
                cause == Eof && Untouched(old(sock.pos), old(executed), old(Pending()))
      ensures old(Flowing()) ==> Flowing() && Standing(false) == ReadUp(sock.inbound, old(sock.pos), old(sock.toRead))
    {
      hide Database.Ready, Conn.ReadBooks, Conn.WriteBooks, Conn.Explained, FrontOf, Advanced, Conn.Flowing, ReadOnce, Conn.Apart;
      var again := TryFillBuffer();
      while again
        invariant Valid() && store.Ready() && Apart() && fresh(store.repr - old(store.repr))
        invariant Advanced(old(executed), executed, old(store.history), store.history)
        invariant if again then state == Req && cause == NotEnded else state == Req ==> sock.lastRead.WouldBlock?
        invariant old(sock.pos) <= sock.pos <= |sock.inbound|
        invariant |sock.toRead| <= |Later(old(sock.toRead))| && |sock.toWrite| <= old(|sock.toWrite|)
        invariant Next(old(sock.toRead)).Moved? && old(sock.pos) < |sock.inbound| ==> old(sock.pos) < sock.pos
        invariant (state == Req || cause == Eof) && old(sock.pos) < sock.pos ==> FrontOf(Pending()).Incomplete?
        invariant resumed == (old(resumed) && sock.pos == old(sock.pos))
        invariant again ==> old(sock.pos) < sock.pos
        invariant Next(old(sock.toRead)).WouldBlock? ==> state == Req && !again && Untouched(old(sock.pos), old(executed), old(Pending()))
        invariant Next(old(sock.toRead)).Moved? && old(sock.pos) == |sock.inbound| ==>
                  cause == Eof && Untouched(old(sock.pos), old(executed), old(Pending()))
        invariant old(Flowing()) ==> Flowing()
        invariant old(Flowing()) ==>
                    (if again then ReadUp(sock.inbound, sock.pos, sock.toRead) else Standing(false)) ==
                    ReadUp(sock.inbound, old(sock.pos), old(sock.toRead))
        decreases again, |sock.toRead|
      {
        ghost var e, h := executed, store.history;
        again := TryFillBuffer();
        AdvancedTwice(old(executed), e, executed, old(store.history), h, store.history);
      }
    }

    /** `connection_io`: one activation by the event loop.  It lasts until the socket would block.
        An activation that finishes a response executes nothing. */
    method ConnectionIo()
      requires Valid() && state != End && store.Ready() && Apart()
      modifies this, rbuf, wbuf, sock, store.repr
      ensures Valid() && store.Ready() && Apart() && fresh(store.repr - old(store.repr))
      ensures Advanced(old(executed), executed, old(store.history), store.history)
      ensures state == Res ==> sock.lastWrite.WouldBlock?
      ensures old(sock.pos) <= sock.pos
      ensures old(state) == Req && state == Req ==> sock.lastRead.WouldBlock?
      ensures old(state) == Req ==> |sock.toRead| <= |Later(old(sock.toRead))| && |sock.toWrite| <= old(|sock.toWrite|)
      ensures old(state) == Req && Next(old(sock.toRead)).Moved? && old(sock.pos) < |sock.inbound| ==> old(sock.pos) < sock.pos
      ensures (state == Req || cause == Eof) && old(sock.pos) < sock.pos ==> FrontOf(Pending()).Incomplete?
      ensures resumed == (old(state) == Res || (old(resumed) && sock.pos == old(sock.pos)))
      ensures old(state) == Req && Next(old(sock.toRead)).WouldBlock? ==>
                state == Req && Untouched(old(sock.pos), old(executed), old(Pending()))
      ensures old(state) == Req && Next(old(sock.toRead)).Moved? && old(sock.pos) == |sock.inbound| ==>
                cause == Eof && Untouched(old(sock.pos), old(executed), old(Pending()))
      ensures old(state) == Req && old(Flowing()) ==>
                Flowing() && Standing(false) == ReadUp(sock.inbound, old(sock.pos), old(sock.toRead))
      ensures old(state) == Res ==> Untouched(old(sock.pos), old(executed), old(Pending())) && sock.toRead == old(sock.toRead)
      ensures old(state) == Res ==> |sock.toWrite| <= |Later(old(sock.toWrite))|
      ensures old(state) == Res ==>
                && |sock.outbound| >= old(|sock.outbound|)
                && Flushed(old(|sock.outbound|), false) == WriteUp(old(sock.toWrite), old(wbufSize - wbufSent))
      ensures old(state) == Res && Next(old(sock.toWrite)).WouldBlock? ==> state == Res
    {
      hide Database.Ready, Advanced, FrontOf, Requests, Responses, Cmds, AllLawful, Conn.Taking, ReadUp;
      if state == Req {
        StateReq();
      } else {
        AdvancedNone(executed, store.history);
        StateRes();
        resumed := true;
      }
    }

    // ---------- what holds in every reachable state ----------

    /** The commands executed are the first ones of the stream, and those that are still to come
        are the ones in the read buffer and what the peer sends after it. */
    lemma InOrder()
      requires Books()
      ensures Commands(sock.inbound) == Cmds(executed) + Commands(Pending() + sock.inbound[sock.pos..])
      ensures Cmds(executed) <= Commands(sock.inbound)
    {
      hide Commands, Requests, Responses, FrontOf;
      StillToCome(sock.inbound, sock.pos, Cmds(executed), Pending());
    }

    /** What the peer has received is the beginning of the responses, and all of them whenever the
        connection is ready for the next request. */
    lemma Answered()
      requires Valid()
      ensures sock.outbound <= Responses(executed)
      ensures wbufSent == wbufSize ==> sock.outbound == Responses(executed)
      ensures state == Req ==> sock.outbound == Responses(executed)
    {
    }

    /** A connection that ended at the end of its stream has executed all of it, exactly if no whole
        request was left in the buffer. */
    lemma AtEof()
      requires Valid() && cause == Eof
      ensures Cmds(executed) == Commands(sock.inbound) <==> !FrontOf(Pending()).Complete?
      ensures !resumed ==> Cmds(executed) == Commands(sock.inbound)
    {
      hide Requests, Responses;
      InOrder();
      assert Pending() + sock.inbound[sock.pos..] == Pending();
    }

    /** The activation in which the end of the stream is seen: everything the peer has sent was executed,
        exactly if no whole request is waiting in the read buffer before it. */
    method LastActivation()
      requires Valid() && state == Req && store.Ready() && Apart()
      requires Next(sock.toRead).Moved? && sock.pos == |sock.inbound|
      modifies this, rbuf, wbuf, sock, store.repr
      ensures Valid() && state == End && cause == Eof
      ensures Cmds(executed) == Commands(sock.inbound) <==> !FrontOf(old(Pending())).Complete?
    {
      hide Commands, Cmds, FrontOf, Conn.ReadBooks, Conn.WriteBooks, Conn.Explained, Database.Ready;
      ConnectionIo();
      AtEof();
    }

    /** A connection that ended at bytes that are not a request has executed all before them. */
    lemma AtBadFrame()
      requires Valid() && cause == BadFrame
      ensures Cmds(executed) == Commands(sock.inbound)
    {
      hide Requests, Responses;
      InOrder();
      FrontStays(Pending(), sock.inbound[sock.pos..]);
    }
  }

  /** However two connections cut the same stream: one has executed what the other has, and
      perhaps more. */
  lemma SameStream(a: Conn, b: Conn)
    requires a.Valid() && b.Valid() && a.sock.inbound == b.sock.inbound
    ensures Cmds(a.executed) <= Cmds(b.executed) || Cmds(b.executed) <= Cmds(a.executed)
  {
    hide Commands, Requests, Responses, FrontOf, Conn.Explained;
    a.InOrder();
    b.InOrder();
  }
}
