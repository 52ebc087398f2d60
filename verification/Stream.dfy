/** What a byte stream of requests means, apart from how it is cut into reads. */
module Stream {
  import opened ByteStrings
  import opened Options
  import opened LittleEndian
  import opened Request

  ghost predicate FromRequest(cmd: seq<Bytes>) { |EncodeBody(cmd)| <= K_MAX_MSG }

  /** What the bytes begin with: a part of a request, something that is not one, or a request
      of `size` bytes. */
  datatype Front = Incomplete | Malformed | Complete(cmd: seq<Bytes>, size: nat)

  function FrontOf(b: Bytes): (f: Front)
    ensures f.Complete? ==> 8 <= f.size <= |b|
  {
    if |b| < 4 then Incomplete
    else
      var len := FromLe(b[..4]);
      if len > K_MAX_MSG then Malformed
      else if |b| - 4 < len then Incomplete
      else
        var cmd := Parse(b[4..4 + len]);
        if cmd == None then Malformed else Complete(cmd.value, 4 + len)
  }

  /** Bytes with which no request begins: a length beyond the limit, or as many bytes as the length says
      that are not the encoding of any list of strings. */
  ghost predicate Refused(b: Bytes) {
    |b| >= 4 &&
    var len := FromLe(b[..4]);
    len > K_MAX_MSG ||
    (|b| - 4 >= len && forall cmd: seq<Bytes> | |cmd| <= K_MAX_MSG && Short(cmd) :: b[4..4 + len] != EncodeBody(cmd))
  }

  /** These and no others are refused. */
  lemma MalformedExactly(b: Bytes)
    ensures FrontOf(b).Malformed? <==> Refused(b)
  {
    hide Parse, EncodeBody, FromLe;
    if |b| >= 4 && FromLe(b[..4]) <= K_MAX_MSG && |b| - 4 >= FromLe(b[..4]) {
      var body := b[4..4 + FromLe(b[..4])];
      forall cmd: seq<Bytes> ensures Parse(body) == Some(cmd) <==> |cmd| <= K_MAX_MSG && Short(cmd) && body == EncodeBody(cmd) {
        ParsesExactly(body, cmd);
      }
      if Parse(body).Some? {
        var cmd := Parse(body).value;
        assert body == EncodeBody(cmd);
      }
    }
  }

  /** The requests at the beginning of a stream, up to the first thing that is not one. */
  function Commands(stream: Bytes): seq<seq<Bytes>> {
    match FrontOf(stream)
    case Complete(cmd, size) => [cmd] + Commands(stream[size..])
    case _ => []
  }

  /** What comes behind them. */
  function Remainder(stream: Bytes): (r: Bytes)
    ensures !FrontOf(r).Complete?
  {
    match FrontOf(stream)
    case Complete(cmd, size) => Remainder(stream[size..])
    case _ => stream
  }

  /** The frames of these requests. */
  function Requests(cmds: seq<seq<Bytes>>): Bytes {
    if cmds == [] then [] else Requests(cmds[..|cmds| - 1]) + Frame(EncodeBody(cmds[|cmds| - 1]))
  }

  lemma RequestsPlus(cmds: seq<seq<Bytes>>, cmd: seq<Bytes>)
    ensures Requests(cmds + [cmd]) == Requests(cmds) + Frame(EncodeBody(cmd))
  {
  }

  lemma FrameFields(body: Bytes, tail: Bytes)
    requires |body| < TWO_32
    ensures var b := Frame(body) + tail;
            |b| >= 4 + |body| && FromLe(b[..4]) == |body| && b[4..4 + |body|] == body && b[4 + |body|..] == tail
  {
    LengthField(|body|);
    StringFields(Le(|body|, 4), body, tail);
  }

  /** A frame that the client sends is seen as what was sent. */
  lemma FrontOfFrame(cmd: seq<Bytes>, tail: Bytes)
    requires FromRequest(cmd)
    ensures FrontOf(Frame(EncodeBody(cmd)) + tail) == Complete(cmd, 4 + |EncodeBody(cmd)|)
    ensures (Frame(EncodeBody(cmd)) + tail)[4 + |EncodeBody(cmd)|..] == tail
  {
    var body := EncodeBody(cmd);
    FrameFields(body, tail);
    SizeOfStrings(cmd);
    ParsesExactly(body, cmd);
  }

  /** What is seen as a request is the frame of one that could have been sent. */
  lemma FrontIsFrame(b: Bytes)
    requires FrontOf(b).Complete?
    ensures var f := FrontOf(b);
            FromRequest(f.cmd) && b[..f.size] == Frame(EncodeBody(f.cmd)) && b == Frame(EncodeBody(f.cmd)) + b[f.size..]
  {
    var f := FrontOf(b);
    ParsesExactly(b[4..f.size], f.cmd);
    LeFromLe(b[..4]);
    assert b[..f.size] == b[..4] + b[4..f.size] && b == b[..f.size] + b[f.size..];
  }

  /** While a part of it is missing, it is waited for. */
  lemma FrontOfPart(cmd: seq<Bytes>, k: nat)
    requires FromRequest(cmd) && k < |Frame(EncodeBody(cmd))|
    ensures FrontOf(Frame(EncodeBody(cmd))[..k]).Incomplete?
  {
    var body := EncodeBody(cmd);
    if k >= 4 {
      FrameFields(body, []);
      var frame := Frame(body);
      assert frame + [] == frame && frame[..k][..4] == frame[..4];
    }
  }

  /** More bytes behind what is not part of a request do not change it. */
  lemma FrontStays(b: Bytes, more: Bytes)
    requires !FrontOf(b).Incomplete?
    ensures FrontOf(b + more) == FrontOf(b)
    ensures FrontOf(b).Complete? ==> (b + more)[FrontOf(b).size..] == b[FrontOf(b).size..] + more
  {
    assert (b + more)[..4] == b[..4];
    var len := FromLe(b[..4]);
    if len <= K_MAX_MSG {
      assert (b + more)[4..4 + len] == b[4..4 + len];
    }
  }

  /** Frames decode to the requests that they were made of, whatever follows. */
  lemma {:induction false} CommandsOfRequests(cmds: seq<seq<Bytes>>, tail: Bytes)
    requires forall i | 0 <= i < |cmds| :: FromRequest(cmds[i])
    ensures Commands(Requests(cmds) + tail) == cmds + Commands(tail)
    ensures Remainder(Requests(cmds) + tail) == Remainder(tail)
  {
    hide Frame, EncodeBody, FrontOf, FromRequest;
    if cmds == [] {
      assert Requests(cmds) + tail == tail;
    } else {
      var last := cmds[|cmds| - 1];
      var init, frame := cmds[..|cmds| - 1], Frame(EncodeBody(last));
      assert (Requests(init) + frame) + tail == Requests(init) + (frame + tail);
      CommandsOfRequests(init, frame + tail);
      FrontOfFrame(last, tail);
      assert cmds == init + [last];
      assert init + ([last] + Commands(tail)) == cmds + Commands(tail);
    }
  }

  /** Nothing else is in a stream that consists of them. */
  lemma WholeStream(cmds: seq<seq<Bytes>>)
    requires forall i | 0 <= i < |cmds| :: FromRequest(cmds[i])
    ensures Commands(Requests(cmds)) == cmds
  {
    hide Requests, FromRequest;
    CommandsOfRequests(cmds, []);
    assert Requests(cmds) + [] == Requests(cmds);
  }

  /** Reading on only adds requests at the end. */
  lemma {:induction false} CommandsGrow(b: Bytes, more: Bytes)
    ensures Commands(b) <= Commands(b + more)
    decreases |b|
  {
    if FrontOf(b).Complete? {
      FrontStays(b, more);
      CommandsGrow(b[FrontOf(b).size..], more);
    }
  }

  /** More bytes do not make good what is not part of a request. */
  lemma {:induction false} StaysMalformed(b: Bytes, more: Bytes)
    requires FrontOf(Remainder(b)).Malformed?
    ensures FrontOf(Remainder(b + more)).Malformed?
    decreases |b|
  {
    FrontStays(b, more);
    if FrontOf(b).Complete? {
      StaysMalformed(b[FrontOf(b).size..], more);
    }
  }

  /** No beginning of a stream of legal requests is malformed. */
  lemma LegalSoFar(cmds: seq<seq<Bytes>>, pos: nat)
    requires forall i | 0 <= i < |cmds| :: FromRequest(cmds[i])
    requires pos <= |Requests(cmds)|
    ensures FrontOf(Remainder(Requests(cmds)[..pos])).Incomplete?
  {
    hide Requests, FromRequest;
    var s := Requests(cmds);
    CommandsOfRequests(cmds, []);
    assert s + [] == s && s[..pos] + s[pos..] == s;
    if FrontOf(Remainder(s[..pos])).Malformed? {
      StaysMalformed(s[..pos], s[pos..]);
    }
  }

  lemma Regroup(a: Bytes, b: Bytes, s: Bytes, pos: nat)
    requires pos <= |s| && s[..pos] == a + b
    ensures s == a + (b + s[pos..])
  {
    assert s == s[..pos] + s[pos..];
  }

  /** The reader's books: what was read is the frames of what was executed and a rest.  Then the
      rest of the stream holds exactly the requests that are still to come. */
  lemma StillToCome(inbound: Bytes, pos: nat, cmds: seq<seq<Bytes>>, rest: Bytes)
    requires pos <= |inbound| && inbound[..pos] == Requests(cmds) + rest
    requires forall i | 0 <= i < |cmds| :: FromRequest(cmds[i])
    ensures Commands(inbound) == cmds + Commands(rest + inbound[pos..])
  {
    Regroup(Requests(cmds), rest, inbound, pos);
    CommandsOfRequests(cmds, rest + inbound[pos..]);
  }
}
