/** Places where the text of the source does not do what it is for.  Each is modelled to the
    letter; a lemma says exactly on which inputs the letter and the purpose agree. */
module AsWritten {
  import opened ByteStrings
  import opened Options
  import opened LittleEndian
  import opened Wire
  import opened Request
  import opened Stream
  import opened KeyValue
  import opened Sockets
  import opened Connection
  import EndToEnd

  // ---------- src/avl_tree.cpp: heights are uint32_t, and -1 wraps ----------

  datatype Turn = Balanced | FixLeft | FixRight

  function U32(i: int): nat { i % TWO_32 }

  /** Lines 86-90.  The int literal -1 is converted to the unsigned type as well. */
  function TurnAsWritten(lh: int, rh: int): Turn {
    if U32(U32(lh) - U32(rh)) > 1 then FixLeft
    else if U32(U32(lh) - U32(rh)) < U32(-1) then FixRight
    else Balanced
  }

  function TurnAsMeant(lh: int, rh: int): Turn {
    if lh - rh > 1 then FixLeft else if lh - rh < -1 then FixRight else Balanced
  }

  /** A height that a tree can have; -1 is that of no tree. */
  predicate Height(h: int) { -1 <= h < 0x8000_0000 }

  /** Only a node that is too heavy on the left is treated as meant.  Every balanced node is
      rotated, and every node that is too heavy on the right is treated as one heavy on the left. */
  lemma TurnsAgree(lh: int, rh: int)
    requires Height(lh) && Height(rh)
    ensures TurnAsWritten(lh, rh) == TurnAsMeant(lh, rh) <==> lh - rh >= 2
    ensures TurnAsWritten(lh, rh) != Balanced
  {
  }

  /** The first node that is ever added is a leaf.  It is sent to `avl_fix_right`, which looks at
      the children of its right child. */
  lemma LeafIsTurned()
    ensures TurnAsWritten(-1, -1) == FixRight && TurnAsMeant(-1, -1) == Balanced
  {
  }

  /** Lines 128-146 on the heights of the four grandchildren: the double rotation follows the inner one,
      the single one the child.  A height of -1 means that there is nothing to follow. */
  predicate TurnFaults(lh: int, rh: int, ll: int, lr: int, rl: int, rr: int) {
    match TurnAsWritten(lh, rh)
    case Balanced => false
    case FixLeft => lh == -1 || (U32(lr) > U32(ll) && lr == -1)
    case FixRight => rh == -1 || (U32(rl) > U32(rr) && rl == -1)
  }

  /** Exactly when `avl_fix` follows a null pointer at a node with these recorded heights. */
  lemma FaultsExactly(lh: int, rh: int, ll: int, lr: int, rl: int, rr: int)
    requires Height(lh) && Height(rh) && Height(ll) && Height(lr) && Height(rl) && Height(rr)
    ensures TurnFaults(lh, rh, ll, lr, rl, rr) <==>
            || lh == -1 || (lh == 0 && rh == -1)
            || (if 0 <= lh - rh <= 1 then rl == -1 && rr != -1 else lr == -1 && ll != -1)
  {
  }

  /** So every node that `tree_add` hangs into a tree is the end of the program: it is a leaf. */
  lemma NewLeafFaults(ll: int, lr: int, rl: int, rr: int)
    ensures TurnFaults(-1, -1, ll, lr, rl, rr)
  {
  }

  /** Line 242, with `max` of line 255. */
  function HeightAsWritten(lh: int, rh: int): nat {
    U32(1 + if U32(lh) > U32(rh) then U32(lh) else U32(rh))
  }

  /** The height comes out right exactly if both children are there or both are missing. */
  lemma HeightsAgree(lh: int, rh: int)
    requires Height(lh) && Height(rh)
    ensures HeightAsWritten(lh, rh) == 1 + (if lh > rh then lh else rh) <==> (lh == -1 <==> rh == -1)
  {
  }

  // ---------- src/zset.cpp:163: strcmp on names that may contain any byte ----------

  /** Line 163 for names of equal score, even if a NUL followed each of them. */
  predicate LessAsWritten(a: Bytes, b: Bytes) { LexLess(CStr(a), CStr(b)) }

  lemma {:induction false} CStrWhole(a: Bytes)
    ensures CStr(a) == a <==> 0 !in a
  {
    if a != [] && a[0] != 0 {
      CStrWhole(a[1..]);
      assert a == [a[0]] + a[1..];
    }
  }

  lemma {:induction false} CutDecides(a: Bytes, b: Bytes)
    requires CStr(a) != CStr(b)
    ensures LessAsWritten(a, b) <==> LexLess(a, b)
  {
    if a != [] && b != [] && a[0] == b[0] {
      CutDecides(a[1..], b[1..]);
      assert CStr(a)[1..] == CStr(a[1..]) && CStr(b)[1..] == CStr(b[1..]);
    }
  }

  /** Two names are put in an order exactly if they differ before their first NUL, and exactly these
      pairs, and equal names, are treated as meant. */
  lemma Ordered(a: Bytes, b: Bytes)
    ensures LessAsWritten(a, b) || LessAsWritten(b, a) <==> CStr(a) != CStr(b)
    ensures (LessAsWritten(a, b) <==> LexLess(a, b)) && (LessAsWritten(b, a) <==> LexLess(b, a))
            <==> CStr(a) != CStr(b) || a == b
    ensures 0 !in a && 0 !in b ==> CStr(a) != CStr(b) || a == b
  {
    LexTotal(CStr(a), CStr(b));
    LexTotal(a, b);
    if CStr(a) != CStr(b) {
      CutDecides(a, b);
      CutDecides(b, a);
    }
    CStrWhole(a);
    CStrWhole(b);
  }

  lemma TwoNamesTie()
    ensures var a: Bytes, b: Bytes := [97, 0, 98], [97, 0, 99];
            LexLess(a, b) && !LessAsWritten(a, b) && !LessAsWritten(b, a)
  {
  }

  // ---------- src/hashtable.cpp: the loop of hm_help_resizing ----------

  datatype Drained = Done | Fault

  function Sum(lens: seq<nat>): nat { if lens == [] then 0 else lens[0] + Sum(lens[1..]) }

  lemma {:induction false} SumZero(lens: seq<nat>)
    ensures Sum(lens) == 0 <==> forall i | 0 <= i < |lens| :: lens[i] == 0
  {
    if lens != [] {
      SumZero(lens[1..]);
      if Sum(lens) == 0 {
        forall i | 0 <= i < |lens| ensures lens[i] == 0 {
          if i > 0 { assert lens[1..][i - 1] == 0; }
        }
      } else if Sum(lens[1..]) != 0 {
        var i :| 0 <= i < |lens[1..]| && lens[1..][i] != 0;
        assert lens[i + 1] != 0;
      }
    }
  }

  /** Lines 132-138 on the chain lengths of the buckets from the cursor on.  An empty bucket is
      passed, the next one is not looked at, and nothing counts the work.  Detaching from an empty
      bucket follows a null pointer. */
  function DrainAsWritten(lens: seq<nat>): Drained
    decreases Sum(lens)
  {
    if Sum(lens) == 0 then Done
    else
      var here := if lens[0] == 0 then lens[1..] else lens;
      if here == [] || here[0] == 0 then Fault
      else
        var next := [here[0] - 1] + here[1..];
        assert next[1..] == here[1..] && Sum(lens) == Sum(here) == here[0] + Sum(here[1..]);
        DrainAsWritten(next)
  }

  /** Behind the cursor no empty bucket comes before one that is not empty. */
  ghost predicate NoGap(lens: seq<nat>) {
    forall i, j | 0 < i < j < |lens| && lens[i] == 0 :: lens[j] == 0
  }

  /** A call moves all nodes at once, whatever `k_resizing_work` says, or it follows a null
      pointer; the second exactly if the table has a gap. */
  lemma {:induction false} DrainsExactly(lens: seq<nat>)
    ensures DrainAsWritten(lens) == Done <==> NoGap(lens)
    decreases Sum(lens)
  {
    SumZero(lens);
    if Sum(lens) > 0 {
      var here := if lens[0] == 0 then lens[1..] else lens;
      if here != [] && here[0] > 0 {
        DrainsExactly([here[0] - 1] + here[1..]);
        NoGapStep(lens, here);
      } else {
        Gap(lens);
      }
    }
  }

  lemma Gap(lens: seq<nat>)
    requires |lens| > 0 && lens[0] == 0 && Sum(lens) > 0 && (|lens| == 1 || lens[1] == 0)
    ensures !NoGap(lens)
  {
  }

  lemma NoGapStep(lens: seq<nat>, here: seq<nat>)
    requires |lens| > 0 && here == (if lens[0] == 0 then lens[1..] else lens) && here != [] && here[0] > 0
    ensures NoGap([here[0] - 1] + here[1..]) <==> NoGap(lens)
  {
    var next := [here[0] - 1] + here[1..];
    var d := if lens[0] == 0 then 1 else 0;
    assert forall i {:trigger next[i]} | 1 <= i < |next| :: next[i] == lens[i + d];
    if NoGap(next) {
      forall i, j | 0 < i < j < |lens| && lens[i] == 0 ensures lens[j] == 0 {
        assert i > d && next[i - d] == lens[i] && next[j - d] == lens[j];
      }
    }
    if NoGap(lens) {
      forall i, j | 0 < i < j < |next| && next[i] == 0 ensures next[j] == 0 {
        assert lens[i + d] == 0;
      }
    }
  }

  /** Two nodes in buckets 0 and 2: the call does not survive. */
  lemma GapFaults()
    ensures DrainAsWritten([1, 0, 1, 0]) == Fault
  {
  }

  // ---------- src/server_utils.cpp:391-401: the length of an error message ----------

  /** What line 398 sends as the length is how long `out` is by then. */
  function OutErrAsWritten(out: Bytes, code: int, msg: Bytes): Bytes
    requires Fits(code, 4)
  {
    out + [SER_ERR] + SignedLe(code, 4) + Le(|out| + 5, 4) + msg
  }

  /** The client gets the message exactly if the two numbers happen to be equal. */
  lemma ErrAgrees(out: Bytes, code: int, msg: Bytes)
    requires Fits(code, 4) && |out| + 5 < TWO_32
    ensures Decode(OutErrAsWritten(out, code, msg)[|out|..], 8) == Some((Err(code, msg), 9 + |msg|)) <==> |msg| == |out| + 5
  {
    var data := OutErrAsWritten(out, code, msg)[|out|..];
    Widths();
    FromSignedLeLe(code, 4);
    LengthField(|out| + 5);
    assert data == [SER_ERR] + SignedLe(code, 4) + Le(|out| + 5, 4) + msg;
    assert data[1..5] == SignedLe(code, 4) && data[5..9] == Le(|out| + 5, 4);
    if |msg| == |out| + 5 {
      assert data == [SER_ERR] + SignedLe(code, 4) + Le(|out| + 5, 4) + msg + [];
      DecodeErrFields(data, SignedLe(code, 4), Le(|out| + 5, 4), msg, [], 8);
    }
  }

  /** The server writes errors into an empty buffer, so the client sees five bytes of them, and refuses
      the answer because it is longer. */
  lemma ErrorRefused(code: int, msg: Bytes)
    requires Fits(code, 4) && |msg| >= 5
    ensures var sent := OutErrAsWritten([], code, msg);
            && Decode(sent, 8) == Some((Err(code, msg[..5]), 14))
            && (14 == |sent| <==> |msg| == 5)
  {
    hide FromSignedLe, Le, FromLe, Fits;
    var a, b := SignedLe(code, 4), Le(5, 4);
    var sent := OutErrAsWritten([], code, msg);
    FromSignedLeLe(code, 4);
    LengthField(5);
    assert sent == [SER_ERR] + a + b + msg[..5] + msg[5..];
    DecodeErrFields(sent, a, b, msg[..5], msg[5..], 8);
  }

  /** That is the answer to every unknown command. */
  lemma UnknownRefused(x: Exchange)
    requires Lawful(x) && Classify(x.cmd).Unknown?
    ensures var sent := OutErrAsWritten([], ERR_UNKNOWN, Ascii("Unknown cmd"));
            && |sent| == |x.out| && Decode(sent, 8).Some? && Decode(sent, 8).value.1 != |sent|
  {
    Widths();
    ErrorRefused(ERR_UNKNOWN, Ascii("Unknown cmd"));
  }

  // ---------- src/client.cpp:164-176 against src/server_utils.cpp:384-389 ----------

  /** The client reads four bytes of an integer where the server sends eight, and refuses the answer
      to every deletion because five bytes are not all of it (lines 112-115). */
  lemma DeletionRefused(x: Exchange)
    requires Lawful(x) && Classify(x.cmd).Del?
    ensures Decode(Payload(x.out), 4).Some? && Decode(Payload(x.out), 4).value.1 != |Payload(x.out)|
  {
  }

  // ---------- src/server_utils.cpp:208: the assertion after a read ----------

  /** A read of up to `n` bytes leaves no room if `cap` bytes of room can be filled. */
  predicate FillsUp(n: nat, cap: nat, left: nat) { (n >= cap || cap == 1) && left >= cap }

  /** The assertion is reached if the peer has sent more, and then `rbuf_size < sizeof(rbuf)` fails exactly
      if the read fills the buffer. */
  method AssertionAfterRead(c: Conn) returns (reached: bool)
    requires c.Valid() && c.state == Req
    modifies c`state, c`rbufSize, c`cause, c`resumed, c.rbuf, c.sock`pos, c.sock`toRead, c.sock`lastRead
    ensures reached <==> Next(old(c.sock.toRead)).Moved? && old(c.sock.pos) < |c.sock.inbound|
    ensures reached ==>
              (c.rbufSize < c.rbuf.Length <==>
               !FillsUp(Next(old(c.sock.toRead)).n, old(c.rbuf.Length - c.rbufSize), |c.sock.inbound| - old(c.sock.pos)))
  {
    hide Conn.ReadBooks, Conn.WriteBooks, Conn.Explained, FrontOf;
    reached := c.Receive();
    assert |c.Pending()| == c.rbufSize;
  }

  /** The longest requests that are legal fill the buffer, so the assertion fails when one of them
      arrives in one piece. */
  method LongestRequest(key: Bytes) returns (c: Conn)
    requires |key| == 4081
    ensures c.Books() && c.state == Req && c.rbufSize == c.rbuf.Length
    ensures FrontOf(c.Pending()).Complete? && FrontOf(c.Pending()).cmd == [Ascii("get"), key]
  {
    var cmd := [Ascii("get"), key];
    SizeOfStrings(cmd);
    ghost var strings := cmd[1..];
    assert strings == [key] && TotalSize(strings[1..]) == 0;
    assert |EncodeBody(cmd)| == K_MAX_MSG;
    FrontOfFrame(cmd, []);
    var frame := Frame(EncodeBody(cmd));
    assert frame + [] == frame;
    c := EndToEnd.FirstRead(frame);
  }
}
