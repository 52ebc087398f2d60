/** The request format: the client's `send_req` (src/client.cpp) and the server's `parse_req`
    (src/server_utils.cpp). */
module Request {
  import opened ByteStrings
  import opened Options
  import opened LittleEndian

  const K_MAX_MSG: nat := 4096

  /** Each string behind its length. */
  function EncodeStrings(cmd: seq<Bytes>): Bytes {
    if cmd == [] then [] else Le(|cmd[0]|, 4) + cmd[0] + EncodeStrings(cmd[1..])
  }

  /** The body of a request: the number of strings, then the strings. */
  function EncodeBody(cmd: seq<Bytes>): Bytes { Le(|cmd|, 4) + EncodeStrings(cmd) }

  /** What goes over the wire for one message. */
  function Frame(body: Bytes): Bytes { Le(|body|, 4) + body }

  ghost predicate Short(cmd: seq<Bytes>) { forall i | 0 <= i < |cmd| :: |cmd[i]| < TWO_32 }

  /** Exactly `n` strings and nothing after them. */
  function ParseStrings(data: Bytes, n: nat): Option<seq<Bytes>>
    decreases n
  {
    if n == 0 then (if data == [] then Some([]) else None)
    else if |data| < 4 then None
    else
      var sz := FromLe(data[..4]);
      if |data| < 4 + sz then None
      else
        var rest := ParseStrings(data[4 + sz..], n - 1);
        if rest == None then None else Some([data[4..4 + sz]] + rest.value)
  }

  function Parse(data: Bytes): Option<seq<Bytes>> {
    if |data| < 4 then None
    else
      var n := FromLe(data[..4]);
      if n > K_MAX_MSG then None else ParseStrings(data[4..], n)
  }

  // ---------- the two formats are one ----------

  lemma StringFields(a: Bytes, s: Bytes, rest: Bytes)
    requires |a| == 4
    ensures var d := a + s + rest; d[..4] == a && d[4..4 + |s|] == s && d[4 + |s|..] == rest
  {
  }

  lemma {:induction false} ParseStringsEncode(cmd: seq<Bytes>)
    requires Short(cmd)
    ensures ParseStrings(EncodeStrings(cmd), |cmd|) == Some(cmd)
  {
    if cmd != [] {
      var s, rest := cmd[0], EncodeStrings(cmd[1..]);
      LengthField(|s|);
      StringFields(Le(|s|, 4), s, rest);
      ParseStringsEncode(cmd[1..]);
      assert [cmd[0]] + cmd[1..] == cmd;
    }
  }

  lemma StringFieldsBack(data: Bytes)
    requires |data| >= 4 && |data| >= 4 + FromLe(data[..4])
    ensures var sz := FromLe(data[..4]);
            sz < TWO_32 && Le(sz, 4) + data[4..4 + sz] + data[4 + sz..] == data
  {
    Widths();
    LeFromLe(data[..4]);
    var sz := FromLe(data[..4]);
    assert data[..4] + data[4..4 + sz] + data[4 + sz..] == data;
  }

  lemma {:induction false} EncodeParseStrings(data: Bytes, n: nat)
    requires ParseStrings(data, n).Some?
    ensures var cmd := ParseStrings(data, n).value; |cmd| == n && Short(cmd) && EncodeStrings(cmd) == data
    decreases n
  {
    if n > 0 {
      var sz := FromLe(data[..4]);
      StringFieldsBack(data);
      EncodeParseStrings(data[4 + sz..], n - 1);
      var cmd := ParseStrings(data, n).value;
      assert cmd[1..] == ParseStrings(data[4 + sz..], n - 1).value;
    }
  }

  /** `parse_req` and the client's encoder are inverse to each other: a body parses to a list
      exactly when it is the encoding of that list. */
  lemma ParsesExactly(data: Bytes, cmd: seq<Bytes>)
    ensures Parse(data) == Some(cmd) <==> |cmd| <= K_MAX_MSG && Short(cmd) && data == EncodeBody(cmd)
  {
    if Parse(data) == Some(cmd) {
      LeFromLe(data[..4]);
      EncodeParseStrings(data[4..], FromLe(data[..4]));
      assert data == data[..4] + data[4..];
    }
    if |cmd| <= K_MAX_MSG && Short(cmd) && data == EncodeBody(cmd) {
      LengthField(|cmd|);
      assert data[..4] == Le(|cmd|, 4) && data[4..] == EncodeStrings(cmd);
      ParseStringsEncode(cmd);
    }
  }

  // ---------- sizes ----------

  function TotalSize(cmd: seq<Bytes>): nat { if cmd == [] then 0 else 4 + |cmd[0]| + TotalSize(cmd[1..]) }

  lemma {:induction false} SizeOfStrings(cmd: seq<Bytes>)
    ensures |EncodeStrings(cmd)| == TotalSize(cmd) >= 4 * |cmd|
    ensures forall i | 0 <= i < |cmd| :: |cmd[i]| <= TotalSize(cmd)
  {
    if cmd != [] {
      SizeOfStrings(cmd[1..]);
      assert forall i | 0 < i < |cmd| :: cmd[i] == cmd[1..][i - 1];
    }
  }

  lemma {:induction false} EncodeConcat(a: seq<Bytes>, b: seq<Bytes>)
    ensures EncodeStrings(a + b) == EncodeStrings(a) + EncodeStrings(b)
  {
    if a == [] {
      assert a + b == b;
    } else {
      assert (a + b)[1..] == a[1..] + b;
      EncodeConcat(a[1..], b);
      var x := Le(|a[0]|, 4) + a[0];
      assert x + (EncodeStrings(a[1..]) + EncodeStrings(b)) == x + EncodeStrings(a[1..]) + EncodeStrings(b);
    }
  }

  /** Where each string of a request is found. */
  lemma StringAt(cmd: seq<Bytes>, i: nat)
    requires i < |cmd|
    ensures var b, p := EncodeBody(cmd), 4 + TotalSize(cmd[..i]);
            && p + 4 + |cmd[i]| <= |b| == 4 + TotalSize(cmd) && b[..4] == Le(|cmd|, 4)
            && b[p..p + 4] == Le(|cmd[i]|, 4) && b[p + 4..p + 4 + |cmd[i]|] == cmd[i]
  {
    hide Le;
    var a, c, rest := cmd[..i], cmd[i..], EncodeStrings(cmd[i + 1..]);
    assert a + c == cmd && c[0] == cmd[i] && c[1..] == cmd[i + 1..];
    EncodeConcat(a, c);
    SizeOfStrings(a);
    SizeOfStrings(cmd);
    assert EncodeStrings(c) == Le(|cmd[i]|, 4) + cmd[i] + rest;
    var h, f := Le(|cmd|, 4) + EncodeStrings(a), Le(|cmd[i]|, 4) + cmd[i] + rest;
    assert EncodeBody(cmd) == h + f;
    assert (h + f)[|h|..|h| + 4] == f[..4] && (h + f)[|h| + 4..|h| + 4 + |cmd[i]|] == f[4..4 + |cmd[i]|];
    StringFields(Le(|cmd[i]|, 4), cmd[i], rest);
  }

  // ---------- the code ----------

  /** A parse that continues one which has found `out`. */
  function Continue(out: seq<Bytes>, rest: Option<seq<Bytes>>): Option<seq<Bytes>> {
    if rest == None then None else Some(out + rest.value)
  }

  lemma ContinueStep(out: seq<Bytes>, data: Bytes, n: nat)
    requires n > 0
    ensures Continue(out, ParseStrings(data, n)) ==
            if |data| < 4 || |data| < 4 + FromLe(data[..4]) then None
            else var sz := FromLe(data[..4]); Continue(out + [data[4..4 + sz]], ParseStrings(data[4 + sz..], n - 1))
  {
    if |data| >= 4 && |data| >= 4 + FromLe(data[..4]) {
      var sz := FromLe(data[..4]);
      var rest := ParseStrings(data[4 + sz..], n - 1);
      if rest.Some? {
        assert out + ([data[4..4 + sz]] + rest.value) == out + [data[4..4 + sz]] + rest.value;
      }
    }
  }

  lemma ContinueEnds(out: seq<Bytes>, data: Bytes, rest: Option<seq<Bytes>>)
    ensures Continue(out, ParseStrings(data, 0)) == if data == [] then Some(out) else None
    ensures Continue([], rest) == rest
  {
    assert out + [] == out;
    if rest.Some? { assert [] + rest.value == rest.value; }
  }

  /** Lines 269-276: one string at `pos`, if it is all there. */
  method NextString(data: Bytes, pos: nat) returns (ok: bool, s: Bytes, next: nat)
    requires pos <= |data|
    ensures var d := data[pos..];
            ok == (|d| >= 4 && |d| >= 4 + FromLe(d[..4])) &&
            (ok ==> var sz := FromLe(d[..4]);
                    s == d[4..4 + sz] && next == pos + 4 + sz <= |data| && data[next..] == d[4 + sz..])
  {
    hide FromLe;
    ok, s, next := false, [], pos;
    if pos + 4 > |data| {
      return;
    }
    assert data[pos..][..4] == data[pos..pos + 4];
    var sz := FromLe(data[pos..pos + 4]);
    if pos + 4 + sz > |data| {
      return;
    }
    ok, s, next := true, data[pos + 4..pos + 4 + sz], pos + 4 + sz;
  }

  /** `parse_req`; on failure `out` is whatever had been found by then. */
  method ParseReq(data: Bytes) returns (rc: int, out: seq<Bytes>)
    ensures rc == 0 || rc == -1
    ensures rc == 0 ==> Parse(data) == Some(out)
    ensures rc == -1 ==> Parse(data) == None
  {
    hide ParseStrings, FromLe;
    out := [];
    if |data| < 4 {
      return -1, out;
    }
    var n: nat := FromLe(data[..4]);
    if n > K_MAX_MSG {
      return -1, out;
    }
    var pos: nat := 4;
    ContinueEnds([], [], ParseStrings(data[4..], n));
    while n > 0
      invariant pos <= |data| && Parse(data) == Continue(out, ParseStrings(data[pos..], n))
    {
      ContinueStep(out, data[pos..], n);
      n := n - 1;
      var ok, s, next := NextString(data, pos);
      if !ok {
        return -1, out;
      }
      out := out + [s];
      pos := next;
    }
    ContinueEnds(out, data[pos..], None);
    rc := if pos != |data| then -1 else 0;
  }

  /** memcpy into a buffer. */
  method Put(buf: array<Byte>, at: nat, bytes: Bytes)
    requires at + |bytes| <= buf.Length
    modifies buf
    ensures buf[..at] == old(buf[..at]) && buf[at..at + |bytes|] == bytes
    ensures buf[at + |bytes|..] == old(buf[at + |bytes|..])
  {
    forall i | 0 <= i < |bytes| {
      buf[at + i] := bytes[i];
    }
  }

  /** Appending in a buffer that is filled up to `cur`. */
  method Append(buf: array<Byte>, cur: nat, bytes: Bytes)
    requires cur + |bytes| <= buf.Length
    modifies buf
    ensures buf[..cur + |bytes|] == old(buf[..cur]) + bytes
  {
    Put(buf, cur, bytes);
    assert buf[..cur + |bytes|] == buf[..cur] + buf[cur..cur + |bytes|];
  }

  /** The first loop of `send_req`. */
  method BodyLength(cmd: seq<Bytes>) returns (len: nat)
    ensures len == |EncodeBody(cmd)|
  {
    len := 4;
    for i := 0 to |cmd|
      invariant len == 4 + TotalSize(cmd) - TotalSize(cmd[i..])
    {
      len := len + 4 + |cmd[i]|;
      assert cmd[i..][1..] == cmd[i + 1..];
    }
    assert cmd[|cmd|..] == [] && cmd[0..] == cmd;
    SizeOfStrings(cmd);
  }

  lemma PrefixSize(cmd: seq<Bytes>, i: nat)
    requires i < |cmd|
    ensures EncodeStrings(cmd[..i + 1]) == EncodeStrings(cmd[..i]) + (Le(|cmd[i]|, 4) + cmd[i])
    ensures |EncodeStrings(cmd[..i + 1])| <= |EncodeStrings(cmd)|
  {
    var x := Le(|cmd[i]|, 4) + cmd[i];
    assert cmd[..i + 1] == cmd[..i] + [cmd[i]] && cmd[..i + 1] + cmd[i + 1..] == cmd;
    assert EncodeStrings([cmd[i]]) == x + EncodeStrings([]) == x;
    EncodeConcat(cmd[..i], [cmd[i]]);
    EncodeConcat(cmd[..i + 1], cmd[i + 1..]);
  }

  lemma Assoc(a: Bytes, b: Bytes, c: Bytes)
    ensures a + b + c == a + (b + c)
  {
  }

  /** One string behind its length. */
  method PutString(buf: array<Byte>, cur: nat, s: Bytes)
    requires cur + 4 + |s| <= buf.Length
    modifies buf
    ensures buf[..cur + 4 + |s|] == old(buf[..cur]) + (Le(|s|, 4) + s)
  {
    hide Le;
    ghost var before := buf[..cur];
    var p := Le(|s|, 4);
    Append(buf, cur, p);
    Append(buf, cur + 4, s);
    assert before + (p + s) == before + p + s;
  }

  /** The second loop of `send_req`. */
  method PutStrings(buf: array<Byte>, cur0: nat, cmd: seq<Bytes>) returns (cur: nat)
    requires cur0 + |EncodeStrings(cmd)| <= buf.Length
    modifies buf
    ensures cur == cur0 + |EncodeStrings(cmd)| && buf[..cur] == old(buf[..cur0]) + EncodeStrings(cmd)
  {
    cur := cur0;
    for i := 0 to |cmd|
      invariant cur == cur0 + |EncodeStrings(cmd[..i])| <= buf.Length
      invariant buf[..cur] == old(buf[..cur0]) + EncodeStrings(cmd[..i])
    {
      PrefixSize(cmd, i);
      hide EncodeStrings, Le;
      ghost var before := old(buf[..cur0]);
      PutString(buf, cur, cmd[i]);
      cur := cur + 4 + |cmd[i]|;
      Assoc(before, EncodeStrings(cmd[..i]), Le(|cmd[i]|, 4) + cmd[i]);
    }
    assert cmd[..|cmd|] == cmd;
  }

  /** `send_req` up to the call of write_all, whose argument is `sent`. */
  method SendReq(cmd: seq<Bytes>) returns (rc: int, sent: Bytes)
    ensures rc == (if |EncodeBody(cmd)| > K_MAX_MSG then -1 else 0)
    ensures sent == if rc == 0 then Frame(EncodeBody(cmd)) else []
  {
    var len := BodyLength(cmd);
    if len > K_MAX_MSG {
      return -1, [];
    }
    hide EncodeStrings, Le;
    var wbuf := new Byte[4 + K_MAX_MSG];
    Append(wbuf, 0, Le(len, 4));
    Append(wbuf, 4, Le(|cmd|, 4));
    var cur := PutStrings(wbuf, 8, cmd);
    assert Le(len, 4) + Le(|cmd|, 4) + EncodeStrings(cmd) == Le(len, 4) + (Le(|cmd|, 4) + EncodeStrings(cmd));
    rc, sent := 0, wbuf[..4 + len];
  }
}
