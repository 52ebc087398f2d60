/** The reply format: the server's `out_*` encoders (src/server_utils.cpp) and the client's
    recursive `on_response` (src/client.cpp). */
module Wire {
  import opened ByteStrings
  import opened Options
  import opened LittleEndian

  datatype Value =
    | Nil
    | Err(code: int, msg: Bytes)
    | Str(s: Bytes)
    | Int(i: int)
    | Arr(elems: seq<Value>)

  const SER_NIL: Byte := 0
  const SER_ERR: Byte := 1
  const SER_STR: Byte := 2
  const SER_INT: Byte := 3
  const SER_ARR: Byte := 4

  /** The documented encoding; array elements follow their header back to back. */
  function Encode(v: Value): (b: Bytes)
    ensures |b| >= 1
  {
    match v
    case Nil => [SER_NIL]
    case Err(code, msg) => [SER_ERR] + SignedLe(code, 4) + Le(|msg|, 4) + msg
    case Str(s) => [SER_STR] + Le(|s|, 4) + s
    case Int(i) => [SER_INT] + SignedLe(i, 8)
    case Arr(elems) => [SER_ARR] + Le(|elems|, 4) + EncodeAll(elems)
  }

  function EncodeAll(vs: seq<Value>): Bytes {
    if vs == [] then [] else Encode(vs[0]) + EncodeAll(vs[1..])
  }

  /** Where each field of an encoding is found. */
  lemma Layout(v: Value)
    ensures var b := Encode(v);
            match v {
              case Nil => b == [0]
              case Err(code, msg) => |b| == 9 + |msg| && b[0] == 1 && b[1..5] == SignedLe(code, 4) && b[5..9] == Le(|msg|, 4) && b[9..] == msg
              case Str(s) => |b| == 5 + |s| && b[0] == 2 && b[1..5] == Le(|s|, 4) && b[5..] == s
              case Int(i) => |b| == 9 && b[0] == 3 && b[1..] == SignedLe(i, 8)
              case Arr(elems) => |b| >= 5 && b[0] == 4 && b[1..5] == Le(|elems|, 4) && b[5..] == EncodeAll(elems)
            }
  {
  }

  /** Where each element of an array is found. */
  lemma {:induction false} ElementAt(vs: seq<Value>, i: nat)
    requires i < |vs|
    ensures EncodeAll(vs) == EncodeAll(vs[..i]) + Encode(vs[i]) + EncodeAll(vs[i + 1..])
  {
    hide Encode;
    if i > 0 {
      ElementAt(vs[1..], i - 1);
      assert vs[1..][..i - 1] == vs[..i][1..] && vs[1..][i - 1] == vs[i] && vs[1..][i..] == vs[i + 1..];
      var a, b, c := EncodeAll(vs[..i][1..]), Encode(vs[i]), EncodeAll(vs[i + 1..]);
      assert Encode(vs[0]) + (a + b + c) == (Encode(vs[0]) + a) + b + c;
    } else {
      assert EncodeAll(vs[..0]) == [];
    }
  }

  /** Every number fits the field it is sent in. */
  predicate WellSized(v: Value) {
    match v
    case Nil => true
    case Err(code, msg) => Fits(code, 4) && |msg| < TWO_32
    case Str(s) => |s| < TWO_32
    case Int(i) => Fits(i, 8)
    case Arr(elems) => |elems| < TWO_32 && AllWellSized(elems)
  }

  predicate AllWellSized(vs: seq<Value>) { vs == [] || (WellSized(vs[0]) && AllWellSized(vs[1..])) }

  /** What `on_response` shows for a prefix of `data`, and how many bytes that prefix has.
      `k` is the width it reads for an integer: 8 by the format, 4 in src/client.cpp:167-175. */
  function Decode(data: Bytes, k: nat): (r: Option<(Value, nat)>)
    ensures r.Some? ==> 1 <= r.value.1 <= |data|
    decreases |data|, 0
  {
    if data == [] then None
    else if data[0] == SER_NIL then Some((Nil, 1))
    else if data[0] == SER_ERR then
      if |data| - 1 < 8 then None
      else
        var n := FromLe(data[5..9]);
        if |data| - 9 < n then None else Some((Err(FromSignedLe(data[1..5]), data[9..9 + n]), 9 + n))
    else if data[0] == SER_INT then
      if |data| - 1 < k then None else Some((Int(FromSignedLe(data[1..1 + k])), 1 + k))
    else if |data| - 1 < 4 then None
    else
      var n := FromLe(data[1..5]);
      if data[0] == SER_STR then
        if |data| - 5 < n then None else Some((Str(data[5..5 + n]), 5 + n))
      else if data[0] == SER_ARR then
        var rest := DecodeMany(data[5..], n, k);
        if rest == None then None else Some((Arr(rest.value.0), 5 + rest.value.1))
      else None
  }

  function DecodeMany(data: Bytes, n: nat, k: nat): (r: Option<(seq<Value>, nat)>)
    ensures r.Some? ==> n <= r.value.1 <= |data| && |r.value.0| == n
    decreases |data|, 1, n
  {
    if n == 0 then Some(([], 0))
    else
      var first := Decode(data, k);
      if first == None then None
      else
        var rest := DecodeMany(data[first.value.1..], n - 1, k);
        if rest == None then None
        else Some(([first.value.0] + rest.value.0, first.value.1 + rest.value.1))
  }

  /** The client's view of a value: how many bytes it takes for it when integers have `k`. */
  function SizeFor(v: Value, k: nat): nat {
    match v
    case Nil => 1
    case Err(code, msg) => 9 + |msg|
    case Str(s) => 5 + |s|
    case Int(i) => 1 + k
    case Arr(elems) => 5 + SizeForAll(elems, k)
  }

  function SizeForAll(vs: seq<Value>, k: nat): nat {
    if vs == [] then 0 else SizeFor(vs[0], k) + SizeForAll(vs[1..], k)
  }

  predicate NoInt(v: Value) {
    match v
    case Int(i) => false
    case Arr(elems) => NoIntIn(elems)
    case _ => true
  }

  predicate NoIntIn(vs: seq<Value>) { vs == [] || (NoInt(vs[0]) && NoIntIn(vs[1..])) }

  // ---------- decoding inverts encoding ----------

  // Each kind of value, with the integer fields as arbitrary words `a` and `b`.

  lemma DecodeErrFields(data: Bytes, a: Bytes, b: Bytes, msg: Bytes, tail: Bytes, k: nat)
    requires data == [SER_ERR] + a + b + msg + tail && |a| == |b| == 4 && FromLe(b) == |msg|
    ensures Decode(data, k) == Some((Err(FromSignedLe(a), msg), 9 + |msg|))
  {
    assert data[1..5] == a && data[5..9] == b && data[9..9 + |msg|] == msg;
  }

  lemma DecodeStrFields(data: Bytes, a: Bytes, s: Bytes, tail: Bytes, k: nat)
    requires data == [SER_STR] + a + s + tail && |a| == 4 && FromLe(a) == |s|
    ensures Decode(data, k) == Some((Str(s), 5 + |s|))
  {
    assert data[1..5] == a && data[5..5 + |s|] == s;
  }

  lemma DecodeIntFields(data: Bytes, a: Bytes, tail: Bytes)
    requires data == [SER_INT] + a + tail
    ensures Decode(data, |a|) == Some((Int(FromSignedLe(a)), 1 + |a|))
  {
    assert data[1..1 + |a|] == a;
  }

  lemma DecodeArrFields(data: Bytes, a: Bytes, n: nat, rest: Bytes, k: nat)
    requires data == [SER_ARR] + a + rest && |a| == 4 && FromLe(a) == n
    ensures var r := DecodeMany(rest, n, k);
            Decode(data, k) == if r == None then None else Some((Arr(r.value.0), 5 + r.value.1))
  {
    assert data[1..5] == a && data[5..] == rest;
  }

  /** Whatever follows it, an encoded value decodes to itself and to nothing more, provided its
      integers are read in the width they were written in. */
  lemma {:induction false} DecodeEncode(v: Value, tail: Bytes, k: nat)
    requires WellSized(v) && (k == 8 || NoInt(v))
    ensures Decode(Encode(v) + tail, k) == Some((v, |Encode(v)|))
    decreases v, 0
  {
    var data := Encode(v) + tail;
    match v
    case Nil =>
    case Err(code, msg) =>
      FromSignedLeLe(code, 4);
      LengthField(|msg|);
      DecodeErrFields(data, SignedLe(code, 4), Le(|msg|, 4), msg, tail, k);
    case Str(s) =>
      LengthField(|s|);
      DecodeStrFields(data, Le(|s|, 4), s, tail, k);
    case Int(i) =>
      FromSignedLeLe(i, 8);
      DecodeIntFields(data, SignedLe(i, 8), tail);
    case Arr(elems) =>
      LengthField(|elems|);
      assert data == [SER_ARR] + Le(|elems|, 4) + (EncodeAll(elems) + tail);
      DecodeArrFields(data, Le(|elems|, 4), |elems|, EncodeAll(elems) + tail, k);
      DecodeManyEncode(elems, tail, k);
  }

  lemma Cut<T>(a: seq<T>, b: seq<T>, c: seq<T>)
    ensures (a + b)[|a|..] == b && a + b + c == a + (b + c)
  {
  }

  lemma Join<T>(s: seq<T>, c: nat, d: nat)
    requires c + d <= |s|
    ensures s[..c + d] == s[..c] + s[c..][..d]
  {
  }

  lemma DecodeManyStep(data: Bytes, n: nat, k: nat, v: Value, c: nat, vs: seq<Value>, d: nat)
    requires n > 0 && c <= |data| && Decode(data, k) == Some((v, c)) && DecodeMany(data[c..], n - 1, k) == Some((vs, d))
    ensures DecodeMany(data, n, k) == Some(([v] + vs, c + d))
  {
  }

  lemma DecodeManyCons(v: Value, vs: seq<Value>, tail: Bytes, k: nat)
    requires Decode(Encode(v) + (EncodeAll(vs) + tail), k) == Some((v, |Encode(v)|))
    requires DecodeMany(EncodeAll(vs) + tail, |vs|, k) == Some((vs, |EncodeAll(vs)|))
    ensures DecodeMany((Encode(v) + EncodeAll(vs)) + tail, |vs| + 1, k) == Some(([v] + vs, |Encode(v)| + |EncodeAll(vs)|))
  {
    hide Decode, DecodeMany, Encode, EncodeAll;
    var a, b := Encode(v), EncodeAll(vs);
    Cut(a, b, tail);
    Cut(a, b + tail, []);
    DecodeManyStep(a + (b + tail), |vs| + 1, k, v, |a|, vs, |b|);
  }

  lemma {:induction false} DecodeManyEncode(vs: seq<Value>, tail: Bytes, k: nat)
    requires AllWellSized(vs) && (k == 8 || NoIntIn(vs))
    ensures DecodeMany(EncodeAll(vs) + tail, |vs|, k) == Some((vs, |EncodeAll(vs)|))
    decreases vs, 1
  {
    if vs != [] {
      hide Decode, DecodeMany, Encode, WellSized, NoInt;
      DecodeEncode(vs[0], EncodeAll(vs[1..]) + tail, k);
      DecodeManyEncode(vs[1..], tail, k);
      assert EncodeAll(vs) == Encode(vs[0]) + EncodeAll(vs[1..]);
      hide EncodeAll, AllWellSized, NoIntIn;
      DecodeManyCons(vs[0], vs[1..], tail, k);
      assert [vs[0]] + vs[1..] == vs;
    }
  }

  // ---------- encoding inverts decoding ----------

  lemma Fields(data: Bytes, i: nat, j: nat, n: nat)
    requires 1 <= i <= j <= n <= |data|
    ensures data[..n] == [data[0]] + data[1..i] + data[i..j] + data[j..n]
    ensures data[..n] == [data[0]] + data[1..i] + data[i..n]
  {
  }

  lemma LengthFieldBack(b: Bytes)
    requires |b| == 4
    ensures Le(FromLe(b), 4) == b && FromLe(b) < TWO_32
  {
    Widths();
    LeFromLe(b);
  }

  /** The values that hold no others. */
  lemma ScalarBack(data: Bytes)
    requires Decode(data, 8).Some? && !Decode(data, 8).value.0.Arr?
    ensures var (v, n) := Decode(data, 8).value; WellSized(v) && data[..n] == Encode(v)
  {
    hide Le, FromLe, SignedLe, FromSignedLe, Fits;
    var (v, n) := Decode(data, 8).value;
    match v
    case Nil =>
    case Err(code, msg) =>
      SignedLeFromSignedLe(data[1..5]);
      LengthFieldBack(data[5..9]);
      Fields(data, 5, 9, n);
    case Str(s) =>
      LengthFieldBack(data[1..5]);
      Fields(data, 5, 5, n);
    case Int(i) =>
      SignedLeFromSignedLe(data[1..9]);
      Fields(data, 9, 9, n);
  }

  lemma ArrBack(data: Bytes, vs: seq<Value>, m: nat)
    requires 5 + m <= |data| && data[0] == SER_ARR && |vs| == FromLe(data[1..5])
    requires AllWellSized(vs) && data[5..][..m] == EncodeAll(vs)
    ensures WellSized(Arr(vs)) && data[..5 + m] == Encode(Arr(vs))
  {
    LengthFieldBack(data[1..5]);
    hide Le, FromLe;
    Fields(data, 5, 5, 5 + m);
    assert data[5..][..m] == data[5..5 + m];
  }

  /** What decodes was an encoding: the bytes taken are exactly those of the value shown. */
  lemma {:induction false} EncodeDecode(data: Bytes)
    requires Decode(data, 8).Some?
    ensures var (v, n) := Decode(data, 8).value; WellSized(v) && data[..n] == Encode(v)
    decreases |data|, 0
  {
    hide Encode, EncodeAll, WellSized, AllWellSized, FromLe;
    var (v, n) := Decode(data, 8).value;
    if v.Arr? {
      EncodeDecodeMany(data[5..], FromLe(data[1..5]));
      ArrBack(data, v.elems, n - 5);
    } else {
      ScalarBack(data);
    }
  }

  lemma {:induction false} EncodeDecodeMany(data: Bytes, n: nat)
    requires DecodeMany(data, n, 8).Some?
    ensures var (vs, m) := DecodeMany(data, n, 8).value; AllWellSized(vs) && data[..m] == EncodeAll(vs)
    decreases |data|, 1, n
  {
    if n > 0 {
      EncodeDecode(data);
      var c := Decode(data, 8).value.1;
      EncodeDecodeMany(data[c..], n - 1);
      var (vs, m) := DecodeMany(data, n, 8).value;
      var rest := DecodeMany(data[c..], n - 1, 8).value;
      assert vs[1..] == rest.0 && m == c + rest.1;
      Join(data, c, rest.1);
    }
  }

  /** The two together: the client accepts exactly the encodings, and reads each to its end. */
  lemma DecodesExactly(data: Bytes, v: Value, n: nat)
    ensures Decode(data, 8) == Some((v, n)) <==> WellSized(v) && n == |Encode(v)| <= |data| && data[..n] == Encode(v)
  {
    hide Encode, Decode, WellSized;
    if Decode(data, 8) == Some((v, n)) {
      EncodeDecode(data);
    }
    if WellSized(v) && n == |Encode(v)| <= |data| && data[..n] == Encode(v) {
      assert data == Encode(v) + data[n..];
      DecodeEncode(v, data[n..], 8);
    }
  }

  // ---------- a client that reads a different integer width ----------

  /** Whatever the bytes, a value that is shown took the bytes its kind takes at that width. */
  lemma {:induction false} DecodeTakes(data: Bytes, k: nat)
    requires Decode(data, k).Some?
    ensures Decode(data, k).value.1 == SizeFor(Decode(data, k).value.0, k)
    decreases |data|, 0
  {
    var (v, n) := Decode(data, k).value;
    if v.Arr? {
      DecodeManyTakes(data[5..], FromLe(data[1..5]), k);
    }
  }

  lemma {:induction false} DecodeManyTakes(data: Bytes, n: nat, k: nat)
    requires DecodeMany(data, n, k).Some?
    ensures DecodeMany(data, n, k).value.1 == SizeForAll(DecodeMany(data, n, k).value.0, k)
    decreases |data|, 1, n
  {
    if n > 0 {
      DecodeTakes(data, k);
      var c := Decode(data, k).value.1;
      DecodeManyTakes(data[c..], n - 1, k);
      var (vs, m) := DecodeMany(data, n, k).value;
      assert vs[1..] == DecodeMany(data[c..], n - 1, k).value.0;
    }
  }

  lemma {:induction false} SizeOfEncoding(v: Value)
    ensures |Encode(v)| == SizeFor(v, 8)
    decreases v, 0
  {
    if v.Arr? { SizeOfEncodings(v.elems); }
  }

  lemma {:induction false} SizeOfEncodings(vs: seq<Value>)
    ensures |EncodeAll(vs)| == SizeForAll(vs, 8)
    decreases vs, 1
  {
    if vs != [] {
      SizeOfEncoding(vs[0]);
      SizeOfEncodings(vs[1..]);
    }
  }

  lemma {:induction false} NarrowSize(v: Value)
    ensures SizeFor(v, 4) <= SizeFor(v, 8)
    ensures SizeFor(v, 4) == SizeFor(v, 8) <==> NoInt(v)
    decreases v, 0
  {
    if v.Arr? { NarrowSizes(v.elems); }
  }

  lemma {:induction false} NarrowSizes(vs: seq<Value>)
    ensures SizeForAll(vs, 4) <= SizeForAll(vs, 8)
    ensures SizeForAll(vs, 4) == SizeForAll(vs, 8) <==> NoIntIn(vs)
    decreases vs, 1
  {
    if vs != [] {
      NarrowSize(vs[0]);
      NarrowSizes(vs[1..]);
    }
  }

  /** The client as written reads 4 bytes for an integer where the server writes 8: it gets a
      value back, in full, exactly when the value has no integer in it. */
  lemma NarrowClientDecodes(v: Value, tail: Bytes)
    requires WellSized(v)
    ensures Decode(Encode(v) + tail, 4) == Some((v, |Encode(v)|)) <==> NoInt(v)
  {
    if NoInt(v) {
      DecodeEncode(v, tail, 4);
    }
    if Decode(Encode(v) + tail, 4) == Some((v, |Encode(v)|)) {
      DecodeTakes(Encode(v) + tail, 4);
      SizeOfEncoding(v);
      NarrowSize(v);
    }
  }

  // ---------- the code ----------

  method OutNil(out: Bytes) returns (out': Bytes)
    ensures out' == out + Encode(Nil)
  {
    out' := out + [SER_NIL];
  }

  method OutStr(out: Bytes, val: Bytes) returns (out': Bytes)
    ensures out' == out + Encode(Str(val))
  {
    out' := out + [SER_STR];
    out' := out' + Le(|val|, 4);
    out' := out' + val;
  }

  method OutInt(out: Bytes, val: int) returns (out': Bytes)
    ensures out' == out + Encode(Int(val))
  {
    out' := out + [SER_INT];
    out' := out' + SignedLe(val, 8);
  }

  /** The length field is that of the message, as the comment at lines 392-395 has it; line 398
      writes the length of the output so far, see OutErrAsWritten. */
  method OutErr(out: Bytes, code: int, msg: Bytes) returns (out': Bytes)
    ensures out' == out + Encode(Err(code, msg))
  {
    out' := out + [SER_ERR];
    out' := out' + SignedLe(code, 4);
    out' := out' + Le(|msg|, 4);
    out' := out' + msg;
  }

  /** An array header; the elements are appended by further calls. */
  method OutArr(out: Bytes, n: nat) returns (out': Bytes)
    ensures forall vs: seq<Value> | |vs| == n :: out' + EncodeAll(vs) == out + Encode(Arr(vs))
  {
    out' := out + [SER_ARR];
    out' := out' + Le(n, 4);
  }

  /** `on_response`: the count of bytes used, or -1; `shown` is what has been printed. */
  method OnResponse(data: Bytes, k: nat) returns (rv: int, shown: Value)
    requires k == 4 || k == 8
    ensures rv == -1 <==> Decode(data, k) == None
    ensures rv != -1 ==> Decode(data, k) == Some((shown, rv)) && 1 <= rv <= |data|
    decreases |data|
  {
    rv, shown := -1, Nil;
    if |data| < 1 {
      return;
    }
    if data[0] == SER_NIL {
      return 1, Nil;
    } else if data[0] == SER_ERR {
      if |data| - 1 < 8 {
        return;
      }
      var errCode := FromSignedLe(data[1..5]);
      var msgLen := FromLe(data[5..9]);
      if |data| - 9 < msgLen {
        return;
      }
      return 9 + msgLen, Err(errCode, data[9..9 + msgLen]);
    } else if data[0] == SER_INT {
      if |data| - 1 < k {
        return;
      }
      return 1 + k, Int(FromSignedLe(data[1..1 + k]));
    } else if data[0] == SER_STR {
      if |data| - 1 < 4 {
        return;
      }
      var msgLen := FromLe(data[1..5]);
      if |data| - 5 < msgLen {
        return;
      }
      return 5 + msgLen, Str(data[5..5 + msgLen]);
    } else if data[0] == SER_ARR {
      if |data| - 1 < 4 {
        return;
      }
      var arrLen := FromLe(data[1..5]);
      var parsed, elems := OnElements(data, arrLen, k);
      return parsed, Arr(elems);
    }
  }

  /** A decoding that continues one which has shown `elems` in `used` bytes. */
  function Continue(elems: seq<Value>, used: nat, rest: Option<(seq<Value>, nat)>): Option<(seq<Value>, nat)> {
    if rest == None then None else Some((elems + rest.value.0, used + rest.value.1))
  }

  lemma ContinueStep(elems: seq<Value>, used: nat, data: Bytes, n: nat, k: nat)
    requires n > 0
    ensures Continue(elems, used, DecodeMany(data, n, k)) ==
            var first := Decode(data, k);
            if first == None then None
            else Continue(elems + [first.value.0], used + first.value.1, DecodeMany(data[first.value.1..], n - 1, k))
  {
    var first := Decode(data, k);
    if first.Some? {
      var rest := DecodeMany(data[first.value.1..], n - 1, k);
      if rest.Some? {
        assert elems + ([first.value.0] + rest.value.0) == elems + [first.value.0] + rest.value.0;
      }
    }
  }

  lemma ContinueStarts(rest: Option<(seq<Value>, nat)>)
    ensures Continue([], 0, rest) == rest
  {
    if rest.Some? { assert [] + rest.value.0 == rest.value.0; }
  }

  lemma ContinueEnds(elems: seq<Value>, used: nat, data: Bytes, k: nat)
    ensures Continue(elems, used, DecodeMany(data, 0, k)) == Some((elems, used))
  {
    assert elems + [] == elems;
  }

  /** The loop over the entries of an array.  The test at line 213 never fires: every entry lies
      within the data. */
  method OnElements(data: Bytes, arrLen: nat, k: nat) returns (parsed: int, elems: seq<Value>)
    requires (k == 4 || k == 8) && |data| >= 5
    ensures parsed == -1 <==> DecodeMany(data[5..], arrLen, k) == None
    ensures parsed != -1 ==> parsed >= 5 && DecodeMany(data[5..], arrLen, k) == Some((elems, parsed - 5))
    decreases |data|, 0
  {
    hide Decode, DecodeMany;
    parsed, elems := 5, [];
    ContinueStarts(DecodeMany(data[5..], arrLen, k));
    for arrI := 0 to arrLen
      invariant 5 <= parsed <= |data|
      invariant DecodeMany(data[5..], arrLen, k) ==
                Continue(elems, parsed - 5, DecodeMany(data[parsed..], arrLen - arrI, k))
    {
      ContinueStep(elems, parsed - 5, data[parsed..], arrLen - arrI, k);
      ghost var first := Decode(data[parsed..], k);
      var passBytes, shown := OnResponse(data[parsed..], k);
      if passBytes < 0 {
        return -1, elems;
      }
      assert data[parsed..][passBytes..] == data[parsed + passBytes..];
      parsed := parsed + passBytes;
      elems := elems + [shown];
    }
    ContinueEnds(elems, parsed - 5, data[parsed..], k);
  }
}
