/** Octets, and byte strings in the order that `strcmp` gives to length-delimited names. */
module ByteStrings {

  type Byte = x: int | 0 <= x < 256
  type Bytes = seq<Byte>

  /** The first difference decides; a proper prefix comes first. */
  predicate LexLess(a: Bytes, b: Bytes) {
    if b == [] then false
    else if a == [] then true
    else if a[0] != b[0] then a[0] < b[0]
    else LexLess(a[1..], b[1..])
  }

  lemma {:induction false} LexTotal(a: Bytes, b: Bytes)
    ensures !(LexLess(a, b) && LexLess(b, a))
    ensures LexLess(a, b) || LexLess(b, a) <==> a != b
  {
    if a != [] && b != [] && a[0] == b[0] {
      LexTotal(a[1..], b[1..]);
      assert a == [a[0]] + a[1..] && b == [b[0]] + b[1..];
    }
  }

  lemma {:induction false} LexTransitive(a: Bytes, b: Bytes, c: Bytes)
    requires LexLess(a, b) && LexLess(b, c)
    ensures LexLess(a, c)
  {
    if a != [] && a[0] == b[0] && b[0] == c[0] {
      LexTransitive(a[1..], b[1..], c[1..]);
    }
  }

  /** On indices: a proper prefix, or smaller where the two first differ. */
  ghost predicate NameBefore(a: Bytes, b: Bytes) {
    || (|a| < |b| && forall i | 0 <= i < |a| :: a[i] == b[i])
    || exists k | 0 <= k < |a| && k < |b| :: a[k] < b[k] && forall i | 0 <= i < k :: a[i] == b[i]
  }

  lemma {:induction false} LexLessMeans(a: Bytes, b: Bytes)
    ensures LexLess(a, b) <==> NameBefore(a, b)
  {
    if a != [] && b != [] && a[0] == b[0] {
      var s, t := a[1..], b[1..];
      LexLessMeans(s, t);
      assert forall i | 0 < i < |a| && i < |b| :: a[i] == s[i - 1] && b[i] == t[i - 1];
      if NameBefore(s, t) && !(|s| < |t| && forall i | 0 <= i < |s| :: s[i] == t[i]) {
        var k :| 0 <= k < |s| && k < |t| && s[k] < t[k] && forall i | 0 <= i < k :: s[i] == t[i];
        assert a[k + 1] < b[k + 1] && forall i | 0 <= i < k + 1 :: a[i] == b[i];
      }
      if NameBefore(a, b) && !(|a| < |b| && forall i | 0 <= i < |a| :: a[i] == b[i]) {
        var k :| 0 <= k < |a| && k < |b| && a[k] < b[k] && forall i | 0 <= i < k :: a[i] == b[i];
        assert s[k - 1] < t[k - 1] && forall i | 0 <= i < k - 1 :: s[i] == a[i + 1] && t[i] == b[i + 1];
      }
    } else if a != [] && b != [] && a[0] < b[0] {
      assert a[0] < b[0];
    }
  }

  /** `str_hash`, in the 32-bit arithmetic of its accumulator. */
  function StrHash(data: Bytes): nat {
    if data == [] then 0x811C9DC5
    else ((StrHash(data[..|data| - 1]) + data[|data| - 1]) * 0x01000193) % 0x1_0000_0000
  }
}
