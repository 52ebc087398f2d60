/** Fixed-width little-endian integers, as memcpy of an unsigned or signed word leaves them. */
module LittleEndian {
  import opened ByteStrings
  import opened Bits

  function Pow256(n: nat): (p: nat)
    ensures p >= 1
  {
    if n == 0 then 1 else 256 * Pow256(n - 1)
  }

  /** The low `n` bytes of `x`: storing x into an n-byte word drops the rest. */
  function Le(x: nat, n: nat): (b: Bytes)
    ensures |b| == n
  {
    if n == 0 then [] else [x % 256] + Le(x / 256, n - 1)
  }

  function FromLe(b: Bytes): nat { if b == [] then 0 else b[0] + 256 * FromLe(b[1..]) }

  lemma ModStep(x: nat, m: nat)
    requires m > 0
    ensures x % (256 * m) == x % 256 + 256 * ((x / 256) % m)
    ensures x / (256 * m) == (x / 256) / m
  {
    var q, r := (x / 256) / m, (x / 256) % m;
    assert x / 256 == q * m + r;
    assert x == q * (256 * m) + (x % 256 + 256 * r);
    DivModUnique(x, 256 * m, q, x % 256 + 256 * r);
  }

  lemma {:induction false} FromLeLe(x: nat, n: nat)
    ensures FromLe(Le(x, n)) == x % Pow256(n)
  {
    if n > 0 {
      FromLeLe(x / 256, n - 1);
      ModStep(x, Pow256(n - 1));
      assert Le(x, n)[1..] == Le(x / 256, n - 1);
    }
  }

  /** The byte at each place: the least significant one comes first. */
  lemma {:induction false} ByteOfLe(x: nat, n: nat, i: nat)
    requires i < n
    ensures Le(x, n)[i] == x / Pow256(i) % 256
  {
    if i > 0 {
      ByteOfLe(x / 256, n - 1, i - 1);
      ModStep(x, Pow256(i - 1));
    }
  }

  lemma {:induction false} LeFromLe(b: Bytes)
    ensures Le(FromLe(b), |b|) == b && FromLe(b) < Pow256(|b|)
  {
    if b != [] {
      LeFromLe(b[1..]);
      var rest := FromLe(b[1..]);
      DivModUnique(b[0] + 256 * rest, 256, rest, b[0]);
      assert b == [b[0]] + b[1..];
    }
  }

  const TWO_32: nat := 0x1_0000_0000
  const TWO_64: nat := 0x1_0000_0000_0000_0000

  lemma Widths()
    ensures Pow256(4) == TWO_32 && Pow256(8) == TWO_64
  {
    assert Pow256(1) == 256 && Pow256(2) == 0x1_0000 && Pow256(3) == 0x100_0000;
    assert Pow256(5) == 256 * Pow256(4) && Pow256(6) == 256 * Pow256(5) && Pow256(7) == 256 * Pow256(6);
  }

  /** A four-byte length is read back. */
  lemma LengthField(n: nat)
    requires n < TWO_32
    ensures FromLe(Le(n, 4)) == n
  {
    Widths();
    FromLeLe(n, 4);
  }

  lemma ModSmall(i: int, p: int)
    requires p > 0 && -p <= i < p
    ensures i % p == if i < 0 then i + p else i
  {
  }

  /** Two's complement in `n` bytes. */
  function SignedLe(i: int, n: nat): Bytes { Le(i % Pow256(n), n) }

  function FromSignedLe(b: Bytes): int {
    var u, p := FromLe(b), Pow256(|b|);
    if u + u < p then u else u - p
  }

  /** `i` fits in an n-byte signed integer. */
  predicate Fits(i: int, n: nat) { var p: int := Pow256(n); -p <= i + i < p }

  lemma FromSignedLeLe(i: int, n: nat)
    requires Fits(i, n)
    ensures FromSignedLe(SignedLe(i, n)) == i
  {
    var p := Pow256(n);
    ModSmall(i, p);
    FromLeLe(i % p, n);
    ModSmall(i % p, p);
  }

  lemma SignedLeFromSignedLe(b: Bytes)
    ensures SignedLe(FromSignedLe(b), |b|) == b && Fits(FromSignedLe(b), |b|)
  {
    LeFromLe(b);
    ModSmall(FromSignedLe(b), Pow256(|b|));
  }
}
