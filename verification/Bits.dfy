/** The bitwise `&` of size_t on natural numbers, and what masking with a power of two does. */
module Bits {

  function And(a: nat, b: nat): (r: nat)
    ensures r <= b
  {
    if a == 0 || b == 0 then 0 else (if a % 2 == 1 && b % 2 == 1 then 1 else 0) + 2 * And(a / 2, b / 2)
  }

  function Pow2(k: nat): (n: nat)
    ensures n >= 1
  {
    if k == 0 then 1 else 2 * Pow2(k - 1)
  }

  lemma {:induction false} AndSelf(a: nat)
    ensures And(a, a) == a
  {
    if a != 0 { AndSelf(a / 2); }
  }

  lemma AndEven(m: nat)
    requires m > 0
    ensures And(2 * m - 1, 2 * m) == 2 * And(m - 1, m)
  {
  }

  ghost predicate IsPow2(n: nat) { exists k: nat :: n == Pow2(k) }

  lemma HalfPow2(m: nat)
    requires m > 0
    ensures IsPow2(2 * m) <==> IsPow2(m)
  {
    if IsPow2(m) {
      var k: nat :| m == Pow2(k);
      assert 2 * m == Pow2(k + 1);
    }
    if IsPow2(2 * m) {
      var k: nat :| 2 * m == Pow2(k);
      assert m == Pow2(k - 1);
    }
  }

  lemma OddPow2(m: nat)
    requires m > 0
    ensures !IsPow2(2 * m + 1)
  {
  }

  /** The assertion in `h_init` accepts exactly the powers of two. */
  lemma {:induction false} InitAssertion(n: nat)
    requires n > 0
    ensures And(n - 1, n) == 0 <==> IsPow2(n)
  {
    var m := n / 2;
    if n == 1 {
      assert n == Pow2(0);
    } else if n % 2 == 0 {
      AndEven(m);
      HalfPow2(m);
      InitAssertion(m);
    } else {
      assert n - 1 == 2 * m && (n - 1) / 2 == m;
      AndSelf(m);
      OddPow2(m);
    }
  }

  lemma Multiples(d: int, n: int)
    requires n >= 0
    ensures d >= 1 ==> d * n >= n
    ensures d <= -1 ==> d * n <= -n
  {
  }

  lemma DivModUnique(a: nat, n: nat, q: nat, r: nat)
    requires n > 0 && a == q * n + r && r < n
    ensures a / n == q && a % n == r
  {
    var q', r' := a / n, a % n;
    assert a == q' * n + r';
    assert (q' - q) * n == q' * n - q * n == r - r';
    Multiples(q' - q, n);
  }

  lemma ModDouble(h: nat, m: nat)
    requires m > 0
    ensures h % (2 * m) == h % 2 + 2 * ((h / 2) % m)
  {
    var q, r := (h / 2) / m, (h / 2) % m;
    assert h / 2 == q * m + r;
    assert h == q * (2 * m) + (h % 2 + 2 * r);
    DivModUnique(h, 2 * m, q, h % 2 + 2 * r);
  }

  lemma AndStep(h: nat, m: nat)
    requires m > 0
    ensures And(h, 2 * m - 1) == h % 2 + 2 * And(h / 2, m - 1)
  {
  }

  /** Masking with 2^k - 1 is the remainder modulo 2^k. */
  lemma {:induction false} AndMask(h: nat, k: nat)
    ensures And(h, Pow2(k) - 1) == h % Pow2(k)
  {
    if k > 0 {
      var m := Pow2(k - 1);
      AndStep(h, m);
      AndMask(h / 2, k - 1);
      ModDouble(h, m);
    }
  }

  lemma HalfMultiple(p: int, n: int)
    ensures (2 * p) * n == p * (2 * n)
    ensures (2 * p + 1) * n == p * (2 * n) + n
  {
  }

  lemma ModDoubled(h: nat, n: nat)
    requires n > 0
    ensures h % (2 * n) == h % n || h % (2 * n) == h % n + n
  {
    var q, r := h / n, h % n;
    assert h == q * n + r;
    HalfMultiple(q / 2, n);
    if q % 2 == 0 {
      DivModUnique(h, 2 * n, q / 2, r);
    } else {
      DivModUnique(h, 2 * n, q / 2, r + n);
    }
  }

  /** Doubling a table of n = 2^k buckets sends old bucket i to new bucket i or i + n. */
  lemma AndDoubled(h: nat, k: nat)
    ensures var n := Pow2(k); var i := And(h, n - 1);
            And(h, 2 * n - 1) == i || And(h, 2 * n - 1) == i + n
  {
    AndMask(h, k);
    AndMask(h, k + 1);
    ModDoubled(h, Pow2(k));
  }
}
