/** Remainders by a divisor that is not a constant. */
module Arith {

  lemma MultipleOutside(d: int, p: int)
    requires 0 <= p
    ensures d >= 1 ==> d * p >= p
    ensures d <= -1 ==> d * p <= -p
  {
    if d >= 1 {
      assert d * p == (d - 1) * p + p && (d - 1) * p >= 0;
    } else if d <= -1 {
      assert d * p == -((-1 - d) * p) - p && (-1 - d) * p >= 0;
    }
  }

  lemma RemainderUnique(t: nat, p: nat, q: nat, r: nat)
    requires 0 < p && r < p && t == q * p + r
    ensures t % p == r && t / p == q
  {
    var k, m := t / p, t % p;
    assert t == k * p + m;
    assert (k - q) * p == k * p - q * p;
    MultipleOutside(k - q, p);
  }

  /** Counting on by one. */
  lemma NextRemainder(t: nat, p: nat)
    requires 0 < p
    ensures (t + 1) % p == if t % p + 1 == p then 0 else t % p + 1
  {
    var q, r := t / p, t % p;
    assert t == q * p + r;
    if r + 1 == p {
      assert (q + 1) * p == q * p + p;
      RemainderUnique(t + 1, p, q + 1, 0);
    } else {
      RemainderUnique(t + 1, p, q, r + 1);
    }
  }

  /** `x` places after `c` in a circle of `n`. */
  function Ahead(c: nat, x: nat, n: nat): nat
    requires c < n && x <= n
  {
    if c + x < n then c + x else c + x - n
  }

  lemma Wrapped(c: nat, x: nat, n: nat)
    requires c < n && x <= n
    ensures (c + x) % n == Ahead(c, x, n) < n
  {
    RemainderUnique(c + x, n, if c + x < n then 0 else 1, Ahead(c, x, n));
  }

  lemma WrappedNext(c: nat, x: nat, n: nat)
    requires c < n && x < n
    ensures (Ahead(c, x, n) + 1) % n == Ahead(c, x + 1, n)
  {
    var a := Ahead(c, x, n);
    RemainderUnique(a + 1, n, if a + 1 < n then 0 else 1, Ahead(c, x + 1, n));
  }
}
