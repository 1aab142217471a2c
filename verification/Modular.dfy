/** Quotients and remainders, for the block numbers and the ring. */
module Modular {

  lemma MulSign(d: int, p: nat)
    ensures d >= 1 ==> d * p >= p
    ensures d == 0 ==> d * p == 0
    ensures d <= -1 ==> d * p <= 0 - p
  {
    assert d * p == (d - 1) * p + p;
    assert d * p == (d + 1) * p - p;
    if d >= 1 { assert (d - 1) * p >= 0; }
    if d <= -1 { assert (d + 1) * p <= 0; }
  }

  lemma ModSucc(a: nat, p: nat)
    requires p > 0
    ensures (a + 1) % p == if a % p + 1 == p then 0 else a % p + 1
  {
    var q, k := a / p, a % p;
    assert a == q * p + k;
    if k + 1 == p {
      assert a + 1 == (q + 1) * p;
      ModUnique(a + 1, p, q + 1, 0);
    } else {
      ModUnique(a + 1, p, q, k + 1);
    }
  }

  lemma ModUnique(a: nat, p: nat, q: nat, k: nat)
    requires p > 0 && a == q * p + k && k < p
    ensures a / p == q && a % p == k
  {
    var d := a / p - q;
    assert a == (a / p) * p + a % p;
    assert d * p == k - a % p;
    MulSign(d, p);
  }

  lemma ModAddLeft(a: nat, b: nat, p: nat)
    requires p > 0
    ensures (a % p + b) % p == (a + b) % p
  {
    var x := a % p + b;
    assert x == (x / p) * p + x % p;
    assert a == (a / p) * p + a % p;
    assert a + b == (a / p + x / p) * p + x % p;
    ModUnique(a + b, p, a / p + x / p, x % p);
  }

  lemma ModSame(a: nat, b: nat, p: nat)
    requires p > 0 && a <= b
    ensures a % p == b % p <==> (b - a) % p == 0
  {
    var q, k := b / p - a / p, b % p - a % p;
    assert a == (a / p) * p + a % p && b == (b / p) * p + b % p;
    assert b - a == q * p + k;
    MulSign(q, p);
    if k >= 0 {
      ModUnique(b - a, p, q, k);
    } else {
      assert b - a == (q - 1) * p + (p + k);
      ModUnique(b - a, p, q - 1, p + k);
    }
  }
}
