/** Division facts the solver needs help with. */
module Arithmetic {

  lemma {:induction false} MulGap(p: int, q: int, d: nat)
    ensures p < q ==> p * d + d <= q * d
    decreases q - p
  {
    if p + 1 < q {
      MulGap(p, q - 1, d);
      assert (q - 1) * d == q * d - d;
    } else if p + 1 == q {
      assert (p + 1) * d == p * d + d;
    }
  }

  lemma MulNonNegative(q: nat, d: nat)
    ensures q * d >= 0
    ensures q > 0 ==> q * d >= d
  {
    MulGap(0, q, d);
  }

  lemma DivMonotone(a: nat, b: nat, d: nat)
    requires a <= b && d > 0
    ensures 0 <= a / d <= b / d
  {
    MulGap(b / d, a / d, d);
    assert a == (a / d) * d + a % d && b == (b / d) * d + b % d;
  }

  lemma Bracketed(n: nat, d: nat)
    requires d > 0
    ensures (n / d) * d <= n < (n / d + 1) * d
  {
    assert n == (n / d) * d + n % d;
    assert (n / d + 1) * d == (n / d) * d + d;
  }

  lemma DivUnique(n: nat, d: nat, q: nat, r: nat)
    requires d > 0 && r < d && n == q * d + r
    ensures n / d == q && n % d == r
  {
    var p, s := n / d, n % d;
    assert n == p * d + s;
    MulGap(p, q, d);
    MulGap(q, p, d);
  }

  lemma QuotientBelow(b: nat, lo: nat, hi: nat)
    requires lo > 0 && b < hi * lo
    ensures 0 <= b / lo < hi
  {
    DivMonotone(0, b, lo);
    MulGap(hi - 1, b / lo, lo);
    assert (hi - 1) * lo + lo == hi * lo;
    assert b == (b / lo) * lo + b % lo;
  }

  lemma DivShift(v: nat, y: nat, d: nat)
    requires d > 0
    ensures (v * d + y) / d == v + y / d
  {
    var q, r := y / d, y % d;
    DivMonotone(0, y, d);
    assert y == q * d + r;
    assert v * d + y == (v + q) * d + r;
    DivUnique(v * d + y, d, v + q, r);
  }
}
