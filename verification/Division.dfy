/** Quotients of natural numbers. */
module Division {

  lemma QuotientIs(x: nat, d: nat, q: nat, r: nat)
    requires x == d * q + r && r < d
    ensures x / d == q
  {
    var e := x / d - q;
    assert d * e == r - x % d by { assert x == d * (x / d) + x % d; assert d * (q + e) == d * q + d * e; }
    SmallMultiple(d, e);
  }

  lemma SmallMultiple(d: int, e: int)
    requires -d < d * e < d
    ensures e == 0
  {
    assert e >= 1 ==> d * e >= d || d < 0;
    assert e <= -1 ==> d * e <= 0 - d || d < 0;
  }
}
