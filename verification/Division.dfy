/** Quotient and remainder are unique. */
module Division {

  lemma Unique(v: nat, d: nat, q: nat, r: nat)
    requires d > 0 && v == q * d + r && r < d
    ensures v % d == r
  {
    var e := v / d - q;
    assert v == (v / d) * d + v % d;
    assert e * d == (v / d) * d - q * d;
    if e >= 1 {
      AtLeast(e, d);
    } else if e <= -1 {
      AtLeast(-e, d);
    }
  }

  lemma AtLeast(e: int, d: nat)
    requires e >= 1
    ensures e * d >= d
  {
  }
}
