/** Small facts about division, stated once. */
module Numbers {

  /** Quotient and remainder are the only such pair. */
  lemma DivisionUnique(x: nat, d: nat, q: nat, r: nat)
    requires d > 0 && x == q * d + r && r < d
    ensures x / d == q && x % d == r
  {
    var more := x / d - q;
    assert x == (x / d) * d + x % d;
    assert more * d == r - x % d;
    if more >= 1 {
      AtLeastOnce(more, d);
      assert false;
    } else if more <= -1 {
      AtLeastOnce(-more, d);
      assert false;
    }
  }

  lemma AtLeastOnce(n: int, d: int)
    requires n >= 1 && d > 0
    ensures n * d >= d && -n * d <= -d
  {
  }

  /** Dividing twice is dividing by the product. */
  lemma DivideTwice(x: nat, d: nat, e: nat)
    requires d > 0 && e > 0
    ensures d * e > 0 && x / d / e == x / (d * e)
  {
    AtLeastOnce(d, e);
    Divides(x, d);
    Divides(x / d, e);
    Regroup(x / d / e, e, x / d % e, d);
    Bounded(x / d % e, e, x % d, d);
    Quotient(x, d * e, x / d / e, x / d % e * d + x % d);
  }

  lemma Divides(x: nat, d: nat)
    requires d > 0
    ensures x == x / d * d + x % d && x % d < d
  {
  }

  /** The quotient alone, with the rest given as one number. */
  lemma Quotient(x: nat, d: nat, q: nat, r: nat)
    requires d > 0 && x == q * d + r && r < d
    ensures x / d == q
  {
    DivisionUnique(x, d, q, r);
  }

  lemma Regroup(q: nat, e: nat, r: nat, d: nat)
    ensures (q * e + r) * d == q * (d * e) + r * d
  {
    assert (q * e + r) * d == q * e * d + r * d;
    assert q * e * d == q * (d * e);
  }

  /** Two digits are below the product of their bases. */
  lemma Bounded(r: nat, e: nat, s: nat, d: nat)
    requires r < e && s < d
    ensures r * d + s < d * e
  {
    var more := e - r;
    AtLeastOnce(more, d);
    assert more * d == e * d - r * d;
  }
}
