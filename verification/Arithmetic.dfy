/** Quotients and remainders that the solver should not have to search for. */
module Arithmetic {

  lemma {:induction false} MulStep(q: nat, d: nat)
    ensures (q + 1) * d == q * d + d
  {
  }

  lemma {:induction false} MulMono(a: nat, b: nat, d: nat)
    requires a <= b
    ensures a * d <= b * d
  {
    assert (b - a) * d >= 0;
    assert b * d == (b - a) * d + a * d;
  }

  lemma {:induction false} DivUnique(x: nat, d: nat, q: nat, r: nat)
    requires x == q * d + r && r < d
    ensures x / d == q && x % d == r
  {
    var p, t := x / d, x % d;
    assert x == p * d + t && 0 <= t < d;
    if p > q {
      MulMono(q + 1, p, d);
      MulStep(q, d);
      assert false;
    }
    if q > p {
      MulMono(p + 1, q, d);
      MulStep(p, d);
      assert false;
    }
  }

  function Quot(x: nat, d: nat): nat
    requires d > 0
  {
    x / d
  }

  function Rem(x: nat, d: nat): nat
    requires d > 0
  {
    x % d
  }

  lemma {:induction false} QuotRem(x: nat, d: nat)
    requires d > 0
    ensures x == Quot(x, d) * d + Rem(x, d) && Rem(x, d) < d
  {
  }

  lemma {:induction false} QuotRemIs(x: nat, d: nat, q: nat, r: nat)
    requires x == q * d + r && r < d
    ensures Quot(x, d) == q && Rem(x, d) == r
  {
    DivUnique(x, d, q, r);
  }
}
