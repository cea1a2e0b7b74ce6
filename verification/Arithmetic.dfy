/** Facts about products and quotients that the solver is spared elsewhere. */
module Arithmetic {

  lemma MulMonotone(a: int, b: int, c: nat)
    requires a <= b
    ensures a * c <= b * c
  {
  }

  lemma MulAssociative(a: int, b: int, c: int)
    ensures a * b * c == a * (b * c)
  {
  }

  lemma MulDistributes(a: int, b: int, c: int)
    ensures (a + b) * c == a * c + b * c
    ensures (a - b) * c == a * c - b * c
  {
  }

  lemma CompareScaled(a: nat, b: nat, p: nat)
    requires p > 0
    ensures a < b <==> a * p < b * p
    ensures a == b <==> a * p == b * p
  {
  }

  function Div(x: nat, d: nat): (q: nat)
    requires d > 0
  {
    x / d
  }

  function Mod(x: nat, d: nat): (r: nat)
    requires d > 0
    ensures r < d && x == Div(x, d) * d + r
  {
    x % d
  }

  lemma DivModIs(x: nat, d: nat, q: nat, r: nat)
    requires x == q * d + r && r < d
    ensures Div(x, d) == q && Mod(x, d) == r
  {
    var q', r' := Div(x, d), Mod(x, d);
    if q < q' {
      MulMonotone(q + 1, q', d);
      MulDistributes(q, 1, d);
    } else if q' < q {
      MulMonotone(q' + 1, q, d);
      MulDistributes(q', 1, d);
    }
  }
}
