/** Facts about products and quotients that the solver needs one at a time. */
module Arithmetic {

  lemma MulMono(a: int, b: int, w: nat)
    requires a <= b
    ensures a * w <= b * w
  {
    assert (b - a) * w >= 0;
  }

  /** Division brackets: x / w is the q with q * w <= x < (q + 1) * w. */
  lemma DivBrackets(x: nat, w: nat)
    requires w > 0
    ensures (x / w) * w <= x < (x / w + 1) * w
  {
    var q := x / w;
    assert x == w * q + x % w;
    assert (q + 1) * w == q * w + w;
  }

  lemma DivAtLeast(x: nat, q: nat, w: nat)
    requires w > 0
    ensures x / w >= q <==> x >= q * w
  {
    DivBrackets(x, w);
    if x / w >= q {
      MulMono(q, x / w, w);
    } else {
      MulMono(x / w + 1, q, w);
    }
  }

  lemma DivZeroIff(x: nat, w: nat)
    requires w > 0
    ensures x / w == 0 <==> x < w
  {
    DivBrackets(x, w);
  }
}
