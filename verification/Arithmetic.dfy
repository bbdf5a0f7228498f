/** Small facts about products and residues, each proved on its own so that the
    nonlinear reasoning stays out of the larger proofs. */
module Arithmetic {

  lemma Distribute(a: int, b: int, c: int)
    ensures a * (b + c) == a * b + a * c
    ensures a * (b - c) == a * b - a * c
  {}

  lemma Regroup(a: int, b: int, c: int)
    ensures a * (b * c) == c * (b * a) == b * (a * c)
  {}

  lemma ZeroProduct(g: nat, d: int)
    requires g > 0
    ensures g * d == 0 ==> d == 0
  {}

  lemma Cancel(g: nat, a: int, b: int)
    requires g > 0 && g * a == g * b
    ensures a == b
  {
    Distribute(g, a, b);
    ZeroProduct(g, a - b);
  }

  lemma PositiveFactor(g: nat, d: int)
    requires g > 0
    ensures g * d > 0 ==> d > 0
  {}

  /** Two residues that differ by a multiple of the modulus are equal. */
  lemma SameResidue(p: int, q: int, w: int, modulus: nat)
    requires 0 <= p < modulus && 0 <= q < modulus && p - q == w * modulus
    ensures p == q
  {}

  lemma DivisionUnique(g: nat, t: int, r: int, q: int, s: int)
    requires 0 <= r < g && 0 <= s < g && g * t + r == g * q + s
    ensures t == q && r == s
  {
    Distribute(g, q, t);
    SameResidue(r, s, q - t, g);
    Cancel(g, t, q);
  }

  lemma DivideProduct(g: nat, t: int, r: nat)
    requires r < g
    ensures (g * t + r) / g == t && (g * t + r) % g == r
  {
    DivisionUnique(g, t, r, (g * t + r) / g, (g * t + r) % g);
  }
}
