/** Facts about multiplication that the solver does not find by itself. */
module Arith {

  /** Multiplying by a non-negative factor keeps order. */
  lemma {:induction false} MulMono(a: int, b: int, c: int)
    requires a <= b && 0 <= c
    ensures a * c <= b * c
    decreases c
  {
    if c > 0 {
      MulMono(a, b, c - 1);
      assert a * c == a * (c - 1) + a && b * c == b * (c - 1) + b;
    }
  }
}
