/** Products and quotients of reals, one step at a time. */
module Reals {

  lemma Positive(a: real, b: real)
    requires a > 0.0 && b > 0.0
    ensures a * b > 0.0
  {
  }

  lemma SameFactor(a: real, b: real, c: real)
    requires a == b
    ensures a * c == b * c
  {
  }

  lemma Distribute(a: real, b: real, c: real)
    ensures a * (b + c) == a * b + a * c && a * (b - c) == a * b - a * c
  {
  }

  lemma Associate(a: real, b: real, c: real)
    ensures a * (b * c) == (a * b) * c
  {
  }

  lemma SameSign(a: real, b: real)
    requires a > 0.0
    ensures (b > 0.0 <==> a * b > 0.0) && (b < 0.0 <==> a * b < 0.0) && (b == 0.0 <==> a * b == 0.0)
  {
    if b > 0.0 {
      Positive(a, b);
    } else if b < 0.0 {
      Positive(a, 0.0 - b);
      Distribute(a, 0.0, b);
    }
  }

  lemma Divided(x: real, d: real)
    requires d != 0.0
    ensures d * (x / d) == x
  {
  }

  lemma Quotient(x: real, d: real, q: real)
    requires d != 0.0 && x == d * q
    ensures x / d == q
  {
  }

  /** A part of a positive whole, as a fraction of it. */
  lemma Fraction(x: real, d: real, f: real)
    requires d > 0.0 && x == d * f
    ensures (0.0 <= f <==> 0.0 <= x) && (f < 1.0 <==> x < d) && (f == 0.0 <==> x == 0.0)
    ensures x - d == d * (f - 1.0)
  {
    SameSign(d, f);
    SameSign(d, f - 1.0);
    Distribute(d, f, 1.0);
  }
}
