/** Facts about Euclidean division and multiplication that the solver
    does not find on its own. */
module Arith {
  /** Dividing by a then by b is dividing by a * b, and the remainder
      modulo a * b is made of the two remainders. */
  lemma DivMod(v: int, a: int, b: int)
    requires a > 0 && b > 0
    ensures v / a / b == v / (a * b)
    ensures (v / a) % b * a + v % a == v % (a * b)
  {
    var q, r := v / a, v % a;
    var bigQ, s := q / b, q % b;
    assert v == bigQ * (a * b) + (s * a + r) by {
      assert v == q * a + r;
      assert q == bigQ * b + s;
    }
    assert s * a <= (b - 1) * a by { MulMono(s, b - 1, a); }
    DivModUnique(v, a * b, bigQ, s * a + r);
  }

  lemma MulAssoc(x: int, y: int, z: int)
    ensures x * (y * z) == (x * y) * z
  {
  }

  lemma MulMono(x: int, y: int, a: int)
    requires x <= y && a >= 0
    ensures x * a <= y * a
  {
  }

  /** Euclidean quotient and remainder are the only such pair. */
  lemma DivModUnique(v: int, m: int, q: int, y: int)
    requires m > 0 && v == q * m + y && 0 <= y < m
    ensures v / m == q && v % m == y
  {
    var q', y' := v / m, v % m;
    assert (q - q') * m == y' - y;
    if q - q' >= 1 {
      MulMono(1, q - q', m);
    } else if q - q' <= -1 {
      MulMono(q - q', -1, m);
    }
  }

  /** An offset below m * c lies in one of the first c stretches of m. */
  lemma DivBelow(v: int, m: int, c: int)
    requires m > 0 && 0 <= v < m * c
    ensures 0 <= v / m < c
  {
    if v / m >= c {
      MulMono(c, v / m, m);
    }
  }
}
