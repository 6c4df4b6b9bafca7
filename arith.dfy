/** Exact natural-number arithmetic used by the encoders: powers and the
    division facts that the base-62 and bit-level proofs rest on. */
module Arith {

  /** b to the power e, exactly. Stands for BigInteger.pow and for Math.pow
      on the small exponents the base64 path uses. */
  function Pow(b: nat, e: nat): (r: nat)
    ensures b > 0 ==> r > 0
  {
    if e == 0 then 1 else b * Pow(b, e - 1)
  }

  /** A positive multiple of m is at least m. */
  lemma {:induction false} MulAtLeast(m: int, x: int)
    requires m > 0 && x >= 1
    ensures m * x >= m
  {
    if x > 1 {
      MulAtLeast(m, x - 1);
      assert m * x == m * (x - 1) + m;
    }
  }

  /** Quotient and remainder are determined by the division equation. */
  lemma DivModUnique(a: int, m: int, q: int, r: int)
    requires 0 < m && 0 <= r < m && a == m * q + r
    ensures a / m == q && a % m == r
  {
    var q', r' := a / m, a % m;
    assert a == m * q' + r' && 0 <= r' < m;
    if q' < q {
      MulAtLeast(m, q - q');
    } else if q' > q {
      MulAtLeast(m, q' - q);
    }
  }

  /** The same, for the division equation written quotient first. */
  lemma DivModOf(a: int, q: int, m: int, r: int)
    requires 0 < m && 0 <= r < m && a == q * m + r
    ensures a / m == q && a % m == r
  {
    DivModUnique(a, m, q, r);
  }

  /** Dividing by b and then by c is dividing by b * c; the remainder by
      b * c is assembled from the two partial remainders. */
  lemma DivModNested(a: nat, b: nat, c: nat)
    requires b > 0 && c > 0
    ensures a / (b * c) == (a / b) / c
    ensures a % (b * c) == b * ((a / b) % c) + a % b
  {
    var q, t, s := (a / b) / c, (a / b) % c, a % b;
    assert a / b == c * q + t;
    assert a == b * (a / b) + s;
    assert a == (b * c) * q + (b * t + s) by {
      assert b * (a / b) == b * (c * q + t) == (b * c) * q + b * t;
    }
    assert b * t <= b * (c - 1) by {
      assert b * (c - 1) - b * t == b * (c - 1 - t);
    }
    assert b * (c - 1) == b * c - b;
    DivModUnique(a, b * c, q, b * t + s);
  }

  /** The k-th quotient of the repeated division by 62 is a / 62^k. */
  lemma DivPow(a: nat, base: nat, k: nat)
    requires base > 0 && k > 0
    ensures a / Pow(base, k) == (a / base) / Pow(base, k - 1)
    ensures a % Pow(base, k) == a % base + base * ((a / base) % Pow(base, k - 1))
  {
    DivModNested(a, base, Pow(base, k - 1));
  }
}
