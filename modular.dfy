/**
 * Remainder arithmetic: JavaScript's `%` operator, and the facts about
 * Dafny's `%` that the wrap-around proofs of the carousels rest on.
 */
module Modular {

  /**
   * JavaScript's `%` on integers: the quotient is truncated toward zero, so the
   * remainder takes the sign of the dividend (Dafny's own `%` never is negative).
   */
  function JsRem(a: int, b: int): (r: int)
    requires b > 0
    ensures -b < r < b
    ensures a >= 0 ==> 0 <= r && r == a % b
    ensures a < 0 ==> r <= 0
    ensures (a - r) % b == 0
  {
    if a >= 0 then
      ModUnique(a - a % b, b, a / b, 0);
      a % b
    else
      ModUnique(-a - (-a) % b, b, (-a) / b, 0);
      ModUnique(a + (-a) % b, b, -((-a) / b), 0);
      -((-a) % b)
  }

  /** Dafny's `/` and `%` are determined by a == q * b + r with 0 <= r < b. */
  lemma ModUnique(a: int, b: int, q: int, r: int)
    requires b > 0 && a == q * b + r && 0 <= r < b
    ensures a / b == q && a % b == r
  {
    var q0, r0 := a / b, a % b;
    assert (q - q0) * b == r0 - r by {
      assert q * b - q0 * b == (q - q0) * b;
    }
    if q > q0 {
      MulAtLeast(q - q0, b);
    } else if q < q0 {
      MulAtLeast(q0 - q, b);
    }
  }

  /** The remainder of a number below twice the divisor. */
  lemma ModBelowTwice(a: int, b: int)
    requires b > 0
    ensures 0 <= a < b ==> a % b == a
    ensures b <= a < 2 * b ==> a % b == a - b
  {
    if 0 <= a < b {
      ModUnique(a, b, 0, a);
    } else if b <= a < 2 * b {
      ModUnique(a, b, 1, a - b);
    }
  }

  lemma MulAtLeast(x: int, b: int)
    requires x >= 1 && b > 0
    ensures x * b >= b
  {
    assert x * b == (x - 1) * b + b;
  }

  /** Stepping a number by one steps its remainder by one, wrapping at p. */
  lemma ModSucc(a: nat, p: nat)
    requires p > 0
    ensures (a + 1) % p == if a % p == p - 1 then 0 else a % p + 1
  {
    var q, r := a / p, a % p;
    if r == p - 1 {
      assert a + 1 == (q + 1) * p + 0;
      ModUnique(a + 1, p, q + 1, 0);
    } else {
      ModUnique(a + 1, p, q, r + 1);
    }
  }

}
