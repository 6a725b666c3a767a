/** Facts about non-negative multiplication and division that the index arithmetic rests on. */
module Arith {

  /** Multiplying by a non-negative factor keeps the order. */
  lemma {:induction false} MulMonotone(a: int, b: int, c: nat)
    requires a <= b
    ensures a * c <= b * c
  {
    if c > 0 {
      MulMonotone(a, b, c - 1);
      assert a * c == a * (c - 1) + a;
      assert b * c == b * (c - 1) + b;
    }
  }

  lemma MulAtLeast(k: int, b: nat)
    requires k >= 1
    ensures k * b >= b
  {
    MulMonotone(1, k, b);
  }

  /** A strict inequality between multiples of a positive number holds between the factors. */
  lemma MulCancelLess(x: int, y: int, c: nat)
    requires c > 0
    ensures x * c < y * c ==> x < y
  {
    if y <= x {
      MulMonotone(y, x, c);
    }
  }

  /** Below a multiple of b, the quotient by b stays below the factor. */
  lemma DivBelow(i: nat, a: nat, b: nat)
    requires b > 0
    ensures i < a * b ==> i / b < a
  {
    MulCancelLess(i / b, a, b);
  }

  /** Division by a positive number is monotone. */
  lemma DivMonotone(i: nat, j: nat, c: nat)
    requires c > 0 && i <= j
    ensures i / c <= j / c
  {
    MulCancelLess(i / c, j / c + 1, c);
    assert (j / c + 1) * c == (j / c) * c + c;
  }

  /** Quotient and remainder are the only pair that rebuilds the dividend. */
  lemma DivModUnique(a: nat, b: nat, q: int, r: int)
    requires b > 0 && a == q * b + r && 0 <= r < b
    ensures a / b == q && a % b == r
  {
    var q', r' := a / b, a % b;
    assert a == q' * b + r';
    var d := q - q';
    assert d * b == q * b - q' * b;
    assert d * b == r' - r;
    if d >= 1 {
      MulAtLeast(d, b);
    } else if d <= -1 {
      MulAtLeast(-d, b);
    }
  }
}
