/** Non-linear arithmetic facts behind strided and row/column-major addressing. */
module Arith {

  lemma MulLeRight(a: nat, b: nat, c: nat)
    requires a <= b
    ensures a * c <= b * c
  {
    assert b * c == a * c + (b - a) * c;
  }

  /** Cancelling a common factor from a strict inequality. */
  lemma MulLtCancel(a: nat, b: nat, c: nat)
    ensures a * c < b * c ==> a < b
  {
    if b <= a {
      MulLeRight(b, a, c);
    }
  }

  /** `a*d + b` with `b < d` stays below `n*d` when `a < n`. */
  lemma MajorMinorBelow(a: nat, b: nat, n: nat, d: nat)
    requires a < n && b < d
    ensures a * d + b < n * d
  {
    MulLeRight(a + 1, n, d);
    assert (a + 1) * d == a * d + d;
  }

  /** `(a, b) |-> a*d + b` is injective on `b < d`. */
  lemma MajorMinorInjective(a: nat, b: nat, a2: nat, b2: nat, d: nat)
    requires b < d && b2 < d
    ensures a * d + b == a2 * d + b2 ==> a == a2 && b == b2
  {
    if a < a2 {
      MajorMinorBelow(a, b, a2, d);
      assert a * d + b < a2 * d + b2;
    } else if a2 < a {
      MajorMinorBelow(a2, b2, a, d);
      assert a2 * d + b2 < a * d + b;
    }
  }

  /** Every `k < n*d` is `a*d + b` for some `a < n`, `b < d`. */
  lemma MajorMinorSplit(k: nat, n: nat, d: nat)
    requires k < n * d
    ensures d > 0
    ensures k / d < n && k % d < d
    ensures (k / d) * d + k % d == k
  {
    assert n * d > 0;
    assert d != 0;
    MulLtCancel(k / d, n, d);
    assert (k / d) * d <= k;
  }

  /** `k` is below the rounded-up quotient `ceil(m/step)` exactly when `k*step < m`. */
  lemma BelowCeilDiv(k: nat, m: nat, step: nat)
    requires step > 0
    ensures k < (m + step - 1) / step <==> k * step < m
  {
    var q := (m + step - 1) / step;
    assert q * step <= m + step - 1 < q * step + step;
    if k < q {
      MulLeRight(k + 1, q, step);
      assert (k + 1) * step == k * step + step;
    } else {
      MulLeRight(q, k, step);
    }
  }

  lemma MulSucc(n: nat, d: nat)
    ensures (n + 1) * d == n * d + d
  {
  }

  lemma MulDistributes(s: int, x: int, y: int)
    ensures s * (x + y) == s * x + s * y
  {
  }

  lemma ZeroProduct(a: nat, b: nat)
    requires a * b == 0
    ensures a == 0 || b == 0
  {
    if a != 0 {
      MulLeRight(1, a, b);
    }
  }
}
