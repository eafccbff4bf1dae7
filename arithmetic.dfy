/** Facts about multiplication and floor division of integers that the
    verifier does not find on its own. */
module Arithmetic {

  lemma LessByFactor(a: int, b: int, n: int)
    requires n > 0 && a * n < b * n
    ensures a < b
  {
    assert (b - a) * n == b * n - a * n;
  }

  lemma DivIs(a: int, n: int, q: int)
    requires n > 0 && q * n <= a < (q + 1) * n
    ensures a / n == q
  {
    var r := a / n;
    assert a == r * n + a % n && 0 <= a % n < n;
    assert (r + 1) * n == r * n + n;
    LessByFactor(q, r + 1, n);
    LessByFactor(r, q + 1, n);
  }

  lemma DivBelow(a: int, n: int, b: int)
    requires n > 0 && a < b * n
    ensures a / n < b
  {
    assert a == (a / n) * n + a % n && 0 <= a % n;
    LessByFactor(a / n, b, n);
  }

  lemma DivMonotone(a: int, b: int, n: int)
    requires n > 0 && a <= b
    ensures a / n <= b / n
  {
    assert a == (a / n) * n + a % n && b == (b / n) * n + b % n;
    assert (b / n + 1) * n == (b / n) * n + n;
    LessByFactor(a / n, b / n + 1, n);
  }

  lemma MulSucc(k: int, w: int)
    ensures (k + 1) * w == k * w + w
  {
  }

  lemma MulAdd(a: int, b: int, w: int)
    ensures a * w + b * w == (a + b) * w
  {
  }

  lemma MulMonotone(i: int, j: int, h: nat)
    requires i <= j
    ensures i * h <= j * h
  {
    assert j * h - i * h == (j - i) * h;
  }

  lemma SquareMonotone(a: nat, b: nat)
    requires a <= b
    ensures a * a <= b * b
  {
    MulMonotone(a, b, a);
    MulMonotone(a, b, b);
  }

  /** Squares of naturals order their roots. */
  lemma SquareStrict(a: nat, b: nat)
    requires a * a < b * b
    ensures a < b
  {
    if b <= a {
      SquareMonotone(b, a);
    }
  }
}
