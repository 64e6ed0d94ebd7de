/** Division facts that the solver does not find unaided. */
module Arithmetic {

  lemma MulGap(d: int, f: nat)
    ensures d >= 1 ==> d * f >= f
    ensures d <= -1 ==> d * f + f <= 0
  {
  }

  lemma MulMonotone(a: nat, b: nat, f: nat)
    requires a <= b
    ensures a * f <= b * f
  {
  }

  lemma MulAdd(a: nat, b: nat, f: nat)
    ensures (a + b) * f == a * f + b * f
  {
  }

  /** Quotient and remainder are the only ones. */
  lemma DivModIs(a: nat, f: nat, q: nat, r: nat)
    requires r < f && a == q * f + r
    ensures a / f == q && a % f == r
  {
    var q', r' := a / f, a % f;
    assert (q - q') * f == r' - r;
    MulGap(q - q', f);
  }

  lemma DivBounds(x: nat, f: nat)
    requires f > 0
    ensures (x / f) * f <= x < (x / f) * f + f
    ensures x == (x / f) * f + x % f
  {
  }

  /** `n` is at most the quotient exactly when `n` whole factors fit. */
  lemma DivAtLeast(n: nat, x: nat, f: nat)
    requires f > 0
    ensures n <= x / f <==> n * f <= x
  {
    DivBounds(x, f);
    MulGap(x / f - n, f);
    assert (x / f - n) * f == (x / f) * f - n * f;
  }

  lemma DivMonotone(x: nat, y: nat, f: nat)
    requires f > 0 && x <= y
    ensures x / f <= y / f
  {
    DivBounds(x, f);
    DivAtLeast(x / f, y, f);
  }

  /** Dividing twice is dividing by the product. */
  lemma DivDiv(v: nat, a: nat, b: nat)
    requires a > 0 && b > 0
    ensures a * b > 0 && v / a / b == v / (a * b)
  {
    var q, r := v / a, v % a;
    var q', r' := q / b, q % b;
    DivBounds(v, a);
    DivBounds(q, b);
    MulMonotone(r', b - 1, a);
    MulAdd(q' * b, r', a);
    assert v == q' * (a * b) + (r' * a + r) by { assert (q' * b) * a == q' * (a * b); }
    assert (b - 1) * a + a == a * b;
    DivModIs(v, a * b, q', r' * a + r);
  }

  lemma ModSucc(a: nat, n: nat)
    requires n > 0
    ensures (a + 1) % n == if a % n + 1 == n then 0 else a % n + 1
  {
    var q, r := a / n, a % n;
    assert a == q * n + r;
    if r + 1 == n {
      assert (q + 1) * n == q * n + n;
      DivModIs(a + 1, n, q + 1, 0);
    } else {
      DivModIs(a + 1, n, q, r + 1);
    }
  }

  lemma ModDiffers(a: nat, d: nat, n: nat)
    requires 0 < d < n
    ensures a % n != (a + d) % n
  {
    var q, r := a / n, a % n;
    assert a == q * n + r;
    if r + d < n {
      DivModIs(a + d, n, q, r + d);
    } else {
      assert (q + 1) * n == q * n + n;
      DivModIs(a + d, n, q + 1, r + d - n);
    }
  }
}
