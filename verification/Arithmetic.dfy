/** Division and remainder by a variable amount, pinned down by their defining equation. */
module Arithmetic {

  lemma SmallMultiple(d: int, n: int)
    requires n > 0 && -n < d * n < n
    ensures d == 0
  {
    assert d >= 1 ==> d * n == (d - 1) * n + n && (d - 1) * n >= 0;
    assert d <= -1 ==> d * n == (d + 1) * n - n && (d + 1) * n <= 0;
  }

  lemma DivIs(x: int, n: int, q: int, r: int)
    requires n > 0 && x == q * n + r && 0 <= r < n
    ensures x / n == q && x % n == r
  {
    var q', r' := x / n, x % n;
    assert x == q' * n + r';
    assert (q' - q) * n == r - r';
    SmallMultiple(q' - q, n);
  }

  lemma DivNonNegative(x: int, n: int)
    requires x >= 0 && n > 0
    ensures x / n >= 0
  {
    var q := x / n;
    assert x == q * n + x % n;
    assert q <= -1 ==> q * n == (q + 1) * n - n && (q + 1) * n <= 0;
  }

  /** Quotient and remainder of a sum, from those of its parts. */
  lemma DivSum(a: int, b: int, c: int, n: int)
    requires n > 0
    ensures (a % n + b % n + c) % n == (a + b + c) % n
    ensures (a % n + b % n + c) / n == (a + b + c) / n - a / n - b / n
  {
    var s := a % n + b % n + c;
    var x, y, z, r := a / n, b / n, s / n, s % n;
    assert a == x * n + a % n && b == y * n + b % n && s == z * n + r;
    assert (x + y + z) * n == x * n + y * n + z * n;
    DivIs(a + b + c, n, x + y + z, r);
  }

  lemma DivDiv(x: int, a: int, b: int)
    requires a > 0 && b > 0
    ensures a * b > 0 && x / (a * b) == x / a / b
  {
    var q, r := x / a, x % a;
    var q', r' := q / b, q % b;
    assert x == q * a + r && q == q' * b + r';
    Nested(x, a, b, q, r, q', r');
    DivIs(x, a * b, q', r' * a + r);
  }

  lemma Nested(x: int, a: int, b: int, q: int, r: int, q': int, r': int)
    requires x == q * a + r && q == q' * b + r' && 0 <= r < a && 0 <= r' < b
    ensures a * b > 0 && x == q' * (a * b) + (r' * a + r) && 0 <= r' * a + r < a * b
  {
    assert (q' * b + r') * a == q' * (a * b) + r' * a;
    var d := b - 1 - r';
    assert 0 <= d * a && 0 <= r' * a;
    assert (d + r' + 1) * a == d * a + r' * a + a;
  }

  lemma ModDiv(x: int, a: int, b: int)
    requires a > 0 && b > 0
    ensures a * b > 0 && x % (a * b) / a == x / a % b && x % (a * b) % a == x % a
  {
    var q, r := x / a, x % a;
    var q', r' := q / b, q % b;
    assert x == q * a + r && q == q' * b + r';
    Nested(x, a, b, q, r, q', r');
    DivIs(x, a * b, q', r' * a + r);
    DivIs(r' * a + r, a, r', r);
  }

  /** A part of `a` added to a multiple of it does not reach the next multiple of `a * b`. */
  lemma PartOf(x: int, part: int, a: int, b: int)
    requires a > 0 && b > 0 && x % a == 0 && 0 <= part < a
    ensures a * b > 0 && (x + part) / (a * b) == x / (a * b)
  {
    DivDiv(x, a, b);
    DivDiv(x + part, a, b);
    assert x == x / a * a;
    DivIs(x + part, a, x / a, part);
  }
}
