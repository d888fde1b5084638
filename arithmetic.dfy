/** Facts about multiplication, `/` and `%` that the solver does not find by itself. */
module Arithmetic {

  lemma MulNonNegative(a: int, b: int)
    requires a >= 0 && b >= 0
    ensures a * b >= 0
  {
  }

  lemma MulAssociative(a: int, b: int, c: int)
    ensures a * (b * c) == (a * b) * c
  {
  }

  lemma MulMonotone(a: int, b: int, c: int, d: int)
    requires 0 <= a <= b && 0 <= c <= d
    ensures a * c <= b * d
  {
    MulNonNegative(b - a, c);
    MulNonNegative(b, d - c);
    assert b * c - a * c == (b - a) * c;
    assert b * d - b * c == b * (d - c);
  }

  /** Euclidean division is determined by its defining equation. */
  lemma DivModUnique(x: int, n: int, q: int, r: int)
    requires n >= 1 && x == n * q + r && 0 <= r < n
    ensures x / n == q && x % n == r
  {
    var q0, r0 := x / n, x % n;
    assert x == n * q0 + r0;
    var d := q - q0;
    assert n * d == r0 - r by { assert n * q - n * q0 == n * (q - q0); }
    if d >= 1 { MulNonNegative(n, d - 1); }
    if d <= -1 { MulNonNegative(n, -d - 1); }
  }

  /** The next multiple of `n` above `x / n` whole turns lies beyond `x`. */
  lemma BelowNextMultiple(x: int, n: int)
    requires n >= 1
    ensures x < n * (x / n + 1)
  {
    assert x == n * (x / n) + x % n;
    assert n * (x / n + 1) == n * (x / n) + n;
  }

  lemma MultipleDivMod(n: int, q: int)
    requires n >= 1
    ensures (n * q) % n == 0 && (n * q) / n == q
  {
    DivModUnique(n * q, n, q, 0);
  }

  /** How `/` and `%` by `n` move when the dividend grows by one. */
  lemma DivModStep(b: int, n: int)
    requires n >= 1
    ensures b % n == n - 1 ==> (b + 1) % n == 0 && (b + 1) / n == b / n + 1
    ensures b % n != n - 1 ==> (b + 1) % n == b % n + 1 && (b + 1) / n == b / n
  {
    var q, r := b / n, b % n;
    assert b == n * q + r && 0 <= r < n;
    if r == n - 1 {
      DivModUnique(b + 1, n, q + 1, 0);
    } else {
      DivModUnique(b + 1, n, q, r + 1);
    }
  }

  /** Reducing modulo a multiple of `n` first does not change the remainder modulo `n`. */
  lemma ModOfMultiple(x: int, n: int, q: int)
    requires n >= 1 && q >= 1
    ensures (x % (n * q)) % n == x % n
  {
    var m := n * q;
    MulMonotone(n, n, 1, q);
    var a, r := x / m, x % m;
    assert x == m * a + r && 0 <= r < m;
    assert r == n * (r / n) + r % n;
    MulAssociative(n, q, a);
    assert x == n * (q * a + r / n) + r % n;
    DivModUnique(x, n, q * a + r / n, r % n);
  }

  /** Counting down from `n - 1` modulo `n`. */
  lemma ReverseMod(i: int, n: int)
    requires n >= 1
    ensures (n - 1 - i) % n == n - 1 - i % n
  {
    assert i == n * (i / n) + i % n;
    DivModUnique(n - 1 - i, n, -(i / n), n - 1 - i % n);
  }
}
