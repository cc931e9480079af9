/** Facts about Euclidean `%` that the zone walk needs; Python's `%` agrees
    with Dafny's whenever the divisor is positive, as it is here. */
module Arith {

  lemma {:induction false} MulAtLeast(n: int, d: int)
    requires n > 0 && d > 0
    ensures n * d >= n
  {
    if d > 1 {
      MulAtLeast(n, d - 1);
      assert n * d == n * (d - 1) + n;
    }
  }

  /** The remainder is determined by any quotient/remainder split. */
  lemma ModUnique(y: int, n: int, k: int, r: int)
    requires n > 0 && 0 <= r < n && y == n * k + r
    ensures y % n == r
  {
    var q, m := y / n, y % n;
    assert n * k - n * q == m - r;
    if k > q {
      assert n * (k - q) == n * k - n * q;
      MulAtLeast(n, k - q);
    } else if k < q {
      assert n * (q - k) == n * q - n * k;
      MulAtLeast(n, q - k);
    }
  }

  lemma ShiftMod(x: int, q: int, n: int)
    requires n > 0
    ensures (x + n * q) % n == x % n
  {
    assert x == n * (x / n) + x % n;
    assert x + n * q == n * (x / n + q) + x % n;
    ModUnique(x + n * q, n, x / n + q, x % n);
  }

  /** Adding congruent offsets gives congruent sums. */
  lemma AddCongruent(i: int, a: int, b: int, n: int)
    requires n > 0 && a % n == b % n
    ensures (i + a) % n == (i + b) % n
  {
    assert i + a == (i + a % n) + n * (a / n);
    assert i + b == (i + b % n) + n * (b / n);
    ShiftMod(i + a % n, a / n, n);
    ShiftMod(i + b % n, b / n, n);
  }

  /** `p + i % n` and `(p + i) % n` leave the same remainder. */
  lemma IndexCongruent(p: int, i: int, n: int)
    requires n > 0
    ensures (p + i % n) % n == ((p + i) % n) % n
  {
    var x := p + i % n;
    assert x + n * (i / n) == p + i;
    ShiftMod(x, i / n, n);
    ModUnique((p + i) % n, n, 0, (p + i) % n);
  }

  /** Fewer than `n` consecutive values have distinct remainders. */
  lemma ModDistinct(i: int, j: int, a: int, n: int)
    requires n > 0 && i < j < i + n
    ensures (i + a) % n != (j + a) % n
  {
    var x, y := i + a, j + a;
    assert x == n * (x / n) + x % n;
    assert y == n * (y / n) + y % n;
    if x % n == y % n {
      var d := y / n - x / n;
      assert n * d == y - x;
      if d > 0 {
        MulAtLeast(n, d);
      } else if d < 0 {
        assert n * (-d) == x - y;
        MulAtLeast(n, -d);
      }
    }
  }
}
