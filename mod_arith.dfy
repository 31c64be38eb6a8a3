/** Facts about Euclidean `%` that the solver does not find on its own for a symbolic divisor. */
module ModArith {

  lemma MulSign(n: int, k: int)
    requires n >= 1
    ensures k >= 1 ==> n * k >= n
    ensures k <= -1 ==> n * k <= -n
  {
    if k >= 1 {
      assert n * k == n + n * (k - 1);
    } else if k <= -1 {
      assert n * k == -n + n * (k + 1);
    }
  }

  /** The remainder is the unique r in [0, n) with x == n*q + r. */
  lemma ModUnique(x: int, n: int, q: int, r: int)
    requires n >= 1 && x == n * q + r && 0 <= r < n
    ensures x % n == r && x / n == q
  {
    var q0, r0 := x / n, x % n;
    assert x == n * q0 + r0;
    assert n * (q0 - q) == r - r0;
    MulSign(n, q0 - q);
  }

  lemma ModShift(x: int, n: int)
    requires n >= 1
    ensures (x + n) % n == x % n
  {
    assert x == n * (x / n) + x % n;
    ModUnique(x + n, n, x / n + 1, x % n);
  }

  /** Adding a whole number of `a` to a residue and reducing again gives the sum's residue. */
  lemma ModAdd(a: int, b: int, n: int)
    requires n >= 1
    ensures (a % n + b) % n == (a + b) % n
  {
    assert a == n * (a / n) + a % n;
    var r := (a % n + b) % n;
    var q := (a % n + b) / n;
    assert a % n + b == n * q + r;
    ModUnique(a + b, n, q + a / n, r);
  }

  /** Two numbers less than `n` apart have different residues unless they are equal. */
  lemma ModCloseDistinct(f: int, d: int, n: int)
    requires n >= 1 && 0 < d < n
    ensures (f + d) % n != f % n
  {
    var q, r := f / n, f % n;
    assert f == n * q + r;
    if r + d < n {
      ModUnique(f + d, n, q, r + d);
    } else {
      ModUnique(f + d, n, q + 1, r + d - n);
    }
  }

  /** Residues can be subtracted before reducing. */
  lemma ModSub(a: int, b: int, n: int)
    requires n >= 1
    ensures (a % n - b % n) % n == (a - b) % n
  {
    var qa, qb, q, r := a / n, b / n, (a - b) / n, (a - b) % n;
    assert a == n * qa + a % n && b == n * qb + b % n && a - b == n * q + r;
    assert a % n - b % n == n * (q - qa + qb) + r;
    ModUnique(a % n - b % n, n, q - qa + qb, r);
  }

  lemma ModSmall(x: int, n: int)
    requires 0 <= x < n
    ensures x % n == x
  {
    ModUnique(x, n, 0, x);
  }

  lemma ModNegSmall(x: int, n: int)
    requires -n <= x < 0
    ensures x % n == x + n
  {
    ModUnique(x, n, -1, x + n);
  }
}
