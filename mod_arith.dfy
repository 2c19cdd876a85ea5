/** Facts about Euclidean remainder that the index arithmetic of rotation and of the
    repeated alphabet rests on. */
module ModArith {

  lemma {:induction false} MulAtLeast(a: int, n: int)
    requires a >= 1 && n > 0
    ensures a * n >= n
  {
    if a > 1 {
      MulAtLeast(a - 1, n);
      assert a * n == (a - 1) * n + n;
    }
  }

  /** The remainder is the r of any decomposition x == q * n + r with 0 <= r < n. */
  lemma ModUnique(x: int, n: int, q: int, r: int)
    requires n > 0 && 0 <= r < n && x == q * n + r
    ensures x % n == r
  {
    var d, m := x / n, x % n;
    assert x == d * n + m && 0 <= m < n;
    assert (q - d) * n == q * n - d * n;
    if q > d {
      MulAtLeast(q - d, n);
    } else if q < d {
      assert (d - q) * n == d * n - q * n;
      MulAtLeast(d - q, n);
    }
  }

  /** Taking n away from an index of at least n keeps its remainder mod n. */
  lemma ModMinus(i: int, n: int)
    requires n > 0 && i >= n
    ensures i % n == (i - n) % n
  {
    var q := (i - n) / n;
    assert i - n == q * n + (i - n) % n;
    assert i == (q + 1) * n + (i - n) % n;
    ModUnique(i, n, q + 1, (i - n) % n);
  }

  /** x mod n for an x below 3n, without division. */
  lemma ModBelowThree(x: int, n: int)
    requires n > 0 && 0 <= x < 3 * n
    ensures x % n == if x < n then x else if x < 2 * n then x - n else x - 2 * n
  {
    if x < n {
      ModUnique(x, n, 0, x);
    } else if x < 2 * n {
      ModUnique(x, n, 1, x - n);
    } else {
      ModUnique(x, n, 2, x - 2 * n);
    }
  }

  /** Adding two offsets within n to an index below n, reducing mod n after either step. */
  lemma ModAddTwice(i: int, k1: int, k2: int, n: int)
    requires 0 <= i < n && 0 <= k1 <= n && 0 <= k2 <= n
    ensures ((i + k2) % n + k1) % n == (i + (k1 + k2) % n) % n
  {
    ModBelowThree(i + k2, n);
    ModBelowThree((i + k2) % n + k1, n);
    ModBelowThree(k1 + k2, n);
    ModBelowThree(i + (k1 + k2) % n, n);
  }
}
