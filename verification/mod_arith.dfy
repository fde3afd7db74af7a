/** Facts about Euclidean division and remainder used by the cursor arithmetic
    of the ring buffers. Dafny's `%` never returns a negative value, which is
    what the source's unsigned `%` computes on the non-negative cursors. */
module ModArith {

  /** A product of a positive factor and a factor of at least one is at least the first. */
  lemma MulAtLeast(k: int, n: int)
    requires n > 0 && k >= 1
    ensures k * n >= n
  {
    assert k * n == (k - 1) * n + n;
    assert (k - 1) * n >= 0;
  }

  /** Quotient and remainder are unique. */
  lemma ModUnique(a: int, n: int, q: int, r: int)
    requires 0 <= r < n
    requires a == q * n + r
    ensures a % n == r
    ensures a / n == q
  {
    var q0, r0 := a / n, a % n;
    assert a == q0 * n + r0;
    assert (q - q0) * n == r0 - r;
    if q > q0 {
      MulAtLeast(q - q0, n);
    } else if q < q0 {
      assert (q0 - q) * n == r - r0;
      MulAtLeast(q0 - q, n);
    }
  }

  /** Reducing a summand first does not change the remainder of the sum. */
  lemma ModOfSum(a: int, b: int, n: int)
    requires n > 0
    ensures (a % n + b) % n == (a + b) % n
  {
    var q, r := a / n, a % n;
    var q2, r2 := (r + b) / n, (r + b) % n;
    assert r + b == q2 * n + r2;
    assert a + b == (q + q2) * n + r2;
    ModUnique(a + b, n, q + q2, r2);
  }

  /** Adding a multiple of the modulus does not change the remainder. */
  lemma ModAddMultiple(a: int, k: int, n: int)
    requires n > 0
    ensures (a + k * n) % n == a % n
  {
    var q, r := a / n, a % n;
    assert a + k * n == (q + k) * n + r;
    ModUnique(a + k * n, n, q + k, r);
  }

  /** A value already below the modulus is its own remainder. */
  lemma ModSmall(a: int, n: int)
    requires 0 <= a < n
    ensures a % n == a
  {
    ModUnique(a, n, 0, a);
  }

  /** Two positions fewer than `n` apart have different remainders. */
  lemma ModDistinct(h: int, i: int, j: int, n: int)
    requires n > 0
    requires i < j < i + n
    ensures (h + i) % n != (h + j) % n
  {
    var r := (h + i) % n;
    ModOfSum(h + i, j - i, n);
    if r + (j - i) < n {
      ModSmall(r + (j - i), n);
    } else {
      ModUnique(r + (j - i), n, 1, r + (j - i) - n);
    }
  }

  /** The distance from `h` forward to the slot `(h + k) % n` is `k`. */
  lemma OffsetOf(h: int, k: int, n: int)
    requires n > 0 && 0 <= k < n
    ensures ((h + k) % n - h) % n == k
  {
    var q := (h + k) / n;
    assert (h + k) % n - h == k + (-q) * n;
    ModAddMultiple(k, -q, n);
    ModSmall(k, n);
  }

  /** Advancing two cursors by the same amount keeps their difference modulo `n`. */
  lemma ModDifference(h: int, t: int, m: int, n: int)
    requires n > 0
    ensures ((h + m) % n - (t + m) % n) % n == (h - t) % n
  {
    var qh, qt := (h + m) / n, (t + m) / n;
    assert (h + m) % n - (t + m) % n == (h - t) + (qt - qh) * n;
    ModAddMultiple(h - t, qt - qh, n);
  }

  /** Integer division is monotone in the dividend bound. */
  lemma DivAtMost(a: int, b: int, n: int)
    requires n > 0 && 0 <= a && a <= b * n
    ensures a / n <= b
  {
    var q := a / n;
    assert q * n <= a;
    if q > b {
      assert q * n == (q - b) * n + b * n;
      MulAtLeast(q - b, n);
    }
  }

  /** A dividend below `b * n` has a quotient below `b`. */
  lemma DivBelow(a: int, b: int, n: int)
    requires n > 0 && 0 <= a && a < b * n
    ensures a / n < b
  {
    var q := a / n;
    assert q * n <= a;
    if q >= b {
      MulMonotone(b, q, n);
    }
  }

  /** A multiple divided by its factor gives the other factor back, with no remainder. */
  lemma DivExact(k: int, n: int)
    requires n > 0
    ensures (k * n) / n == k && (k * n) % n == 0
  {
    ModUnique(k * n, n, k, 0);
  }

  /** Multiplication by a non-negative factor is monotone. */
  lemma MulMonotone(a: int, b: int, n: int)
    requires 0 <= n && a <= b
    ensures a * n <= b * n
  {
    assert b * n - a * n == (b - a) * n;
  }

  /** Stepping a slot index on by one, modulo `n`, wraps only from the last slot. */
  lemma ModNext(w: nat, n: nat)
    requires w < n
    ensures (w + 1) % n == if w + 1 < n then w + 1 else 0
  {
    if w + 1 < n {
      ModSmall(w + 1, n);
    } else {
      ModUnique(w + 1, n, 1, 0);
    }
  }
}
