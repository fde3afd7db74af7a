/** The bit test the fixed delay store uses to check its capacity at compile
    time, and the mask identity that lets it wrap its cursor with `&`
    instead of `%`. Bitwise AND is defined on non-negative integers, one
    binary digit at a time. */
module PowerOfTwo {
  import opened ModArith

  /** `a & b` for non-negative `a` and `b`. */
  function BitAnd(a: nat, b: nat): (r: nat)
    ensures r <= a && r <= b
    decreases a
  {
    if a == 0 || b == 0 then 0
    else 2 * BitAnd(a / 2, b / 2) + (if a % 2 == 1 && b % 2 == 1 then 1 else 0)
  }

  /** `2^k`. */
  function Pow2(k: nat): nat
  {
    if k == 0 then 1 else 2 * Pow2(k - 1)
  }

  /** Reference definition: `v` is one, or an even number whose half is a power of two. */
  predicate IsPowerOfTwo(v: nat)
    decreases v
  {
    v == 1 || (v >= 2 && v % 2 == 0 && IsPowerOfTwo(v / 2))
  }

  /** Every `2^k` is a power of two. */
  lemma {:induction false} Pow2IsPowerOfTwo(k: nat)
    ensures IsPowerOfTwo(Pow2(k))
  {
    if k > 0 {
      Pow2IsPowerOfTwo(k - 1);
      assert Pow2(k) / 2 == Pow2(k - 1);
    }
  }

  /** The exponent of a power of two. */
  function Log2(v: nat): (k: nat)
    requires IsPowerOfTwo(v)
    ensures Pow2(k) == v
    decreases v
  {
    if v == 1 then 0 else 1 + Log2(v / 2)
  }

  /** `m & m == m`. */
  lemma {:induction false} BitAndSelf(m: nat)
    ensures BitAnd(m, m) == m
    decreases m
  {
    if m > 0 {
      BitAndSelf(m / 2);
    }
  }

  /** The source's `is_powerof2`: `v && ((v & (v - 1)) == 0)`. It accepts
      exactly the powers of two. */
  function IsPowerOf2(v: nat): (b: bool)
    ensures b <==> IsPowerOfTwo(v)
  {
    BitTestCorrect(v);
    v != 0 && BitAnd(v, v - 1) == 0
  }

  /** For positive `v`, `v & (v - 1)` is zero exactly when `v` is a power of two. */
  lemma {:induction false} BitTestCorrect(v: nat)
    ensures v != 0 && BitAnd(v, v - 1) == 0 <==> IsPowerOfTwo(v)
    decreases v
  {
    if v <= 1 {
    } else if v % 2 == 0 {
      // v - 1 is odd, its low bit is dropped by v's zero low bit
      assert (v - 1) / 2 == v / 2 - 1;
      assert BitAnd(v, v - 1) == 2 * BitAnd(v / 2, v / 2 - 1);
      BitTestCorrect(v / 2);
    } else {
      // v - 1 is even and shares every higher bit with v
      assert (v - 1) / 2 == v / 2;
      BitAndSelf(v / 2);
      assert BitAnd(v, v - 1) == 2 * (v / 2);
    }
  }

  /** The wrap mask of a power-of-two capacity `n` is `n - 1`, and masking
      with it is reduction modulo `n`. */
  lemma {:induction false} MaskIsModulo(x: nat, n: nat)
    requires IsPowerOfTwo(n)
    ensures BitAnd(x, n - 1) == x % n
    decreases n
  {
    if n == 1 {
      ModUnique(x, 1, x, 0);
    } else if x == 0 {
      ModSmall(0, n);
    } else {
      var h := n / 2;
      assert (n - 1) / 2 == h - 1 && (n - 1) % 2 == 1;
      MaskIsModulo(x / 2, h);
      HalvingModulo(x, h);
    }
  }

  /** Reduction modulo `2h` from reduction of the half modulo `h`:
      `x % 2h == 2 * ((x / 2) % h) + x % 2`. */
  lemma HalvingModulo(x: nat, h: nat)
    requires h > 0
    ensures x % (2 * h) == 2 * ((x / 2) % h) + x % 2
  {
    var q, r := (x / 2) / h, (x / 2) % h;
    assert x / 2 == q * h + r;
    assert x == q * (2 * h) + (2 * r + x % 2);
    ModUnique(x, 2 * h, q, 2 * r + x % 2);
  }
}
