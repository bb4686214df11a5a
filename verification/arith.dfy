/** Integer facts the renderer relies on: powers of two and four, the integer
    square root used to turn a vector length into a grid side, and the
    Euclidean-division identities behind the upsampling argument. */
module Arith {

  /** 2^k */
  function Pow2(k: nat): (r: nat)
    ensures r >= 1
  {
    if k == 0 then 1 else 2 * Pow2(k - 1)
  }

  /** 4^k, the repetition count `4 ** scale_factor` of the image export */
  function Pow4(k: nat): (r: nat)
    ensures r >= 1
  {
    if k == 0 then 1 else 4 * Pow4(k - 1)
  }

  /** n is one of 1, 2, 4, 8, ...; the only sizes the curve generator handles */
  predicate IsPow2(n: nat)
    decreases n
  {
    n == 1 || (n >= 2 && n % 2 == 0 && IsPow2(n / 2))
  }

  /** The exponent of a power of two. */
  function Log2(n: nat): (k: nat)
    requires IsPow2(n)
    ensures Pow2(k) == n
    decreases n
  {
    if n == 1 then 0 else 1 + Log2(n / 2)
  }

  lemma {:induction false} Pow2IsPow2(k: nat)
    ensures IsPow2(Pow2(k))
  {
    if k > 0 {
      Pow2IsPow2(k - 1);
      assert Pow2(k) / 2 == Pow2(k - 1);
    }
  }

  /** The exponent of n = 2^k is k. */
  lemma {:induction false} Log2OfPow2(k: nat, n: nat)
    requires n == Pow2(k)
    ensures IsPow2(n) && Log2(n) == k
  {
    Pow2IsPow2(k);
    if k > 0 {
      var m := Pow2(k - 1);
      assert n == 2 * m && n / 2 == m && n != 1;
      Log2OfPow2(k - 1, m);
    }
  }

  /** 2^(k+s) == 2^k * 2^s */
  lemma {:induction false} Pow2Add(k: nat, s: nat)
    ensures Pow2(k + s) == Pow2(k) * Pow2(s)
  {
    if s > 0 {
      Pow2Add(k, s - 1);
      assert Pow2(k) * Pow2(s) == 2 * (Pow2(k) * Pow2(s - 1));
    }
  }

  /** 4^(k+s) == 4^k * 4^s */
  lemma {:induction false} Pow4Add(k: nat, s: nat)
    ensures Pow4(k + s) == Pow4(k) * Pow4(s)
  {
    if s > 0 {
      Pow4Add(k, s - 1);
      assert Pow4(k) * Pow4(s) == 4 * (Pow4(k) * Pow4(s - 1));
    }
  }

  /** 4^k is the square of 2^k. */
  lemma {:induction false} Pow4IsSquare(k: nat)
    ensures Pow4(k) == Pow2(k) * Pow2(k)
  {
    if k > 0 {
      Pow4IsSquare(k - 1);
      var p := Pow2(k - 1);
      assert Pow2(k) * Pow2(k) == (2 * p) * (2 * p) == 4 * (p * p);
    }
  }

  /** The integer square root: the largest r with r * r <= x. It stands for
      `int(len(vector) ** 0.5)`, idealised to exact arithmetic. */
  function ISqrt(x: nat): (r: nat)
    ensures r * r <= x < (r + 1) * (r + 1)
  {
    if x == 0 then 0
    else
      var r := ISqrt(x - 1);
      if (r + 1) * (r + 1) <= x then
        assert (r + 2) * (r + 2) == (r + 1) * (r + 1) + 2 * r + 3;
        r + 1
      else r
  }

  lemma SquareMonotone(a: nat, b: nat)
    requires a <= b
    ensures a * a <= b * b
  {
    assert a * a <= a * b;
    assert a * b <= b * b;
  }

  /** A square lies between the squares of r and r + 1 only when its root is r. */
  lemma SquareBetween(r: nat, n: nat)
    requires r * r <= n * n < (r + 1) * (r + 1)
    ensures r == n
  {
    if r < n {
      SquareMonotone(r + 1, n);
    } else if r > n {
      SquareMonotone(n + 1, r);
    }
  }

  /** The square root of a perfect square is exact. */
  lemma ISqrtOfSquare(n: nat)
    ensures ISqrt(n * n) == n
  {
    var x := n * n;
    SquareBetween(ISqrt(x), n);
  }

  lemma MulAtLeast(k: int, d: int)
    requires k >= 1 && d > 0
    ensures k * d >= d
  {
    assert (k - 1) * d >= 0;
    assert k * d == (k - 1) * d + d;
  }

  /** Quotient and remainder are determined by the defining equation. */
  lemma DivUnique(x: int, d: int, q: int, r: int)
    requires d > 0 && x == q * d + r && 0 <= r < d
    ensures x / d == q && x % d == r
  {
    var q' := x / d;
    var r' := x % d;
    assert x == q' * d + r';
    if q > q' {
      MulAtLeast(q - q', d);
    } else if q < q' {
      MulAtLeast(q' - q, d);
    }
  }

  /** A number below n * d has a quotient by d below n. */
  lemma DivBelow(x: nat, d: nat, n: nat)
    requires d > 0 && x < n * d
    ensures x / d < n
  {
    var q := x / d;
    assert q * d <= x;
    assert (n - q) * d == n * d - q * d > 0;
  }

  /** Adding a multiple of d adds its factor to the quotient. */
  lemma DivAddMultiple(a: int, b: int, d: int)
    requires d > 0
    ensures (d * a + b) / d == a + b / d
  {
    DivUnique(d * a + b, d, a + b / d, b % d);
  }

  /** Dividing by a and then by b is dividing by a * b. */
  lemma DivDiv(x: nat, a: nat, b: nat)
    requires a > 0 && b > 0
    ensures x / a / b == x / (a * b)
  {
    var q := x / a / b;
    var r1 := x % a;
    var r2 := (x / a) % b;
    assert x == a * (x / a) + r1;
    assert x / a == b * q + r2;
    assert x == (a * b) * q + (a * r2 + r1) by {
      assert a * (x / a) == a * (b * q + r2) == (a * b) * q + a * r2;
    }
    assert a * r2 <= a * (b - 1);
    DivUnique(x, a * b, q, a * r2 + r1);
  }
}
