/**
  Integer helpers shared by the tile addressor and the pyramid builder:
  powers of two and four, Go's truncating division, and the floor/ceiling
  facts that every tile-grid argument rests on.
 */
module Arith {

  /** 2^n, the factor `1 << uint(level)` by which a level's tile side grows. */
  function Pow2(n: nat): (r: nat)
    ensures r >= 1
  {
    if n == 0 then 1 else 2 * Pow2(n - 1)
  }

  /** 4^n, the factor by which a level's pixel density (per unit area) drops. */
  function Pow4(n: nat): (r: nat)
    ensures r >= 1
  {
    if n == 0 then 1 else 4 * Pow4(n - 1)
  }

  /** Go's integer division, and its float-to-int conversion, truncate toward zero. */
  function TruncDiv(a: int, b: int): (q: int)
    requires b > 0
    ensures a >= 0 ==> 0 <= q && q * b <= a < q * b + b
    ensures a < 0 ==> q <= 0 && a <= q * b < a + b
  {
    if a >= 0 then
      FloorDivBounds(a, b);
      a / b
    else
      FloorDivBounds(-a, b);
      NegMul((-a) / b, b);
      -((-a) / b)
  }

  /** Floor division brackets its dividend. */
  lemma FloorDivBounds(a: int, b: int)
    requires a >= 0 && b > 0
    ensures 0 <= a / b && (a / b) * b <= a < (a / b) * b + b
  {
    assert a == (a / b) * b + a % b;
  }

  lemma NegMul(p: int, b: int)
    ensures (-p) * b == -(p * b)
  {
  }

  /** The number of `b`-sized strides needed to cover `a` (for a >= 0). */
  function CeilDiv(a: int, b: int): int
    requires b > 0
  {
    (a + b - 1) / b
  }

  lemma MulLe(x: int, y: int, b: int)
    requires x <= y && 0 <= b
    ensures x * b <= y * b
  {
    assert y * b - x * b == (y - x) * b;
  }

  lemma MulLt(x: int, y: int, b: int)
    requires x < y && 0 < b
    ensures x * b < y * b
  {
    assert y * b - x * b == (y - x) * b;
  }

  /** `q <= a / b` exactly when `q` strides of `b` fit in `a`. */
  lemma FloorDivBound(a: int, b: int, q: int)
    requires b > 0
    ensures q <= a / b <==> q * b <= a
  {
    var d := a / b;
    assert a == d * b + a % b;
    if q <= d {
      MulLe(q, d, b);
    } else {
      MulLe(d + 1, q, b);
      assert (d + 1) * b == d * b + b;
    }
  }

  /** `q < a / b` exactly when `q + 1` strides of `b` fit in `a`. */
  lemma BelowFloor(a: int, b: int, q: int)
    requires b > 0
    ensures q < a / b <==> (q + 1) * b <= a
  {
    FloorDivBound(a, b, q + 1);
  }

  /** `q < CeilDiv(a, b)` exactly when stride `q` starts strictly before `a`. */
  lemma BelowCeil(a: int, b: int, q: int)
    requires b > 0
    ensures q < CeilDiv(a, b) <==> q * b < a
  {
    BelowFloor(a + b - 1, b, q);
    assert (q + 1) * b == q * b + b;
  }

  lemma MulDivCancel(i: int, b: int)
    requires b > 0
    ensures (i * b) / b == i
  {
    FloorDivBound(i * b, b, i);
    FloorDivBound(i * b, b, i + 1);
    assert (i + 1) * b == i * b + b;
  }

  /** Quotient and remainder are determined by any decomposition k == q*n + r with 0 <= r < n. */
  lemma DivModUnique(k: int, n: int, q: int, r: int)
    requires n > 0 && k == q * n + r && 0 <= r < n
    ensures k / n == q && k % n == r
  {
    FloorDivBound(k, n, q);
    FloorDivBound(k, n, q + 1);
    assert (q + 1) * n == q * n + n;
  }

  lemma SuccMul(a: int, b: int)
    ensures (a + 1) * b == b + a * b
  {
  }

  /** Taking n away from k takes one from the quotient and leaves the remainder. */
  lemma DivModShift(k: int, n: int)
    requires n > 0
    ensures (k - n) / n == k / n - 1 && (k - n) % n == k % n
  {
    DivModUnique(k, n, k / n, k % n);
    SuccMul(k / n - 1, n);
    DivModUnique(k - n, n, k / n - 1, k % n);
  }

  /** Positions in row-major (or column-major) order: a later position has a later (quotient, remainder) pair. */
  lemma DivModOrder(i: int, j: int, n: int)
    requires 0 <= i < j && n > 0
    ensures i / n < j / n || (i / n == j / n && i % n < j % n)
  {
    var qi, qj := i / n, j / n;
    DivModUnique(i, n, qi, i % n);
    DivModUnique(j, n, qj, j % n);
    if qj < qi {
      MulLe(qj + 1, qi, n);
      SuccMul(qj, n);
      assert false;
    }
  }

  lemma {:induction false} Pow2Monotone(a: nat, b: nat)
    requires a <= b
    ensures Pow2(a) <= Pow2(b)
    decreases b
  {
    if a < b {
      Pow2Monotone(a, b - 1);
    }
  }
}
