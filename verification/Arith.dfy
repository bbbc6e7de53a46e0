// Arithmetic facts that the solver does not find by itself.

module Arith {

  const TWO32: nat := 0x1_0000_0000
  const TWO31: nat := 0x8000_0000

  // ---- Powers of two ----

  function Pow2(n: nat): (r: nat)
    ensures r > 0
  {
    if n == 0 then 1 else 2 * Pow2(n - 1)
  }

  lemma {:induction false} Pow2Add(a: nat, b: nat)
    ensures Pow2(a + b) == Pow2(a) * Pow2(b)
  {
    if a > 0 {
      Pow2Add(a - 1, b);
      assert Pow2(a + b) == 2 * Pow2(a - 1 + b);
    }
  }

  lemma Pow2Values()
    ensures Pow2(0) == 1 && Pow2(8) == 0x100 && Pow2(10) == 0x400 && Pow2(16) == 0x10000 && Pow2(32) == TWO32
  {
    assert Pow2(4) == 16 && Pow2(2) == 4;
    Pow2Add(4, 4);
    Pow2Add(8, 2);
    Pow2Add(8, 8);
    Pow2Add(16, 16);
  }

  // ---- Quotients and remainders ----

  lemma MulSign(d: int, m: int)
    requires m > 0
    ensures d >= 1 ==> d * m >= m
    ensures d <= -1 ==> d * m <= -m
  {}

  /** x = q * m + r with r < m pins down quotient and remainder. */
  lemma DivMod(x: int, q: int, m: int, r: int)
    requires m > 0 && 0 <= r < m && x == q * m + r
    ensures x / m == q && x % m == r
  {
    var d := x / m - q;
    assert x == x / m * m + x % m;
    assert d * m == x / m * m - q * m;
    MulSign(d, m);
  }

  lemma MulLe(a: int, b: int, x: int, y: int)
    requires 0 <= a <= x && 0 <= b <= y
    ensures 0 <= a * b <= x * y
  {
    MulNat(a, b);
    MulNat(x - a, b);
    MulNat(x, y - b);
    assert (x - a) * b == x * b - a * b;
    assert x * (y - b) == x * y - x * b;
  }

  lemma MulNat(a: int, b: int)
    requires 0 <= a && 0 <= b
    ensures 0 <= a * b
  {}

  lemma QuotientBound(r: int, M: int, m: int)
    requires 0 <= r < M * m && m > 0
    ensures 0 <= r / m < M
  {
    var h := r / m;
    assert h * m <= r;
    assert (h - M) * m == h * m - M * m;
    MulSign(h - M, m);
  }

  /** The digit of `x` between the weights m and M * m, read off either way. */
  lemma Middle(x: int, M: int, m: int)
    requires M > 0 && m > 0
    ensures M * m > 0
    ensures x % (M * m) / m == x / m % M
    ensures x % (M * m) % m == x % m
  {
    MulSign(M, m);
    var n := M * m;
    var q, r := x / n, x % n;
    QuotientBound(r, M, m);
    MiddleCore(x, M, m, n, q, r, r / m, r % m);
  }

  lemma MiddleCore(x: int, M: int, m: int, n: int, q: int, r: int, h: int, l: int)
    requires n == M * m && x == q * n + r && r == h * m + l && 0 <= l < m && 0 <= h < M
    ensures h == x / m % M && l == x % m
  {
    Regroup(q, M, m, h, l);
    DivMod(x, q * M + h, m, l);
    DivMod(x / m, q, M, h);
  }

  lemma Regroup(q: int, M: int, m: int, h: int, l: int)
    ensures q * (M * m) + (h * m + l) == (q * M + h) * m + l
  {}

  // ---- Alignment ----

  function AlignDown(x: int, a: int): int
    requires a > 0
  {
    x - x % a
  }

  function AlignUp(x: int, a: int): int
    requires a > 0
  {
    AlignDown(x + (a - 1), a)
  }

  /** The largest multiple of `a` that is at most `x`. */
  lemma AlignDownIs(x: int, a: int)
    requires a > 0
    ensures AlignDown(x, a) % a == 0 && x - a < AlignDown(x, a) <= x
  {
    DivMod(AlignDown(x, a), x / a, a, 0);
  }

  lemma AlignDownLargest(x: int, a: int, y: int)
    requires a > 0 && y % a == 0 && y <= x
    ensures y <= AlignDown(x, a)
  {
    var q, p := x / a, y / a;
    assert x == q * a + x % a && y == p * a;
    assert (p - q) * a == p * a - q * a;
    MulSign(p - q, a);
    MulSign(q - p, a);
  }

  // ---- Powers of two as alignments ----

  predicate IsPow2(b: nat) { b == 1 || (0 < b && b % 2 == 0 && IsPow2(b / 2)) }

  lemma {:induction false} TwiceDivides(x: nat, b: nat)
    requires 0 < b && x % b == 0
    ensures 2 * x % (2 * b) == 0 && 2 * x / (2 * b) == x / b
  {
    var q := x / b;
    assert 2 * x == q * (2 * b);
    DivMod(2 * x, q, 2 * b, 0);
  }

  lemma {:induction false} SmallerDivides(n: nat, b: nat)
    requires IsPow2(n) && IsPow2(b) && b <= n
    ensures n % b == 0
  {
    if b == 1 {
      DivMod(n, n, 1, 0);
    } else {
      SmallerDivides(n / 2, b / 2);
      TwiceDivides(n / 2, b / 2);
    }
  }

  lemma {:induction false} Pow2IsPow2(n: nat)
    ensures IsPow2(Pow2(n))
  {
    if n > 0 {
      Pow2IsPow2(n - 1);
      DivMod(Pow2(n), Pow2(n - 1), 2, 0);
    }
  }

  lemma {:induction false} DividesThrough(x: int, a: nat, b: nat)
    requires 0 < a && 0 < b && x % a == 0 && a % b == 0
    ensures x % b == 0
  {
    var p, q := x / a, a / b;
    assert x == p * a && a == q * b;
    assert p * (q * b) == (p * q) * b;
    DivMod(x, p * q, b, 0);
  }
}
