/** Integer facts behind the shape arithmetic of the dilation transform:
    ceiling division (Python's `math.ceil(a / b)` on non-negative integers,
    computed exactly) and uniqueness of quotient and remainder. */
module Arith {

  /** `ceil(a / b)` for a non-negative numerator and a positive denominator:
      the least `q` with `q * b >= a`. */
  function CeilDiv(a: nat, b: nat): (q: nat)
    requires b > 0
    ensures q * b >= a
    ensures q * b < a + b
  {
    var s := a + b - 1;
    assert s == (s / b) * b + s % b;
    s / b
  }

  lemma MulMono(x: int, y: int, m: nat)
    requires x <= y
    ensures x * m <= y * m
  {
    assert y * m - x * m == (y - x) * m;
  }

  lemma MulStrictMono(x: int, y: int, m: nat)
    requires x < y && m > 0
    ensures x * m < y * m
  {
    assert y * m - x * m == (y - x) * m;
  }

  /** The sign of a product with a non-negative factor, in steps of `m`. */
  lemma {:induction false} MulSign(x: int, m: nat)
    ensures x >= 0 ==> x * m >= 0
    ensures x > 0 ==> x * m >= m
    ensures x < 0 ==> x * m + m <= 0
    ensures x <= 0 ==> x * m <= 0
  {
    if x > 0 {
      MulMono(1, x, m);
    } else if x < 0 {
      MulMono(x, -1, m);
    }
  }

  /** Quotient and remainder by a positive divisor are unique. */
  lemma {:induction false} DivModUnique(q1: int, r1: int, q2: int, r2: int, n: int)
    requires n > 0
    requires 0 <= r1 < n && 0 <= r2 < n
    requires q1 * n + r1 == q2 * n + r2
    ensures q1 == q2 && r1 == r2
  {
    assert (q1 - q2) * n == r2 - r1;
    MulSign(q1 - q2, n);
  }

  /** Any `f` splits as `(f / n) * n + f % n` with the remainder below `n`. */
  lemma {:induction false} DivModSplit(f: nat, n: nat)
    requires n > 0
    ensures f == (f / n) * n + f % n && 0 <= f % n < n && f / n >= 0
  {
  }

  /** Each value `q` with `q * b` in `[a, a + b)` is the ceiling quotient. */
  lemma {:induction false} CeilDivUnique(a: nat, b: nat, q: int)
    requires b > 0
    requires q * b >= a && q * b < a + b
    ensures CeilDiv(a, b) == q
  {
    var c := CeilDiv(a, b);
    assert (c - q) * b == c * b - q * b;
    MulSign(c - q, b);
  }

  /** Dividing an exact multiple gives the factor back. */
  lemma {:induction false} MulDivCancel(m: int, b: int)
    requires b > 0
    ensures (m * b) / b == m && (m * b) % b == 0
  {
    DivModUnique((m * b) / b, (m * b) % b, m, 0, b);
  }

  /** A flat index `i * m + j` of an (n, m) grid stays below `n * m`. */
  lemma {:induction false} FlatIndexBound(i: nat, j: nat, n: nat, m: nat)
    requires i < n && j < m
    ensures i * m + j < n * m
  {
    MulMono(i + 1, n, m);
    assert (i + 1) * m == i * m + m;
  }

  /** Floor division by `b` keeps a lower bound `x >= l * b` as `x / b >= l`. */
  lemma {:induction false} DivLowerBound(x: nat, l: nat, b: nat)
    requires b > 0 && x >= l * b
    ensures x / b >= l
  {
    var q := x / b;
    assert x == q * b + x % b;
    assert (l - q) * b == l * b - q * b;
    MulSign(l - q, b);
  }

  /** A positive common factor cancels. */
  lemma {:induction false} MulCancel(c: nat, x: nat, y: nat)
    requires c > 0 && c * x == c * y
    ensures x == y
  {
    assert (x - y) * c == c * x - c * y;
    MulSign(x - y, c);
  }

  lemma MulAssoc(a: int, b: int, c: int)
    ensures a * b * c == a * (b * c)
  {
  }

  lemma MulSub(x: int, y: int, d: int)
    ensures (x - y) * d == x * d - y * d
  {
  }

  lemma MulRotate(a: int, b: int, c: int)
    ensures a * b * c == b * c * a
  {
  }

  lemma FlatOffset(i: int, j: int, k: int, d1: int, d2: int)
    ensures (i * d1 + j) * d2 + k == i * (d1 * d2) + (j * d2 + k)
  {
  }

  /** Floor division by `n` keeps an upper bound `f < l * n` as `f / n < l`. */
  lemma {:induction false} DivUpperBound(f: nat, n: nat, l: nat)
    requires n > 0 && f < l * n
    ensures f / n < l
  {
    var q := f / n;
    assert q * n <= f;
    assert (q - l) * n == q * n - l * n;
    MulSign(q - l, n);
  }

  /** Scaling numerator and denominator alike leaves the ceiling quotient unchanged. */
  lemma {:induction false} CeilDivScaled(a: nat, k: nat, m: nat)
    requires k > 0 && m > 0
    ensures CeilDiv(a * m, k * m) == CeilDiv(a, k)
  {
    var c := CeilDiv(a, k);
    MulMono(a, c * k, m);
    MulStrictMono(c * k, a + k, m);
    MulAssoc(c, k, m);
    assert (a + k) * m == a * m + k * m;
    CeilDivUnique(a * m, k * m, c);
  }

  /** The ceiling quotient of an exact multiple is its factor. */
  lemma {:induction false} CeilDivExact(m: nat, b: nat)
    requires b > 0
    ensures CeilDiv(m * b, b) == m
  {
    CeilDivUnique(m * b, b, m);
  }

  /** Peeling one step off a positive numerator. */
  lemma {:induction false} CeilDivStep(a: nat, b: nat)
    requires 0 < a && b > 0
    ensures CeilDiv(a, b) == if a > b then 1 + CeilDiv(a - b, b) else 1
  {
    if a > b {
      var c := CeilDiv(a - b, b);
      assert (c + 1) * b == c * b + b;
      CeilDivUnique(a, b, c + 1);
    } else {
      CeilDivUnique(a, b, 1);
    }
  }

  /** The ceiling quotient times `b` is the least multiple of `b` that is at least `a`. */
  lemma {:induction false} CeilDivLeast(a: nat, b: nat, m: nat)
    requires b > 0 && m >= a && m % b == 0
    ensures CeilDiv(a, b) * b <= m
  {
    var c := CeilDiv(a, b);
    var q := m / b;
    assert m == q * b;
    assert (c - q) * b == c * b - q * b;
    MulSign(c - q, b);
  }

  /** Euclidean `%` maps a value in `[-m, 0)` to itself plus `m`. */
  lemma {:induction false} ModNegative(x: int, m: int)
    requires m > 0 && -m <= x < 0
    ensures x % m == x + m
  {
    DivModUnique(x / m, x % m, -1, x + m, m);
  }

  /** Euclidean `%` leaves a value in `[0, m)` alone. */
  lemma {:induction false} ModSmall(x: int, m: nat)
    requires m > 0 && 0 <= x < m
    ensures x % m == x
  {
    DivModUnique(x / m, x % m, 0, x, m);
  }
}
