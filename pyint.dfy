/** Python integer semantics used by the codecs.

    Python integers are unbounded and behave, under the bitwise operators, as
    infinite two's-complement bit strings.  The core only ever combines a value
    with a power of two or with a mask of low bits, and each such combination has
    an exact arithmetic equivalent (for every int, negative ones included):

      x >> k            ==  x / 2^k          (floor division; Dafny's / is floor for a positive divisor)
      x << k            ==  x * 2^k
      x & (2^n - 1)     ==  x % 2^n          (never negative, as in Python)
      ~x                ==  -x - 1
      x | 2^k           ==  x, if bit k of x is set, else x + 2^k
      x ^ 2^k           ==  x - 2^k, if bit k of x is set, else x + 2^k
      bit k of x        ==  (x / 2^k) % 2
*/
module PyInt {

  function Pow2(n: nat): (r: int)
    ensures r >= 1
  {
    if n == 0 then 1 else 2 * Pow2(n - 1)
  }

  /** 0x100 ** k */
  function Pow256(k: nat): (r: int)
    ensures r >= 1
  {
    if k == 0 then 1 else 256 * Pow256(k - 1)
  }

  /** x >> k */
  function Shr(x: int, k: nat): int {
    x / Pow2(k)
  }

  /** x & ((1 << n) - 1) */
  function Mask(x: int, n: nat): int {
    x % Pow2(n)
  }

  /** ~x */
  function Invert(x: int): int {
    -x - 1
  }

  /** bit k of x, in Python's two's-complement view */
  function Bit(x: int, k: nat): int {
    (x / Pow2(k)) % 2
  }

  /** x | (1 << k) */
  function OrPow2(x: int, k: nat): int {
    if Bit(x, k) == 1 then x else x + Pow2(k)
  }

  /** x ^ (1 << k) */
  function XorPow2(x: int, k: nat): int {
    if Bit(x, k) == 1 then x - Pow2(k) else x + Pow2(k)
  }

  lemma {:induction false} Pow2Add(a: nat, b: nat)
    ensures Pow2(a + b) == Pow2(a) * Pow2(b)
  {
    if a > 0 {
      Pow2Add(a - 1, b);
    }
  }

  lemma {:induction false} Pow2Monotone(a: nat, b: nat)
    requires a <= b
    ensures Pow2(a) <= Pow2(b)
  {
    if a < b {
      Pow2Monotone(a, b - 1);
    }
  }

  lemma {:induction false} Pow256IsPow2(k: nat)
    ensures Pow256(k) == Pow2(8 * k)
  {
    if k > 0 {
      Pow256IsPow2(k - 1);
      Pow2Add(8, 8 * (k - 1));
      assert 8 * k == 8 + 8 * (k - 1);
    }
  }

  lemma {:induction false} Pow256Add(a: nat, b: nat)
    ensures Pow256(a + b) == Pow256(a) * Pow256(b)
  {
    if a > 0 {
      Pow256Add(a - 1, b);
    }
  }

  /** Division with a remainder in range is unique. */
  lemma DivModUnique(a: int, d: int, q: int, r: int)
    requires d > 0 && 0 <= r < d && a == d * q + r
    ensures a / d == q && a % d == r
  {
    var q', r' := a / d, a % d;
    assert d * q' + r' == d * q + r;
    assert d * (q' - q) == r - r';
    if q' > q {
      MulAtLeast(d, q' - q);
    } else if q' < q {
      MulAtLeast(d, q - q');
    }
  }

  /** Two different numbers closer together than the modulus leave different
      remainders. */
  lemma DistinctRemainders(t: int, s: int, m: int)
    requires m > 0 && t != s && -m < t - s < m
    ensures t % m != s % m
  {
    if t % m == s % m {
      var q1, q2 := t / m, s / m;
      assert t - s == m * (q1 - q2);
      if q1 > q2 {
        MulAtLeast(m, q1 - q2);
      } else if q1 < q2 {
        MulAtLeast(m, q2 - q1);
      }
    }
  }

  lemma MulAtLeast(d: int, k: int)
    requires d > 0 && k >= 1
    ensures d * k >= d
  {
  }

  /** (a / b) / c == a / (b * c) for positive divisors. */
  lemma DivDiv(a: int, b: int, c: int)
    requires b > 0 && c > 0
    ensures a / b / c == a / (b * c)
  {
    var q, r := a / b, a % b;
    var q2, r2 := q / c, q % c;
    assert a == b * (c * q2 + r2) + r;
    assert a == (b * c) * q2 + (b * r2 + r) by {
      assert b * (c * q2 + r2) == (b * c) * q2 + b * r2;
    }
    assert 0 <= b * r2 <= b * (c - 1) by {
      MulMono(b, r2, c - 1);
    }
    DivModUnique(a, b * c, q2, b * r2 + r);
  }

  lemma MulMono(b: int, x: int, y: int)
    requires b > 0 && 0 <= x <= y
    ensures 0 <= b * x <= b * y
  {
  }

  /** v % (b * c) splits into the digit (v / b) % c and the lower part v % b. */
  lemma ModSplit(v: int, b: int, c: int)
    requires b > 0 && c > 0
    ensures v % (b * c) == (v / b % c) * b + v % b
  {
    var q, r := v / b, v % b;
    var q2, r2 := q / c, q % c;
    assert v == (b * c) * q2 + (r2 * b + r) by {
      assert v == b * q + r;
      assert q == c * q2 + r2;
      assert b * (c * q2 + r2) == (b * c) * q2 + r2 * b;
    }
    assert 0 <= r2 * b <= (c - 1) * b by {
      MulMono(b, r2, c - 1);
    }
    DivModUnique(v, b * c, q2, r2 * b + r);
  }

  /** A value below a modulus is its own remainder. */
  lemma ModBelow(v: int, m: int)
    requires 0 <= v < m
    ensures v % m == v && v / m == 0
  {
    DivModUnique(v, m, 0, v);
  }

  /** Bit k of a value in [0, 2^(k+1)) is set exactly when the value is at least 2^k. */
  lemma BitTop(x: int, k: nat)
    requires 0 <= x < Pow2(k + 1)
    ensures Bit(x, k) == (if x >= Pow2(k) then 1 else 0)
    ensures x / Pow2(k) == (if x >= Pow2(k) then 1 else 0)
  {
    var p := Pow2(k);
    assert Pow2(k + 1) == 2 * p;
    if x >= p {
      DivModUnique(x, p, 1, x - p);
    } else {
      DivModUnique(x, p, 0, x);
    }
    ModBelow(x / p, 2);
  }
}
