/** Powers, products and quotients of unbounded integers: the facts that the number conversion modules share. */
module Arithmetic {

  function Pow(b: nat, e: nat): (p: nat)
    ensures 0 < b ==> 0 < p
  {
    if e == 0 then 1 else b * Pow(b, e - 1)
  }

  function Abs(x: int): nat {
    if x < 0 then -x else x
  }

  function Min(x: int, y: int): int {
    if x < y then x else y
  }

  function Max(x: int, y: int): int {
    if x < y then y else x
  }

  /** x * k by repeated addition. */
  function Product(x: int, k: nat): int {
    if k == 0 then 0 else x + Product(x, k - 1)
  }

  lemma {:induction false} ProductIs(x: int, k: nat)
    ensures Product(x, k) == x * k
  {
    if k > 0 {
      ProductIs(x, k - 1);
    }
  }

  lemma {:induction false} MulMono(x: int, y: int, k: int)
    requires x <= y && 0 <= k
    ensures x * k <= y * k
  {
  }

  lemma {:induction false} MulStrict(x: int, y: int, k: int)
    requires x < y && 0 < k
    ensures x * k < y * k
  {
  }

  lemma {:induction false} MulAssoc(x: int, y: int, z: int)
    ensures (x * y) * z == x * (y * z)
  {
  }

  lemma {:induction false} MulStep(k: int, n: int)
    ensures k * (n + 1) == k * n + k
  {
  }

  lemma {:induction false} MulTwice(n: int, k: int)
    ensures n * (2 * k) == 2 * (n * k)
  {
  }

  /** Both factors may grow. */
  lemma {:induction false} MulBoth(a: nat, t: nat, p: nat, r: nat)
    requires a < t && 0 < p <= r
    ensures a * p < t * r
  {
    MulStrict(a, t, p);
    MulMono(p, r, t);
  }

  lemma {:induction false} MulTwicePlus(f: int, c: int, p: int)
    ensures (2 * f + c) * p == 2 * (f * p) + c * p
  {
    MulAssoc(2, f, p);
  }

  lemma {:induction false} ModShift(a: int, k: int, d: int)
    requires 0 < d
    ensures (a + k * d) % d == a % d
  {
    assert a == (a / d) * d + a % d;
    assert (a / d + k) * d == (a / d) * d + k * d;
    DivModUnique(a + k * d, d, a / d + k, a % d);
  }

  lemma {:induction false} ModSmall(x: int, m: int)
    requires 0 <= x < m
    ensures x % m == x
  {
    DivModUnique(x, m, 0, x);
  }

  lemma {:induction false} MulSignPositive(x: int, k: int)
    requires 0 < k
    ensures x * k > 0 <==> x > 0
    ensures x * k < 0 <==> x < 0
  {
    if x > 0 { MulStrict(0, x, k); }
    if x < 0 { MulStrict(x, 0, k); }
  }

  /** The quotient and the remainder are the only pair with a remainder below the divisor. */
  lemma {:induction false} DivModUnique(n: int, d: int, q: int, r: int)
    requires 0 < d && 0 <= r < d && n == q * d + r
    ensures n / d == q && n % d == r
  {
    var q', r' := n / d, n % d;
    assert n == q' * d + r';
    assert (q - q') * d == r' - r;
    if q < q' { MulMono(q - q', -1, d); }
    if q > q' { MulMono(1, q - q', d); }
  }

  const TWO_32: nat := 0x1_0000_0000
  const MAX_INT: nat := 0x7fff_ffff

  predicate FitsInt(x: int) {
    -0x8000_0000 <= x <= MAX_INT
  }

  /** The conversion to a 32-bit integer that keeps the low 32 bits. */
  function Wrap32(x: int): (r: int)
    ensures FitsInt(r)
  {
    var r := x % TWO_32;
    if r <= MAX_INT then r else r - TWO_32
  }

  lemma {:induction false} WrapCongruent(x: int, k: int)
    ensures Wrap32(x + k * TWO_32) == Wrap32(x)
  {
    DivModUnique(x + k * TWO_32, TWO_32, x / TWO_32 + k, x % TWO_32);
  }

  /** Only the low 32 bits of a factor matter for those of the product. */
  lemma {:induction false} WrapProduct(m: int, x: int)
    ensures Wrap32(m * Wrap32(x)) == Wrap32(m * x)
  {
    var q := (x - Wrap32(x)) / TWO_32;
    assert x == Wrap32(x) + q * TWO_32;
    assert m * x == m * Wrap32(x) + (m * q) * TWO_32;
    WrapCongruent(m * Wrap32(x), m * q);
  }

  lemma {:induction false} PowAdd(b: nat, m: nat, n: nat)
    ensures Pow(b, m + n) == Pow(b, m) * Pow(b, n)
  {
    if m > 0 {
      PowAdd(b, m - 1, n);
      MulAssoc(b, Pow(b, m - 1), Pow(b, n));
    }
  }

  lemma {:induction false} PowMono(b: nat, m: nat, n: nat)
    requires 0 < b && m <= n
    ensures Pow(b, m) <= Pow(b, n)
  {
    PowAdd(b, n - m, m);
    MulMono(1, Pow(b, n - m), Pow(b, m));
  }

  lemma {:induction false} PowStrict(b: nat, m: nat, n: nat)
    requires 1 < b && m < n
    ensures Pow(b, m) < Pow(b, n)
  {
    PowMono(b, m + 1, n);
    MulStrict(1, b, Pow(b, m));
  }

  lemma {:induction false} MulSwap(x: int, y: int, u: int, v: int)
    ensures (x * y) * (u * v) == (x * u) * (y * v)
  {
    calc {
      (x * y) * (u * v);
      x * (y * (u * v));
      { assert y * (u * v) == u * (y * v); }
      x * (u * (y * v));
      (x * u) * (y * v);
    }
  }

  lemma {:induction false} PowOfProduct(x: nat, y: nat, n: nat)
    ensures Pow(x * y, n) == Pow(x, n) * Pow(y, n)
  {
    if n > 0 {
      PowOfProduct(x, y, n - 1);
      var u, v := Pow(x, n - 1), Pow(y, n - 1);
      MulSwap(x, y, u, v);
    }
  }

  lemma {:induction false} PowOfPower(b: nat, k: nat, n: nat)
    ensures Pow(Pow(b, k), n) == Pow(b, k * n)
  {
    if n > 0 {
      PowOfPower(b, k, n - 1);
      PowAdd(b, k, k * (n - 1));
      assert k * n == k + k * (n - 1);
    }
  }

  lemma {:induction false} PowBaseMono(x: nat, y: nat, n: nat)
    requires x <= y
    ensures Pow(x, n) <= Pow(y, n)
  {
    if n > 0 {
      PowBaseMono(x, y, n - 1);
      MulMono(x, y, Pow(x, n - 1));
      MulMono(Pow(x, n - 1), Pow(y, n - 1), y);
    }
  }

  /** Dividing by two powers of the same base in turn divides by their product. */
  lemma {:induction false} DivDiv(n: nat, c: nat, d: nat)
    requires 0 < c && 0 < d
    ensures c * d > 0
    ensures n / (c * d) == n / c / d
  {
    var q := n / c;
    MulStrict(0, c, d);
    var r := (q % d) * c + n % c;
    assert n == q * c + n % c;
    assert q == (q / d) * d + q % d;
    assert n == (q / d) * (c * d) + r by {
      assert q * c == ((q / d) * d) * c + (q % d) * c;
      assert ((q / d) * d) * c == (q / d) * (c * d);
    }
    MulMono(q % d, d - 1, c);
    assert (d - 1) * c == c * d - c;
    DivModUnique(n, c * d, q / d, r);
  }

  lemma {:induction false} ModOfMod(n: nat, c: nat, d: nat)
    requires 0 < c && 0 < d
    ensures c * d > 0
    ensures n % (c * d) % d == n % d
  {
    MulStrict(0, c, d);
    var q, r := n / (c * d), n % (c * d);
    assert n == q * (c * d) + r == (q * c) * d + r;
    assert r == (r / d) * d + r % d;
    assert n == (q * c + r / d) * d + r % d by {
      assert (q * c + r / d) * d == (q * c) * d + (r / d) * d;
    }
    DivModUnique(n, d, q * c + r / d, r % d);
  }

  lemma {:induction false} PowersOfTwo()
    ensures Pow(2, 10) == 0x400
    ensures Pow(2, 11) == 0x800
    ensures Pow(2, 32) == 0x1_0000_0000
    ensures Pow(2, 52) == 0x10_0000_0000_0000
    ensures Pow(2, 53) == 0x20_0000_0000_0000
    ensures Pow(2, 63) == 0x8000_0000_0000_0000
    ensures Pow(2, 64) == 0x1_0000_0000_0000_0000
  {
    assert Pow(2, 10) == 0x400 by { PowAdd(2, 5, 5); }
    PowAdd(2, 11, 21);
    PowAdd(2, 10, 11);
    PowAdd(2, 32, 10);
    PowAdd(2, 42, 10);
    PowAdd(2, 53, 10);
    PowAdd(2, 32, 32);
  }
}
