/**
 * Fixed-width integer arithmetic of the target: `unsigned int` and
 * `unsigned long` are 32 bits wide, `int` is 32-bit two's complement.
 */
module Width {

  const TwoTo32: int := 0x1_0000_0000

  /** A value of a 32-bit unsigned C type. */
  type u32 = x: int | 0 <= x < 0x1_0000_0000

  /**
   * The value an integer takes when stored in a 32-bit unsigned variable.
   * Dafny's `%` is Euclidean, so this is also the C conversion of a
   * negative `int` to `unsigned int`.
   */
  function U32(x: int): (r: u32)
    ensures 0 <= x < TwoTo32 ==> r == x
  {
    x % TwoTo32
  }

  /** A 32-bit pattern read as a two's-complement `int`. */
  function Int32(x: u32): (r: int)
    ensures -0x8000_0000 <= r < 0x8000_0000
  {
    if x < 0x8000_0000 then x else x - TwoTo32
  }

  function Pow2(n: nat): (r: nat)
    ensures r >= 1
  {
    if n == 0 then 1 else 2 * Pow2(n - 1)
  }

  lemma Pow2Add(a: nat, b: nat)
    ensures Pow2(a + b) == Pow2(a) * Pow2(b)
  {
    if a > 0 {
      Pow2Add(a - 1, b);
    }
  }

  lemma {:induction false} Pow2Mono(a: nat, b: nat)
    requires a <= b
    ensures Pow2(a) <= Pow2(b)
  {
    if a < b {
      Pow2Mono(a, b - 1);
    }
  }

  lemma Pow2Is32()
    ensures Pow2(32) == TwoTo32
  {
    Pow2Add(16, 16);
    assert Pow2(16) == 0x1_0000 by {
      Pow2Add(8, 8);
      assert Pow2(8) == 256 by { Pow2Add(4, 4); }
    }
  }

  /**
   * The product `a * b`, written as repeated addition so that the solver
   * expands it only on request; `MulIsProduct` equates it with `a * b`.
   */
  function Mul(a: int, b: nat): int {
    if b == 0 then 0 else Mul(a, b - 1) + a
  }

  lemma {:induction false} MulIsProduct(a: int, b: nat)
    ensures Mul(a, b) == a * b
  {
    if b > 0 {
      MulIsProduct(a, b - 1);
    }
  }

  lemma MulTwice(x: int, p: int)
    ensures 2 * (x * p) == x * (2 * p)
  {
  }

  lemma MulMono(a: int, b: int, c: int)
    requires 0 <= a <= b && 0 <= c
    ensures a * c <= b * c
  {
    assert b * c == a * c + (b - a) * c;
  }

  /** A unit below 2^22 times a factor below 256 stays below 2^30. */
  lemma ScaledBound(u: nat, f: nat)
    requires u < 0x40_0000 && f < 256
    ensures u * f < 0x4000_0000
  {
    MulMono(f, 255, u);
    MulMono(u, 0x3F_FFFF, 255);
  }

  lemma MulAtLeast(m: int, d: int)
    requires 0 < m && 1 <= d
    ensures m * d >= m
  {
    if d > 1 {
      MulAtLeast(m, d - 1);
      assert m * d == m * (d - 1) + m;
    }
  }

  /** `micros() - lastTime` in 32-bit arithmetic gives back the elapsed time, across a wrap of the clock too. */
  lemma ElapsedAcrossWrap(last: u32, d: int)
    requires 0 <= d < TwoTo32
    ensures U32(U32(last + d) - last) == d
  {
    if last + d >= TwoTo32 {
      DivModUnique(last + d, TwoTo32, 1, last + d - TwoTo32);
      DivModUnique(d - TwoTo32, TwoTo32, -1, d);
    }
  }

  /** Division with remainder has exactly one solution. */
  lemma DivModUnique(x: int, m: int, q: int, r: int)
    requires 0 < m && 0 <= r < m && x == m * q + r
    ensures x / m == q && x % m == r
  {
    var q', r' := x / m, x % m;
    assert x == m * q' + r';
    if q' > q {
      assert m * q' == m * q + m * (q' - q);
      MulAtLeast(m, q' - q);
    } else if q' < q {
      assert m * q == m * q' + m * (q - q');
      MulAtLeast(m, q - q');
    }
  }

  /** Splitting off bit `m` of a remainder by `2m`. */
  lemma ModDouble(v: nat, m: nat)
    requires m > 0
    ensures v % (2 * m) == ((v / m) % 2) * m + v % m
  {
    var q, r := v / m, v % m;
    var a, b := q / 2, q % 2;
    assert v == m * q + r;
    assert q == 2 * a + b;
    assert m * q == (2 * m) * a + m * b;
    DivModUnique(v, 2 * m, a, m * b + r);
  }

  /**
   * Reducing before a shift-and-or step gives the same 32-bit result:
   * `(x mod 2^32) * k + s` and `x * k + s` agree modulo 2^32.
   */
  lemma ModAffine(x: int, k: int, s: int)
    ensures U32(U32(x) * k + s) == U32(x * k + s)
  {
    var q, r := x / TwoTo32, U32(x);
    assert x == TwoTo32 * q + r;
    var y := r * k + s;
    var q2, r2 := y / TwoTo32, y % TwoTo32;
    assert y == TwoTo32 * q2 + r2;
    assert x * k == TwoTo32 * (q * k) + r * k;
    assert x * k + s == TwoTo32 * (q * k + q2) + r2;
    DivModUnique(x * k + s, TwoTo32, q * k + q2, r2);
  }
}
