/** Integer powers, divisibility and the modular-arithmetic facts the other modules rely on. */
module Arith {

  /** `b` raised to the natural power `e`. */
  function Pow(b: int, e: nat): int
  {
    if e == 0 then 1 else b * Pow(b, e - 1)
  }

  /** `2^n`. */
  function Pow2(n: nat): (r: nat)
    ensures r >= 1
  {
    if n == 0 then 1 else 2 * Pow2(n - 1)
  }

  function Abs(x: int): nat
  {
    if x < 0 then -x else x
  }

  /** `d` divides `n`: `n` is an integer multiple of `d`. */
  ghost predicate Divides(d: int, n: int)
  {
    exists k :: n == d * k
  }

  lemma {:induction false} PowAdd(b: int, m: nat, n: nat)
    ensures Pow(b, m + n) == Pow(b, m) * Pow(b, n)
  {
    if m > 0 {
      PowAdd(b, m - 1, n);
      calc {
        Pow(b, m + n);
        b * Pow(b, m - 1 + n);
        b * (Pow(b, m - 1) * Pow(b, n));
        (b * Pow(b, m - 1)) * Pow(b, n);
      }
    }
  }

  lemma {:induction false} Pow2Add(m: nat, n: nat)
    ensures Pow2(m + n) == Pow2(m) * Pow2(n)
  {
    if m > 0 {
      Pow2Add(m - 1, n);
    }
  }

  /** `2^64`, `2^255` and `2^256` written out. */
  const TWO_64: nat := 0x1_0000_0000_0000_0000
  const TWO_255: nat := 0x8000_0000_0000_0000_0000_0000_0000_0000_0000_0000_0000_0000_0000_0000_0000_0000
  const TWO_256: nat := 0x1_0000_0000_0000_0000_0000_0000_0000_0000_0000_0000_0000_0000_0000_0000_0000_0000

  lemma Pow2Eight()
    ensures Pow2(8) == 256
  {
  }

  lemma Pow2Sixteen()
    ensures Pow2(16) == 0x1_0000
  {
    Pow2Eight();
    Pow2Add(8, 8);
  }

  lemma Pow2ThirtyTwo()
    ensures Pow2(32) == 0x1_0000_0000
  {
    Pow2Sixteen();
    Pow2Add(16, 16);
  }

  /** `2^64` as a literal, for the range checks of the 64-bit gadgets. */
  lemma Pow2SixtyFour()
    ensures Pow2(64) == TWO_64
  {
    Pow2ThirtyTwo();
    Pow2Add(32, 32);
  }

  lemma Pow2OneTwentyEight()
    ensures Pow2(128) == 0x1_0000_0000_0000_0000_0000_0000_0000_0000
  {
    Pow2SixtyFour();
    Pow2Add(64, 64);
  }

  lemma Pow2TwoFiftySix()
    ensures Pow2(256) == TWO_256
  {
    Pow2OneTwentyEight();
    Pow2Add(128, 128);
  }

  /** `2^255` as a literal, the width of the field's bit decomposition. */
  lemma Pow2TwoFiftyFive()
    ensures Pow2(255) == TWO_255
  {
    Pow2TwoFiftySix();
    assert Pow2(256) == 2 * Pow2(255);
  }

  lemma MulAtLeast(k: int, m: int)
    requires k >= 1 && m > 0
    ensures k * m >= m
  {
  }

  lemma MulSubDistrib(a: int, b: int, m: int)
    ensures (a - b) * m == a * m - b * m
  {
  }

  lemma MulAddDistrib(m: int, x: int, y: int)
    ensures m * (x + y) == m * x + m * y
  {
  }

  lemma MulMonotone(m: nat, x: int, y: int)
    requires x <= y
    ensures m * x <= m * y
  {
  }

  lemma MulAssoc(a: int, b: int, c: int)
    ensures a * (b * c) == (a * b) * c
  {
  }

  /** `2^w * b` is twice `2^(w-1) * b`. */
  lemma Pow2Double(w: nat, b: int)
    requires w > 0
    ensures Pow2(w) * b == 2 * (Pow2(w - 1) * b)
  {
  }

  lemma MulExpand(qa: int, ra: int, qb: int, rb: int, m: int)
    ensures (qa * m + ra) * (qb * m + rb) == ra * rb + (qa * qb * m + qa * rb + ra * qb) * m
  {
  }

  /** The quotient and remainder of Euclidean division are unique. */
  lemma DivModUnique(x: int, m: int, q: int, r: int)
    requires m > 0 && 0 <= r < m && x == q * m + r
    ensures x / m == q && x % m == r
  {
    var q0, r0 := x / m, x % m;
    assert x == m * q0 + r0;
    MulSubDistrib(q0, q, m);
    if q0 > q {
      MulAtLeast(q0 - q, m);
    } else if q0 < q {
      MulSubDistrib(q, q0, m);
      MulAtLeast(q - q0, m);
    }
  }

  lemma ModAddMultiple(x: int, k: int, m: int)
    requires m > 0
    ensures (x + k * m) % m == x % m
  {
    assert x == (x / m) * m + x % m;
    assert x + k * m == (x / m + k) * m + x % m;
    DivModUnique(x + k * m, m, x / m + k, x % m);
  }

  lemma SmallMod(a: int, m: int)
    requires 0 <= a < m
    ensures a % m == a
  {
    DivModUnique(a, m, 0, a);
  }

  /** Taking a remainder modulo `m` twice is the same as once. */
  lemma ModIdempotent(x: int, m: int)
    requires m > 0
    ensures (x % m) % m == x % m
  {
    DivModUnique(x % m, m, 0, x % m);
  }

  lemma MulMod(a: int, b: int, m: int)
    requires m > 0
    ensures (a * b) % m == ((a % m) * (b % m)) % m
  {
    var qa, ra := a / m, a % m;
    var qb, rb := b / m, b % m;
    assert a == qa * m + ra;
    assert b == qb * m + rb;
    MulExpand(qa, ra, qb, rb, m);
    ModAddMultiple(ra * rb, qa * qb * m + qa * rb + ra * qb, m);
  }

  /** Reducing one factor first does not change a product modulo `m`. */
  lemma MulModRight(a: int, b: int, m: int)
    requires m > 0
    ensures (a * (b % m)) % m == (a * b) % m
  {
    MulMod(a, b, m);
    MulMod(a, b % m, m);
    ModIdempotent(b, m);
  }

  lemma MulModLeft(a: int, b: int, m: int)
    requires m > 0
    ensures ((a % m) * b) % m == (a * b) % m
  {
    MulModRight(b, a, m);
  }

  /** `a` and `b` leave the same remainder modulo `m` exactly when `m` divides their difference. */
  lemma CongruentIffDivides(a: int, b: int, m: int)
    requires m > 0
    ensures a % m == b % m <==> Divides(m, a - b)
  {
    if a % m == b % m {
      assert a - b == m * (a / m - b / m);
    }
    if Divides(m, a - b) {
      var k :| a - b == m * k;
      ModAddMultiple(b, k, m);
    }
  }

  lemma DividesLinear(d: int, a: int, b: int, q: int)
    requires Divides(d, a) && Divides(d, b)
    ensures Divides(d, a + q * b)
  {
    var ka :| a == d * ka;
    var kb :| b == d * kb;
    assert a + q * b == d * (ka + q * kb);
  }

  lemma DividesMul(d: int, a: int, c: int)
    requires Divides(d, a)
    ensures Divides(d, a * c)
  {
    var k :| a == d * k;
    assert a * c == d * (k * c);
  }

  /** Only non-zero integers divide a non-zero integer. */
  lemma DivisorOfNonZero(d: int, n: int)
    requires n != 0 && Divides(d, n)
    ensures d != 0
  {
    var k :| n == d * k;
  }

  lemma MulSign(d: int, k: int)
    requires d > 0 && d * k > 0
    ensures k >= 1
  {
  }

  /** A positive multiple is at least as large as its positive divisor. */
  lemma DividesBound(d: int, n: int)
    requires d > 0 && n > 0 && Divides(d, n)
    ensures d <= n
  {
    var k :| n == d * k;
    MulSign(d, k);
    MulAtLeast(k, d);
  }

  /** Two non-negative integers that divide each other are equal. */
  lemma DividesAntisymmetric(a: int, b: int)
    requires a >= 0 && b >= 0 && Divides(a, b) && Divides(b, a)
    ensures a == b
  {
    if a == 0 {
      var k :| b == a * k;
    } else if b == 0 {
      var k :| a == b * k;
    } else {
      DividesBound(a, b);
      DividesBound(b, a);
    }
  }

  lemma {:induction false} PowMod(b: int, e: nat, m: int)
    requires m > 0
    ensures Pow(b % m, e) % m == Pow(b, e) % m
  {
    if e > 0 {
      PowMod(b, e - 1, m);
      calc {
        Pow(b % m, e) % m;
        ((b % m) * Pow(b % m, e - 1)) % m;
        { MulModRight(b % m, Pow(b % m, e - 1), m); }
        ((b % m) * (Pow(b % m, e - 1) % m)) % m;
        ((b % m) * (Pow(b, e - 1) % m)) % m;
        { MulModRight(b % m, Pow(b, e - 1), m); }
        ((b % m) * Pow(b, e - 1)) % m;
        { MulModLeft(b, Pow(b, e - 1), m); }
        (b * Pow(b, e - 1)) % m;
      }
    }
  }

  lemma {:induction false} PowSquare(b: int, k: nat)
    ensures Pow(b * b, k) == Pow(b, 2 * k)
  {
    if k > 0 {
      PowSquare(b, k - 1);
      PowAdd(b, 2, 2 * k - 2);
    }
  }

  lemma MulCancel(g: int, u: int, v: int)
    requires g != 0 && g * u == g * v
    ensures u == v
  {
    MulSubDistrib(u, v, g);
    if u > v {
      MulAtLeast(u - v, Abs(g));
    } else if u < v {
      MulAtLeast(v - u, Abs(g));
    }
  }
}
