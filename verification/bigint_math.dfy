/**
 * The arbitrary-precision helpers of the Paillier module: modular exponentiation,
 * the extended Euclidean algorithm, modular inverse, gcd and lcm.
 *
 * They operate on JavaScript BigInt values. BigInt `/` truncates toward zero and
 * BigInt `%` takes the sign of the dividend; both throw on a zero divisor. Dafny's
 * own `/` and `%` are Euclidean, so the two BigInt operators are modelled
 * explicitly as `TDiv` and `TMod`.
 */
module BigIntMath {
  import opened Arith
  import opened Wrappers

  /** BigInt `a / b`: the quotient rounded toward zero. */
  function TDiv(a: int, b: int): int
    requires b != 0
  {
    if a >= 0 && b > 0 then a / b
    else if a >= 0 then -(a / -b)
    else if b > 0 then -((-a) / b)
    else (-a) / (-b)
  }

  /** BigInt `a % b`: the remainder left by `TDiv`, with the sign of `a`. */
  function TMod(a: int, b: int): int
    requires b != 0
  {
    a - b * TDiv(a, b)
  }

  lemma TModBounds(a: int, b: int)
    requires b != 0
    ensures a >= 0 ==> 0 <= TMod(a, b) < Abs(b)
    ensures a < 0 ==> -(Abs(b) as int) < TMod(a, b) <= 0
    ensures a >= 0 && b > 0 ==> TDiv(a, b) == a / b && TMod(a, b) == a % b
  {
    if a >= 0 && b > 0 {
    } else if a >= 0 {
      assert TMod(a, b) == a - (-b) * (a / -b);
    } else if b > 0 {
      assert TMod(a, b) == -((-a) - b * ((-a) / b));
    } else {
      assert TMod(a, b) == -((-a) - (-b) * ((-a) / (-b)));
    }
  }

  /** `TMod` keeps the residue class: `m` divides `a - TMod(a, m)`. */
  lemma TModCongruent(a: int, m: int)
    requires m > 0
    ensures TMod(a, m) % m == a % m
  {
    ModAddMultiple(a, -TDiv(a, m), m);
  }

  /** When `d` divides `x` exactly, truncating division recovers the cofactor. */
  lemma TDivExact(x: int, d: int, k: int)
    requires d != 0 && x == d * k
    ensures TDiv(x, d) == k
  {
    if x >= 0 && d > 0 {
      DivModUnique(x, d, k, 0);
    } else if x >= 0 {
      DivModUnique(x, -d, -k, 0);
    } else if d > 0 {
      DivModUnique(-x, d, -k, 0);
    } else {
      DivModUnique(-x, -d, k, 0);
    }
  }

  /** Peeling the odd factor off `b^e`, with `e == 2k` or `e == 2k + 1`, leaves a power of `b * b`. */
  lemma OddEvenSplit(r: int, b: int, e: nat, k: nat, odd: bool)
    requires e == 2 * k + (if odd then 1 else 0)
    ensures r * Pow(b, e) == (if odd then r * b else r) * Pow(b * b, k)
  {
    var square := Pow(b * b, k);
    PowAdd(b, e - 2 * k, 2 * k);
    PowSquare(b, k);
    assert Pow(b, e) == Pow(b, e - 2 * k) * square;
    if odd {
      assert Pow(b, 1) == b;
      MulAssoc(r, b, square);
    } else {
      assert Pow(b, 0) == 1;
    }
  }

  /** One square-and-multiply step keeps `result * b^e` in its residue class. */
  lemma SquareStep(r: int, b: int, e: nat, m: int)
    requires m > 0 && e > 0
    ensures (r * Pow(b, e)) % m
         == ((if e % 2 == 1 then TMod(r * b, m) else r) * Pow(TMod(b * b, m), e / 2)) % m
  {
    var k := e / 2;
    var r' := if e % 2 == 1 then r * b else r;
    OddEvenSplit(r, b, e, k, e % 2 == 1);
    TModCongruent(b * b, m);
    PowMod(TMod(b * b, m), k, m);
    PowMod(b * b, k, m);
    MulModRight(r', Pow(b * b, k), m);
    MulModRight(r', Pow(TMod(b * b, m), k), m);
    if e % 2 == 1 {
      TModCongruent(r * b, m);
      MulModLeft(r * b, Pow(TMod(b * b, m), k), m);
      MulModLeft(TMod(r * b, m), Pow(TMod(b * b, m), k), m);
    }
  }

  /**
   * Right-to-left square-and-multiply. The result is congruent to
   * `base^exponent`; for a non-negative base it is the canonical residue.
   * A non-positive exponent skips the loop and yields 1.
   */
  method ModExp(base: int, exponent: int, modulus: int) returns (result: int)
    requires modulus > 0
    ensures exponent <= 0 ==> result == 1
    ensures exponent > 0 ==> result % modulus == Pow(base, exponent) % modulus
    ensures exponent > 0 ==> -modulus < result < modulus
    ensures base >= 0 && exponent > 0 ==> result == Pow(base, exponent) % modulus
  {
    result := 1;
    var b := TMod(base, modulus);
    TModBounds(base, modulus);
    TModCongruent(base, modulus);
    PowMod(b, if exponent > 0 then exponent else 0, modulus);
    PowMod(base, if exponent > 0 then exponent else 0, modulus);
    var e := exponent;
    while e > 0
      invariant exponent <= 0 ==> e == exponent && result == 1
      invariant exponent > 0 ==> e >= 0 && (result * Pow(b, e)) % modulus == Pow(base, exponent) % modulus
      invariant -modulus < b < modulus
      invariant result == 1 || -modulus < result < modulus
      invariant exponent > 0 && e == 0 ==> -modulus < result < modulus
      invariant base >= 0 ==> b >= 0 && result >= 0
      decreases e
    {
      SquareStep(result, b, e, modulus);
      TModBounds(e, 2);
      if TMod(e, 2) == 1 {
        TModBounds(result * b, modulus);
        result := TMod(result * b, modulus);
      }
      TModBounds(b * b, modulus);
      e := TDiv(e, 2);
      b := TMod(b * b, modulus);
    }
    if base >= 0 && exponent > 0 {
      DivModUnique(result, modulus, 0, result);
    }
  }

  /** The triple returned by the extended Euclidean algorithm. */
  datatype EgcdResult = EgcdResult(g: int, x: int, y: int)

  /**
   * Extended Euclid: Bezout coefficients `x`, `y` with `a*x + b*y == g`,
   * where `g` divides both inputs (so every common divisor divides `g`).
   */
  function Egcd(a: int, b: int): (r: EgcdResult)
    ensures a * r.x + b * r.y == r.g
    ensures Divides(r.g, a) && Divides(r.g, b)
    ensures a >= 0 && b >= 0 ==> r.g >= 0
    decreases Abs(a)
  {
    if a == 0 then
      DividesBasics(b);
      EgcdResult(b, 0, 1)
    else
      TModBounds(b, a);
      var rec := Egcd(TMod(b, a), a);
      EgcdStep(a, b, rec);
      EgcdResult(rec.g, rec.y - TDiv(b, a) * rec.x, rec.x)
  }

  lemma DividesBasics(a: int)
    ensures Divides(a, a) && Divides(a, 0)
  {
    assert a == a * 1 && 0 == a * 0;
  }

  /** The recursive step of `Egcd` keeps Bezout's identity and the common divisor. */
  lemma BezoutRearrange(a: int, b: int, q: int, x: int, y: int)
    ensures a * (y - q * x) + b * x == (b - a * q) * x + a * y
  {
    MulSubDistrib(b, a * q, x);
    MulAssoc(a, q, x);
    MulSubDistrib(y, q * x, a);
  }

  lemma EgcdStep(a: int, b: int, rec: EgcdResult)
    requires a != 0
    requires TMod(b, a) * rec.x + a * rec.y == rec.g
    requires Divides(rec.g, TMod(b, a)) && Divides(rec.g, a)
    ensures a * (rec.y - TDiv(b, a) * rec.x) + b * rec.x == rec.g
    ensures Divides(rec.g, b)
  {
    var q := TDiv(b, a);
    assert TMod(b, a) == b - a * q;
    BezoutRearrange(a, b, q, rec.x, rec.y);
    DividesLinear(rec.g, TMod(b, a), a, q);
  }

  /** Every common divisor of `a` and `b` divides `TMod(a, b)`. */
  lemma CommonDivisorsOfRemainder(a: int, b: int)
    requires b != 0
    ensures forall d :: Divides(d, a) && Divides(d, b) ==> Divides(d, TMod(a, b))
  {
    forall d | Divides(d, a) && Divides(d, b)
      ensures Divides(d, TMod(a, b))
    {
      DivisorOfRemainder(d, a, b);
    }
  }

  lemma DivisorOfRemainder(d: int, a: int, b: int)
    requires b != 0 && Divides(d, a) && Divides(d, b)
    ensures Divides(d, TMod(a, b))
  {
    DividesLinear(d, a, b, -TDiv(a, b));
    assert a + -TDiv(a, b) * b == TMod(a, b);
  }

  /** A common divisor of `b` and `TMod(a, b)` divides `a`. */
  lemma DivisorOfDividend(d: int, a: int, b: int)
    requires b != 0 && Divides(d, TMod(a, b)) && Divides(d, b)
    ensures Divides(d, a)
  {
    DividesLinear(d, TMod(a, b), b, TDiv(a, b));
    assert TMod(a, b) + TDiv(a, b) * b == a;
  }

  /**
   * Euclid's algorithm. The result is a common divisor that every common divisor
   * divides; it is non-negative for non-negative inputs, and `gcd(a, 0) == a`.
   */
  function Gcd(a: int, b: int): (r: int)
    ensures Divides(r, a) && Divides(r, b)
    ensures forall d :: Divides(d, a) && Divides(d, b) ==> Divides(d, r)
    ensures a >= 0 && b >= 0 ==> r >= 0
    ensures b == 0 ==> r == a
    decreases Abs(b)
  {
    if b == 0 then
      DividesBasics(a);
      a
    else
      TModBounds(a, b);
      CommonDivisorsOfRemainder(a, b);
      var r := Gcd(b, TMod(a, b));
      DivisorOfDividend(r, a, b);
      r
  }

  /** On non-negative inputs the extended algorithm's `g` is the gcd. */
  lemma EgcdIsGcd(a: int, b: int)
    ensures a >= 0 && b >= 0 ==> Egcd(a, b).g == Gcd(a, b)
  {
    if a < 0 || b < 0 {
      return;
    }
    var e := Egcd(a, b);
    var g := Gcd(a, b);
    DividesMul(g, a, e.x);
    DividesMul(g, b, e.y);
    var ka :| a * e.x == g * ka;
    var kb :| b * e.y == g * kb;
    assert e.g == g * (ka + kb);
    DividesAntisymmetric(e.g, g);
  }

  /**
   * The inverse of `a` modulo `m`, or the error the source throws when
   * the extended algorithm's `g` is not 1.
   */
  function ModInv(a: int, m: int): (r: Result<int, string>)
    requires m > 0
    ensures a >= 0 ==> (r.Success? <==> Gcd(a, m) == 1)
    ensures r.Success? ==> 0 <= r.value < m && (a * r.value) % m == 1 % m
  {
    var e := Egcd(a, m);
    EgcdIsGcd(a, m);
    if e.g != 1 then
      Failure("modular inverse does not exist")
    else
      InverseNormalised(a, m, e.x, e.y);
      Success(TMod(TMod(e.x, m) + m, m))
  }

  /** `((x % m) + m) % m` in BigInt arithmetic is the canonical residue of `x`. */
  lemma InverseNormalised(a: int, m: int, x: int, y: int)
    requires m > 0 && a * x + m * y == 1
    ensures 0 <= TMod(TMod(x, m) + m, m) < m
    ensures (a * TMod(TMod(x, m) + m, m)) % m == 1 % m
  {
    var t := TMod(x, m);
    TModBounds(x, m);
    TModBounds(t + m, m);
    var v := TMod(t + m, m);
    assert v == (t + m) % m;
    ModAddMultiple(t, 1, m);
    TModCongruent(x, m);
    assert v % m == x % m by {
      ModIdempotent(t + m, m);
    }
    MulModRight(a, v, m);
    MulModRight(a, x, m);
    ModAddMultiple(a * x, y, m);
  }

  /** When `ModInv` fails, `a` really has no inverse modulo `m`. */
  lemma ModInvFailsOnlyWithoutInverse(a: int, m: int, x: int)
    requires a >= 0 && m > 0 && ModInv(a, m).Failure?
    ensures (a * x) % m != 1 % m
  {
    var g := Gcd(a, m);
    if (a * x) % m == 1 % m {
      CongruentIffDivides(a * x, 1, m);
      var k :| a * x - 1 == m * k;
      DividesMul(g, a, x);
      DividesLinear(g, a * x, m, -k);
      assert a * x + -k * m == 1;
      var w :| m == g * w;
      assert g != 0;
      DividesBound(g, 1);
      assert false;
    }
  }

  /**
   * For a negative `a` the extended algorithm can end with `g == -1`, so `modInv`
   * throws although an inverse exists: `-29 * 1 == 1 (mod 2)`.
   */
  lemma ModInvNegativeFails()
    ensures ModInv(-29, 2).Failure? && (-29 * 1) % 2 == 1 % 2
  {
    EgcdMinusTwentyNine();
    OneInvertsMinusTwentyNine();
  }

  /** The run `(-29, 2) -> (2, -29) -> (-1, 2) -> (0, -1)` ends with `g == -1`. */
  lemma EgcdMinusTwentyNine()
    ensures Egcd(-29, 2).g == -1
  {
    assert TMod(2, -1) == 0 && Egcd(0, -1).g == -1;
    assert Egcd(-1, 2).g == -1;
    assert TMod(-29, 2) == -1;
    assert Egcd(2, -29).g == -1;
    assert TMod(2, -29) == 2;
  }

  lemma OneInvertsMinusTwentyNine()
    ensures (-29 * 1) % 2 == 1 % 2
  {
    DivModUnique(-29 * 1, 2, -15, 1);
  }

  /** `a * b / gcd(a, b)`; the source divides by zero when both inputs are 0. */
  function Lcm(a: int, b: int): (r: int)
    requires a != 0 || b != 0
    ensures Divides(a, r) && Divides(b, r)
    ensures r * Gcd(a, b) == a * b
    ensures a >= 0 && b >= 0 ==> r >= 0
  {
    LcmQuotient(a, b);
    TDiv(a * b, Gcd(a, b))
  }

  lemma LcmQuotient(a: int, b: int)
    requires a != 0 || b != 0
    ensures Gcd(a, b) != 0
    ensures Divides(a, TDiv(a * b, Gcd(a, b))) && Divides(b, TDiv(a * b, Gcd(a, b)))
    ensures TDiv(a * b, Gcd(a, b)) * Gcd(a, b) == a * b
    ensures a >= 0 && b >= 0 ==> TDiv(a * b, Gcd(a, b)) >= 0
  {
    var g := Gcd(a, b);
    var ka :| a == g * ka;
    var kb :| b == g * kb;
    LcmCofactors(a, b, g, ka, kb);
    var r := TDiv(a * b, g);
    assert r == a * kb && r == b * ka;
    if a >= 0 && b >= 0 {
      LcmNonNegative(g, b, kb, a);
    }
  }

  lemma LcmCofactors(a: int, b: int, g: int, ka: int, kb: int)
    requires a != 0 || b != 0
    requires a == g * ka && b == g * kb
    ensures g != 0
    ensures TDiv(a * b, g) == a * kb && TDiv(a * b, g) == b * ka
    ensures TDiv(a * b, g) * g == a * b
  {
    assert a * b == g * (a * kb) by {
      assert a * b == a * (g * kb);
    }
    assert a * b == g * (ka * b) by {
      assert a * b == (g * ka) * b;
    }
    TDivExact(a * b, g, a * kb);
    TDivExact(a * b, g, ka * b);
  }

  lemma LcmNonNegative(g: int, b: int, kb: int, a: int)
    requires g >= 0 && b >= 0 && a >= 0 && b == g * kb && g != 0
    ensures a * kb >= 0
  {
    if kb < 0 {
      MulAtLeast(-kb, g);
    }
  }

  /** Every common multiple of `a` and `b`, of any signs, is a multiple of `Lcm(a, b)`. */
  lemma LcmIsLeast(a: int, b: int, n: int)
    requires a != 0 || b != 0
    requires Divides(a, n) && Divides(b, n)
    ensures Divides(Lcm(a, b), n)
  {
    var l := Lcm(a, b);
    var g := Gcd(a, b);
    var e := Egcd(a, b);
    LcmQuotient(a, b);
    // `egcd`'s g divides both inputs, so it divides `gcd`; scaling its
    // Bezout pair by the cofactor gives one for `gcd`, whatever the signs.
    var u :| g == e.g * u;
    BezoutScale(a, b, e.x, e.y, e.g, u);
    var s :| n == a * s;
    var t :| n == b * t;
    LcmCancel(a, b, n, l, g, e.x * u, e.y * u, s, t);
  }

  /** A Bezout pair for `g`, scaled by `u`, is one for `g * u`. */
  lemma BezoutScale(a: int, b: int, x: int, y: int, g: int, u: int)
    requires a * x + b * y == g
    ensures a * (x * u) + b * (y * u) == g * u
  {
  }

  lemma LcmCancel(a: int, b: int, n: int, l: int, g: int, x: int, y: int, s: int, t: int)
    requires g != 0 && a * x + b * y == g && l * g == a * b
    requires n == a * s && n == b * t
    ensures n == l * (x * t + y * s)
  {
    calc {
      g * n;
      (a * x + b * y) * n;
      a * x * n + b * y * n;
      { assert a * x * n == a * x * (b * t); assert b * y * n == b * y * (a * s); }
      a * x * (b * t) + b * y * (a * s);
      (a * b) * (x * t + y * s);
      (l * g) * (x * t + y * s);
      g * (l * (x * t + y * s));
    }
    MulCancel(g, n, l * (x * t + y * s));
  }
}
