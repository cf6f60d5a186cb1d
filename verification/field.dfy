/**
 * The o1js base field as used by the circuits: integers modulo a prime `p` of
 * 255 bits. The prime is a parameter of the model; only division needs its
 * primality, every other operation needs only the bounds in `IsModulus`.
 */
module Field {
  import opened Arith
  import opened Wrappers
  import BigIntMath

  /** The field is wider than 64 bits and its elements fit in the 255 bits of `toBits`. */
  predicate IsModulus(p: nat)
  {
    TWO_64 < p <= TWO_255
  }

  ghost predicate IsPrime(p: nat)
  {
    p > 1 && forall d :: 1 < d < p ==> !Divides(d, p)
  }

  /** `Field.add`. */
  function Add(a: nat, b: nat, p: nat): nat
    requires p > 0
  {
    (a + b) % p
  }

  /** `Field.sub`: the difference wraps around modulo `p`. */
  function Sub(a: nat, b: nat, p: nat): nat
    requires p > 0
  {
    (a - b) % p
  }

  /** A sum that stays below the modulus does not wrap. */
  lemma AddNoWrap(a: nat, b: nat, p: nat)
    requires a + b < p
    ensures Add(a, b, p) == a + b
  {
    SmallMod(a + b, p);
  }

  /** A difference that does not go below zero does not wrap. */
  lemma SubNoWrap(a: nat, b: nat, p: nat)
    requires b <= a < p
    ensures Sub(a, b, p) == a - b
  {
    SmallMod(a - b, p);
  }

  /** `Field.mul`. */
  function Mul(a: nat, b: nat, p: nat): nat
    requires p > 0
  {
    (a * b) % p
  }

  /** A non-zero element of a prime field is coprime with the modulus. */
  lemma PrimeCoprime(b: nat, p: nat)
    requires IsPrime(p) && 0 < b < p
    ensures BigIntMath.Gcd(b, p) == 1
  {
    var g := BigIntMath.Gcd(b, p);
    DivisorOfNonZero(g, b);
    DividesBound(g, b);
  }

  /** `Field.inv` of a non-zero element, computed with the extended Euclidean algorithm. */
  function Inv(b: nat, p: nat): (r: nat)
    requires IsPrime(p) && 0 < b < p
    ensures r < p && Mul(b, r, p) == 1
  {
    PrimeCoprime(b, p);
    var inverse := BigIntMath.ModInv(b, p);
    assert inverse.Success?;
    SmallMod(1, p);
    inverse.value
  }

  /** `Field.div` by a non-zero element: the unique `r` with `r * b == a`. */
  function Div(a: nat, b: nat, p: nat): (r: nat)
    requires IsPrime(p) && 0 < b < p
    ensures r < p && Mul(r, b, p) == a % p
  {
    var inv := Inv(b, p);
    DivTimesDivisor(a, b, inv, p);
    Mul(a, inv, p)
  }

  lemma DivTimesDivisor(a: nat, b: nat, inv: nat, p: nat)
    requires p > 1 && Mul(b, inv, p) == 1
    ensures Mul(Mul(a, inv, p), b, p) == a % p
  {
    calc {
      Mul(Mul(a, inv, p), b, p);
      (((a * inv) % p) * b) % p;
      { MulModLeft(a * inv, b, p); }
      (a * inv * b) % p;
      { assert a * inv * b == a * (b * inv); }
      (a * (b * inv)) % p;
      { MulModRight(a, b * inv, p); }
      (a * ((b * inv) % p)) % p;
    }
  }

  /** `Field.div` when the divisor may be zero: o1js throws on a zero divisor. */
  function DivChecked(a: nat, b: nat, p: nat): (r: Result<nat, string>)
    requires IsPrime(p) && b < p
    ensures r.Failure? <==> b == 0
    ensures r.Success? ==> r.value < p && Mul(r.value, b, p) == a % p
  {
    if b == 0 then Failure("division by zero") else Success(Div(a, b, p))
  }
}
