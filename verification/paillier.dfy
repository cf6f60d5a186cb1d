/**
 * `PaillierCipher`: a one-component ciphertext whose homomorphic addition is
 * field multiplication and whose subtraction is field division.
 */
module Paillier {
  import opened Wrappers
  import opened Arith
  import Field

  datatype PaillierCipher = PaillierCipher(c: nat)

  /** Homomorphic addition: multiply the components. */
  function Add(x: PaillierCipher, y: PaillierCipher, p: nat): (r: PaillierCipher)
    requires p > 1
    ensures r.c < p
  {
    PaillierCipher(Field.Mul(x.c, y.c, p))
  }

  /** `Circuit.if(cond, a, b)`: both operands are already evaluated. */
  function CircuitIf(cond: bool, a: nat, b: nat): nat
  {
    if cond then a else b
  }

  /**
   * `sub` as written: the arguments of `Circuit.if` are evaluated before the
   * guard is consulted, so the division runs even when `other.c` is zero.
   */
  function SubAsWritten(x: PaillierCipher, y: PaillierCipher, p: nat): (r: Result<PaillierCipher, string>)
    requires Field.IsPrime(p) && x.c < p && y.c < p
    ensures r.Failure? <==> y.c == 0
    ensures r.Success? ==> Field.Mul(r.value.c, y.c, p) == x.c
  {
    SmallMod(x.c, p);
    match Field.DivChecked(x.c, y.c, p)
    case Failure(e) => Failure(e)
    case Success(quotient) => Success(PaillierCipher(CircuitIf(y.c == 0, x.c, quotient)))
  }

  /** The guard does not protect: subtracting a zero ciphertext fails. */
  lemma SubAsWrittenFailsOnZero(x: PaillierCipher, p: nat)
    requires Field.IsPrime(p) && x.c < p
    ensures SubAsWritten(x, PaillierCipher(0), p).Failure?
  {
  }

  /**
   * `sub` with the degenerate-case policy its guard expresses: a zero divisor
   * leaves `x` unchanged, any other divisor is divided out.
   */
  function Sub(x: PaillierCipher, y: PaillierCipher, p: nat): (r: PaillierCipher)
    requires Field.IsPrime(p) && x.c < p && y.c < p
    ensures y.c == 0 ==> r == x
    ensures y.c != 0 ==> r.c < p && Field.Mul(r.c, y.c, p) == x.c
  {
    SmallMod(x.c, p);
    if y.c == 0 then x else PaillierCipher(Field.Div(x.c, y.c, p))
  }

  /** Where the source does not fail, it agrees with the guarded subtraction. */
  lemma SubAsWrittenAgrees(x: PaillierCipher, y: PaillierCipher, p: nat)
    requires Field.IsPrime(p) && x.c < p && 0 < y.c < p
    ensures SubAsWritten(x, y, p) == Success(Sub(x, y, p))
  {
  }

  lemma AddCommutes(x: PaillierCipher, y: PaillierCipher, p: nat)
    requires p > 1
    ensures Add(x, y, p) == Add(y, x, p)
  {
    assert x.c * y.c == y.c * x.c;
  }

  /** Subtracting `y` undoes adding it. */
  lemma SubUndoesAdd(x: PaillierCipher, y: PaillierCipher, p: nat)
    requires Field.IsPrime(p) && x.c < p && 0 < y.c < p
    ensures Sub(Add(x, y, p), y, p) == x
  {
    var inv := Field.Inv(y.c, p);
    calc {
      Sub(Add(x, y, p), y, p).c;
      Field.Mul(Field.Mul(x.c, y.c, p), inv, p);
      (((x.c * y.c) % p) * inv) % p;
      { MulModLeft(x.c * y.c, inv, p); }
      (x.c * y.c * inv) % p;
      { assert x.c * y.c * inv == x.c * (y.c * inv); }
      (x.c * (y.c * inv)) % p;
      { MulModRight(x.c, y.c * inv, p); }
      (x.c * ((y.c * inv) % p)) % p;
      x.c % p;
      { SmallMod(x.c, p); }
      x.c;
    }
  }

  /** Adding `y` back undoes subtracting it. */
  lemma AddUndoesSub(x: PaillierCipher, y: PaillierCipher, p: nat)
    requires Field.IsPrime(p) && x.c < p && 0 < y.c < p
    ensures Add(Sub(x, y, p), y, p) == x
  {
  }
}
