/**
 * Field exponentiation, discrete-log search and the exponent lookup table.
 *
 * `ModExp` follows the loop as it is written, which is not the textbook
 * algorithm: the accumulator starts at `base` and a set bit keeps the plain
 * square. It computes `base^(2^256 - 1 - e)`, see `ModExpClosedForm`.
 * The search and the table both use this same `ModExp`. They agree when
 * `ModExp(g, .)` is injective on the table's range, the exponent the table
 * finds is at least 1 (the search starts at 1) and the search bound covers the
 * table; otherwise the table keeps the largest matching index and the search
 * the smallest. See `TableAgreesWithSearch`.
 */
module Lib {
  import opened Arith
  import opened Wrappers
  import opened Field

  /** Number of bits `Field.toBits()` returns. */
  const FIELD_BITS: nat := 255

  /** Default size of the lookup table. */
  const DEFAULT_TABLE_SIZE: nat := 20000

  /** The number a little-endian bit sequence denotes. */
  function BitsValue(bits: seq<bool>): nat
  {
    if |bits| == 0 then 0 else (if bits[0] then 1 else 0) + 2 * BitsValue(bits[1..])
  }

  /** `toBits`: the `n` low bits of `e`, least significant first. */
  function ToBits(e: nat, n: nat): (bits: seq<bool>)
    ensures |bits| == n
  {
    if n == 0 then [] else [e % 2 == 1] + ToBits(e / 2, n - 1)
  }

  /** An exponent that fits in `n` bits is recovered from its `n` bits. */
  lemma {:induction false} ToBitsValue(e: nat, n: nat)
    requires e < Pow2(n)
    ensures BitsValue(ToBits(e, n)) == e
  {
    if n > 0 {
      ToBitsValue(e / 2, n - 1);
      assert ToBits(e, n)[1..] == ToBits(e / 2, n - 1);
    }
  }

  /** `Bool.toField()`. */
  function BoolToField(b: bool): nat
  {
    if b then 1 else 0
  }

  /** The branch-free select `bit * a + (1 - bit) * b`: exactly one operand survives. */
  function Select(bit: bool, a: nat, b: nat, p: nat): (r: nat)
    requires p > 1 && a < p && b < p
    ensures bit ==> r == a
    ensures !bit ==> r == b
  {
    SelectCases(bit, a, b, p);
    Add(Mul(BoolToField(bit), a, p), Mul(BoolToField(!bit), b, p), p)
  }

  lemma SelectCases(bit: bool, a: nat, b: nat, p: nat)
    requires p > 1 && a < p && b < p
    ensures bit ==> Add(Mul(BoolToField(bit), a, p), Mul(BoolToField(!bit), b, p), p) == a
    ensures !bit ==> Add(Mul(BoolToField(bit), a, p), Mul(BoolToField(!bit), b, p), p) == b
  {
    SmallMod(a, p);
    SmallMod(b, p);
    if bit {
      assert Mul(1, a, p) == a && Mul(0, b, p) == 0;
    } else {
      assert Mul(0, a, p) == 0 && Mul(1, b, p) == b;
    }
  }

  /** One loop iteration: square, then keep the square if the bit is set, else multiply by `base`. */
  function Step(n: nat, base: nat, bit: bool, p: nat): nat
    requires p > 1 && base < p
  {
    var square := Mul(n, n, p);
    Select(bit, square, Mul(square, base, p), p)
  }

  /** The accumulator after the first `k` iterations, which read bits 254 down to 255 - k. */
  function Run(base: nat, bits: seq<bool>, k: nat, p: nat): (r: nat)
    requires p > 1 && base < p && |bits| == FIELD_BITS && k <= FIELD_BITS
    ensures r < p
  {
    if k == 0 then base else Step(Run(base, bits, k - 1, p), base, bits[FIELD_BITS - k], p)
  }

  /** `modExp(base, exponent)` of the source, over the field modulo `p`. */
  function ModExp(base: nat, exponent: nat, p: nat): (r: nat)
    requires IsModulus(p) && base < p && exponent < p
    ensures r < p
  {
    Run(base, ToBits(exponent, FIELD_BITS), FIELD_BITS, p)
  }

  /** The power of `base` the accumulator holds after `k` iterations. */
  function Exponent(bits: seq<bool>, k: nat): nat
    requires |bits| == FIELD_BITS && k <= FIELD_BITS
  {
    if k == 0 then 1 else 2 * Exponent(bits, k - 1) + (if bits[FIELD_BITS - k] then 0 else 1)
  }

  /** After `k` iterations the accumulator is `base` to the power `Exponent(bits, k)`. */
  lemma {:induction false} RunIsPow(base: nat, bits: seq<bool>, k: nat, p: nat)
    requires p > 1 && base < p && |bits| == FIELD_BITS && k <= FIELD_BITS
    ensures Run(base, bits, k, p) == Pow(base, Exponent(bits, k)) % p
  {
    if k == 0 {
      SmallMod(base, p);
    } else {
      RunIsPow(base, bits, k - 1, p);
      var e := Exponent(bits, k - 1);
      var n := Run(base, bits, k - 1, p);
      var square := Mul(n, n, p);
      assert square == Pow(base, 2 * e) % p by {
        MulMod(Pow(base, e), Pow(base, e), p);
        PowAdd(base, e, e);
      }
      if !bits[FIELD_BITS - k] {
        calc {
          Mul(square, base, p);
          ((Pow(base, 2 * e) % p) * base) % p;
          { MulModLeft(Pow(base, 2 * e), base, p); }
          (Pow(base, 2 * e) * base) % p;
          { PowAdd(base, 2 * e, 1); }
          Pow(base, 2 * e + 1) % p;
        }
      }
    }
  }

  /** The exponent and the value of the bits read so far add up to `2^(k+1) - 1`. */
  lemma {:induction false} ExponentComplement(bits: seq<bool>, k: nat)
    requires |bits| == FIELD_BITS && k <= FIELD_BITS
    ensures Exponent(bits, k) + BitsValue(bits[FIELD_BITS - k..]) == Pow2(k + 1) - 1
  {
    if k > 0 {
      ExponentComplement(bits, k - 1);
      assert bits[FIELD_BITS - k..][1..] == bits[FIELD_BITS - (k - 1)..];
    }
  }

  /**
   * What `modExp` computes: `base^(2^256 - 1 - exponent) mod p`, not the
   * `base^exponent` its documentation announces.
   */
  lemma ModExpClosedForm(base: nat, exponent: nat, p: nat)
    requires IsModulus(p) && base < p && exponent < p
    ensures exponent < TWO_256
    ensures ModExp(base, exponent, p) == Pow(base, TWO_256 - 1 - exponent) % p
  {
    var bits := ToBits(exponent, FIELD_BITS);
    Pow2TwoFiftySix();
    Pow2TwoFiftyFive();
    ToBitsValue(exponent, FIELD_BITS);
    RunIsPow(base, bits, FIELD_BITS, p);
    ExponentComplement(bits, FIELD_BITS);
    assert bits[0..] == bits;
  }

  /** Powers of `p - 1` alternate between 1 and `p - 1` modulo `p`. */
  lemma {:induction false} MinusOnePow(p: nat, n: nat)
    requires p > 2
    ensures Pow(p - 1, n) % p == if n % 2 == 0 then 1 else p - 1
  {
    if n == 0 {
      SmallMod(1, p);
    } else {
      MinusOnePow(p, n - 1);
      MulModRight(p - 1, Pow(p - 1, n - 1), p);
      if (n - 1) % 2 == 0 {
        SmallMod(p - 1, p);
      } else {
        assert (p - 1) * (p - 1) == 1 + (p - 2) * p;
        ModAddMultiple(1, p - 2, p);
        SmallMod(1, p);
      }
    }
  }

  /** A witness against the documented contract: exponent 0 does not give 1. */
  lemma ModExpZeroExponent(p: nat)
    requires IsModulus(p)
    ensures ModExp(p - 1, 0, p) == p - 1 != 1
  {
    ModExpClosedForm(p - 1, 0, p);
    MinusOnePow(p, TWO_256 - 1);
  }

  /**
   * `discreteLogRec(a, g, n)` with the search cut off after exponent `bound`:
   * the least exponent in `[n, bound]` whose power hits `a`, if any.
   */
  function DiscreteLogRec(a: nat, g: nat, p: nat, n: nat, bound: nat): (r: Option<nat>)
    requires IsModulus(p) && g < p && bound < p
    ensures r.Some? ==> n <= r.value <= bound && ModExp(g, r.value, p) == a
    ensures r.Some? ==> forall m :: n <= m < r.value ==> ModExp(g, m, p) != a
    ensures r.None? ==> forall m :: n <= m <= bound ==> ModExp(g, m, p) != a
    decreases bound + 1 - n
  {
    if n > bound then None
    else if ModExp(g, n, p) == a then Some(n)
    else DiscreteLogRec(a, g, p, n + 1, bound)
  }

  /**
   * `discreteLog(a, g)` with an explicit search bound: the same search as
   * `DiscreteLogRec` from 1, as a loop.
   */
  method DiscreteLog(a: nat, g: nat, p: nat, bound: nat) returns (r: Option<nat>)
    requires IsModulus(p) && g < p && bound < p
    ensures r == DiscreteLogRec(a, g, p, 1, bound)
    ensures r.Some? ==> 1 <= r.value <= bound && ModExp(g, r.value, p) == a
    ensures r.Some? ==> forall m :: 1 <= m < r.value ==> ModExp(g, m, p) != a
    ensures r.None? ==> forall m :: 1 <= m <= bound ==> ModExp(g, m, p) != a
  {
    if bound == 0 {
      return None;
    }
    var n := 1;
    var x := ModExp(g, n, p);
    while x != a
      invariant 1 <= n <= bound
      invariant x == ModExp(g, n, p)
      invariant DiscreteLogRec(a, g, p, n, bound) == DiscreteLogRec(a, g, p, 1, bound)
      decreases bound - n
    {
      if n == bound {
        return None;
      }
      n := n + 1;
      x := ModExp(g, n, p);
    }
    return Some(n);
  }

  /**
   * The table-building loop of `generateLookup(n)`: key `modExp(G, i)`, value `i`,
   * for `i` from 0 to `n - 1`, a later index overwriting an earlier one.
   */
  function BuildTable(n: nat, g: nat, p: nat): (table: map<nat, nat>)
    requires IsModulus(p) && g < p && n <= p
    ensures table.Keys == set i | 0 <= i < n :: ModExp(g, i, p)
    ensures forall k :: k in table ==> table[k] < n && ModExp(g, table[k], p) == k
    ensures forall k, j :: k in table && table[k] < j < n ==> ModExp(g, j, p) != k
  {
    if n == 0 then map[]
    else
      var previous := BuildTable(n - 1, g, p);
      TableGrows(n, g, p, previous);
      previous[ModExp(g, n - 1, p) := n - 1]
  }

  /** `generateLookup()` with its default size of 20000 entries. */
  function DefaultTable(g: nat, p: nat): (table: map<nat, nat>)
    requires IsModulus(p) && g < p
    ensures forall k :: k in table ==> table[k] < DEFAULT_TABLE_SIZE && ModExp(g, table[k], p) == k
  {
    BuildTable(DEFAULT_TABLE_SIZE, g, p)
  }

  /** One iteration of the table loop, the one for index `n - 1`, keeps the three properties of `BuildTable`. */
  lemma TableGrows(n: nat, g: nat, p: nat, table: map<nat, nat>)
    requires IsModulus(p) && g < p && 0 < n <= p
    requires table.Keys == set i | 0 <= i < n - 1 :: ModExp(g, i, p)
    requires forall k :: k in table ==> table[k] < n - 1 && ModExp(g, table[k], p) == k
    requires forall k, j :: k in table && table[k] < j < n - 1 ==> ModExp(g, j, p) != k
    ensures var grown := table[ModExp(g, n - 1, p) := n - 1];
      && grown.Keys == (set i | 0 <= i < n :: ModExp(g, i, p))
      && (forall k :: k in grown ==> grown[k] < n && ModExp(g, grown[k], p) == k)
      && (forall k, j :: k in grown && grown[k] < j < n ==> ModExp(g, j, p) != k)
  {
    TableKeysGrow(n, g, p, table);
    var key := ModExp(g, n - 1, p);
    var grown := table[key := n - 1];
    forall k | k in grown
      ensures grown[k] < n && ModExp(g, grown[k], p) == k
    {
      if k != key {
        assert grown[k] == table[k];
      }
    }
    forall k, j | k in grown && grown[k] < j < n
      ensures ModExp(g, j, p) != k
    {
      assert k != key && grown[k] == table[k];
    }
  }

  lemma TableKeysGrow(n: nat, g: nat, p: nat, table: map<nat, nat>)
    requires IsModulus(p) && g < p && 0 < n <= p
    requires table.Keys == set i | 0 <= i < n - 1 :: ModExp(g, i, p)
    ensures table[ModExp(g, n - 1, p) := n - 1].Keys == set i | 0 <= i < n :: ModExp(g, i, p)
  {
    var grown := set i | 0 <= i < n :: ModExp(g, i, p);
    forall k | k in grown
      ensures k in table || k == ModExp(g, n - 1, p)
    {
      var i :| 0 <= i < n && k == ModExp(g, i, p);
      if i < n - 1 {
        assert k in table.Keys;
      }
    }
  }

  /** `lookUp`: the value stored under a key, `None` where JSON parsing yields `undefined`. */
  function LookUp(table: map<nat, nat>, key: nat): (r: Option<nat>)
    ensures r.Some? <==> key in table
    ensures r.Some? ==> r.value == table[key]
  {
    if key in table then Some(table[key]) else None
  }

  /** `modExp(G, ·)` takes distinct values on `[0, n)`. */
  ghost predicate InjectiveBelow(g: nat, p: nat, n: nat)
    requires IsModulus(p) && g < p && n <= p
  {
    forall i, j :: 0 <= i < j < n ==> ModExp(g, i, p) != ModExp(g, j, p)
  }

  /** A key misses the table exactly when no exponent below `n` produces it. */
  lemma LookUpMiss(n: nat, g: nat, p: nat, a: nat)
    requires IsModulus(p) && g < p && n <= p
    ensures LookUp(BuildTable(n, g, p), a).None? <==> forall i :: 0 <= i < n ==> ModExp(g, i, p) != a
  {
    var table := BuildTable(n, g, p);
    if a !in table {
      forall i | 0 <= i < n
        ensures ModExp(g, i, p) != a
      {
        assert ModExp(g, i, p) in table.Keys;
      }
    }
  }

  /** With distinct powers below `n`, the table returns every exponent it was built from. */
  lemma LookUpFindsExponent(n: nat, g: nat, p: nat, i: nat)
    requires IsModulus(p) && g < p && n <= p && i < n
    requires InjectiveBelow(g, p, n)
    ensures LookUp(BuildTable(n, g, p), ModExp(g, i, p)) == Some(i)
  {
    var table := BuildTable(n, g, p);
    var k := ModExp(g, i, p);
    assert k in table.Keys;
    InjectiveAt(g, p, n, table[k], i);
  }

  lemma InjectiveAt(g: nat, p: nat, n: nat, i: nat, j: nat)
    requires IsModulus(p) && g < p && n <= p && i < n && j < n
    requires InjectiveBelow(g, p, n)
    ensures ModExp(g, i, p) == ModExp(g, j, p) ==> i == j
  {
    if i < j {
      assert ModExp(g, i, p) != ModExp(g, j, p);
    } else if j < i {
      assert ModExp(g, j, p) != ModExp(g, i, p);
    }
  }

  /**
   * The table variant and the search variant of the discrete log agree when
   * `ModExp(g, .)` is injective below `n`, the stored exponent is at least 1 and
   * the search bound reaches `n - 1`. Without injectivity the table keeps the
   * largest matching index and the search returns the smallest; an exponent 0 is
   * never found by the search, which starts at 1.
   */
  lemma TableAgreesWithSearch(n: nat, g: nat, p: nat, a: nat, bound: nat)
    requires IsModulus(p) && g < p && n <= p && n <= bound + 1 && bound < p
    requires InjectiveBelow(g, p, n)
    requires LookUp(BuildTable(n, g, p), a).Some? && LookUp(BuildTable(n, g, p), a).value >= 1
    ensures DiscreteLogRec(a, g, p, 1, bound) == LookUp(BuildTable(n, g, p), a)
  {
    var j := LookUp(BuildTable(n, g, p), a).value;
    assert ModExp(g, j, p) == a;
    var r := DiscreteLogRec(a, g, p, 1, bound);
    assert r.Some?;
    var m := r.value;
    assert m <= j;
    InjectiveAt(g, p, n, m, j);
  }
}
