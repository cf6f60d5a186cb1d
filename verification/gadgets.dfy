/**
 * The 64-bit gadgets the score contract calls (`Gadgets.and`, `Gadgets.rightShift64`)
 * and the lane arithmetic used to reason about them: a natural number read as a
 * little-endian sequence of `w`-bit lanes.
 */
module Gadgets {
  import opened Arith

  /** Bitwise AND of two naturals. */
  function BitAnd(x: nat, y: nat): nat
    decreases x
  {
    if x == 0 || y == 0 then 0
    else 2 * BitAnd(x / 2, y / 2) + (if x % 2 == 1 && y % 2 == 1 then 1 else 0)
  }

  /** `Gadgets.and(a, b, 64)`: both operands are range-checked to 64 bits. */
  function And64(a: nat, b: nat): nat
    requires a < TWO_64 && b < TWO_64
  {
    BitAnd(a, b)
  }

  /** `Gadgets.rightShift64(x, s)`: the input is range-checked to 64 bits. */
  function RightShift64(x: nat, s: nat): nat
    requires x < TWO_64 && s < 64
  {
    x / Pow2(s)
  }

  /**
   * Equal operands give equal results. This is stated apart because the equality of a
   * field sum and the plain sum is arithmetic, and the solver is slow to carry it
   * through `And64` on its own.
   */
  lemma AndArgument(x: nat, y: nat, m: nat)
    requires x == y && y < TWO_64 && m < TWO_64
    ensures And64(x, m) == And64(y, m)
  {
  }

  /** Number of one bits in the binary expansion of `v`. */
  function PopCount(v: nat): nat
  {
    if v == 0 then 0 else v % 2 + PopCount(v / 2)
  }

  /** A number below `2^n` has at most `n` one bits. */
  lemma {:induction false} PopCountBelow(v: nat, n: nat)
    requires v < Pow2(n)
    ensures PopCount(v) <= n
  {
    if v > 0 {
      PopCountBelow(v / 2, n - 1);
    }
  }

  // ---------------------------------------------------------------------------
  // Facts about BitAnd

  /** One step of the bitwise recursion, valid also when an operand is zero. */
  lemma BitAndStep(a: nat, c: nat)
    ensures BitAnd(a, c) == 2 * BitAnd(a / 2, c / 2) + (if a % 2 == 1 && c % 2 == 1 then 1 else 0)
  {
  }

  lemma HalfShift(a: nat, k: nat)
    ensures (a + 2 * k) / 2 == a / 2 + k && (a + 2 * k) % 2 == a % 2
  {
    DivModUnique(a + 2 * k, 2, a / 2 + k, a % 2);
  }

  lemma ModDouble(a: nat, m: nat)
    requires m > 0
    ensures a % (2 * m) == 2 * ((a / 2) % m) + a % 2
  {
    var q := a / 2;
    assert a == 2 * q + a % 2;
    assert q == m * (q / m) + q % m;
    assert a == (2 * m) * (q / m) + (2 * (q % m) + a % 2);
    DivModUnique(a, 2 * m, q / m, 2 * (q % m) + a % 2);
  }

  /** AND with `2^h - 1` keeps the low `h` bits. */
  lemma {:induction false} AndLowMask(a: nat, h: nat)
    ensures BitAnd(a, Pow2(h) - 1) == a % Pow2(h)
  {
    if h == 0 {
    } else if a == 0 {
    } else {
      var m := Pow2(h) - 1;
      assert m / 2 == Pow2(h - 1) - 1 && m % 2 == 1;
      AndLowMask(a / 2, h - 1);
      ModDouble(a, Pow2(h - 1));
    }
  }

  /** `b` shifted left by `w` bits, by repeated doubling. */
  function ShiftLeft(b: nat, w: nat): nat
  {
    if w == 0 then b else 2 * ShiftLeft(b, w - 1)
  }

  lemma {:induction false} ShiftLeftIsMul(b: nat, w: nat)
    ensures ShiftLeft(b, w) == Pow2(w) * b
  {
    if w > 0 {
      ShiftLeftIsMul(b, w - 1);
      Pow2Double(w, b);
    }
  }

  lemma HalvesOf(x: nat, a: nat, k: nat)
    requires x == a + 2 * k
    ensures x / 2 == a / 2 + k && x % 2 == a % 2
  {
    HalfShift(a, k);
  }

  /** Prepending one low bit to both operands prepends their AND bit to the result. */
  lemma AndShiftStep(a: nat, b: nat, c: nat, d: nat, w: nat)
    requires w > 0
    requires BitAnd(a / 2 + ShiftLeft(b, w - 1), c / 2 + ShiftLeft(d, w - 1))
             == BitAnd(a / 2, c / 2) + ShiftLeft(BitAnd(b, d), w - 1)
    ensures BitAnd(a + ShiftLeft(b, w), c + ShiftLeft(d, w)) == BitAnd(a, c) + ShiftLeft(BitAnd(b, d), w)
  {
    var x, y := a + ShiftLeft(b, w), c + ShiftLeft(d, w);
    HalvesOf(x, a, ShiftLeft(b, w - 1));
    HalvesOf(y, c, ShiftLeft(d, w - 1));
    BitAndStep(x, y);
    BitAndStep(a, c);
  }

  lemma {:induction false} AndSplitShifted(a: nat, b: nat, c: nat, d: nat, w: nat)
    requires a < Pow2(w) && c < Pow2(w)
    ensures BitAnd(a + ShiftLeft(b, w), c + ShiftLeft(d, w)) == BitAnd(a, c) + ShiftLeft(BitAnd(b, d), w)
  {
    if w > 0 {
      AndSplitShifted(a / 2, b, c / 2, d, w - 1);
      AndShiftStep(a, b, c, d, w);
    }
  }

  /** AND acts independently on the low `w` bits and the rest. */
  lemma AndSplit(a: nat, b: nat, c: nat, d: nat, w: nat)
    requires a < Pow2(w) && c < Pow2(w)
    ensures BitAnd(a + Pow2(w) * b, c + Pow2(w) * d) == BitAnd(a, c) + Pow2(w) * BitAnd(b, d)
  {
    AndSplitShifted(a, b, c, d, w);
    ShiftLeftIsMul(b, w);
    ShiftLeftIsMul(d, w);
    ShiftLeftIsMul(BitAnd(b, d), w);
  }

  // ---------------------------------------------------------------------------
  // Lanes

  /** The number whose `w`-bit lanes, least significant first, are `ls`. */
  function Val(ls: seq<nat>, w: nat): nat
  {
    if |ls| == 0 then 0 else ls[0] + Pow2(w) * Val(ls[1..], w)
  }

  /** Every lane is at most `b`. */
  ghost predicate Bounded(ls: seq<nat>, b: nat)
  {
    forall i :: 0 <= i < |ls| ==> ls[i] <= b
  }

  /** `n` lanes of width `w`, each holding `c`: the shape of the SWAR masks. */
  function MaskVal(c: nat, w: nat, n: nat): nat
  {
    if n == 0 then 0 else c + Pow2(w) * MaskVal(c, w, n - 1)
  }

  function Zeros(n: nat): (r: seq<nat>)
    ensures |r| == n && forall i :: 0 <= i < n ==> r[i] == 0
  {
    seq(n, (i: int) => 0 as nat)
  }

  /** Lane-wise sum. */
  function Plus(a: seq<nat>, b: seq<nat>): (r: seq<nat>)
    requires |a| == |b|
    ensures |r| == |a| && forall i :: 0 <= i < |r| ==> r[i] == a[i] + b[i]
  {
    seq(|a|, (i: int) requires 0 <= i < |a| => a[i] + b[i] as nat)
  }

  /** Lane-wise difference, for `b` at most `a` in every lane. */
  function Minus(a: seq<nat>, b: seq<nat>): (r: seq<nat>)
    requires |a| == |b| && forall i :: 0 <= i < |a| ==> b[i] <= a[i]
    ensures |r| == |a| && forall i :: 0 <= i < |r| ==> r[i] == a[i] - b[i]
  {
    seq(|a|, (i: int) requires 0 <= i < |a| => (a[i] - b[i]) as nat)
  }

  /** The even-indexed lanes. */
  function Evens(ls: seq<nat>): (r: seq<nat>)
    ensures |r| == |ls| / 2 && forall i :: 0 <= i < |r| ==> r[i] == ls[2 * i]
  {
    seq(|ls| / 2, (i: int) requires 0 <= i < |ls| / 2 => ls[2 * i])
  }

  /** The odd-indexed lanes. */
  function Odds(ls: seq<nat>): (r: seq<nat>)
    ensures |r| == |ls| / 2 && forall i :: 0 <= i < |r| ==> r[i] == ls[2 * i + 1]
  {
    seq(|ls| / 2, (i: int) requires 0 <= i < |ls| / 2 => ls[2 * i + 1])
  }

  /** Adjacent lanes added together: the count of a lane twice as wide. */
  function PairSum(ls: seq<nat>): (r: seq<nat>)
    ensures |r| == |ls| / 2 && forall i :: 0 <= i < |r| ==> r[i] == ls[2 * i] + ls[2 * i + 1]
  {
    seq(|ls| / 2, (i: int) requires 0 <= i < |ls| / 2 => (ls[2 * i] + ls[2 * i + 1]) as nat)
  }

  /** Two `h`-bit lanes read as one lane of `2h` bits. */
  function Join(lo: nat, hi: nat, h: nat): nat
  {
    lo + Pow2(h) * hi
  }

  function LowBits(x: nat, h: nat): nat
  {
    x % Pow2(h)
  }

  /** Adjacent `h`-bit lanes read as one `2h`-bit lane. */
  function Pairs(ls: seq<nat>, h: nat): (r: seq<nat>)
    ensures |r| == |ls| / 2
  {
    if |ls| < 2 then [] else [Join(ls[0], ls[1], h)] + Pairs(ls[2..], h)
  }

  /** Lane `i` of `Pairs(ls, h)` joins lanes `2i` and `2i + 1` of `ls`. */
  lemma {:induction false} PairsAt(ls: seq<nat>, h: nat, i: nat)
    requires i < |ls| / 2
    ensures Pairs(ls, h)[i] == Join(ls[2 * i], ls[2 * i + 1], h)
  {
    if i > 0 {
      PairsAt(ls[2..], h, i - 1);
    }
  }

  /** The low `h` bits of every lane. */
  function Low(ls: seq<nat>, h: nat): (r: seq<nat>)
    ensures |r| == |ls| && forall i :: 0 <= i < |r| ==> r[i] == ls[i] % Pow2(h)
  {
    seq(|ls|, (i: int) requires 0 <= i < |ls| => LowBits(ls[i], h))
  }

  function Sum(ls: seq<nat>): nat
  {
    if |ls| == 0 then 0 else ls[0] + Sum(ls[1..])
  }

  /** The `n` low bits of `v`, least significant first. */
  function BitsOf(v: nat, n: nat): (r: seq<nat>)
    ensures |r| == n && Bounded(r, 1)
  {
    if n == 0 then [] else [v % 2] + BitsOf(v / 2, n - 1)
  }

  // ---------------------------------------------------------------------------
  // Values of lane sequences

  lemma {:induction false} ValPlus(a: seq<nat>, b: seq<nat>, w: nat)
    requires |a| == |b|
    ensures Val(Plus(a, b), w) == Val(a, w) + Val(b, w)
  {
    if |a| > 0 {
      ValPlus(a[1..], b[1..], w);
      assert Plus(a, b)[1..] == Plus(a[1..], b[1..]);
      MulAddDistrib(Pow2(w), Val(a[1..], w), Val(b[1..], w));
    }
  }

  lemma {:induction false} ValMinus(a: seq<nat>, b: seq<nat>, w: nat)
    requires |a| == |b| && forall i :: 0 <= i < |a| ==> b[i] <= a[i]
    ensures Val(b, w) <= Val(a, w)
    ensures Val(Minus(a, b), w) == Val(a, w) - Val(b, w)
  {
    if |a| > 0 {
      ValMinus(a[1..], b[1..], w);
      assert Minus(a, b)[1..] == Minus(a[1..], b[1..]);
      var va, vb := Val(a[1..], w), Val(b[1..], w);
      MulMonotone(Pow2(w), vb, va);
      MulAddDistrib(Pow2(w), va - vb, vb);
    }
  }

  lemma {:induction false} ValZeros(n: nat, w: nat)
    ensures Val(Zeros(n), w) == 0
  {
    if n > 0 {
      ValZeros(n - 1, w);
      assert Zeros(n)[1..] == Zeros(n - 1);
    }
  }

  /** Padding with zero lanes at the top does not change the value. */
  lemma {:induction false} ValPadded(ls: seq<nat>, n: nat, w: nat)
    ensures Val(ls + Zeros(n), w) == Val(ls, w)
  {
    if |ls| == 0 {
      assert ls + Zeros(n) == Zeros(n);
      ValZeros(n, w);
    } else {
      ValPadded(ls[1..], n, w);
      assert (ls + Zeros(n))[1..] == ls[1..] + Zeros(n);
    }
  }

  lemma MulSucc(w: nat, n: nat)
    requires n > 0
    ensures w * n == w + w * (n - 1)
  {
  }

  /** Lanes of at most `2^w - 1` make a value below `2^(w * |ls|)`. */
  lemma {:induction false} ValBound(ls: seq<nat>, w: nat)
    requires Bounded(ls, Pow2(w) - 1)
    ensures Val(ls, w) < Pow2(w * |ls|)
  {
    if |ls| > 0 {
      ValBound(ls[1..], w);
      var rest := Val(ls[1..], w);
      var top := Pow2(w * (|ls| - 1));
      MulMonotone(Pow2(w), rest, top - 1);
      MulAddDistrib(Pow2(w), top - 1, 1);
      MulSucc(w, |ls|);
      Pow2Add(w, w * (|ls| - 1));
    }
  }

  /** Dividing by `a * b` is dividing by `a` and then by `b`. */
  lemma DivDiv(x: nat, a: nat, b: nat)
    requires a > 0 && b > 0
    ensures x / (a * b) == (x / a) / b
  {
    var q1, r1 := x / a, x % a;
    var q2, r2 := q1 / b, q1 % b;
    assert x == a * q1 + r1;
    assert q1 == b * q2 + r2;
    MulAddDistrib(a, b * q2, r2);
    MulAssoc(a, b, q2);
    assert x == q2 * (a * b) + (a * r2 + r1);
    MulMonotone(a, r2, b - 1);
    MulAddDistrib(a, b - 1, 1);
    DivModUnique(x, a * b, q2, a * r2 + r1);
  }

  /** Shifting right by `k` lanes drops the `k` lowest lanes. */
  lemma {:induction false} ValShift(ls: seq<nat>, w: nat, k: nat)
    requires k <= |ls| && Bounded(ls, Pow2(w) - 1)
    ensures Val(ls, w) / Pow2(w * k) == Val(ls[k..], w)
  {
    if k == 0 {
      assert ls[0..] == ls;
    } else {
      var rest := Val(ls[1..], w);
      DivModUnique(Val(ls, w), Pow2(w), rest, ls[0]);
      ValShift(ls[1..], w, k - 1);
      assert ls[1..][k - 1..] == ls[k..];
      MulSucc(w, k);
      Pow2Add(w, w * (k - 1));
      DivDiv(Val(ls, w), Pow2(w), Pow2(w * (k - 1)));
    }
  }

  /** Shifting right by `k` lanes, with zero lanes coming in at the top. */
  lemma ValShiftPadded(ls: seq<nat>, w: nat, k: nat)
    requires k <= |ls| && Bounded(ls, Pow2(w) - 1)
    ensures Val(ls, w) / Pow2(w * k) == Val(ls[k..] + Zeros(k), w)
  {
    ValShift(ls, w, k);
    ValPadded(ls[k..], k, w);
  }

  lemma JoinExpand(l0: nat, l1: nat, v: nat, h: nat, w: nat)
    requires w == h + h
    ensures l0 + Pow2(h) * (l1 + Pow2(h) * v) == Join(l0, l1, h) + Pow2(w) * v
  {
    var H := Pow2(h);
    Pow2Add(h, h);
    MulAddDistrib(H, l1, H * v);
    MulAssoc(H, H, v);
  }

  /** The two lowest lanes of a value, unfolded. */
  lemma ValTwoLanes(ls: seq<nat>, h: nat)
    requires |ls| >= 2
    ensures Val(ls, h) == ls[0] + Pow2(h) * (ls[1] + Pow2(h) * Val(ls[2..], h))
  {
    assert ls[1..][1..] == ls[2..];
  }

  /** Reading pairs of `h`-bit lanes as `w = 2h`-bit lanes keeps the value. */
  lemma {:induction false} ValPairs(ls: seq<nat>, h: nat, w: nat)
    requires |ls| % 2 == 0 && w == h + h
    ensures Val(ls, h) == Val(Pairs(ls, h), w)
  {
    if |ls| > 0 {
      ValPairs(ls[2..], h, w);
      ValTwoLanes(ls, h);
      JoinExpand(ls[0], ls[1], Val(ls[2..], h), h, w);
      assert Pairs(ls, h)[1..] == Pairs(ls[2..], h);
    }
  }

  lemma Pow2Monotone(h: nat, w: nat)
    requires h <= w
    ensures Pow2(h) <= Pow2(w)
  {
    Pow2Add(h, w - h);
    MulAtLeast(Pow2(w - h), Pow2(h));
  }

  /** AND with a mask of `2^h - 1` in every `w`-bit lane keeps the low `h` bits of each lane. */
  lemma {:induction false} AndMaskLanes(ls: seq<nat>, w: nat, h: nat)
    requires h <= w && Bounded(ls, Pow2(w) - 1)
    ensures BitAnd(Val(ls, w), MaskVal(Pow2(h) - 1, w, |ls|)) == Val(Low(ls, h), w)
  {
    if |ls| > 0 {
      var m := Pow2(h) - 1;
      AndMaskLanes(ls[1..], w, h);
      assert Low(ls, h)[1..] == Low(ls[1..], h);
      Pow2Monotone(h, w);
      AndSplit(ls[0], Val(ls[1..], w), m, MaskVal(m, w, |ls| - 1), w);
      AndLowMask(ls[0], h);
    }
  }

  /** Joining two `h`-bit lanes gives a `2h`-bit lane whose low half is the first. */
  lemma JoinLow(lo: nat, hi: nat, h: nat, w: nat)
    requires w == h + h && lo < Pow2(h) && hi < Pow2(h)
    ensures Join(lo, hi, h) < Pow2(w)
    ensures LowBits(Join(lo, hi, h), h) == lo
  {
    var H := Pow2(h);
    MulMonotone(H, hi, H - 1);
    MulAddDistrib(H, H - 1, 1);
    Pow2Add(h, h);
    assert H * hi == hi * H;
    ModAddMultiple(lo, hi, H);
    SmallMod(lo, H);
  }

  /**
   * The SWAR mask step: AND with `m = 2^h - 1` in each of the `n` lanes of `2h` bits
   * extracts the even `h`-bit lanes.
   */
  lemma AndEvens(ls: seq<nat>, h: nat, w: nat, m: nat, n: nat)
    requires |ls| % 2 == 0 && w == h + h && m + 1 == Pow2(h) && n == |ls| / 2 && Bounded(ls, m)
    ensures BitAnd(Val(ls, h), MaskVal(m, w, n)) == Val(Evens(ls), w)
  {
    var pairs := Pairs(ls, h);
    ValPairs(ls, h, w);
    forall i | 0 <= i < |pairs|
      ensures pairs[i] <= Pow2(w) - 1 && LowBits(pairs[i], h) == ls[2 * i]
    {
      PairsAt(ls, h, i);
      JoinLow(ls[2 * i], ls[2 * i + 1], h, w);
    }
    AndMaskLanes(pairs, w, h);
    assert MaskVal(m, w, n) == MaskVal(Pow2(h) - 1, w, |pairs|);
    assert Low(pairs, h) == Evens(ls);
  }

  /** Shifting by `h` and then masking extracts the odd `h`-bit lanes. */
  lemma AndOdds(ls: seq<nat>, h: nat, w: nat, m: nat, n: nat)
    requires |ls| % 2 == 0 && |ls| > 0 && w == h + h && m + 1 == Pow2(h) && n == |ls| / 2 && Bounded(ls, m)
    ensures Val(ls, h) / Pow2(h) == Val(ls[1..] + Zeros(1), h)
    ensures BitAnd(Val(ls, h) / Pow2(h), MaskVal(m, w, n)) == Val(Odds(ls), w)
  {
    ValShiftPadded(ls, h, 1);
    var shifted := ls[1..] + Zeros(1);
    AndEvens(shifted, h, w, m, n);
    assert Evens(shifted) == Odds(ls);
  }

  /** Masking the even and the odd `h`-bit lanes apart and adding them sums adjacent lanes. */
  lemma AndPairSum(ls: seq<nat>, h: nat, w: nat, m: nat, n: nat)
    requires |ls| % 2 == 0 && |ls| > 0 && w == h + h && m + 1 == Pow2(h) && n == |ls| / 2 && Bounded(ls, m)
    ensures BitAnd(Val(ls, h), MaskVal(m, w, n)) + BitAnd(Val(ls, h) / Pow2(h), MaskVal(m, w, n))
            == Val(PairSum(ls), w)
  {
    AndEvens(ls, h, w, m, n);
    AndOdds(ls, h, w, m, n);
    ValPlus(Evens(ls), Odds(ls), w);
    assert Plus(Evens(ls), Odds(ls)) == PairSum(ls);
  }

  lemma PairSumBounded(ls: seq<nat>, b: nat)
    requires Bounded(ls, b)
    ensures Bounded(PairSum(ls), b + b)
  {
  }

  lemma JoinBits(lo: nat, hi: nat)
    ensures Join(lo, hi, 1) == lo + 2 * hi
  {
    assert Pow2(1) == 2;
  }

  /** On 1-bit lanes, a pair read as a 2-bit lane minus its high bit is the pair's bit count. */
  lemma PairsMinusOdds(bits: seq<nat>)
    requires |bits| % 2 == 0
    ensures |Pairs(bits, 1)| == |Odds(bits)|
    ensures forall i :: 0 <= i < |Pairs(bits, 1)| ==> Odds(bits)[i] <= Pairs(bits, 1)[i]
    ensures Minus(Pairs(bits, 1), Odds(bits)) == PairSum(bits)
  {
    var pairs, odds, sums := Pairs(bits, 1), Odds(bits), PairSum(bits);
    forall i | 0 <= i < |pairs|
      ensures odds[i] <= pairs[i] && pairs[i] - odds[i] == sums[i]
    {
      PairsAt(bits, 1, i);
      JoinBits(bits[2 * i], bits[2 * i + 1]);
    }
    var difference := Minus(pairs, odds);
    assert |difference| == |sums|;
    forall i | 0 <= i < |sums|
      ensures difference[i] == sums[i]
    {
    }
  }

  /** The SWAR subtraction on 1-bit lanes: `v - (odd bits)` counts the bits of every pair. */
  lemma SubtractOdds(bits: seq<nat>)
    requires |bits| % 2 == 0 && Bounded(bits, 1)
    ensures Val(Odds(bits), 2) <= Val(bits, 1)
    ensures Val(bits, 1) - Val(Odds(bits), 2) == Val(PairSum(bits), 2)
  {
    ValPairs(bits, 1, 2);
    PairsMinusOdds(bits);
    ValMinus(Pairs(bits, 1), Odds(bits), 2);
  }

  /** The lanes of `ls` with the lanes `k` places above added in, zero coming in at the top. */
  function Fold(ls: seq<nat>, k: nat): (r: seq<nat>)
    requires k <= |ls|
    ensures |r| == |ls|
    ensures forall i :: 0 <= i < |ls| - k ==> r[i] == ls[i] + ls[i + k]
    ensures forall i :: |ls| - k <= i < |ls| ==> r[i] == ls[i]
  {
    Plus(ls, ls[k..] + Zeros(k))
  }

  /** Adding a value shifted right by `k` lanes to itself folds the lanes. */
  lemma FoldVal(ls: seq<nat>, w: nat, k: nat)
    requires k <= |ls| && Bounded(ls, Pow2(w) - 1)
    ensures Val(ls, w) + Val(ls, w) / Pow2(w * k) == Val(Fold(ls, k), w)
  {
    ValShiftPadded(ls, w, k);
    ValPlus(ls, ls[k..] + Zeros(k), w);
  }

  lemma FoldBounded(ls: seq<nat>, k: nat, b: nat)
    requires k <= |ls| && Bounded(ls, b)
    ensures Bounded(Fold(ls, k), b + b)
  {
  }

  /** Folding by one lane and keeping the even lanes sums adjacent lanes. */
  lemma EvensOfFold(ls: seq<nat>)
    requires |ls| % 2 == 0 && |ls| > 0
    ensures Evens(Fold(ls, 1)) == PairSum(ls)
  {
  }

  /** A value of `64 / w` lanes of `w` bits is a 64-bit value. */
  lemma ValBelow64(ls: seq<nat>, w: nat, b: nat)
    requires w * |ls| == 64 && Bounded(ls, b) && b < Pow2(w)
    ensures Val(ls, w) < TWO_64
  {
    ValBound(ls, w);
    Pow2SixtyFour();
  }

  // ---------------------------------------------------------------------------
  // The literal masks

  lemma {:induction false} MaskValSplit(c: nat, w: nat, m: nat, n: nat)
    ensures MaskVal(c, w, m + n) == MaskVal(c, w, m) + Pow2(w * m) * MaskVal(c, w, n)
  {
    if m > 0 {
      MaskValSplit(c, w, m - 1, n);
      var P, Q, rest := Pow2(w), Pow2(w * (m - 1)), MaskVal(c, w, n);
      MulAddDistrib(P, MaskVal(c, w, m - 1), Q * rest);
      MulAssoc(P, Q, rest);
      MulSucc(w, m);
      Pow2Add(w, w * (m - 1));
    }
  }

  /** Doubling the number of lanes of a mask whose value is known. */
  lemma MaskDouble(c: nat, w: nat, n: nat, shift: nat, mask: nat)
    requires MaskVal(c, w, n) == mask && Pow2(w * n) == shift
    ensures MaskVal(c, w, n + n) == mask + shift * mask
  {
    MaskValSplit(c, w, n, n);
  }

  lemma Pow2Powers()
    ensures Pow2(1) == 2 && Pow2(2) == 4 && Pow2(4) == 16 && Pow2(7) == 128 && Pow2(8) == 256
    ensures Pow2(16) == 0x1_0000 && Pow2(32) == 0x1_0000_0000
  {
    Pow2Eight();
    Pow2ThirtyTwo();
    Pow2Sixteen();
  }

  /** `0x5555555555555555`: the low bit of every 2-bit lane. */
  lemma MaskFives()
    ensures MaskVal(1, 2, 32) == 0x5555_5555_5555_5555
  {
    Pow2Powers();
    assert MaskVal(1, 2, 1) == 1;
    MaskDouble(1, 2, 1, 4, 1);
    MaskDouble(1, 2, 2, 16, 5);
    MaskDouble(1, 2, 4, 0x100, 0x55);
    MaskDouble(1, 2, 8, 0x1_0000, 0x5555);
    MaskDouble(1, 2, 16, 0x1_0000_0000, 0x5555_5555);
  }

  /** `0x3333333333333333`: the low two bits of every 4-bit lane. */
  lemma MaskThrees()
    ensures MaskVal(3, 4, 16) == 0x3333_3333_3333_3333
  {
    Pow2Powers();
    assert MaskVal(3, 4, 1) == 3;
    MaskDouble(3, 4, 1, 16, 3);
    MaskDouble(3, 4, 2, 0x100, 0x33);
    MaskDouble(3, 4, 4, 0x1_0000, 0x3333);
    MaskDouble(3, 4, 8, 0x1_0000_0000, 0x3333_3333);
  }

  /** `0x0F0F0F0F0F0F0F0F`: the low four bits of every byte. */
  lemma MaskFifteens()
    ensures MaskVal(15, 8, 8) == 0x0F0F_0F0F_0F0F_0F0F
  {
    Pow2Powers();
    assert MaskVal(15, 8, 1) == 15;
    MaskDouble(15, 8, 1, 0x100, 0x0F);
    MaskDouble(15, 8, 2, 0x1_0000, 0x0F0F);
    MaskDouble(15, 8, 4, 0x1_0000_0000, 0x0F0F_0F0F);
  }

  // ---------------------------------------------------------------------------
  // Counting bits

  /** Adding adjacent lanes keeps the total. */
  lemma {:induction false} SumPairSum(ls: seq<nat>)
    requires |ls| % 2 == 0
    ensures Sum(PairSum(ls)) == Sum(ls)
  {
    if |ls| > 0 {
      SumPairSum(ls[2..]);
      assert PairSum(ls)[1..] == PairSum(ls[2..]);
      assert ls[1..][1..] == ls[2..];
    }
  }

  /** The bits of `v` read back as 1-bit lanes give `v`. */
  lemma {:induction false} ValBits(v: nat, n: nat)
    requires v < Pow2(n)
    ensures Val(BitsOf(v, n), 1) == v
  {
    if n > 0 {
      ValBits(v / 2, n - 1);
      assert BitsOf(v, n)[1..] == BitsOf(v / 2, n - 1);
    }
  }

  /** Adding up the bits of `v` counts its one bits. */
  lemma {:induction false} SumBits(v: nat, n: nat)
    requires v < Pow2(n)
    ensures Sum(BitsOf(v, n)) == PopCount(v)
  {
    if n > 0 {
      SumBits(v / 2, n - 1);
      assert BitsOf(v, n)[1..] == BitsOf(v / 2, n - 1);
    }
  }

  /** The sum of eight lanes, written out. */
  lemma SumEight(ls: seq<nat>)
    requires |ls| == 8
    ensures Sum(ls) == ls[0] + ls[1] + ls[2] + ls[3] + ls[4] + ls[5] + ls[6] + ls[7]
  {
    assert Sum(ls[7..]) == ls[7] + Sum(ls[8..]);
    assert Sum(ls[6..]) == ls[6] + Sum(ls[7..]);
    assert Sum(ls[5..]) == ls[5] + Sum(ls[6..]);
    assert Sum(ls[4..]) == ls[4] + Sum(ls[5..]);
    assert Sum(ls[3..]) == ls[3] + Sum(ls[4..]);
    assert Sum(ls[2..]) == ls[2] + Sum(ls[3..]);
    assert Sum(ls[1..]) == ls[1] + Sum(ls[2..]);
  }
}
