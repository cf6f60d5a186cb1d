/**
 * The population count of `countSetBitsBigInt`, stage by stage. Every stage is
 * stated on lane sequences: after the first stage `v` is read as 2-bit lanes each
 * holding the number of one bits of its pair of bits, after the second as 4-bit
 * lanes, after the third as bytes; the last three stages add bytes together.
 */
module Popcount {
  import opened Arith
  import opened Gadgets

  /** The literal masks of the source. */
  const FIVES: nat := 0x5555_5555_5555_5555
  const THREES: nat := 0x3333_3333_3333_3333
  const FIFTEENS: nat := 0x0F0F_0F0F_0F0F_0F0F
  const LOW_SEVEN: nat := 0x7F

  /** The 64 bits of `v` as 1-bit lanes. */
  lemma BitLanes(v: nat)
    requires v < TWO_64
    ensures Val(BitsOf(v, 64), 1) == v
  {
    Pow2SixtyFour();
    ValBits(v, 64);
  }

  /** `(v >> 1) & 0x5555555555555555` picks the odd bits. */
  lemma OddBits(bits: seq<nat>)
    requires |bits| == 64 && Bounded(bits, 1)
    ensures BitAnd(Val(bits, 1) / Pow2(1), FIVES) == Val(Odds(bits), 2)
  {
    MaskFives();
    AndOdds(bits, 1, 2, 1, 32);
  }


  /** `x & 0x3333333333333333` and `(x >> 2) & 0x3333333333333333`, added. */
  lemma PairsOfTwo(counts: seq<nat>)
    requires |counts| == 32 && Bounded(counts, 2)
    ensures BitAnd(Val(counts, 2), THREES) + BitAnd(Val(counts, 2) / Pow2(2), THREES)
            == Val(PairSum(counts), 4)
  {
    MaskThrees();
    AndPairSum(counts, 2, 4, 3, 16);
  }

  /** The 2-bit counts are added pairwise into 4-bit counts. */
  lemma TwoBitStage(counts: seq<nat>)
    requires |counts| == 32 && Bounded(counts, 2)
    ensures Val(counts, 2) < TWO_64 && RightShift64(Val(counts, 2), 2) < TWO_64
    ensures And64(Val(counts, 2), THREES) + And64(RightShift64(Val(counts, 2), 2), THREES)
            == Val(PairSum(counts), 4)
    ensures Bounded(PairSum(counts), 4)
  {
    Pow2Powers();
    ValBelow64(counts, 2, 2);
    PairsOfTwo(counts);
    PairSumBounded(counts, 2);
  }

  /**
   * `x & 0x0F0F0F0F0F0F0F0F` keeps the even 4-bit lanes. The value is passed as `x`
   * with `x == Val(ls, 4)` so that callers name the number they hold, and the solver
   * need not rediscover that it equals the lane value.
   */
  lemma EvenNibbles(ls: seq<nat>, x: nat)
    requires |ls| == 16 && Bounded(ls, 8) && x == Val(ls, 4)
    ensures BitAnd(x, FIFTEENS) == Val(Evens(ls), 8)
  {
    MaskFifteens();
    AndEvens(ls, 4, 8, 15, 8);
  }

  /** `x + (x >> 4)` on 4-bit counts adds every count to its neighbour. */
  lemma NibbleFold(counts: seq<nat>)
    requires |counts| == 16 && Bounded(counts, 4)
    ensures Val(counts, 4) < TWO_64
    ensures Val(counts, 4) + Val(counts, 4) / Pow2(4) == Val(Fold(counts, 1), 4)
    ensures Val(Fold(counts, 1), 4) < TWO_64 && Bounded(Fold(counts, 1), 8)
  {
    Pow2Powers();
    ValBelow64(counts, 4, 4);
    FoldVal(counts, 4, 1);
    FoldBounded(counts, 1, 4);
    ValBelow64(Fold(counts, 1), 4, 8);
  }

  /** Each 4-bit count is added to its neighbour and every other one kept. */
  lemma NibbleStage(counts: seq<nat>)
    requires |counts| == 16 && Bounded(counts, 4)
    ensures Val(counts, 4) < TWO_64
    ensures Val(counts, 4) + RightShift64(Val(counts, 4), 4) < TWO_64
    ensures And64(Val(counts, 4) + RightShift64(Val(counts, 4), 4), FIFTEENS) == Val(PairSum(counts), 8)
    ensures Bounded(PairSum(counts), 8)
  {
    NibbleFold(counts);
    EvenNibbles(Fold(counts, 1), Val(counts, 4) + RightShift64(Val(counts, 4), 4));
    EvensOfFold(counts);
    PairSumBounded(counts, 4);
  }

  /**
   * Adding a value shifted right by `8k` bits adds to every byte the byte `k` places
   * above it. The folded lanes are passed as `folded` so that the caller can supply
   * them in its own terms (`ByteSums`) without the solver unfolding `Fold` to match.
   */
  lemma ByteFold(counts: seq<nat>, k: nat, b: nat, x: nat, folded: seq<nat>)
    requires |counts| == 8 && 1 <= k <= 4 && Bounded(counts, b) && b <= 64 && x == Val(counts, 8)
    requires folded == Fold(counts, k)
    ensures x < TWO_64 && x + RightShift64(x, 8 * k) < TWO_64
    ensures x + RightShift64(x, 8 * k) == Val(folded, 8)
  {
    Pow2Powers();
    ValBelow64(counts, 8, b);
    FoldVal(counts, 8, k);
    FoldBounded(counts, k, b);
    ValBelow64(Fold(counts, k), 8, b + b);
  }

  /** The low byte holds a count of at most 64, which the mask `0x7F` keeps whole. */
  lemma LowByte(counts: seq<nat>)
    requires |counts| == 8 && Bounded(counts, 64)
    ensures Val(counts, 8) < TWO_64
    ensures And64(Val(counts, 8), LOW_SEVEN) == counts[0]
  {
    Pow2Powers();
    ValBelow64(counts, 8, 64);
    var x, rest := Val(counts, 8), Val(counts[1..], 8);
    AndLowMask(x, 7);
    assert x == counts[0] + (2 * rest) * 128;
    ModAddMultiple(counts[0], 2 * rest, 128);
    SmallMod(counts[0], 128);
  }

  /** The three pairwise additions keep the number of one bits of `v`. */
  lemma PairSumsCount(v: nat)
    requires v < TWO_64
    ensures Sum(PairSum(PairSum(PairSum(BitsOf(v, 64))))) == PopCount(v)
  {
    var bits := BitsOf(v, 64);
    SumPairSum(PairSum(PairSum(bits)));
    SumPairSum(PairSum(bits));
    SumPairSum(bits);
    Pow2SixtyFour();
    SumBits(v, 64);
  }

  /** Folding eight bytes by one, two and four places leaves their total in the low byte. */
  lemma FoldsCount(counts: seq<nat>)
    requires |counts| == 8
    ensures Fold(Fold(Fold(counts, 1), 2), 4)[0] == Sum(counts)
  {
    SumEight(counts);
  }

  // ---------------------------------------------------------------------------
  // The stages on the value `v` itself

  /**
   * The lanes `v` passes through: its 64 bits as 1-bit lanes, then the number of
   * one bits of every pair, nibble and byte of `v` as 2-, 4- and 8-bit lanes.
   */
  function LaneCounts(v: nat, w: nat): (r: seq<nat>)
    requires w == 1 || w == 2 || w == 4 || w == 8
    ensures w == 1 ==> |r| == 64
    ensures w == 2 ==> |r| == 32
    ensures w == 4 ==> |r| == 16
    ensures w == 8 ==> |r| == 8
    decreases w
  {
    if w == 1 then BitsOf(v, 64) else PairSum(LaneCounts(v, w / 2))
  }

  /**
   * The bytes after the folding additions: byte `i` of `ByteSums(v, k)` holds the
   * number of one bits of bytes `i` to `i + k - 1` of `v` (as far as they exist).
   */
  function ByteSums(v: nat, k: nat): (r: seq<nat>)
    requires k == 1 || k == 2 || k == 4 || k == 8
    ensures |r| == 8
    decreases k
  {
    if k == 1 then LaneCounts(v, 8) else Fold(ByteSums(v, k / 2), k / 2)
  }

  /** A `w`-bit lane counts at most `w` bits. */
  lemma {:induction false} LaneCountsBounded(v: nat, w: nat)
    requires w == 1 || w == 2 || w == 4 || w == 8
    ensures Bounded(LaneCounts(v, w), w)
    decreases w
  {
    if w > 1 {
      LaneCountsBounded(v, w / 2);
      PairSumBounded(LaneCounts(v, w / 2), w / 2);
    }
  }

  /** A byte that has summed `k` bytes counts at most `8k` bits. */
  lemma {:induction false} ByteSumsBounded(v: nat, k: nat)
    requires k == 1 || k == 2 || k == 4 || k == 8
    ensures Bounded(ByteSums(v, k), 8 * k)
    decreases k
  {
    if k == 1 {
      LaneCountsBounded(v, 8);
    } else {
      ByteSumsBounded(v, k / 2);
      FoldBounded(ByteSums(v, k / 2), k / 2, 8 * (k / 2));
    }
  }

  /**
   * contract.ts line 46: subtracting the odd bits from `v` leaves in every 2-bit lane the
   * number of one bits of that lane, so the subtraction never borrows.
   */
  lemma StageOne(v: nat)
    requires v < TWO_64
    ensures RightShift64(v, 1) < TWO_64
    ensures And64(RightShift64(v, 1), FIVES) <= v
    ensures v - And64(RightShift64(v, 1), FIVES) == Val(LaneCounts(v, 2), 2)
  {
    BitLanes(v);
    OddBits(BitsOf(v, 64));
    SubtractOdds(BitsOf(v, 64));
  }

  /** contract.ts line 47: the 2-bit counts of `x` are added pairwise into 4-bit counts. */
  lemma StageTwo(v: nat, x: nat)
    requires x == Val(LaneCounts(v, 2), 2)
    ensures x < TWO_64 && RightShift64(x, 2) < TWO_64
    ensures And64(x, THREES) + And64(RightShift64(x, 2), THREES) == Val(LaneCounts(v, 4), 4)
    ensures Val(LaneCounts(v, 4), 4) < TWO_64
  {
    LaneCountsBounded(v, 2);
    TwoBitStage(LaneCounts(v, 2));
    LaneCountsBounded(v, 4);
    Pow2Powers();
    ValBelow64(LaneCounts(v, 4), 4, 4);
  }

  /** contract.ts line 48: each 4-bit count of `x` is added to its neighbour and every other one kept. */
  lemma StageThree(v: nat, x: nat)
    requires x == Val(LaneCounts(v, 4), 4)
    ensures x < TWO_64 && x + RightShift64(x, 4) < TWO_64
    ensures And64(x + RightShift64(x, 4), FIFTEENS) == Val(ByteSums(v, 1), 8)
  {
    LaneCountsBounded(v, 4);
    NibbleStage(LaneCounts(v, 4));
  }

  /** contract.ts lines 49-51: adding `x` shifted right by `8k` bits adds to each byte the byte `k` places above it. */
  lemma StageFold(v: nat, x: nat, k: nat)
    requires k == 1 || k == 2 || k == 4
    requires x == Val(ByteSums(v, k), 8)
    ensures x < TWO_64 && x + RightShift64(x, 8 * k) < TWO_64
    ensures x + RightShift64(x, 8 * k) == Val(ByteSums(v, 2 * k), 8)
  {
    ByteSumsBounded(v, k);
    ByteSumsStep(v, k);
    ByteFold(ByteSums(v, k), k, 8 * k, x, ByteSums(v, 2 * k));
  }

  lemma ByteSumsStep(v: nat, k: nat)
    requires k == 1 || k == 2 || k == 4
    ensures ByteSums(v, 2 * k) == Fold(ByteSums(v, k), k)
  {
    assert (2 * k) / 2 == k;
  }

  /** contract.ts line 52: the low byte holds the population count of `v`, which the mask `0x7F` keeps whole. */
  lemma StageMask(v: nat, x: nat)
    requires v < TWO_64 && x == Val(ByteSums(v, 8), 8)
    ensures x < TWO_64 && And64(x, LOW_SEVEN) == PopCount(v) <= 64
  {
    ByteSumsBounded(v, 8);
    LowByte(ByteSums(v, 8));
    ByteSumsTotal(v);
    LaneCountsTotal(v);
    PopCountBelow64(v);
  }

  /** After the three folds the low byte holds the total of the eight byte counts. */
  lemma ByteSumsTotal(v: nat)
    ensures ByteSums(v, 8)[0] == Sum(LaneCounts(v, 8))
  {
    ByteSumsStep(v, 1);
    ByteSumsStep(v, 2);
    ByteSumsStep(v, 4);
    FoldsCount(LaneCounts(v, 8));
  }

  /** The byte counts of `v` add up to its population count. */
  lemma LaneCountsTotal(v: nat)
    requires v < TWO_64
    ensures Sum(LaneCounts(v, 8)) == PopCount(v)
  {
    LaneCountsStep(v, 1);
    LaneCountsStep(v, 2);
    LaneCountsStep(v, 4);
    PairSumsCount(v);
  }

  lemma LaneCountsStep(v: nat, w: nat)
    requires w == 1 || w == 2 || w == 4
    ensures LaneCounts(v, 2 * w) == PairSum(LaneCounts(v, w))
  {
    assert (2 * w) / 2 == w;
  }

  lemma PopCountBelow64(v: nat)
    requires v < TWO_64
    ensures PopCount(v) <= 64
  {
    Pow2SixtyFour();
    PopCountBelow(v, 64);
  }
}
