/**
 * The score contract `SecureMultiplication`: five on-chain state fields, three
 * setters, `deploy`, the pass/fail decision of `calculateScore`, and the 64-bit
 * population count `countSetBitsBigInt`.
 */
module Contract {
  import opened Arith
  import opened Wrappers
  import Field
  import opened Gadgets
  import opened Popcount

  /** The pass mark: four correct answers out of six questions. */
  const THRESHOLD: nat := 4
  const QUESTIONS: nat := 6

  /** An ElGamal ciphertext; its components are field elements and are not interpreted here. */
  datatype Cipher = Cipher(c1: nat, c2: nat)

  /** The `@state` fields of the contract. */
  datatype State = State(
    encryptedFullScore: Cipher,
    encryptedCorrectAnswers: Cipher,
    encryptedUserAnswers: Cipher,
    pk: nat,
    encryptedScore: nat)

  /** What `calculateScore` leaves behind: the new state and the `passed` event it emits. */
  datatype Scored = Scored(state: State, passed: bool)

  /** `t` agrees with `s` on every field except, possibly, `encryptedScore`. */
  predicate SameExceptScore(s: State, t: State)
  {
    s.encryptedFullScore == t.encryptedFullScore
    && s.encryptedCorrectAnswers == t.encryptedCorrectAnswers
    && s.encryptedUserAnswers == t.encryptedUserAnswers
    && s.pk == t.pk
  }

  /** `setEncryptedFullScore`. */
  function SetEncryptedFullScore(s: State, value: Cipher): (t: State)
    ensures t.encryptedFullScore == value
    ensures t.encryptedCorrectAnswers == s.encryptedCorrectAnswers && t.encryptedUserAnswers == s.encryptedUserAnswers
    ensures t.pk == s.pk && t.encryptedScore == s.encryptedScore
  {
    s.(encryptedFullScore := value)
  }

  /** `setEncryptedCorrectAnswers`. */
  function SetEncryptedCorrectAnswers(s: State, value: Cipher): (t: State)
    ensures t.encryptedCorrectAnswers == value
    ensures t.encryptedFullScore == s.encryptedFullScore && t.encryptedUserAnswers == s.encryptedUserAnswers
    ensures t.pk == s.pk && t.encryptedScore == s.encryptedScore
  {
    s.(encryptedCorrectAnswers := value)
  }

  /** `setEncryptedUserAnswers`. */
  function SetEncryptedUserAnswers(s: State, value: Cipher): (t: State)
    ensures t.encryptedUserAnswers == value
    ensures t.encryptedFullScore == s.encryptedFullScore && t.encryptedCorrectAnswers == s.encryptedCorrectAnswers
    ensures t.pk == s.pk && t.encryptedScore == s.encryptedScore
  {
    s.(encryptedUserAnswers := value)
  }

  /** The state effect of `deploy`: the score starts at zero. */
  function Deploy(s: State): (t: State)
    ensures t.encryptedScore == 0 && SameExceptScore(s, t)
  {
    s.(encryptedScore := 0)
  }

  /**
   * `calculateScore`: the user ciphertext's `c2` becomes the stored score, and the
   * event reports whether it equals 4, 5 or 6.
   */
  function CalculateScore(s: State): (r: Scored)
    ensures r.state.encryptedScore == s.encryptedUserAnswers.c2
    ensures SameExceptScore(s, r.state)
    ensures r.passed <==> THRESHOLD <= s.encryptedUserAnswers.c2 <= QUESTIONS
  {
    var userScore := s.encryptedUserAnswers.c2;
    var isEqual := userScore == 4;
    var isGreater := userScore == 5 || userScore == 6;
    Scored(s.(encryptedScore := userScore), isEqual || isGreater)
  }

  // ---------------------------------------------------------------------------
  // Properties of the state machine

  /** The correct-answers ciphertext has no influence on the outcome. */
  lemma PassedIgnoresCorrectAnswers(s: State, value: Cipher)
    ensures CalculateScore(SetEncryptedCorrectAnswers(s, value)).passed == CalculateScore(s).passed
    ensures CalculateScore(SetEncryptedCorrectAnswers(s, value)).state
            == SetEncryptedCorrectAnswers(CalculateScore(s).state, value)
  {
  }

  /** Scoring twice changes nothing more and reports the same outcome. */
  lemma CalculateScoreIdempotent(s: State)
    ensures CalculateScore(CalculateScore(s).state) == CalculateScore(s)
  {
  }

  /** The last write to a field wins. */
  lemma SettersOverwrite(s: State, a: Cipher, b: Cipher)
    ensures SetEncryptedFullScore(SetEncryptedFullScore(s, a), b) == SetEncryptedFullScore(s, b)
    ensures SetEncryptedCorrectAnswers(SetEncryptedCorrectAnswers(s, a), b) == SetEncryptedCorrectAnswers(s, b)
    ensures SetEncryptedUserAnswers(SetEncryptedUserAnswers(s, a), b) == SetEncryptedUserAnswers(s, b)
  {
  }

  /** Setters of different fields commute, so the order of the calls in a transaction does not matter. */
  lemma SettersCommute(s: State, a: Cipher, b: Cipher)
    ensures SetEncryptedUserAnswers(SetEncryptedCorrectAnswers(s, a), b)
            == SetEncryptedCorrectAnswers(SetEncryptedUserAnswers(s, b), a)
    ensures SetEncryptedUserAnswers(SetEncryptedFullScore(s, a), b)
            == SetEncryptedFullScore(SetEncryptedUserAnswers(s, b), a)
    ensures SetEncryptedCorrectAnswers(SetEncryptedFullScore(s, a), b)
            == SetEncryptedFullScore(SetEncryptedCorrectAnswers(s, b), a)
  {
  }

  /**
   * The scenario of the score test: after deployment, four correct answers out of
   * six pass and the stored score is 4; replacing the answers by three fails.
   */
  lemma ScoreScenario(s: State)
    ensures var first := CalculateScore(SetEncryptedCorrectAnswers(SetEncryptedUserAnswers(Deploy(s), Cipher(0, 4)), Cipher(0, 6)));
            first.passed && first.state.encryptedScore == 4
            && var second := CalculateScore(SetEncryptedUserAnswers(first.state, Cipher(0, 3)));
               !second.passed && second.state.encryptedScore == 3
  {
  }

  // ---------------------------------------------------------------------------
  // countSetBitsBigInt

  /**
   * `countSetBitsBigInt(v)` on a field element `v`: the circuit fails when `v` does
   * not fit in 64 bits (the range check of `rightShift64`), and otherwise yields
   * the number of one bits of `v`.
   */
  method CountSetBits(v: nat, p: nat) returns (r: Result<nat, string>)
    requires Field.IsModulus(p) && v < p
    ensures r.Success? <==> v < TWO_64
    ensures r.Success? ==> r.value == PopCount(v) && r.value <= 64
  {
    if v >= TWO_64 {
      return Failure("rightShift64: input does not fit in 64 bits");
    }
    StageOne(v);
    var odd := And64(RightShift64(v, 1), FIVES);
    Field.SubNoWrap(v, odd, p);
    var v1 := Field.Sub(v, odd, p);

    StageTwo(v, v1);
    var low2, high2 := And64(v1, THREES), And64(RightShift64(v1, 2), THREES);
    Field.AddNoWrap(low2, high2, p);
    var v2 := Field.Add(low2, high2, p);

    StageThree(v, v2);
    Field.AddNoWrap(v2, RightShift64(v2, 4), p);
    var folded := Field.Add(v2, RightShift64(v2, 4), p);
    AndArgument(folded, v2 + RightShift64(v2, 4), FIFTEENS);
    var v3 := And64(folded, FIFTEENS);

    StageFold(v, v3, 1);
    Field.AddNoWrap(v3, RightShift64(v3, 8), p);
    var v5 := Field.Add(v3, RightShift64(v3, 8), p);

    StageFold(v, v5, 2);
    Field.AddNoWrap(v5, RightShift64(v5, 16), p);
    var v6 := Field.Add(v5, RightShift64(v5, 16), p);

    StageFold(v, v6, 4);
    Field.AddNoWrap(v6, RightShift64(v6, 32), p);
    var v7 := Field.Add(v6, RightShift64(v6, 32), p);

    StageMask(v, v7);
    r := Success(And64(v7, LOW_SEVEN));
  }
}
