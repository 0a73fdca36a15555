/**
 * Scoring of a reconstruction: both strings are upper-cased; an equal guess
 * is correct, otherwise the position-wise matches over the sentence's length
 * give a rounded percentage that picks one of two feedback messages.
 */
module Scoring {
  import opened Wrappers
  import opened Text

  /** Accuracy (in percent) at or above which the reconstruction beats the compression. */
  const AccuracyThreshold: nat := 80

  /**
   * The outcome of a guess: an exact match, or the number of matching
   * positions and the rounded accuracy. The accuracy is `None` when the
   * sentence is empty, where the source divides zero by zero.
   */
  datatype Verdict = Exact | Scored(score: nat, accuracy: Option<nat>)

  /** The three feedback messages. */
  datatype Feedback = Correct | BeatCompression | AffectsClarity

  /**
   * The number of positions `i < n` at which `guess[i] == original[i]`; a
   * position past the end of the guess never matches.
   */
  function CountUpTo(guess: string, original: string, n: nat): nat
    requires n <= |original|
  {
    if n == 0 then 0
    else CountUpTo(guess, original, n - 1) +
         (if n - 1 < |guess| && guess[n - 1] == original[n - 1] then 1 else 0)
  }

  /** The score: matching positions over the whole original. */
  function MatchCount(guess: string, original: string): nat {
    CountUpTo(guess, original, |original|)
  }

  /** `Math.round((score / len) * 100)` in exact arithmetic: round half up. */
  function Accuracy(score: nat, len: nat): nat
    requires len > 0
  {
    (200 * score + len) / (2 * len)
  }

  /** What `checkGuess` concludes about a guess for a sentence. */
  function Evaluate(guessInput: string, sentence: string): Verdict {
    var guess, original := UpperStr(guessInput), UpperStr(sentence);
    if guess == original then Exact
    else
      var score := MatchCount(guess, original);
      Scored(score, if |original| == 0 then None else Some(Accuracy(score, |original|)))
  }

  /**
   * The message shown for a verdict. `accuracy < 80` is false for the
   * not-a-number accuracy of an empty sentence, so that case praises.
   */
  function FeedbackFor(v: Verdict): Feedback {
    match v
    case Exact => Correct
    case Scored(_, accuracy) =>
      if accuracy.Some? && accuracy.value < AccuracyThreshold then AffectsClarity else BeatCompression
  }

  /** The scoring part of `checkGuess`, with its counting loop. */
  method Grade(guessInput: string, sentence: string) returns (v: Verdict)
    ensures v == Evaluate(guessInput, sentence)
  {
    var guess := UpperStr(guessInput);
    var original := UpperStr(sentence);
    if guess == original {
      return Exact;
    }
    var score := 0;
    for i := 0 to |original|
      invariant score == CountUpTo(guess, original, i)
    {
      if i < |guess| && guess[i] == original[i] {
        score := score + 1;
      }
    }
    var accuracy := if |original| == 0 then None else Some(Accuracy(score, |original|));
    v := Scored(score, accuracy);
  }

  /** The count is at most the number of positions looked at and at most the guess's length. */
  lemma {:induction false} CountBounds(guess: string, original: string, n: nat)
    requires n <= |original|
    ensures CountUpTo(guess, original, n) <= n
    ensures CountUpTo(guess, original, n) <= |guess|
  {
    if n > 0 {
      CountBounds(guess, original, n - 1);
      if n - 1 < |guess| {
        assert CountUpTo(guess, original, n - 1) <= n - 1;
      }
    }
  }

  /** Every position of a string matches itself. */
  lemma {:induction false} CountSelf(original: string, n: nat)
    requires n <= |original|
    ensures CountUpTo(original, original, n) == n
  {
    if n > 0 {
      CountSelf(original, n - 1);
    }
  }

  /** Correcting one mismatched position of the guess adds exactly one match, if it is counted. */
  lemma {:induction false} CountCorrection(guess: string, original: string, i: nat, n: nat)
    requires i < |guess| && i < |original| && guess[i] != original[i]
    requires n <= |original|
    ensures CountUpTo(guess[i := original[i]], original, n) ==
            CountUpTo(guess, original, n) + (if i < n then 1 else 0)
  {
    if n > 0 {
      CountCorrection(guess, original, i, n - 1);
    }
  }

  /** Products with a positive factor compare like the other factors. */
  lemma MulCancel(x: int, y: int, d: int)
    requires d > 0 && x * d < y * d
    ensures x < y
  {
  }

  /** A quotient and remainder within bounds are the ones division gives. */
  lemma DivUnique(k: int, d: int, q: int, r: int)
    requires d > 0 && 0 <= r < d && k == q * d + r
    ensures k / d == q
  {
    var q', r' := k / d, k % d;
    assert k == q' * d + r' && 0 <= r' < d;
    assert (q + 1) * d == q * d + d;
    assert (q' + 1) * d == q' * d + d;
    MulCancel(q', q + 1, d);
    MulCancel(q, q' + 1, d);
  }

  /** Integer division does not decrease when the dividend grows. */
  lemma DivMonotone(a: nat, b: nat, d: nat)
    requires a <= b && d > 0
    ensures a / d <= b / d
  {
    var qa, ra := a / d, a % d;
    var qb, rb := b / d, b % d;
    assert a == qa * d + ra && b == qb * d + rb;
    assert (qb + 1) * d == qb * d + d;
    MulCancel(qa, qb + 1, d);
  }

  /** A score of at most the length gives an accuracy between 0 and 100; a full score gives 100. */
  lemma AccuracyRange(score: nat, len: nat)
    requires len > 0 && score <= len
    ensures Accuracy(score, len) <= 100
    ensures score == len ==> Accuracy(score, len) == 100
    ensures score == 0 ==> Accuracy(score, len) == 0
  {
    DivMonotone(200 * score + len, 200 * len + len, 2 * len);
    DivUnique(200 * len + len, 2 * len, 100, len);
    if score == 0 {
      DivUnique(200 * score + len, 2 * len, 0, len);
    }
  }

  /** A higher score never gives a lower accuracy. */
  lemma AccuracyMonotone(s1: nat, s2: nat, len: nat)
    requires len > 0 && s1 <= s2
    ensures Accuracy(s1, len) <= Accuracy(s2, len)
  {
    DivMonotone(200 * s1 + len, 200 * s2 + len, 2 * len);
  }

  /** The accuracy reaches the threshold exactly when `score / len >= 0.795`. */
  lemma ThresholdMeaning(score: nat, len: nat)
    requires len > 0
    ensures Accuracy(score, len) >= AccuracyThreshold <==> 200 * score >= 159 * len
  {
    var n, d := 200 * score + len, 2 * len;
    DivUnique(80 * d, d, 80, 0);
    DivUnique(80 * d - 1, d, 79, d - 1);
    if n >= 80 * d {
      DivMonotone(80 * d, n, d);
    } else {
      DivMonotone(n, 80 * d - 1, d);
    }
  }

  /**
   * What an evaluation says: upper-cased equality is exactly the correct case;
   * otherwise the score lies between 0 and the sentence's length (and the
   * guess's), and a non-empty sentence gives an accuracy between 0 and 100.
   */
  lemma EvaluateRange(guessInput: string, sentence: string)
    ensures Evaluate(guessInput, sentence) == Exact <==> UpperStr(guessInput) == UpperStr(sentence)
    ensures Evaluate(guessInput, sentence).Scored? ==>
      Evaluate(guessInput, sentence).score <= |sentence| &&
      Evaluate(guessInput, sentence).score <= |guessInput| &&
      (Evaluate(guessInput, sentence).accuracy.Some? <==> |sentence| > 0) &&
      (|sentence| > 0 ==> Evaluate(guessInput, sentence).accuracy.value <= 100)
  {
    var guess, original := UpperStr(guessInput), UpperStr(sentence);
    CountBounds(guess, original, |original|);
    if |original| > 0 {
      AccuracyRange(MatchCount(guess, original), |original|);
    }
  }

  /** A guess equal to the sentence (ignoring case) is correct; its match count would be 100%. */
  lemma EvaluateSelf(guessInput: string, sentence: string)
    requires UpperStr(guessInput) == UpperStr(sentence)
    ensures Evaluate(guessInput, sentence) == Exact
    ensures FeedbackFor(Evaluate(guessInput, sentence)) == Correct
    ensures |sentence| > 0 ==> Accuracy(MatchCount(UpperStr(guessInput), UpperStr(sentence)), |sentence|) == 100
  {
    CountSelf(UpperStr(sentence), |sentence|);
    if |sentence| > 0 {
      AccuracyRange(|sentence|, |sentence|);
    }
  }

  /**
   * The feedback for an inexact guess at a non-empty sentence praises exactly
   * from 80% up, that is, exactly when at least 79.5% of the positions match.
   */
  lemma FeedbackThreshold(guessInput: string, sentence: string)
    requires |sentence| > 0
    requires UpperStr(guessInput) != UpperStr(sentence)
    ensures Evaluate(guessInput, sentence).accuracy.Some?
    ensures FeedbackFor(Evaluate(guessInput, sentence)) == BeatCompression <==>
            Evaluate(guessInput, sentence).accuracy.value >= AccuracyThreshold
    ensures FeedbackFor(Evaluate(guessInput, sentence)) == BeatCompression <==>
            200 * Evaluate(guessInput, sentence).score >= 159 * |sentence|
    ensures FeedbackFor(Evaluate(guessInput, sentence)) == AffectsClarity <==>
            200 * Evaluate(guessInput, sentence).score < 159 * |sentence|
  {
    ThresholdMeaning(Evaluate(guessInput, sentence).score, |sentence|);
  }

  /**
   * Correcting one position where the guess differs from the sentence either
   * makes the guess correct or adds one match, and never lowers the accuracy.
   */
  lemma CorrectionNeverHurts(guessInput: string, sentence: string, i: nat)
    requires i < |guessInput| && i < |sentence|
    requires Upper(guessInput[i]) != Upper(sentence[i])
    ensures Evaluate(guessInput, sentence).Scored?
    ensures var before, after := Evaluate(guessInput, sentence), Evaluate(guessInput[i := sentence[i]], sentence);
      after == Exact ||
      (after.Scored? && after.score == before.score + 1 &&
       after.accuracy.value >= before.accuracy.value)
  {
    var guess, original := UpperStr(guessInput), UpperStr(sentence);
    assert guess[i] != original[i];
    var corrected := UpperStr(guessInput[i := sentence[i]]);
    assert corrected == guess[i := original[i]];
    CountCorrection(guess, original, i, |original|);
    AccuracyMonotone(MatchCount(guess, original), MatchCount(corrected, original), |original|);
  }

  /** A guess differing from "The weather in Sacramento is nice." only in case is correct. */
  lemma WeatherExample()
    ensures Evaluate("the weather in sacramento is nice.", "The weather in Sacramento is nice.") == Exact
  {
    var g, s := "the weather in sacramento is nice.", "The weather in Sacramento is nice.";
    assert forall i :: 0 <= i < |s| ==> Upper(g[i]) == Upper(s[i]);
    assert UpperStr(g) == UpperStr(s);
  }
}
