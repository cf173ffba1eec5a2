/** `play_game` as the imperative loop it is: a chosen preset, the secret
    answer drawn from its range (a parameter here, since the draw is
    random), and the lines the player types at the guess prompt. */
module Game {
  import opened Wrappers
  import opened Evaluator
  import opened RangeCheck
  import opened Round
  import opened Difficulty

  /** Runs one round. Each turn of `while attempts < max_attempts` reads
      one guess through the range-checked prompt, counts it as an attempt,
      stops on an exact match, and otherwise records the warmer/colder hint
      (judged against the previous guess only), the new previous distance,
      the direction hint and the attempts left. The result is the round
      described guess by guess by `ValidRound` over the stream of accepted
      guesses, which is the round `Play` computes. */
  method PlayGame(p: Preset, answer: int, entries: seq<Entry>) returns (feedback: seq<Feedback>, outcome: Outcome)
    requires ValidPreset(p)
    requires InRange(p.start, p.end, answer)
    ensures ValidRound(answer, p.maxAttempts, Guesses(p.start, p.end, entries), Round(feedback, outcome))
    ensures Round(feedback, outcome) == Play(answer, p.maxAttempts, Guesses(p.start, p.end, entries))
    ensures outcome.Lose? ==> outcome.answer == answer
    ensures |feedback| <= p.maxAttempts
  {
    ghost var guesses := Guesses(p.start, p.end, entries);
    var rest := entries;
    var attempts: nat := 0;
    var previousDiff: Option<nat> := None;
    feedback := [];
    while attempts < p.maxAttempts
      invariant attempts <= p.maxAttempts
      invariant attempts <= |guesses|
      invariant Guesses(p.start, p.end, rest) == guesses[attempts..]
      invariant |feedback| == attempts
      invariant NoMatchBefore(answer, guesses, attempts)
      invariant forall i :: 0 <= i < attempts ==> ExpectedFeedback(answer, p.maxAttempts, guesses, i, feedback[i])
      invariant previousDiff == PreviousDiff(answer, guesses, attempts)
      decreases p.maxAttempts - attempts
    {
      GuessesStartWithGetValidNumber(p.start, p.end, rest);
      var read := GetValidNumber(p.start, p.end, rest);
      if read.None? {
        outcome := AwaitingGuess(attempts);
        ValidRoundIffPlay(answer, p.maxAttempts, guesses, Round(feedback, outcome));
        return;
      }
      var guess := read.value.value;
      assert guess == guesses[attempts];
      rest := rest[read.value.index + 1..];
      attempts := attempts + 1;

      var diff := Abs(answer - guess);

      if guess == answer {
        outcome := Win(attempts);
        ValidRoundIffPlay(answer, p.maxAttempts, guesses, Round(feedback, outcome));
        return;
      }

      var temperature: Option<Temperature> := None;
      if previousDiff.Some? {
        if diff < previousDiff.value {
          temperature := Some(Warmer);
        } else {
          temperature := Some(Colder);
        }
      }

      previousDiff := Some(diff);

      var direction := if guess < answer then TryBigger else TrySmaller;

      feedback := feedback + [Feedback(temperature, direction, p.maxAttempts - attempts)];
    }
    outcome := Lose(answer);
    ValidRoundIffPlay(answer, p.maxAttempts, guesses, Round(feedback, outcome));
  }
}
