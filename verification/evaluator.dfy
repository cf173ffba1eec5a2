/** The guess evaluator inside the loop of `play_game`: one guess against
    the secret answer, given the distance of the immediately previous guess
    (absent on the first guess of a round). */
module Evaluator {
  import opened Wrappers

  /** Python's `abs` on integers. */
  function Abs(x: int): (r: nat)
    ensures r == x || r == -x
  {
    if x < 0 then -x else x
  }

  /** The warmer/colder hint. */
  datatype Temperature = Warmer | Colder

  /** The "Try bigger!" / "Try smaller!" hint. */
  datatype Direction = TryBigger | TrySmaller

  /** What one guess produces: the round ends on `Correct` (no hint of
      either kind is given); otherwise the optional temperature hint, the
      direction hint and the distance `diff` that becomes the next guess's
      `previous_diff`. */
  datatype Verdict =
    | Correct
    | Miss(temperature: Option<Temperature>, direction: Direction, diff: nat)

  /** Evaluates one guess. Exact match ends the round; on a miss there is
      no temperature hint without a previous distance, the hint is Warmer
      exactly when the new distance is strictly smaller (an equal distance
      is Colder), the direction says which side of the guess the answer
      lies on, and the carried distance is `|answer - guess|`. */
  function Evaluate(answer: int, guess: int, previousDiff: Option<nat>): (v: Verdict)
    ensures v.Correct? <==> guess == answer
    ensures v.Miss? ==> v.diff == Abs(answer - guess) && v.diff > 0
    ensures v.Miss? ==> (v.temperature.None? <==> previousDiff.None?)
    ensures v.Miss? && previousDiff.Some? ==>
              (v.temperature == Some(Warmer) <==> v.diff < previousDiff.value)
    ensures v.Miss? ==> (v.direction == TryBigger <==> answer > guess)
    ensures v.Miss? ==> (v.direction == TrySmaller <==> answer < guess)
  {
    var diff := Abs(answer - guess);
    if guess == answer then Correct
    else
      var temperature :=
        match previousDiff
        case None => None
        case Some(prev) => if diff < prev then Some(Warmer) else Some(Colder);
      Miss(temperature, if guess < answer then TryBigger else TrySmaller, diff)
  }

  /** Approaching the answer from one side: when the previous and the new
      guess both lie below the answer (or both above), Warmer means the new
      guess moved strictly towards the answer. */
  lemma WarmerOnOneSideMeansMovedTowards(answer: int, previous: int, guess: int)
    requires guess != answer
    requires (previous < answer && guess < answer) || (previous > answer && guess > answer)
    ensures var v := Evaluate(answer, guess, Some(Abs(answer - previous)));
            v.temperature == Some(Warmer) <==>
              (if answer > guess then previous < guess else guess < previous)
  {
  }

  /** Repeating the previous guess (after a miss) is always Colder: an
      equal distance is not an improvement. */
  lemma RepeatedGuessIsColder(answer: int, guess: int)
    requires guess != answer
    ensures Evaluate(answer, guess, Some(Abs(answer - guess))).temperature == Some(Colder)
  {
  }
}
