/** Concrete rounds, worked out by the verifier. */
module Scenarios {
  import opened Wrappers
  import opened Evaluator
  import opened Round
  import opened Difficulty

  /** Medium difficulty, secret 50, guesses 25, 75, 60, 50: too low with no
      temperature, then Colder and too high (25 is not closer than 25), then
      Warmer (10 < 25) and too high again, then a win on the fourth attempt. */
  lemma MediumWinOnFourthGuess()
    ensures ChooseDifficulty("2") == Some(Preset(1, 100, 7))
    ensures Play(50, 7, [25, 75, 60, 50]) ==
              Round([ Feedback(None, TryBigger, 6),
                      Feedback(Some(Colder), TrySmaller, 5),
                      Feedback(Some(Warmer), TrySmaller, 4) ],
                    Win(4))
  {
    var expected := Round([ Feedback(None, TryBigger, 6),
                            Feedback(Some(Colder), TrySmaller, 5),
                            Feedback(Some(Warmer), TrySmaller, 4) ],
                          Win(4));
    var guesses := [25, 75, 60, 50];
    assert ValidRound(50, 7, guesses, expected) by {
      assert ExpectedFeedback(50, 7, guesses, 0, expected.feedback[0]);
      assert ExpectedFeedback(50, 7, guesses, 1, expected.feedback[1]);
      assert ExpectedFeedback(50, 7, guesses, 2, expected.feedback[2]);
    }
    ValidRoundIffPlay(50, 7, guesses, expected);
  }

  /** Hard difficulty: range 1..200 and five attempts; five misses lose the
      round and reveal the answer. */
  lemma HardLosesAfterFiveMisses()
    ensures ChooseDifficulty("3") == Some(Preset(1, 200, 5))
    ensures Play(120, 5, [100, 150, 110, 130, 121]).outcome == Lose(120)
    ensures |Play(120, 5, [100, 150, 110, 130, 121]).feedback| == 5
  {
  }

  /** The temperature hint compares with the immediately previous guess, not
      with the best guess so far: secret 50, guesses 40, 10, 20 give
      distances 10, 40, 30, and the third guess is Warmer although it is
      farther away than the first. */
  lemma NotARunningMinimum()
    ensures Play(50, 10, [40, 10, 20]).feedback[2].temperature == Some(Warmer)
  {
  }

  /** A choice with a trailing blank is not recognised. */
  lemma UnstrippedChoiceRejected()
    ensures ChooseDifficulty("1 ") == None
    ensures ChooseDifficulty("") == None
  {
  }
}
