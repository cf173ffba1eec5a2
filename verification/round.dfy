/** One round of `play_game`: the secret answer, the attempt budget and the
    stream of (already range-checked) guesses determine the hints printed
    after each missed guess and how the round ends. */
module Round {
  import opened Wrappers
  import opened Evaluator

  /** What is printed after a missed guess: the temperature hint (none on
      the first guess), the direction hint and "Attempts left". */
  datatype Feedback = Feedback(temperature: Option<Temperature>, direction: Direction, attemptsLeft: nat)

  /** How a round ends. `Win` reports the attempts used, `Lose` reveals the
      answer. `AwaitingGuess` is the model's name for a guess stream that ran
      out while the round was still open (the program would be blocked on
      the prompt); it carries the attempts used so far. */
  datatype Outcome = Win(attempts: nat) | Lose(answer: int) | AwaitingGuess(attempts: nat)

  datatype Round = Round(feedback: seq<Feedback>, outcome: Outcome)

  /** The `while attempts < max_attempts` loop from the state "`attempts`
      guesses made, previous distance `previousDiff`". The guess for the
      next attempt is `guesses[attempts]`. */
  function Continue(answer: int, maxAttempts: nat, guesses: seq<int>, attempts: nat, previousDiff: Option<nat>): Round
    requires attempts <= maxAttempts
    decreases maxAttempts - attempts
  {
    if attempts == maxAttempts then Round([], Lose(answer))
    else if attempts >= |guesses| then Round([], AwaitingGuess(attempts))
    else
      match Evaluate(answer, guesses[attempts], previousDiff)
      case Correct => Round([], Win(attempts + 1))
      case Miss(temperature, direction, diff) =>
        var rest := Continue(answer, maxAttempts, guesses, attempts + 1, Some(diff));
        Round([Feedback(temperature, direction, maxAttempts - (attempts + 1))] + rest.feedback, rest.outcome)
  }

  /** A whole round: no guess made yet and no previous distance. */
  function Play(answer: int, maxAttempts: nat, guesses: seq<int>): Round {
    Continue(answer, maxAttempts, guesses, 0, None)
  }

  // ---------------------------------------------------------------------
  // The round described guess by guess, independently of the loop.
  // ---------------------------------------------------------------------

  /** None of the first `n` guesses is the answer. */
  predicate NoMatchBefore(answer: int, guesses: seq<int>, n: nat)
    requires n <= |guesses|
  {
    forall i :: 0 <= i < n ==> guesses[i] != answer
  }

  /** The feedback printed for the missed guess number `i` (0-based): the
      direction points towards the answer, there is a temperature hint
      exactly from the second guess on, it is Warmer exactly when this
      guess is strictly closer than the immediately preceding one, and
      `maxAttempts - (i + 1)` attempts are left. */
  predicate ExpectedFeedback(answer: int, maxAttempts: nat, guesses: seq<int>, i: nat, f: Feedback)
    requires i < |guesses|
  {
    && (f.direction == TryBigger <==> guesses[i] < answer)
    && (f.temperature.None? <==> i == 0)
    && (i > 0 ==>
          (f.temperature == Some(Warmer) <==> Abs(answer - guesses[i]) < Abs(answer - guesses[i - 1])))
    && f.attemptsLeft == maxAttempts - (i + 1)
  }

  /** `r` is what a round with these inputs prints and how it ends: one
      feedback per missed guess, none for the winning guess; a win on the
      first matching guess within the budget, reporting its 1-based
      position; a loss, revealing the answer, after exactly `maxAttempts`
      misses; or, if the stream ends first, waiting for another guess. */
  predicate ValidRound(answer: int, maxAttempts: nat, guesses: seq<int>, r: Round) {
    var n := |r.feedback|;
    && n <= |guesses|
    && n <= maxAttempts
    && NoMatchBefore(answer, guesses, n)
    && (forall i :: 0 <= i < n ==> ExpectedFeedback(answer, maxAttempts, guesses, i, r.feedback[i]))
    && match r.outcome
       case Win(k) => k == n + 1 && n < maxAttempts && n < |guesses| && guesses[n] == answer
       case Lose(a) => a == answer && n == maxAttempts
       case AwaitingGuess(k) => k == n && n == |guesses| && n < maxAttempts
  }

  /** The distance the loop carries in `previous_diff` after `k` guesses:
      that of the immediately preceding guess, not a running minimum. */
  function PreviousDiff(answer: int, guesses: seq<int>, k: nat): Option<nat>
    requires k <= |guesses|
  {
    if k == 0 then None else Some(Abs(answer - guesses[k - 1]))
  }

  /** The loop from any reachable state produces, for the guesses from
      position `k` on, the feedback and ending that `ValidRound` demands. */
  lemma {:induction false} ContinueIsValid(answer: int, maxAttempts: nat, guesses: seq<int>, k: nat)
    requires k <= maxAttempts && k <= |guesses|
    ensures var r := Continue(answer, maxAttempts, guesses, k, PreviousDiff(answer, guesses, k));
            var n := k + |r.feedback|;
            && n <= |guesses|
            && n <= maxAttempts
            && (forall i :: k <= i < n ==> guesses[i] != answer)
            && (forall j :: 0 <= j < |r.feedback| ==> ExpectedFeedback(answer, maxAttempts, guesses, k + j, r.feedback[j]))
            && match r.outcome
               case Win(w) => w == n + 1 && n < maxAttempts && n < |guesses| && guesses[n] == answer
               case Lose(a) => a == answer && n == maxAttempts
               case AwaitingGuess(w) => w == n && n == |guesses| && n < maxAttempts
    decreases maxAttempts - k
  {
    var prev := PreviousDiff(answer, guesses, k);
    if k < maxAttempts && k < |guesses| {
      var v := Evaluate(answer, guesses[k], prev);
      if v.Miss? {
        ContinueIsValid(answer, maxAttempts, guesses, k + 1);
        assert Some(v.diff) == PreviousDiff(answer, guesses, k + 1);
        var rest := Continue(answer, maxAttempts, guesses, k + 1, Some(v.diff));
        var r := Continue(answer, maxAttempts, guesses, k, prev);
        assert r.feedback == [Feedback(v.temperature, v.direction, maxAttempts - (k + 1))] + rest.feedback;
        forall j | 0 <= j < |r.feedback|
          ensures ExpectedFeedback(answer, maxAttempts, guesses, k + j, r.feedback[j])
        {
          if j > 0 {
            assert r.feedback[j] == rest.feedback[j - 1];
            assert k + j == (k + 1) + (j - 1);
          }
        }
      }
    }
  }

  /** The recursive round meets its guess-by-guess description. */
  lemma PlayIsValid(answer: int, maxAttempts: nat, guesses: seq<int>)
    ensures ValidRound(answer, maxAttempts, guesses, Play(answer, maxAttempts, guesses))
  {
    ContinueIsValid(answer, maxAttempts, guesses, 0);
    var r := Play(answer, maxAttempts, guesses);
    forall i | 0 <= i < |r.feedback|
      ensures ExpectedFeedback(answer, maxAttempts, guesses, i, r.feedback[i])
    {
      assert 0 + i == i;
    }
  }

  /** The description pins the round down completely: two rounds that both
      meet it are equal. */
  lemma ValidRoundUnique(answer: int, maxAttempts: nat, guesses: seq<int>, r1: Round, r2: Round)
    requires ValidRound(answer, maxAttempts, guesses, r1)
    requires ValidRound(answer, maxAttempts, guesses, r2)
    ensures r1 == r2
  {
    var n1, n2 := |r1.feedback|, |r2.feedback|;
    assert n1 == n2;
    forall i | 0 <= i < n1 ensures r1.feedback[i] == r2.feedback[i] {
      var f1, f2 := r1.feedback[i], r2.feedback[i];
      assert ExpectedFeedback(answer, maxAttempts, guesses, i, f1);
      assert ExpectedFeedback(answer, maxAttempts, guesses, i, f2);
      assert f1.direction == f2.direction;
      if i > 0 {
        assert f1.temperature.Some? && f2.temperature.Some?;
        if f1.temperature.value == Warmer {
          assert f2.temperature.value == Warmer;
        } else {
          assert f1.temperature.value == Colder && f2.temperature.value == Colder;
        }
      }
      assert f1.temperature == f2.temperature;
    }
    assert r1.feedback == r2.feedback;
  }

  /** Hence a round is valid exactly when it is the one `Play` computes. */
  lemma ValidRoundIffPlay(answer: int, maxAttempts: nat, guesses: seq<int>, r: Round)
    ensures ValidRound(answer, maxAttempts, guesses, r) <==> r == Play(answer, maxAttempts, guesses)
  {
    PlayIsValid(answer, maxAttempts, guesses);
    if ValidRound(answer, maxAttempts, guesses, r) {
      ValidRoundUnique(answer, maxAttempts, guesses, r, Play(answer, maxAttempts, guesses));
    }
  }

  // ---------------------------------------------------------------------
  // Consequences for the player.
  // ---------------------------------------------------------------------

  /** Win condition: the round is won exactly when one of the first
      `maxAttempts` guesses is the answer, and the reported attempt count
      is the 1-based position of the first such guess. */
  lemma WinIff(answer: int, maxAttempts: nat, guesses: seq<int>)
    ensures Play(answer, maxAttempts, guesses).outcome.Win? <==>
              exists i :: 0 <= i < |guesses| && i < maxAttempts && guesses[i] == answer
    ensures Play(answer, maxAttempts, guesses).outcome.Win? ==>
              var k := Play(answer, maxAttempts, guesses).outcome.attempts;
              && 1 <= k <= maxAttempts && k <= |guesses|
              && guesses[k - 1] == answer
              && forall j :: 0 <= j < k - 1 ==> guesses[j] != answer
  {
    PlayIsValid(answer, maxAttempts, guesses);
  }

  /** Lose condition: the round is lost exactly when `maxAttempts` guesses
      were made and none of them is the answer; a loss reveals the answer. */
  lemma LoseIff(answer: int, maxAttempts: nat, guesses: seq<int>)
    ensures Play(answer, maxAttempts, guesses).outcome.Lose? <==>
              maxAttempts <= |guesses| && NoMatchBefore(answer, guesses, maxAttempts)
    ensures Play(answer, maxAttempts, guesses).outcome.Lose? ==>
              Play(answer, maxAttempts, guesses).outcome.answer == answer
  {
    PlayIsValid(answer, maxAttempts, guesses);
  }

  /** Attempt bound: the feedback of a round covers at most `maxAttempts`
      guesses, the "attempts left" it prints counts down from
      `maxAttempts - 1`, and a winning round used at most `maxAttempts`. */
  lemma AttemptBound(answer: int, maxAttempts: nat, guesses: seq<int>)
    ensures var r := Play(answer, maxAttempts, guesses);
            && |r.feedback| <= maxAttempts
            && (forall i :: 0 <= i < |r.feedback| ==> r.feedback[i].attemptsLeft == maxAttempts - (i + 1))
            && (r.outcome.Win? ==> r.outcome.attempts <= maxAttempts)
            && (r.outcome.AwaitingGuess? ==> r.outcome.attempts < maxAttempts)
  {
    PlayIsValid(answer, maxAttempts, guesses);
  }

  /** At most `maxAttempts` guesses are consumed: the guesses past the budget
      never influence the round. */
  lemma {:induction false} ContinueReadsOnlyBudget(answer: int, maxAttempts: nat, g1: seq<int>, g2: seq<int>, k: nat, prev: Option<nat>)
    requires k <= maxAttempts
    requires |g1| >= maxAttempts && |g2| >= maxAttempts
    requires g1[..maxAttempts] == g2[..maxAttempts]
    ensures Continue(answer, maxAttempts, g1, k, prev) == Continue(answer, maxAttempts, g2, k, prev)
    decreases maxAttempts - k
  {
    if k < maxAttempts {
      assert g1[k] == g1[..maxAttempts][k] == g2[..maxAttempts][k] == g2[k];
      var v := Evaluate(answer, g1[k], prev);
      if v.Miss? {
        ContinueReadsOnlyBudget(answer, maxAttempts, g1, g2, k + 1, Some(v.diff));
      }
    }
  }

  /** Once a round has ended (won or lost), guesses typed after it change
      nothing: no further guesses are accepted. */
  lemma EndedRoundIgnoresLaterGuesses(answer: int, maxAttempts: nat, guesses: seq<int>, later: seq<int>)
    requires !Play(answer, maxAttempts, guesses).outcome.AwaitingGuess?
    ensures Play(answer, maxAttempts, guesses + later) == Play(answer, maxAttempts, guesses)
  {
    var r := Play(answer, maxAttempts, guesses);
    var g := guesses + later;
    PlayIsValid(answer, maxAttempts, guesses);
    assert forall i :: 0 <= i < |guesses| ==> g[i] == guesses[i];
    assert ValidRound(answer, maxAttempts, g, r) by {
      var n := |r.feedback|;
      forall i | 0 <= i < n
        ensures ExpectedFeedback(answer, maxAttempts, g, i, r.feedback[i])
      {
        assert ExpectedFeedback(answer, maxAttempts, guesses, i, r.feedback[i]);
        if i > 0 {
          assert g[i - 1] == guesses[i - 1];
        }
      }
    }
    ValidRoundIffPlay(answer, maxAttempts, g, r);
  }
}
