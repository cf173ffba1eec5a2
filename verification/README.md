# Number-guessing game

A Dafny model of the number-guessing game `number_guessing_game.py`. Each
round the player picks a difficulty preset, which fixes a range and an
attempt budget. A secret answer is drawn from that range, and the player
guesses until a guess is exact or the budget is used up. After each missed
guess the game prints:

- a warmer/colder hint, which compares this guess's distance with the
  previous guess's distance only;
- a "try bigger"/"try smaller" hint;
- the attempts left.

Modules, one per part of the program:

- `Wrappers`: `Option`, standing in for Python's `None`-or-value.
- `Prompt`: the "read, check, re-prompt" loop that `choose_difficulty` and
  `get_valid_number` share. Console input is a finite sequence of typed
  lines.
- `Difficulty`: the menu, the mapping from a choice string to a
  `(start, end, maxAttempts)` preset, and the selection loop.
- `RangeCheck`: the integer-or-not entry and the inclusive range check of
  `get_valid_number`. It also gives the stream of accepted guesses that
  repeated calls return.
- `Evaluator`: one guess against the answer and the previous distance. The
  result is `Correct`, or a `Miss` carrying the temperature hint, the
  direction hint and the new distance.
- `Round`: the round loop as a recursive function (`Continue`/`Play`), and
  an independent guess-by-guess description of a round (`ValidRound`).
  Lemmas show the two agree, derive the win/lose conditions and show that
  guesses past the end are ignored.
- `Game`: `PlayGame`, an imperative mirror of the `while attempts <
  max_attempts` loop. It reads guesses through the range-checked prompt,
  and its loop invariants prove it computes the round `Play` describes.
- `Scenarios`: concrete rounds.

The secret answer is a parameter of `PlayGame`, with the precondition that
it lies in the preset's range. The model reports typed lines that run out
before a prompt is satisfied as `None` (prompts) or `AwaitingGuess`
(round). In the program, `input` would block while an interactive console
stays open. At end of input it raises `EOFError` instead. The
`except ValueError` handler does not catch that, so the program stops with
a traceback.

A miss that is not below the answer, such as 60 against a secret of 50,
gets "Try smaller!" (number_guessing_game.py:60-63).
`Scenarios.MediumWinOnFourthGuess` proves that the third feedback of that
round is `TrySmaller`.

`PlayGame` takes the preset as a parameter. It stands for the result of
`choose_difficulty` (`SelectDifficulty` here), whose ensures supply the
`ValidPreset` that `PlayGame` requires.

## Model

| member | source | states |
|---|---|---|
| Prompt.FirstAccepted | number_guessing_game.py:20-29 | the re-prompt loop returns the first line its check accepts, every earlier line was rejected, and it returns nothing exactly when every line is rejected |
| Difficulty.ChooseDifficulty | number_guessing_game.py:22-29 | a choice is accepted exactly when it is one of the menu keys "1", "2", "3"; it then yields the preset the menu advertises for that key, and every accepted preset has `start <= end` and at least one attempt |
| Difficulty.SelectDifficulty | number_guessing_game.py:14-29 | the selection loop stops at the first line that is a menu key and yields the preset the menu advertises for that key, which is playable; every earlier line is skipped because it is not a key; nothing is selected iff no line is a key |
| Difficulty.MenuIsHonest | number_guessing_game.py:15-27 | typing a level's menu key selects exactly the range and attempt count printed for it (1-50/10, 1-100/7, 1-200/5), and each of these presets is playable |
| RangeCheck.CheckEntry | number_guessing_game.py:5-12 | an entry is accepted iff it is an integer with `min_val <= num <= max_val`, and then its own value is returned; non-numbers and out-of-range numbers are rejected |
| RangeCheck.GetValidNumber | number_guessing_game.py:3-12 | the guess prompt returns the first in-range integer typed, having rejected every earlier line, and returns nothing exactly when no line is an in-range integer |
| RangeCheck.Guesses | number_guessing_game.py:41 | every guess the round receives lies inside `[start, end]`, and there are no more guesses than typed lines |
| RangeCheck.GuessesStartWithGetValidNumber | number_guessing_game.py:40-41 | the guess stream starts with what one call of the prompt returns, and continues with what the next calls read from the remaining lines |
| Evaluator.Evaluate | number_guessing_game.py:44-63 | exact match iff guess equals answer. On a miss: no temperature hint iff there is no previous distance; Warmer iff the new distance is strictly smaller (equal counts as Colder); "try bigger" iff the answer is above the guess and "try smaller" iff it is below; the carried distance is `abs(answer - guess)`, which is positive |
| Evaluator.WarmerOnOneSideMeansMovedTowards | number_guessing_game.py:52-56 | when two consecutive misses lie on the same side of the answer, Warmer means the new guess moved strictly towards the answer |
| Evaluator.RepeatedGuessIsColder | number_guessing_game.py:52-56 | repeating the previous missed guess is always Colder |
| Round.ContinueIsValid | number_guessing_game.py:40-67 | from any reachable loop state, the remaining iterations produce feedback and an ending that satisfy the guess-by-guess description |
| Round.PlayIsValid | number_guessing_game.py:31-67 | the recursive round meets `ValidRound`: one feedback per missed guess, no feedback for the winning guess, and the correct ending |
| Round.ValidRoundUnique | number_guessing_game.py:40-67 | the guess-by-guess description determines the feedback and the ending completely |
| Round.ValidRoundIffPlay | number_guessing_game.py:40-67 | a round satisfies the description exactly when it is the round the loop computes |
| Round.WinIff | number_guessing_game.py:46-49 | the round is won iff one of the first `max_attempts` guesses equals the answer; the reported attempt count is the 1-based position of the first such guess, at most `max_attempts` |
| Round.LoseIff | number_guessing_game.py:40-67 | the round is lost iff `max_attempts` guesses were made and none matched, so never after fewer misses; the loss reveals the answer |
| Round.AttemptBound | number_guessing_game.py:40-65 | at most `max_attempts` missed guesses get feedback; the printed attempts left is `max_attempts - attempts`, never negative; a win uses at most `max_attempts` attempts |
| Round.ContinueReadsOnlyBudget | number_guessing_game.py:40-41 | guesses beyond the first `max_attempts` never influence the round |
| Round.EndedRoundIgnoresLaterGuesses | number_guessing_game.py:46-67 | once a round is won or lost, guesses typed afterwards change nothing |
| Game.PlayGame | number_guessing_game.py:33-67 | the imperative loop, reading guesses through the range-checked prompt, yields exactly the described round over the accepted guesses; a loss reveals the answer, and feedback never exceeds the attempt budget |
| Scenarios.MediumWinOnFourthGuess | number_guessing_game.py:22-65 | Medium, secret 50, guesses 25, 75, 60, 50: the feedback is (none, bigger, 6 left), (Colder, smaller, 5), (Warmer, smaller, 4), then a win in 4 attempts |
| Scenarios.HardLosesAfterFiveMisses | number_guessing_game.py:26-67 | Hard is range 1-200 with 5 attempts; five misses lose the round and reveal the answer |
| Scenarios.NotARunningMinimum | number_guessing_game.py:52-58 | the hint compares with the immediately previous guess: distances 10, 40, 30 make the third guess Warmer |
| Scenarios.UnstrippedChoiceRejected | number_guessing_game.py:21-29 | the menu choice is not stripped: "1 " and "" are rejected |

## Left out

- `random.randint` (line 33): the answer is a parameter of `PlayGame`, which requires it to lie in `[start, end]`.
- Console I/O: `input`, `int(...)` parsing and the `ValueError` handler (lines 6, 11-12, 21) are modelled as a sequence of already-parsed entries (`NotANumber | Number(n)`) or choice strings.
- All printed text and emoji: feedback and outcomes are datatype constructors.
- Running out of input: when the typed lines run out, the model returns `None` or `AwaitingGuess`. It models neither blocking on an open console nor the uncaught `EOFError` at end of input.
- The replay loop at module level (lines 70-77): it is an unbounded interactive loop, and no state is carried between rounds.
- `bmi_calculator.py` and `weather_app.py`: unrelated programs (floating point, an HTTP client) that are not part of this model.
