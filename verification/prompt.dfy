/** The "read, validate, re-prompt" loop shared by `choose_difficulty` and
    `get_valid_number` in number_guessing_game.py.

    Both functions spin in `while True`, reading one console line per turn
    and returning the first one that passes their check. Console input is
    modelled as the finite sequence of lines the player types; when every
    line is rejected the Python loop would block waiting for more input,
    which the model reports as `None`. */
module Prompt {
  import opened Wrappers

  /** The accepted value and the 0-based index of the input line it came
      from (so `index + 1` lines were consumed). */
  datatype Pick<+U> = Pick(value: U, index: nat)

  /** The first input that `accept` turns into a value, skipping every
      input it rejects. */
  function FirstAccepted<T, U>(inputs: seq<T>, accept: T -> Option<U>): (r: Option<Pick<U>>)
    ensures r.None? <==> forall i :: 0 <= i < |inputs| ==> accept(inputs[i]).None?
    ensures r.Some? ==>
              && r.value.index < |inputs|
              && accept(inputs[r.value.index]) == Some(r.value.value)
              && forall j :: 0 <= j < r.value.index ==> accept(inputs[j]).None?
  {
    if |inputs| == 0 then None
    else match accept(inputs[0])
      case Some(v) => Some(Pick(v, 0))
      case None =>
        match FirstAccepted(inputs[1..], accept)
        case None => None
        case Some(p) => Some(Pick(p.value, p.index + 1))
  }
}
