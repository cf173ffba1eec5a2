/** Difficulty selection: the menu shown by `choose_difficulty` and the
    branches that turn the typed choice into a `(start, end, max_attempts)`
    preset. */
module Difficulty {
  import opened Wrappers
  import Prompt

  /** A round's configuration: guesses and the secret lie in `[start, end]`
      and the player has `maxAttempts` guesses. */
  datatype Preset = Preset(start: int, end: int, maxAttempts: nat)

  /** The three menu entries. */
  datatype Level = Easy | Medium | Hard

  /** A preset a round can be played with: a non-empty range and at least
      one attempt. */
  predicate ValidPreset(p: Preset) {
    p.start <= p.end && p.maxAttempts > 0
  }

  /** The key the menu prints in front of each level. */
  function MenuKey(l: Level): string {
    match l
    case Easy => "1"
    case Medium => "2"
    case Hard => "3"
  }

  /** The range and attempt budget the menu advertises for each level. */
  function Advertised(l: Level): Preset {
    match l
    case Easy => Preset(1, 50, 10)
    case Medium => Preset(1, 100, 7)
    case Hard => Preset(1, 200, 5)
  }

  /** One pass of the selection loop: the exact strings "1", "2" and "3"
      select a preset; anything else (including surrounding blanks, since
      the choice is not stripped) is rejected and re-prompted. Every
      selected preset is the one the menu advertises under that key, and
      every selected preset is playable. */
  function ChooseDifficulty(choice: string): (r: Option<Preset>)
    ensures r.Some? <==> exists l: Level :: MenuKey(l) == choice
    ensures forall l: Level :: MenuKey(l) == choice ==> r == Some(Advertised(l))
    ensures r.Some? ==> ValidPreset(r.value)
  {
    if choice == "1" then assert MenuKey(Easy) == choice; Some(Preset(1, 50, 10))
    else if choice == "2" then assert MenuKey(Medium) == choice; Some(Preset(1, 100, 7))
    else if choice == "3" then assert MenuKey(Hard) == choice; Some(Preset(1, 200, 5))
    else None
  }

  /** The whole `while True` loop of `choose_difficulty` over the lines the
      player types: the first recognised choice wins. */
  function SelectDifficulty(choices: seq<string>): (r: Option<Prompt.Pick<Preset>>)
    ensures r.Some? <==> exists i, l: Level :: 0 <= i < |choices| && choices[i] == MenuKey(l)
    ensures r.Some? ==>
              && r.value.index < |choices|
              && ValidPreset(r.value.value)
              && (exists l: Level :: choices[r.value.index] == MenuKey(l) && r.value.value == Advertised(l))
              && forall j, l: Level :: 0 <= j < r.value.index ==> choices[j] != MenuKey(l)
  {
    var r := Prompt.FirstAccepted(choices, ChooseDifficulty);
    if r.None? then
      assert forall i, l: Level :: 0 <= i < |choices| ==> choices[i] != MenuKey(l) by {
        forall i, l: Level | 0 <= i < |choices| ensures choices[i] != MenuKey(l) {
          assert ChooseDifficulty(choices[i]).None?;
        }
      }
      r
    else
      assert forall j, l: Level :: 0 <= j < r.value.index ==> choices[j] != MenuKey(l) by {
        forall j, l: Level | 0 <= j < r.value.index ensures choices[j] != MenuKey(l) {
          assert ChooseDifficulty(choices[j]).None?;
        }
      }
      r
  }

  /** Choosing a level by its menu key yields exactly what the menu
      advertises, and the advertised presets are the three listed ones. */
  lemma MenuIsHonest(l: Level)
    ensures ChooseDifficulty(MenuKey(l)) == Some(Advertised(l))
    ensures ValidPreset(Advertised(l))
  {
  }
}
