/** The guess prompt of `get_valid_number`: a typed line is either not an
    integer (Python raises `ValueError` from `int(...)`) or an integer that
    is then checked against the inclusive range `[minVal, maxVal]`. */
module RangeCheck {
  import opened Wrappers
  import Prompt

  /** One typed line after `int(...)`: the parse either failed or gave `n`. */
  datatype Entry = NotANumber | Number(n: int)

  /** The chained comparison `min_val <= num <= max_val`. */
  predicate InRange(minVal: int, maxVal: int, num: int) {
    minVal <= num <= maxVal
  }

  /** One pass of the prompt loop: a number inside the range is returned,
      a number outside it ("Out of range!") and a non-number ("Invalid
      input!") are rejected. */
  function CheckEntry(minVal: int, maxVal: int, e: Entry): (r: Option<int>)
    ensures r.Some? <==> e.Number? && minVal <= e.n && e.n <= maxVal
    ensures r.Some? ==> r.value == e.n
  {
    match e
    case NotANumber => None
    case Number(num) => if InRange(minVal, maxVal, num) then Some(num) else None
  }

  /** The whole `get_valid_number` loop: the first line that is an
      in-range integer, every earlier line having been rejected. */
  function GetValidNumber(minVal: int, maxVal: int, entries: seq<Entry>): (r: Option<Prompt.Pick<int>>)
    ensures r.None? <==>
              forall i :: 0 <= i < |entries| ==> !(entries[i].Number? && InRange(minVal, maxVal, entries[i].n))
    ensures r.Some? ==>
              && r.value.index < |entries|
              && entries[r.value.index] == Number(r.value.value)
              && InRange(minVal, maxVal, r.value.value)
              && forall j :: 0 <= j < r.value.index ==> !(entries[j].Number? && InRange(minVal, maxVal, entries[j].n))
  {
    var r := Prompt.FirstAccepted(entries, e => CheckEntry(minVal, maxVal, e));
    if r.None? then
      assert forall i :: 0 <= i < |entries| ==> !(entries[i].Number? && InRange(minVal, maxVal, entries[i].n)) by {
        forall i | 0 <= i < |entries| ensures !(entries[i].Number? && InRange(minVal, maxVal, entries[i].n)) {
          assert CheckEntry(minVal, maxVal, entries[i]).None?;
        }
      }
      r
    else
      assert forall j :: 0 <= j < r.value.index ==> !(entries[j].Number? && InRange(minVal, maxVal, entries[j].n)) by {
        forall j | 0 <= j < r.value.index ensures !(entries[j].Number? && InRange(minVal, maxVal, entries[j].n)) {
          assert CheckEntry(minVal, maxVal, entries[j]).None?;
        }
      }
      r
  }

  /** The stream of guesses `play_game` receives when it calls
      `get_valid_number` over and over: the in-range integers typed, in
      order, with every rejected line dropped. */
  function Guesses(minVal: int, maxVal: int, entries: seq<Entry>): (gs: seq<int>)
    ensures |gs| <= |entries|
    ensures forall k :: 0 <= k < |gs| ==> InRange(minVal, maxVal, gs[k])
  {
    if |entries| == 0 then []
    else match CheckEntry(minVal, maxVal, entries[0])
      case Some(num) => [num] + Guesses(minVal, maxVal, entries[1..])
      case None => Guesses(minVal, maxVal, entries[1..])
  }

  /** The first guess of the stream is what one call of `get_valid_number`
      returns, and the rest of the stream is what the following calls see
      after the consumed lines. */
  lemma {:induction false} GuessesStartWithGetValidNumber(minVal: int, maxVal: int, entries: seq<Entry>)
    ensures GetValidNumber(minVal, maxVal, entries).None? <==> Guesses(minVal, maxVal, entries) == []
    ensures GetValidNumber(minVal, maxVal, entries).Some? ==>
              var p := GetValidNumber(minVal, maxVal, entries).value;
              Guesses(minVal, maxVal, entries)
                == [p.value] + Guesses(minVal, maxVal, entries[p.index + 1..])
    decreases |entries|
  {
    if |entries| > 0 {
      GuessesStartWithGetValidNumber(minVal, maxVal, entries[1..]);
      if CheckEntry(minVal, maxVal, entries[0]).None? {
        var r := GetValidNumber(minVal, maxVal, entries);
        var r' := GetValidNumber(minVal, maxVal, entries[1..]);
        assert r.None? <==> r'.None?;
        if r.Some? {
          assert r.value.index >= 1;
          assert r'.value == Prompt.Pick(r.value.value, r.value.index - 1) by {
            assert entries[1..][r.value.index - 1] == entries[r.value.index];
          }
          assert entries[1..][r'.value.index + 1..] == entries[r.value.index + 1..];
        }
      }
    }
  }
}
