/** Looking up the minimum pressure level in a model's list of levels
    (`np.nonzero(pressure[0, 0, :] == min_plevel)[0][0]`). */
module Levels {
  import opened Wrappers
  import opened Errors

  /** The first index whose level equals `target`; LevelNotFound when none does. */
  function FindLevel(levels: seq<real>, target: real): (r: Result<nat, Error>)
    ensures r.Success? <==> target in levels
    ensures r.Failure? ==> r.error == LevelNotFound
    ensures r.Success? ==> r.value < |levels| && levels[r.value] == target
    ensures r.Success? ==> forall j :: 0 <= j < r.value ==> levels[j] != target
    decreases |levels|
  {
    if |levels| == 0 then Failure(LevelNotFound)
    else if levels[0] == target then Success(0)
    else
      match FindLevel(levels[1..], target)
      case Failure(e) => Failure(e)
      case Success(k) => Success(k + 1)
  }
}
