/** Searching a sequence in order, as a Python `for` loop with an early `return` does. */
module Lists {
  import opened Wrappers

  /** The position of the first element `ok` refuses, if any. */
  function FirstFailing<T>(xs: seq<T>, ok: T -> bool): (r: Option<nat>)
    ensures r.None? <==> forall i :: 0 <= i < |xs| ==> ok(xs[i])
    ensures r.Some? ==> r.value < |xs| && !ok(xs[r.value])
                        && forall i :: 0 <= i < r.value ==> ok(xs[i])
    decreases |xs|
  {
    if |xs| == 0 then None
    else if !ok(xs[0]) then Some(0)
    else match FirstFailing(xs[1..], ok)
      case None => None
      case Some(i) =>
        Some(i + 1)
  }
}
