/** Small shared vocabulary: optional values, results with an error, and the
    "try each candidate encoding in order, the first one that works wins" rule
    that both the export reader and the chart sampler follow. */
module Common {

  datatype Option<T> = None | Some(value: T)

  datatype Result<T, E> = Ok(value: T) | Err(error: E)

  function Min(a: int, b: int): int { if a <= b then a else b }

  function Max(a: int, b: int): int { if a >= b then a else b }

  /** Position of the first of `candidates` that `accepted` holds. An encoding
      is "accepted" when the file parses with it; None means every attempt failed. */
  function FirstAccepted(candidates: seq<string>, accepted: set<string>): (r: Option<nat>)
    ensures r.Some? ==> r.value < |candidates| && candidates[r.value] in accepted
    ensures r.Some? ==> forall j :: 0 <= j < r.value ==> candidates[j] !in accepted
    ensures r.None? <==> forall j :: 0 <= j < |candidates| ==> candidates[j] !in accepted
  {
    if |candidates| == 0 then None
    else if candidates[0] in accepted then Some(0)
    else match FirstAccepted(candidates[1..], accepted)
      case None => None
      case Some(i) => Some(i + 1)
  }
}
