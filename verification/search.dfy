/** Bounded linear scans: the first and the last index of a range that satisfies a test. */
module Search {

  datatype Option<+T> = None | Some(value: T)

  /** The least index in `[lo, hi)` satisfying `P`, scanning upwards. */
  function FindFirst(P: nat -> bool, lo: nat, hi: nat): (r: Option<nat>)
    ensures r.Some? ==> lo <= r.value < hi && P(r.value) && forall q: nat :: lo <= q < r.value ==> !P(q)
    ensures r.None? ==> forall q: nat :: lo <= q < hi ==> !P(q)
    decreases hi - lo
  {
    if lo >= hi then None else if P(lo) then Some(lo) else FindFirst(P, lo + 1, hi)
  }

  /** The greatest index in `[lo, hi)` satisfying `P`, scanning downwards. */
  function FindLast(P: nat -> bool, lo: nat, hi: nat): (r: Option<nat>)
    ensures r.Some? ==> lo <= r.value < hi && P(r.value) && forall q: nat :: r.value < q < hi ==> !P(q)
    ensures r.None? ==> forall q: nat :: lo <= q < hi ==> !P(q)
    decreases hi - lo
  {
    if lo >= hi then None else if P(hi - 1) then Some(hi - 1) else FindLast(P, lo, hi - 1)
  }
}
