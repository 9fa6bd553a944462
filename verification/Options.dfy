/** Optional values and small arithmetic shared by the other modules. */
module Options {

  datatype Option<+T> = None | Some(value: T)

  const U64_MAX: nat := 0xFFFF_FFFF_FFFF_FFFF

  function Min(a: int, b: int): int {
    if a <= b then a else b
  }

  function Max(a: int, b: int): int {
    if a <= b then b else a
  }

  /** The heights `from, from + 1, ..., end - 1`. */
  function Range(from: nat, end: nat): (r: seq<nat>)
    ensures |r| == if from <= end then end - from else 0
    ensures forall i :: 0 <= i < |r| ==> r[i] == from + i
    decreases end - from
  {
    if from >= end then [] else [from] + Range(from + 1, end)
  }

  lemma RangeSplit(from: nat, mid: nat, end: nat)
    requires from <= mid <= end
    ensures Range(from, mid) + Range(mid, end) == Range(from, end)
  {
  }
}
