/** Definitions shared by the restaurant and the supermarket tables. */
module Common {
  import Frame

  /** The 'Yes' / 'No' values of the "Frequent Visitor" column. */
  datatype Answer = Yes | No

  /** The "Visitor ID" column, `range(1, n + 1)`: the ids 1 to n in increasing
      order, hence pairwise distinct. */
  function VisitorIds(n: nat): (ids: seq<int>)
    ensures |ids| == n
    ensures forall i :: 0 <= i < n ==> ids[i] == i + 1
    ensures Frame.StrictlyIncreasing(ids) && Frame.NoDuplicates(ids)
  {
    Frame.Range(1, n + 1)
  }
}
