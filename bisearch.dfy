/**
 * Binary search over a sorted `int` array (bisearch.c): halve the window
 * [left, right] around the middle element until the target is met or the
 * window is empty.
 */
module BinarySearch {

  import opened Comparator

  /**
   * Looks for `target` among `sorted[..size]`: the index of an element equal
   * to it, or -1. For a sorted array, -1 means the target is absent.
   */
  method BiSearch(sorted: array<int>, target: int, size: int) returns (r: int)
    requires size <= sorted.Length
    ensures r == -1 || 0 <= r < size
    ensures 0 <= r ==> sorted[r] == target
    ensures Sorted(sorted[..if size < 0 then 0 else size]) && r == -1 ==>
              forall i :: 0 <= i < size ==> sorted[i] != target
  {
    var left, right := 0, size - 1;
    while left <= right
      invariant 0 <= left && right < size
      invariant Sorted(sorted[..if size < 0 then 0 else size]) ==>
                  forall i :: 0 <= i < size && sorted[i] == target ==> left <= i <= right
      decreases right - left
    {
      var middle := (left + right) / 2;
      var c := Compare(sorted[middle], target);
      if c == -1 {
        left := middle + 1;
      } else if c == 1 {
        right := middle - 1;
      } else {
        return middle;
      }
    }
    return -1;
  }
}
