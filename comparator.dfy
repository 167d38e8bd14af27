/**
 * The caller-supplied comparison function shared by the search tree and
 * binary search. The library takes it as a function pointer and asks that it
 * return 1 when key1 > key2, 0 when they are equal and -1 when key1 < key2;
 * here it is fixed to the usual order on integer keys.
 */
module Comparator {

  /** Three-valued comparison of two keys. */
  function Compare(key1: int, key2: int): (c: int)
    ensures c == -1 || c == 0 || c == 1
    ensures c == -1 <==> key1 < key2
    ensures c == 0 <==> key1 == key2
    ensures c == 1 <==> key1 > key2
  {
    if key1 < key2 then -1 else if key1 > key2 then 1 else 0
  }

  /** Ascending order under `Compare`, equal keys allowed. */
  ghost predicate Sorted(s: seq<int>)
  {
    forall i, j :: 0 <= i < j < |s| ==> Compare(s[i], s[j]) <= 0
  }
}
