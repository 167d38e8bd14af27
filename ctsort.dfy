/**
 * Counting sort over an `int` array (ctsort.c): count the occurrences of
 * every value in [0, k), turn the counts into running totals, then place
 * each element, from the last to the first, just below the running total of
 * its value, and copy the result back.
 *
 * The reference result is `Blocks(s, 0, k)`: every value of [0, k) in
 * ascending order, each repeated as often as it occurs in `s`.
 */
module CountingSort {

  import opened Comparator

  /** Number of occurrences of `v` in `s`. */
  ghost function Occ(s: seq<int>, v: int): nat
  {
    multiset(s)[v]
  }

  /** Number of elements of `s` below `v`. */
  ghost function Below(s: seq<int>, v: int): (n: nat)
    ensures n <= |s|
  {
    if s == [] then 0 else (if s[0] < v then 1 else 0) + Below(s[1..], v)
  }

  /** `n` copies of `v`. */
  ghost function Repeat(v: int, n: nat): (r: seq<int>)
    ensures |r| == n && forall i :: 0 <= i < n ==> r[i] == v
  {
    if n == 0 then [] else [v] + Repeat(v, n - 1)
  }

  /** The values `v`, `v + 1`, ..., `k - 1`, each repeated as often as it occurs in `s`. */
  ghost function Blocks(s: seq<int>, v: int, k: int): seq<int>
    decreases k - v
  {
    if v >= k then [] else Repeat(v, Occ(s, v)) + Blocks(s, v + 1, k)
  }

  /** Every value lies in [0, k). */
  ghost predicate InRange(s: seq<int>, k: int)
  {
    forall i :: 0 <= i < |s| ==> 0 <= s[i] < k
  }

  // ---------------------------------------------------------------------------
  // Running totals

  /** The running total grows by the occurrences of each value in turn. */
  lemma {:induction false} BelowStep(s: seq<int>, v: int)
    ensures Below(s, v + 1) == Below(s, v) + Occ(s, v)
    decreases |s|
  {
    if s != [] {
      BelowStep(s[1..], v);
      assert s == [s[0]] + s[1..];
    }
  }

  /** Running totals never decrease. */
  lemma {:induction false} BelowMonotone(s: seq<int>, v: int, w: int)
    requires v <= w
    ensures Below(s, v) <= Below(s, w)
    decreases |s|
  {
    if s != [] {
      BelowMonotone(s[1..], v, w);
    }
  }

  /** No element of a sequence in range lies below 0, and every one lies below `k`. */
  lemma {:induction false} BelowEnds(s: seq<int>, k: int)
    requires InRange(s, k)
    ensures Below(s, 0) == 0 && Below(s, k) == |s|
    decreases |s|
  {
    if s != [] {
      BelowEnds(s[1..], k);
    }
  }

  // ---------------------------------------------------------------------------
  // The reference result

  /** The blocks from `v` to `k` fill the positions between the running totals of `v` and `k`. */
  lemma {:induction false} BlocksLength(s: seq<int>, v: int, k: int)
    requires v <= k
    ensures |Blocks(s, v, k)| == Below(s, k) - Below(s, v)
    decreases k - v
  {
    if v < k {
      BlocksLength(s, v + 1, k);
      BelowStep(s, v);
      BelowMonotone(s, v + 1, k);
    }
  }

  /** The position `i` of the result holds `w` when `i` lies between the running totals of `w` and `w + 1`. */
  lemma {:induction false} BlocksAt(s: seq<int>, v: int, k: int, w: int, i: int)
    requires v <= w < k
    requires Below(s, w) <= i < Below(s, w + 1)
    ensures Below(s, v) <= i < Below(s, v) + |Blocks(s, v, k)|
    ensures Blocks(s, v, k)[i - Below(s, v)] == w
    decreases k - v
  {
    BlocksLength(s, v, k);
    BelowMonotone(s, v, w);
    BelowMonotone(s, w + 1, k);
    BelowStep(s, v);
    var head := Repeat(v, Occ(s, v));
    assert Blocks(s, v, k) == head + Blocks(s, v + 1, k);
    if v < w {
      BlocksAt(s, v + 1, k, w, i);
      BelowMonotone(s, v + 1, w);
      assert Blocks(s, v, k)[i - Below(s, v)] == Blocks(s, v + 1, k)[i - Below(s, v + 1)];
    }
  }

  /** Every value of the blocks from `v` on is at least `v` and below `k`. */
  lemma {:induction false} BlocksBounds(s: seq<int>, v: int, k: int)
    ensures forall i :: 0 <= i < |Blocks(s, v, k)| ==> v <= Blocks(s, v, k)[i] < k
    decreases k - v
  {
    if v < k {
      BlocksBounds(s, v + 1, k);
      var head, tail := Repeat(v, Occ(s, v)), Blocks(s, v + 1, k);
      forall i | 0 <= i < |head + tail|
        ensures v <= (head + tail)[i] < k
      {
        if i >= |head| {
          assert (head + tail)[i] == tail[i - |head|];
        }
      }
    }
  }

  /** The reference result is sorted. */
  lemma {:induction false} BlocksSorted(s: seq<int>, v: int, k: int)
    ensures Sorted(Blocks(s, v, k))
    decreases k - v
  {
    if v < k {
      BlocksSorted(s, v + 1, k);
      BlocksBounds(s, v + 1, k);
      var head, tail := Repeat(v, Occ(s, v)), Blocks(s, v + 1, k);
      var b := head + tail;
      forall i, j | 0 <= i < j < |b|
        ensures b[i] <= b[j]
      {
        if j >= |head| {
          assert b[j] == tail[j - |head|];
          if i >= |head| {
            assert b[i] == tail[i - |head|];
          }
        }
      }
    }
  }

  /** The blocks from `v` hold each value of [v, k) as often as `s` does, and nothing else. */
  lemma {:induction false} BlocksCount(s: seq<int>, v: int, k: int, x: int)
    ensures multiset(Blocks(s, v, k))[x] == if v <= x < k then Occ(s, x) else 0
    decreases k - v
  {
    if v < k {
      BlocksCount(s, v + 1, k, x);
      var head, tail := Repeat(v, Occ(s, v)), Blocks(s, v + 1, k);
      RepeatCount(v, Occ(s, v), x);
      assert Blocks(s, v, k) == head + tail;
      assert multiset(head + tail) == multiset(head) + multiset(tail);
    }
  }

  lemma {:induction false} RepeatCount(v: int, n: nat, x: int)
    ensures multiset(Repeat(v, n))[x] == if x == v then n else 0
    decreases n
  {
    if n > 0 {
      RepeatCount(v, n - 1, x);
    }
  }

  /** For a sequence in range, the reference result is a permutation of it. */
  lemma BlocksPermutation(s: seq<int>, k: int)
    requires InRange(s, k)
    ensures multiset(Blocks(s, 0, k)) == multiset(s)
  {
    forall x
      ensures multiset(Blocks(s, 0, k))[x] == multiset(s)[x]
    {
      BlocksCount(s, 0, k, x);
    }
  }

  /** The value whose block holds position `i`. */
  lemma BlockOf(s: seq<int>, k: int, i: int) returns (w: int)
    requires InRange(s, k) && 0 <= i < |s|
    ensures 0 <= w < k && Below(s, w) <= i < Below(s, w + 1)
  {
    BelowEnds(s, k);
    w := 0;
    while Below(s, w + 1) <= i
      invariant 0 <= w < k && Below(s, w) <= i
      decreases k - w
    {
      if w + 1 == k {
        assert false;
      }
      w := w + 1;
    }
  }

  /** The positions [lo, hi) of `t` hold `v`. */
  ghost predicate Filled(t: seq<int>, v: int, lo: int, hi: int)
  {
    forall p :: lo <= p < hi && 0 <= p < |t| ==> t[p] == v
  }

  /** The blocks of two different values do not overlap. */
  lemma Apart(s: seq<int>, x: int, v: int)
    requires x != v
    ensures Below(s, v + 1) <= Below(s, x) || Below(s, x + 1) <= Below(s, v)
  {
    if v < x {
      BelowMonotone(s, v + 1, x);
    } else {
      BelowMonotone(s, x + 1, v);
    }
  }

  /** The counts after the first loop has seen `s`: the occurrences of each value of [0, k). */
  ghost function Tally(s: seq<int>, k: nat): (c: seq<int>)
    ensures |c| == k
  {
    seq(k, v => Occ(s, v))
  }

  /** The counts after the running totals have reached value `i`. */
  ghost function Totals(s: seq<int>, k: nat, i: int): (c: seq<int>)
    ensures |c| == k
  {
    seq(k, v => if v < i then Below(s, v + 1) else Occ(s, v))
  }

  /**
   * The counts while the elements of `s[..j + 1]` are still to be placed: the
   * next copy of `v` goes just below position `Below(s, v) + Occ(s[..j + 1], v)`.
   */
  ghost function Cursor(s: seq<int>, j: int, k: nat): (c: seq<int>)
    requires -1 <= j < |s|
    ensures |c| == k
  {
    seq(k, v => Below(s, v) + Occ(s[..j + 1], v))
  }

  /** Every block of `t`, from its cursor `c[v]` up to its end, already holds its value. */
  ghost predicate Placed(t: seq<int>, s: seq<int>, c: seq<int>)
  {
    forall v :: 0 <= v < |c| ==> Filled(t, v, c[v], Below(s, v + 1))
  }

  /** Counting one more element bumps the count of its value. */
  lemma TallyStep(s: seq<int>, x: int, k: nat)
    requires 0 <= x < k
    ensures Tally(s + [x], k) == Tally(s, k)[x := Tally(s, k)[x] + 1]
  {
    assert multiset(s + [x]) == multiset(s) + multiset{x};
  }

  /** The counts of the whole sequence are the totals up to value 0. */
  lemma TallyTotals(s: seq<int>, k: nat)
    requires InRange(s, k)
    ensures Totals(s, k, 1) == Tally(s, k)
  {
    BelowEnds(s, k);
    BelowStep(s, 0);
  }

  /** Adding the total of `i - 1` to the count of `i` gives the total of `i`. */
  lemma TotalsStep(s: seq<int>, k: nat, i: int)
    requires 1 <= i < k
    ensures Totals(s, k, i + 1) == Totals(s, k, i)[i := Totals(s, k, i)[i - 1] + Totals(s, k, i)[i]]
  {
    BelowStep(s, i);
  }

  /** Once every total is computed, every element is still to be placed, and no block is filled. */
  lemma TotalsCursor(s: seq<int>, k: nat, i: int, t: seq<int>)
    requires k <= i
    ensures Totals(s, k, i) == Cursor(s, |s| - 1, k)
    ensures Placed(t, s, Cursor(s, |s| - 1, k))
  {
    assert s[..|s|] == s;
    forall v | 0 <= v < k
      ensures Totals(s, k, i)[v] == Cursor(s, |s| - 1, k)[v]
    {
      BelowStep(s, v);
    }
  }

  /** The cursor of `s[j]` lies inside its block while `s[j]` is still to be placed. */
  lemma CursorInside(s: seq<int>, j: int, k: nat)
    requires InRange(s, k) && 0 <= j < |s|
    ensures Below(s, s[j]) < Cursor(s, j, k)[s[j]] <= Below(s, s[j] + 1) <= |s|
  {
    var x, todo := s[j], s[..j + 1];
    assert Cursor(s, j, k)[x] == Below(s, x) + multiset(todo)[x];
    assert todo[j] == x;
    assert x in multiset(todo);
    assert multiset(todo)[x] <= multiset(s)[x] by {
      assert s == todo + s[j + 1..];
      assert multiset(s) == multiset(todo) + multiset(s[j + 1..]);
    }
    BelowStep(s, x);
  }

  /** Moving past `s[j]` moves its cursor down by one and leaves the others alone. */
  lemma CursorStep(s: seq<int>, j: int, k: nat)
    requires 0 <= j < |s| && 0 <= s[j] < k
    ensures Cursor(s, j - 1, k) == Cursor(s, j, k)[s[j] := Cursor(s, j, k)[s[j]] - 1]
  {
    var x, done, todo := s[j], s[..j], s[..j + 1];
    assert todo == done + [x];
    assert multiset(todo) == multiset(done) + multiset{x};
    var c, c' := Cursor(s, j, k), Cursor(s, j - 1, k);
    forall v | 0 <= v < k
      ensures c'[v] == c[x := c[x] - 1][v]
    {
      assert c'[v] == Below(s, v) + multiset(done)[v];
      assert c[v] == Below(s, v) + multiset(todo)[v];
    }
  }

  /** Writing `x` just below its cursor, inside its block, keeps every block filled from its cursor on. */
  lemma PlacedStep(s: seq<int>, t: seq<int>, c: seq<int>, x: int)
    requires 0 <= x < |c| && Below(s, x) < c[x] <= Below(s, x + 1) <= |t|
    requires forall v :: 0 <= v < |c| ==> Below(s, v) <= c[v]
    requires Placed(t, s, c)
    ensures Placed(t[c[x] - 1 := x], s, c[x := c[x] - 1])
  {
    var t', c' := t[c[x] - 1 := x], c[x := c[x] - 1];
    forall v | 0 <= v < |c|
      ensures Filled(t', v, c'[v], Below(s, v + 1))
    {
      if v != x {
        Apart(s, x, v);
        assert Filled(t, v, c[v], Below(s, v + 1));
      }
    }
  }

  /** Once every element is placed, the output is the reference result. */
  lemma FilledIsBlocks(s: seq<int>, k: nat, t: seq<int>)
    requires InRange(s, k) && |t| == |s|
    requires Placed(t, s, Cursor(s, -1, k))
    ensures t == Blocks(s, 0, k)
  {
    BelowEnds(s, k);
    BlocksLength(s, 0, k);
    forall p | 0 <= p < |t|
      ensures t[p] == Blocks(s, 0, k)[p]
    {
      var w := BlockOf(s, k, p);
      BlocksAt(s, 0, k, w, p);
      assert Filled(t, w, Cursor(s, -1, k)[w], Below(s, w + 1));
    }
  }

  // ---------------------------------------------------------------------------
  // The sort

  /** The first loop of the sort: counts the occurrences of each value of `data[..size]`. */
  method CountValues(data: array<int>, size: int, counts: array<int>)
    requires 0 <= size <= data.Length && InRange(data[..size], counts.Length)
    requires forall v :: 0 <= v < counts.Length ==> counts[v] == 0
    requires data != counts
    modifies counts
    ensures counts[..] == Tally(data[..size], counts.Length)
  {
    ghost var d := data[..size];
    assert counts[..] == Tally(d[..0], counts.Length);
    var j := 0;
    while j < size
      invariant 0 <= j <= size
      invariant counts[..] == Tally(d[..j], counts.Length)
    {
      assert d[..j + 1] == d[..j] + [d[j]];
      TallyStep(d[..j], d[j], counts.Length);
      counts[data[j]] := counts[data[j]] + 1;
      j := j + 1;
    }
    assert d[..size] == d;
  }

  /** The second loop of the sort: turns the counts into running totals, the number of elements up to each value. */
  method RunningTotals(counts: array<int>, ghost d: seq<int>)
    requires InRange(d, counts.Length) && counts[..] == Tally(d, counts.Length)
    modifies counts
    ensures forall v :: 0 <= v < counts.Length ==> counts[v] == Below(d, v + 1)
    ensures counts[..] == Cursor(d, |d| - 1, counts.Length)
  {
    var k := counts.Length;
    TallyTotals(d, k);
    var i := 1;
    while i < k
      invariant 1 <= i && (0 < k ==> i <= k)
      invariant counts[..] == Totals(d, k, i)
    {
      TotalsStep(d, k, i);
      counts[i] := counts[i] + counts[i - 1];
      i := i + 1;
    }
    TotalsCursor(d, k, i, []);
  }

  /**
   * The third loop of the sort: places each element of `data[..size]`, from
   * the last, just below the running total of its value.
   */
  method PlaceValues(data: array<int>, size: int, counts: array<int>, temp: array<int>)
    requires 0 <= size <= data.Length && temp.Length == size && InRange(data[..size], counts.Length)
    requires counts[..] == Cursor(data[..size], size - 1, counts.Length)
    requires data != counts && data != temp && counts != temp
    modifies counts, temp
    ensures temp[..] == Blocks(data[..size], 0, counts.Length)
  {
    ghost var d := data[..size];
    var k := counts.Length;
    TotalsCursor(d, k, k, temp[..]);
    var j := size - 1;
    while j >= 0
      invariant -1 <= j < size
      invariant counts[..] == Cursor(d, j, k)
      invariant Placed(temp[..], d, counts[..])
    {
      var x := data[j];
      CursorInside(d, j, k);
      CursorStep(d, j, k);
      PlacedStep(d, temp[..], counts[..], x);
      ghost var t, c := temp[..], counts[..];
      var p := counts[x] - 1;
      temp[p] := x;
      counts[x] := p;
      assert temp[..] == t[p := x] && counts[..] == c[x := p];
      j := j - 1;
    }
    FilledIsBlocks(d, k, temp[..]);
  }

  /** The final copy of the sort: the first `n` elements of `dst` become those of `src`. */
  method CopyBack(dst: array<int>, src: array<int>, n: int)
    requires 0 <= n <= dst.Length && n <= src.Length && dst != src
    modifies dst
    ensures dst[..n] == src[..n] && dst[n..] == old(dst[n..])
  {
    forall p | 0 <= p < n {
      dst[p] := src[p];
    }
    assert forall q :: n <= q < dst.Length ==> dst[q] == old(dst[q]);
  }

  /**
   * Sorts `data[..size]`, whose values lie in [0, k). `allocOk` says whether
   * the two working buffers (the counts and the output) can be allocated;
   * when they cannot, the result is -1 and `data` is left alone.
   */
  method CtSort(data: array<int>, size: int, k: int, allocOk: bool) returns (r: int)
    requires 0 <= size <= data.Length && 0 <= k
    requires InRange(data[..size], k)
    modifies data
    ensures r == 0 || r == -1
    ensures r == -1 <==> !allocOk
    ensures r == -1 ==> data[..] == old(data[..])
    ensures r == 0 ==> data[..size] == Blocks(old(data[..size]), 0, k)
    ensures r == 0 ==> Sorted(data[..size]) && multiset(data[..size]) == multiset(old(data[..size]))
    ensures r == 0 ==> data[size..] == old(data[size..])
  {
    if !allocOk {
      return -1;
    }
    ghost var d := data[..size];
    var counts := new int[k](_ => 0);
    var temp := new int[size];
    CountValues(data, size, counts);
    RunningTotals(counts, d);
    PlaceValues(data, size, counts, temp);
    BlocksSorted(d, 0, k);
    BlocksPermutation(d, k);

    CopyBack(data, temp, size);
    return 0;
  }
}
