/**
 * The in-place quicksort family of quicksort.c: the swap utility, the
 * insertion-sort callback, the Lomuto and Hoare partitions, the "first value"
 * and "median of 3" pivot selectors, and the recursive driver with its
 * threshold/callback configuration.
 *
 * C address arithmetic (`arr + p + 1`) is modelled by a segment
 * `[lo, lo + len)` of one Dafny array; every C index `k` of a callee is
 * `a[lo + k]` here.
 */
module QuickSort {

  /** Ascending order. */
  predicate Sorted(s: seq<int>) {
    forall i, j :: 0 <= i < j < |s| ==> s[i] <= s[j]
  }

  /**
   * `t` is `s` with the cells of `[lo, hi)` rearranged and every other cell
   * left alone.
   */
  ghost predicate Permuted(s: seq<int>, t: seq<int>, lo: nat, hi: nat) {
    && lo <= hi <= |s| == |t|
    && (forall k {:trigger t[k]} :: 0 <= k < |s| && !(lo <= k < hi) ==> s[k] == t[k])
    && multiset(s) == multiset(t)
  }

  /** `s` with cells `i` and `j` exchanged. */
  function Swapped(s: seq<int>, i: nat, j: nat): (t: seq<int>)
    requires i < |s| && j < |s|
    ensures |t| == |s| && t[i] == s[j] && t[j] == s[i]
  {
    s[i := s[j]][j := s[i]]
  }

  /** swap changes exactly the two addressed cells, and keeps the values. */
  lemma SwappedCells(s: seq<int>, i: nat, j: nat)
    requires i < |s| && j < |s|
    ensures forall k :: 0 <= k < |s| ==>
      Swapped(s, i, j)[k] == (if k == i then s[j] else if k == j then s[i] else s[k])
    ensures multiset(Swapped(s, i, j)) == multiset(s)
  {
  }

  lemma PermutedTrans(s: seq<int>, t: seq<int>, u: seq<int>, lo: nat, hi: nat)
    requires Permuted(s, t, lo, hi) && Permuted(t, u, lo, hi)
    ensures Permuted(s, u, lo, hi)
  {
  }

  /** The values of a sequence are those of its three parts around a segment. */
  lemma MultisetSplit(s: seq<int>, lo: nat, hi: nat)
    requires lo <= hi <= |s|
    ensures multiset(s) == multiset(s[..lo]) + multiset(s[lo..hi]) + multiset(s[hi..])
  {
    assert s == s[..lo] + s[lo..hi] + s[hi..];
  }

  /** A rearrangement of a segment leaves what is before and after it alone. */
  lemma SameOutside(s: seq<int>, t: seq<int>, lo: nat, hi: nat)
    requires Permuted(s, t, lo, hi)
    ensures s[..lo] == t[..lo] && s[hi..] == t[hi..]
  {
    assert forall k :: 0 <= k < lo ==> s[..lo][k] == s[k];
  }

  /** A rearrangement of a segment keeps the values of the segment. */
  lemma PermutedSegment(s: seq<int>, t: seq<int>, lo: nat, hi: nat)
    requires Permuted(s, t, lo, hi)
    ensures multiset(s[lo..hi]) == multiset(t[lo..hi])
  {
    SameOutside(s, t, lo, hi);
    MultisetSplit(s, lo, hi);
    MultisetSplit(t, lo, hi);
    var rest := multiset(s[..lo]) + multiset(s[hi..]);
    assert multiset(s[lo..hi]) == multiset(s) - rest;
  }

  /** Rearranging a sub-segment rearranges every segment around it. */
  lemma PermutedWiden(s: seq<int>, t: seq<int>, lo: nat, lo': nat, hi': nat, hi: nat)
    requires Permuted(s, t, lo', hi') && lo <= lo' && hi' <= hi <= |s|
    ensures Permuted(s, t, lo, hi)
  {
    assert s[lo..hi] == s[lo..lo'] + s[lo'..hi'] + s[hi'..hi];
    assert t[lo..hi] == t[lo..lo'] + t[lo'..hi'] + t[hi'..hi];
    assert s[lo..lo'] == t[lo..lo'];
    assert s[hi'..hi] == t[hi'..hi];
  }

  /** Exchanging two cells of a segment rearranges that segment. */
  lemma SwapPermutes(s: seq<int>, i: nat, j: nat, lo: nat, hi: nat)
    requires lo <= i < hi && lo <= j < hi && hi <= |s|
    ensures Permuted(s, Swapped(s, i, j), lo, hi)
  {
    var t := Swapped(s, i, j);
    assert t[lo..hi] == s[lo..hi][i - lo := s[j]][j - lo := s[i]];
  }

  /** Every value of `s` is below `bound` (`strict`) or at least `bound`. */
  ghost predicate AllBelow(s: seq<int>, bound: int) {
    forall k :: 0 <= k < |s| ==> s[k] < bound
  }

  ghost predicate AllAtLeast(s: seq<int>, bound: int) {
    forall k :: 0 <= k < |s| ==> s[k] >= bound
  }

  /** Bounds on the values of a segment survive any rearrangement of it. */
  lemma {:induction false} BoundsSurvivePermutation(s: seq<int>, t: seq<int>, bound: int)
    requires multiset(s) == multiset(t)
    ensures AllBelow(s, bound) ==> AllBelow(t, bound)
    ensures AllAtLeast(s, bound) ==> AllAtLeast(t, bound)
  {
    forall k | 0 <= k < |t|
      ensures t[k] in s
    {
      assert t[k] in multiset(t);
    }
  }

  // === Utility ===

  /** swap (quicksort.c:43-47): exchanges exactly the two addressed cells. */
  method Swap(a: array<int>, i: nat, j: nat)
    requires i < a.Length && j < a.Length
    modifies a
    ensures a[..] == Swapped(old(a[..]), i, j)
  {
    var t := a[i];
    a[i] := a[j];
    a[j] := t;
  }

  /** swap, seen from a segment holding both cells: the segment is rearranged. */
  method SwapInSegment(a: array<int>, i: nat, j: nat, ghost lo: nat, ghost hi: nat)
    requires lo <= i < hi && lo <= j < hi && hi <= a.Length
    modifies a
    ensures a[i] == old(a[j]) && a[j] == old(a[i])
    ensures forall k :: 0 <= k < a.Length && k != i && k != j ==> a[k] == old(a[k])
    ensures Permuted(old(a[..]), a[..], lo, hi)
  {
    Swap(a, i, j);
    SwapPermutes(old(a[..]), i, j, lo, hi);
  }

  // === Callbacks ===

  /**
   * The state after one turn of the outer loop of InsertionSort, on values:
   * in `t` the cells `lo + j + 1 .. lo + i - 1` of `s` have moved one to the
   * right, the old `s[lo + i]` fills the gap, and nothing else has changed.
   */
  ghost predicate Inserted(s: seq<int>, t: seq<int>, lo: nat, i: nat, j: int) {
    && lo + i < |s| == |t| && -1 <= j < i
    && (forall k {:trigger t[k]} :: 0 <= k < |s| && !(lo + j + 1 <= k <= lo + i) ==> t[k] == s[k])
    && t[lo + j + 1] == s[lo + i]
    && (forall k {:trigger t[k]} :: lo + j + 2 <= k <= lo + i ==> t[k] == s[k - 1])
  }

  /**
   * The state inside the inner loop of InsertionSort, on values: the cells
   * `lo + j + 2 .. lo + i` of `t` hold the values of `s` one to their left,
   * all above `s[lo + i]`, and nothing outside `lo + j + 1 .. lo + i` has changed.
   */
  ghost predicate Shifting(s: seq<int>, t: seq<int>, lo: nat, i: nat, j: int) {
    && lo + i < |s| == |t| && -1 <= j < i
    && (forall k {:trigger t[k]} :: 0 <= k < |s| && !(lo + j + 1 <= k <= lo + i) ==> t[k] == s[k])
    && (forall k {:trigger t[k]} :: lo + j + 2 <= k <= lo + i ==> t[k] == s[k - 1] > s[lo + i])
  }

  /** One turn of the inner loop moves the larger value at `lo + j` one cell to the right. */
  lemma ShiftStep(s: seq<int>, t: seq<int>, lo: nat, i: nat, j: int)
    requires Shifting(s, t, lo, i, j) && j >= 0 && t[lo + j] > s[lo + i]
    ensures Shifting(s, t[lo + j + 1 := t[lo + j]], lo, i, j - 1)
  {
  }

  /**
   * When the inner loop stops, the saved value goes into the gap: the run
   * of `i + 1` cells is sorted and a rearrangement of what it held.
   */
  lemma InsertDone(s: seq<int>, t: seq<int>, lo: nat, i: nat, j: int)
    requires Shifting(s, t, lo, i, j) && Sorted(s[lo..lo + i])
    requires j >= 0 ==> t[lo + j] <= s[lo + i]
    ensures Sorted(t[lo + j + 1 := s[lo + i]][lo..lo + i + 1])
    ensures Permuted(s, t[lo + j + 1 := s[lo + i]], lo, lo + i + 1)
  {
    var u := t[lo + j + 1 := s[lo + i]];
    InsertStep(s, u, lo, i, j);
    InsertStepSorted(s, u, lo, i, j);
  }

  /** Moving a cell of a segment to an earlier position rearranges that segment. */
  lemma InsertStep(s: seq<int>, t: seq<int>, lo: nat, i: nat, j: int)
    requires Inserted(s, t, lo, i, j)
    ensures Permuted(s, t, lo, lo + i + 1)
  {
    var m, n := lo + j + 1, lo + i;
    assert t[..m] == s[..m] && t[n + 1..] == s[n + 1..];
    assert t[m + 1..n + 1] == s[m..n];
    assert t == t[..m] + [s[n]] + t[m + 1..n + 1] + t[n + 1..];
    assert s == s[..m] + s[m..n] + [s[n]] + s[n + 1..];
  }

  /**
   * Inserting a value behind the last value not above it and before the
   * values above it keeps a sorted run sorted.
   */
  lemma {:induction false} InsertStepSorted(s: seq<int>, t: seq<int>, lo: nat, i: nat, j: int)
    requires Inserted(s, t, lo, i, j)
    requires Sorted(s[lo..lo + i])
    requires j >= 0 ==> s[lo + j] <= s[lo + i]
    requires forall k {:trigger t[k]} :: lo + j + 2 <= k <= lo + i ==> t[k] > s[lo + i]
    ensures Sorted(t[lo..lo + i + 1])
  {
    var m := lo + j + 1;
    forall p, q | lo <= p < q <= lo + i
      ensures t[p] <= t[q]
    {
      assert s[lo..lo + i][p - lo] == s[p];
      if q < m {
        assert s[lo..lo + i][q - lo] == s[q];
      } else if q == m {
        assert s[lo..lo + i][m - 1 - lo] == s[m - 1];
      } else if p < m {
        assert t[q] == s[q - 1];
        assert s[lo..lo + i][q - 1 - lo] == s[q - 1];
      } else if p > m {
        assert t[q] == s[q - 1] && t[p] == s[p - 1];
        assert s[lo..lo + i][q - 1 - lo] == s[q - 1];
        assert s[lo..lo + i][p - 1 - lo] == s[p - 1];
      }
    }
  }

  /**
   * The body of the outer loop of InsertionSort (quicksort.c:72-80): cell
   * `lo + i` is taken out, the larger values before it move one to the right,
   * and it goes into the gap, so a sorted run of `i` cells becomes one of `i + 1`.
   */
  method InsertLast(a: array<int>, lo: nat, i: nat)
    requires lo + i < a.Length
    requires Sorted(a[lo..lo + i])
    modifies a
    ensures Sorted(a[lo..lo + i + 1])
    ensures Permuted(old(a[..]), a[..], lo, lo + i + 1)
  {
    ghost var before := a[..];
    var x := a[lo + i];
    var j: int := i - 1;
    while j >= 0 && a[lo + j] > x
      invariant x == before[lo + i]
      invariant Shifting(before, a[..], lo, i, j)
    {
      ShiftStep(before, a[..], lo, i, j);
      a[lo + j + 1] := a[lo + j];
      j := j - 1;
    }
    ghost var shifted := a[..];
    a[lo + j + 1] := x;
    assert before[lo..lo + i] == old(a[lo..lo + i]);
    InsertDone(before, shifted, lo, i, j);
  }

  /**
   * InsertionSort (quicksort.c:70-82) on the segment `[lo, lo + len)`:
   * each element in turn is shifted left past the larger ones before it.
   */
  method InsertionSort(a: array<int>, lo: nat, len: nat)
    requires lo + len <= a.Length
    modifies a
    ensures Sorted(a[lo..lo + len])
    ensures Permuted(old(a[..]), a[..], lo, lo + len)
  {
    ghost var a0 := a[..];
    var i := 1;
    while i < len
      invariant 1 <= i
      invariant len == 0 || (i <= len && Sorted(a[lo..lo + i]))
      invariant Permuted(a0, a[..], lo, lo + len)
    {
      ghost var before := a[..];
      InsertLast(a, lo, i);
      PermutedWiden(before, a[..], lo, lo, lo + i + 1, lo + len);
      PermutedTrans(a0, before, a[..], lo, lo + len);
      i := i + 1;
    }
  }

  // === Partitions ===

  /**
   * The last exchange of both partitions: once the cells after the first one
   * up to `lo + s` are below `pivot` and the rest are at least `pivot`,
   * exchanging the first cell with cell `lo + s` puts the old first value
   * between the two groups.
   */
  method PlaceFirst(a: array<int>, lo: nat, len: nat, s: nat, pivot: int)
    requires s < len && lo + len <= a.Length
    requires forall k :: lo < k <= lo + s ==> a[k] < pivot
    requires forall k :: lo + s < k < lo + len ==> a[k] >= pivot
    modifies a
    ensures a[lo + s] == old(a[lo])
    ensures AllBelow(a[lo..lo + s], pivot)
    ensures AllAtLeast(a[lo + s + 1..lo + len], pivot)
    ensures Permuted(old(a[..]), a[..], lo, lo + len)
  {
    SwapInSegment(a, lo, lo + s, lo, lo + len);
  }

  /**
   * lomuto (quicksort.c:86-96). Cells `1..s` collect the values below `pivot`,
   * then the first cell is exchanged with cell `s`. Whatever `pivot` is, the
   * old first value lands at `s` with smaller values before it and values at
   * least `pivot` after it; with `pivot == a[lo]` this is a partition.
   */
  method Lomuto(a: array<int>, lo: nat, len: nat, pivot: int) returns (s: nat)
    requires 1 <= len && lo + len <= a.Length
    modifies a
    ensures s < len
    ensures a[lo + s] == old(a[lo])
    ensures AllBelow(a[lo..lo + s], pivot)
    ensures AllAtLeast(a[lo + s + 1..lo + len], pivot)
    ensures Permuted(old(a[..]), a[..], lo, lo + len)
  {
    s := 0;
    for i := 1 to len
      invariant s < i
      invariant a[lo] == old(a[lo])
      invariant forall k :: lo < k <= lo + s ==> a[k] < pivot
      invariant forall k :: lo + s < k < lo + i ==> a[k] >= pivot
      invariant Permuted(old(a[..]), a[..], lo, lo + len)
    {
      if a[lo + i] < pivot {
        s := s + 1;
        SwapInSegment(a, lo + i, lo + s, lo, lo + len);
      }
    }
    ghost var before := a[..];
    PlaceFirst(a, lo, len, s, pivot);
    PermutedTrans(old(a[..]), before, a[..], lo, lo + len);
  }

  /** What a Hoare partition ends with. */
  datatype HoareOutcome =
    | Partitioned(split: nat)
      /** The scan for a value at least the pivot read the cell just past the segment. */
    | ReadPastEnd

  /** Which of the two scans of hoare's outer loop is running. */
  datatype Scan = Up | Down

  /*
   * The functions below follow hoare on the whole array `s` one step at a
   * time, with absolute indices: the segment is `[lo, hi)`, and C's `arr[k]`
   * is `s[lo + k]`.
   */

  /**
   * A measure that every step of hoare decreases. After an exchange the
   * first scan is sure to move, so the exchange itself may keep both indices.
   */
  function HoareMeasure(s: seq<int>, lo: nat, hi: nat, pivot: int, i: nat, j: nat, scan: Scan): nat
    requires i <= hi <= |s| && lo <= j
  {
    3 * (hi - i + j - lo)
      + (match scan
         case Down => 1
         case Up => if i < hi && s[i] < pivot then 0 else 2)
  }

  /**
   * The outer loop of hoare (quicksort.c:101-121) as written, from a state of
   * one of its scans: the outcome and the array when hoare returns. The
   * array keeps its length, and a split lies inside the segment.
   */
  function HoareRun(s: seq<int>, lo: nat, hi: nat, pivot: int, i: nat, j: nat, scan: Scan): (r: (HoareOutcome, seq<int>))
    requires lo < i <= hi && lo <= j < hi <= |s| && (scan == Down ==> i < hi)
    ensures |r.1| == |s|
    ensures r.0.Partitioned? ==> lo + r.0.split < hi
    decreases HoareMeasure(s, lo, hi, pivot, i, j, scan)
  {
    match scan
    case Up =>
      // while (arr[i] < pivot && i < len) i++;  -- arr[len] is read before i < len fails
      if i == hi then (ReadPastEnd, s)
      else if s[i] < pivot then HoareRun(s, lo, hi, pivot, i + 1, j, Up)
      else HoareRun(s, lo, hi, pivot, i, j, Down)
    case Down =>
      // while (arr[j] >= pivot && j > 0) j--;
      if s[j] >= pivot && j > lo then HoareRun(s, lo, hi, pivot, i, j - 1, Down)
      else if i < j then HoareRun(Swapped(s, i, j), lo, hi, pivot, i, j, Up)
      else (Partitioned(j - lo), Swapped(Swapped(s, i, j), lo, j))
  }

  /** From any state of its loop, hoare as written only exchanges cells of the segment. */
  lemma {:induction false} HoareRunPermutes(s: seq<int>, lo: nat, hi: nat, pivot: int, i: nat, j: nat, scan: Scan)
    requires lo < i <= hi && lo <= j < hi <= |s| && (scan == Down ==> i < hi)
    ensures Permuted(s, HoareRun(s, lo, hi, pivot, i, j, scan).1, lo, hi)
    decreases HoareMeasure(s, lo, hi, pivot, i, j, scan)
  {
    match scan
    case Up =>
      if i == hi {
      } else if s[i] < pivot {
        HoareRunPermutes(s, lo, hi, pivot, i + 1, j, Up);
      } else {
        HoareRunPermutes(s, lo, hi, pivot, i, j, Down);
      }
    case Down =>
      if s[j] >= pivot && j > lo {
        HoareRunPermutes(s, lo, hi, pivot, i, j - 1, Down);
      } else {
        SwapPermutes(s, i, j, lo, hi);
        var t := Swapped(s, i, j);
        if i < j {
          HoareRunPermutes(t, lo, hi, pivot, i, j, Up);
          PermutedTrans(s, t, HoareRun(t, lo, hi, pivot, i, j, Up).1, lo, hi);
        } else {
          SwapPermutes(t, lo, j, lo, hi);
          PermutedTrans(s, t, Swapped(t, lo, j), lo, hi);
        }
      }
  }

  /**
   * hoare (quicksort.c:98-121) as written, on `[lo, lo + len)` of `s`: the
   * outcome and the array afterwards. It only exchanges cells of the
   * segment, and a split it returns is below `len`.
   */
  function HoareSpec(s: seq<int>, lo: nat, len: nat, pivot: int): (r: (HoareOutcome, seq<int>))
    requires lo + len <= |s|
    ensures Permuted(s, r.1, lo, lo + len)
    ensures r.0.Partitioned? ==> r.0.split < len
  {
    if len <= 1 then (ReadPastEnd, s)
    else
      HoareRunPermutes(s, lo, lo + len, pivot, lo + 1, lo + len - 1, Up);
      HoareRun(s, lo, lo + len, pivot, lo + 1, lo + len - 1, Up)
  }

  /** With only smaller values ahead of the first scan, it runs off the segment. */
  lemma {:induction false} HoareRunsOut(s: seq<int>, lo: nat, hi: nat, pivot: int, i: nat, j: nat)
    requires lo < i <= hi && lo <= j < hi <= |s|
    requires forall k :: i <= k < hi ==> s[k] < pivot
    ensures HoareRun(s, lo, hi, pivot, i, j, Up) == (ReadPastEnd, s)
    decreases hi - i
  {
    if i < hi {
      HoareRunsOut(s, lo, hi, pivot, i + 1, j);
    }
  }

  /**
   * A value at least the pivot ahead of the first scan, or under the stopped
   * first scan, keeps every later scan inside the segment.
   */
  lemma {:induction false} HoareStaysInside(s: seq<int>, lo: nat, hi: nat, pivot: int, i: nat, j: nat, scan: Scan, k: nat)
    requires lo < i <= hi && lo <= j < hi <= |s|
    requires scan == Up ==> i <= k < hi && s[k] >= pivot
    requires scan == Down ==> i < hi && s[i] >= pivot
    ensures HoareRun(s, lo, hi, pivot, i, j, scan).0.Partitioned?
    decreases HoareMeasure(s, lo, hi, pivot, i, j, scan)
  {
    match scan
    case Up =>
      if s[i] < pivot {
        HoareStaysInside(s, lo, hi, pivot, i + 1, j, Up, k);
      } else {
        HoareStaysInside(s, lo, hi, pivot, i, j, Down, k);
      }
    case Down =>
      if s[j] >= pivot && j > lo {
        HoareStaysInside(s, lo, hi, pivot, i, j - 1, Down, k);
      } else if i < j {
        HoareStaysInside(Swapped(s, i, j), lo, hi, pivot, i, j, Up, j);
      }
  }

  /**
   * hoare reads `arr[len]`, one past its segment, exactly when every value
   * after the first is below the pivot (this includes segments of length 0 and 1).
   */
  lemma HoareReadsPastEndIff(s: seq<int>, lo: nat, len: nat, pivot: int)
    requires lo + len <= |s|
    ensures HoareSpec(s, lo, len, pivot).0 == ReadPastEnd <==> forall k :: lo + 1 <= k < lo + len ==> s[k] < pivot
  {
    if len > 1 {
      if forall k :: lo + 1 <= k < lo + len ==> s[k] < pivot {
        HoareRunsOut(s, lo, lo + len, pivot, lo + 1, lo + len - 1);
      } else {
        var k :| lo + 1 <= k < lo + len && s[k] >= pivot;
        HoareStaysInside(s, lo, lo + len, pivot, lo + 1, lo + len - 1, Up, k);
      }
    }
  }

  /** The worked example: on `[5, 3, 8]` with pivot 5, hoare leaves `[8, 5, 3]` and returns 1. */
  lemma HoareMisplacesLargerValue()
    ensures HoareSpec([5, 3, 8], 0, 3, 5) == (Partitioned(1), [8, 5, 3])
  {
    var s: seq<int> := [5, 3, 8];
    calc {
      HoareSpec(s, 0, 3, 5);
      HoareRun(s, 0, 3, 5, 1, 2, Up);
      HoareRun(s, 0, 3, 5, 2, 2, Up);
      HoareRun(s, 0, 3, 5, 2, 2, Down);
      HoareRun(s, 0, 3, 5, 2, 1, Down);
      (Partitioned(1), Swapped(Swapped(s, 2, 1), 0, 1));
    }
    assert Swapped(s, 2, 1) == [5, 8, 3];
    assert Swapped([5, 8, 3], 0, 1) == [8, 5, 3];
  }

  /**
   * hoare (quicksort.c:98-121) as written, on `[lo, lo + len)`. It stops with
   * ReadPastEnd at the point where the C code reads `arr[len]`.
   */
  method Hoare(a: array<int>, lo: nat, len: nat, pivot: int) returns (r: HoareOutcome)
    requires lo + len <= a.Length
    modifies a
    ensures (r, a[..]) == HoareSpec(old(a[..]), lo, len, pivot)
    ensures r.Partitioned? ==> r.split < len
    ensures Permuted(old(a[..]), a[..], lo, lo + len)
  {
    var i: nat := 1;
    if len <= 1 {
      // The first scan reads arr[1], which is already past the segment.
      return ReadPastEnd;
    }
    var j: nat := len - 1;
    // Set once a turn has ended in an exchange: from then on both scans move.
    ghost var swapped := false;
    while true
      invariant 1 <= i <= len && j < len
      invariant HoareRun(a[..], lo, lo + len, pivot, lo + i, lo + j, Up) == HoareSpec(old(a[..]), lo, len, pivot)
      invariant !swapped ==> i == 1 && j == len - 1
      invariant swapped ==> i < j && a[lo + i] < pivot && a[lo + j] >= pivot
      decreases j - i + (if swapped then 0 else 1)
    {
      ghost var i0 := i;
      while i < len && a[lo + i] < pivot
        invariant i0 <= i <= len
        invariant HoareRun(a[..], lo, lo + len, pivot, lo + i, lo + j, Up) == HoareSpec(old(a[..]), lo, len, pivot)
      {
        i := i + 1;
      }
      if i == len {
        // Leaving the scan with i == len means arr[len] was read.
        return ReadPastEnd;
      }
      ghost var j0 := j;
      while a[lo + j] >= pivot && j > 0
        invariant j <= j0
        invariant HoareRun(a[..], lo, lo + len, pivot, lo + i, lo + j, Down) == HoareSpec(old(a[..]), lo, len, pivot)
        decreases j
      {
        j := j - 1;
      }
      ghost var s := a[..];
      Swap(a, lo + i, lo + j);
      if i < j {
        swapped := true;
      } else {
        Swap(a, lo, lo + j);
        assert HoareRun(s, lo, lo + len, pivot, lo + i, lo + j, Down) == (Partitioned(j), a[..]);
        break;
      }
    }
    return Partitioned(j);
  }

  /**
   * The first scan of the intended Hoare partition: from `i`, skip the values
   * below `pivot`, checking the bound before each read.
   */
  method ScanUp(a: array<int>, lo: nat, len: nat, pivot: int, i: nat) returns (i': nat)
    requires 1 <= i <= len && lo + len <= a.Length
    requires forall k :: lo < k < lo + i ==> a[k] < pivot
    ensures i <= i' <= len
    ensures forall k :: lo < k < lo + i' ==> a[k] < pivot
    ensures i' == len || a[lo + i'] >= pivot
  {
    i' := i;
    while i' < len && a[lo + i'] < pivot
      invariant i <= i' <= len
      invariant forall k :: lo < k < lo + i' ==> a[k] < pivot
    {
      i' := i' + 1;
    }
  }

  /**
   * The second scan of both Hoare partitions: from `j`, step down over the
   * values at least `pivot`, stopping at the first cell at the latest.
   */
  method ScanDown(a: array<int>, lo: nat, len: nat, pivot: int, j: nat) returns (j': nat)
    requires j < len && lo + len <= a.Length
    requires forall k :: lo + j < k < lo + len ==> a[k] >= pivot
    ensures j' <= j
    ensures forall k :: lo + j' < k < lo + len ==> a[k] >= pivot
    ensures j' == 0 || a[lo + j'] < pivot
  {
    j' := j;
    while a[lo + j'] >= pivot && j' > 0
      invariant j' <= j
      invariant forall k :: lo + j' < k < lo + len ==> a[k] >= pivot
      decreases j'
    {
      j' := j' - 1;
    }
  }

  /**
   * The intended Hoare partition: the first scan checks the bound before it
   * reads, and the loop ends with the single exchange that brings the first
   * value between the two halves. Like lomuto, it leaves the old first value
   * at the returned index with smaller values before it and values at least
   * `pivot` after it.
   */
  method HoarePartition(a: array<int>, lo: nat, len: nat, pivot: int) returns (s: nat)
    requires 1 <= len && lo + len <= a.Length
    modifies a
    ensures s < len
    ensures a[lo + s] == old(a[lo])
    ensures AllBelow(a[lo..lo + s], pivot)
    ensures AllAtLeast(a[lo + s + 1..lo + len], pivot)
    ensures Permuted(old(a[..]), a[..], lo, lo + len)
  {
    var i: nat := 1;
    var j: nat := len - 1;
    ghost var swapped := false;
    while true
      invariant 1 <= i <= len && j < len
      invariant a[lo] == old(a[lo])
      invariant forall k :: lo < k < lo + i ==> a[k] < pivot
      invariant forall k :: lo + j < k < lo + len ==> a[k] >= pivot
      invariant Permuted(old(a[..]), a[..], lo, lo + len)
      invariant !swapped ==> i == 1 && j == len - 1
      invariant swapped ==> i < j && a[lo + i] < pivot && a[lo + j] >= pivot
      decreases j + 1 - i + (if swapped then 0 else 1)
    {
      i := ScanUp(a, lo, len, pivot, i);
      j := ScanDown(a, lo, len, pivot, j);
      if i < j {
        SwapInSegment(a, lo + i, lo + j, lo, lo + len);
        swapped := true;
      } else {
        break;
      }
    }
    ghost var before := a[..];
    PlaceFirst(a, lo, len, j, pivot);
    PermutedTrans(old(a[..]), before, a[..], lo, lo + len);
    s := j;
  }

  // === Pivots ===

  /** The smallest of three values. */
  function Min3(x: int, y: int, z: int): (m: int)
    ensures m <= x && m <= y && m <= z
    ensures m == x || m == y || m == z
  {
    if x <= y && x <= z then x else if y <= z then y else z
  }

  /** The largest of three values. */
  function Max3(x: int, y: int, z: int): (m: int)
    ensures m >= x && m >= y && m >= z
    ensures m == x || m == y || m == z
  {
    if x >= y && x >= z then x else if y >= z then y else z
  }

  /** `m` lies between `p` and `q`, in either order. */
  predicate Between(p: int, m: int, q: int) {
    p <= m <= q || q <= m <= p
  }

  /**
   * The median of three values: what is left when the smallest and the
   * largest are taken away. It is one of the three, with the other two on
   * either side of it.
   */
  function Med3(x: int, y: int, z: int): (m: int)
    ensures (m == x && Between(y, m, z)) || (m == y && Between(x, m, z)) || (m == z && Between(x, m, y))
  {
    x + y + z - Min3(x, y, z) - Max3(x, y, z)
  }

  /** On three distinct values the smallest is never the median. */
  lemma MinOfThreeIsNotMedian(x: int, y: int, z: int)
    requires x != y && y != z && x != z
    ensures Min3(x, y, z) < Med3(x, y, z)
  {
  }

  /**
   * The three compare-exchanges shared by both median selectors
   * (quicksort.c:126-138): afterwards the first, middle and last cells of the
   * segment hold the smallest, the median and the largest of their old
   * values. With two cells the middle one is the first.
   */
  method OrderThree(a: array<int>, lo: nat, len: nat)
    requires 2 <= len && lo + len <= a.Length
    modifies a
    ensures var x, y, z := old(a[lo]), old(a[lo + (len - 1) / 2]), old(a[lo + len - 1]);
      && a[lo] == Min3(x, y, z)
      && (3 <= len ==> a[lo + (len - 1) / 2] == Med3(x, y, z))
      && a[lo + len - 1] == Max3(x, y, z)
    ensures Permuted(old(a[..]), a[..], lo, lo + len)
  {
    var hi := len - 1;
    var mid := hi / 2;
    if a[lo] > a[lo + mid] {
      SwapInSegment(a, lo, lo + mid, lo, lo + len);
    }
    if a[lo] > a[lo + hi] {
      SwapInSegment(a, lo, lo + hi, lo, lo + len);
    }
    if a[lo + hi] <= a[lo + mid] {
      SwapInSegment(a, lo + hi, lo + mid, lo, lo + len);
    }
  }

  /**
   * median (quicksort.c:125-142) as written on `[lo, lo + len)`: it orders
   * the first, middle and last cells, moves the median to the last cell but
   * one, and returns the first cell, which holds the smallest of the three.
   */
  method Median(a: array<int>, lo: nat, len: nat) returns (pivot: int)
    requires 2 <= len && lo + len <= a.Length
    modifies a
    ensures pivot == a[lo]
    ensures pivot == Min3(old(a[lo]), old(a[lo + (len - 1) / 2]), old(a[lo + len - 1]))
    ensures 3 <= len ==> a[lo + len - 2] == Med3(old(a[lo]), old(a[lo + (len - 1) / 2]), old(a[lo + len - 1]))
    ensures Permuted(old(a[..]), a[..], lo, lo + len)
  {
    OrderThree(a, lo, len);
    ghost var ordered := a[..];
    var hi := len - 1;
    var mid := hi / 2;
    SwapInSegment(a, lo + hi - 1, lo + mid, lo, lo + len);
    PermutedTrans(old(a[..]), ordered, a[..], lo, lo + len);
    pivot := a[lo];
  }

  /**
   * The intended median of three: the same three compare-exchanges, then
   * the median is moved to the first cell, where the partitions expect the
   * pivot.
   */
  method MedianOfThree(a: array<int>, lo: nat, len: nat) returns (pivot: int)
    requires 2 <= len && lo + len <= a.Length
    modifies a
    ensures pivot == a[lo]
    ensures 3 <= len ==> pivot == Med3(old(a[lo]), old(a[lo + (len - 1) / 2]), old(a[lo + len - 1]))
    ensures Permuted(old(a[..]), a[..], lo, lo + len)
  {
    OrderThree(a, lo, len);
    ghost var ordered := a[..];
    var mid := (len - 1) / 2;
    SwapInSegment(a, lo, lo + mid, lo, lo + len);
    PermutedTrans(old(a[..]), ordered, a[..], lo, lo + len);
    pivot := a[lo];
  }

  /** first (quicksort.c:144): the pivot is the first value, left in place. */
  method First(a: array<int>, lo: nat, len: nat) returns (pivot: int)
    requires 1 <= len && lo + len <= a.Length
    ensures pivot == a[lo]
  {
    pivot := a[lo];
  }

  /**
   * rand_pivot (quicksort.c:146-149), with the value drawn from `rand()`
   * passed in as `draw`: the cell `draw % len` is moved to the front.
   */
  method RandPivot(a: array<int>, lo: nat, len: nat, draw: nat) returns (pivot: int)
    requires 1 <= len && lo + len <= a.Length
    modifies a
    ensures pivot == a[lo] && pivot == old(a[lo + draw % len])
    ensures Permuted(old(a[..]), a[..], lo, lo + len)
  {
    SwapInSegment(a, lo, lo + draw % len, lo, lo + len);
    pivot := a[lo];
  }

  // === QuickSort ===

  /** The pivot selectors of the `pivots` table, all except rand_pivot, which the configuration leaves out. */
  datatype PivotChoice = FirstValue | MedianOf3 | MedianOf3Corrected

  /** The partitions of the `partitions` table, and the corrected Hoare. */
  datatype PartitionChoice = HoareAsWritten | LomutoPartition | HoareCorrected

  /** The callbacks of the `callbacks` table. */
  datatype CallbackChoice = NoCallback | InsertionSortCallback

  /** A QuickSorter: one entry of each table. */
  datatype Sorter = Sorter(pivot: PivotChoice, partition: PartitionChoice, callback: CallbackChoice)

  /** The segment length from which QuickSort partitions (quicksort.c:157-158). */
  function Threshold(c: CallbackChoice): (t: nat)
    ensures t >= 2
  {
    match c
    case NoCallback => 2
    case InsertionSortCallback => 10
  }

  /** The partition leaves the pivot between the smaller and the larger values. */
  predicate PartitionIsValid(p: PartitionChoice) {
    p != HoareAsWritten
  }

  /**
   * The configurations that sort: recursion alone sorts with a valid
   * partition down to segments of one cell, and the insertion-sort callback
   * sorts the whole array at the end of the top-level call.
   */
  predicate Sorts(config: Sorter, toplevel: bool) {
    || (PartitionIsValid(config.partition) && config.callback == NoCallback)
    || (toplevel && config.callback == InsertionSortCallback)
  }

  /** A sorted run, a value, and a sorted run on either side of it, join up sorted. */
  lemma {:induction false} SortedJoin(l: seq<int>, x: int, r: seq<int>)
    requires Sorted(l) && Sorted(r) && AllBelow(l, x) && AllAtLeast(r, x)
    ensures Sorted(l + [x] + r)
  {
    var t := l + [x] + r;
    forall i, j | 0 <= i < j < |t|
      ensures t[i] <= t[j]
    {
      if j < |l| {
        assert t[i] == l[i] && t[j] == l[j];
      } else if i > |l| {
        assert t[i] == r[i - |l| - 1] && t[j] == r[j - |l| - 1];
      } else if i == |l| {
        assert t[j] == r[j - |l| - 1];
      } else if j == |l| {
        assert t[i] == l[i];
      } else {
        assert t[i] == l[i] && t[j] == r[j - |l| - 1];
      }
    }
  }

  /** Rearranging the two sides of a cell one after the other rearranges the segment. */
  lemma BothSidesPermute(s0: seq<int>, s1: seq<int>, s2: seq<int>, lo: nat, p: nat, len: nat)
    requires p < len
    requires Permuted(s0, s1, lo, lo + p) && Permuted(s1, s2, lo + p + 1, lo + len)
    ensures Permuted(s0, s2, lo, lo + len)
  {
    PermutedWiden(s0, s1, lo, lo, lo + p, lo + len);
    PermutedWiden(s1, s2, lo, lo + p + 1, lo + len, lo + len);
    PermutedTrans(s0, s1, s2, lo, lo + len);
  }

  /**
   * The recursion step of QuickSort: `s0` is partitioned around the cell
   * `lo + p`, `s1` rearranges the part before it and `s2` the part after it.
   * When both parts came out sorted, the whole segment is sorted.
   */
  lemma QuickSortStep(s0: seq<int>, s1: seq<int>, s2: seq<int>, lo: nat, p: nat, len: nat)
    requires p < len && lo + len <= |s0|
    requires AllBelow(s0[lo..lo + p], s0[lo + p]) && AllAtLeast(s0[lo + p + 1..lo + len], s0[lo + p])
    requires Permuted(s0, s1, lo, lo + p) && Permuted(s1, s2, lo + p + 1, lo + len)
    requires Sorted(s1[lo..lo + p]) && Sorted(s2[lo + p + 1..lo + len])
    ensures Sorted(s2[lo..lo + len])
  {
    var x := s0[lo + p];
    var left, right := s2[lo..lo + p], s2[lo + p + 1..lo + len];
    assert left == s1[lo..lo + p] by {
      SameOutside(s1, s2, lo + p + 1, lo + len);
    }
    assert AllBelow(left, x) by {
      PermutedSegment(s0, s1, lo, lo + p);
      BoundsSurvivePermutation(s0[lo..lo + p], left, x);
    }
    assert AllAtLeast(right, x) by {
      SameOutside(s0, s1, lo, lo + p);
      assert s1[lo + p + 1..lo + len] == s0[lo + p + 1..lo + len];
      PermutedSegment(s1, s2, lo + p + 1, lo + len);
      BoundsSurvivePermutation(s0[lo + p + 1..lo + len], right, x);
    }
    assert s2[lo..lo + len] == left + [x] + right by {
      assert s2[lo + p] == s1[lo + p] == x;
    }
    SortedJoin(left, x, right);
  }

  /** The pivot function of the configuration; each leaves the pivot in the first cell. */
  method ChoosePivot(a: array<int>, lo: nat, len: nat, choice: PivotChoice) returns (pivot: int)
    requires 2 <= len && lo + len <= a.Length
    modifies a
    ensures pivot == a[lo]
    ensures Permuted(old(a[..]), a[..], lo, lo + len)
  {
    match choice
    case FirstValue =>
      pivot := First(a, lo, len);
    case MedianOf3 =>
      pivot := Median(a, lo, len);
    case MedianOf3Corrected =>
      pivot := MedianOfThree(a, lo, len);
  }

  /**
   * The partition function of the configuration. Only the as-written Hoare
   * can fail, by reading past the segment, and only the other two promise a
   * partition around the old first value.
   */
  method Partition(a: array<int>, lo: nat, len: nat, pivot: int, choice: PartitionChoice) returns (ok: bool, p: nat)
    requires 1 <= len && lo + len <= a.Length
    modifies a
    ensures !ok ==> choice == HoareAsWritten
    ensures ok ==> p < len
    ensures ok && PartitionIsValid(choice) ==>
      && a[lo + p] == old(a[lo])
      && AllBelow(a[lo..lo + p], pivot)
      && AllAtLeast(a[lo + p + 1..lo + len], pivot)
    ensures Permuted(old(a[..]), a[..], lo, lo + len)
  {
    ok, p := true, 0;
    match choice
    case HoareAsWritten =>
      var r := Hoare(a, lo, len, pivot);
      if r.ReadPastEnd? {
        ok := false;
      } else {
        p := r.split;
      }
    case LomutoPartition =>
      p := Lomuto(a, lo, len, pivot);
    case HoareCorrected =>
      p := HoarePartition(a, lo, len, pivot);
  }

  /**
   * QuickSort (quicksort.c:160-170) on `[lo, lo + len)`. Segments of at
   * least the callback's threshold are partitioned and both sides sorted
   * recursively; the top-level call then runs the callback on the whole
   * segment. `ok` is false when the as-written Hoare read past its segment;
   * the sort stops there.
   */
  method QuickSort(a: array<int>, lo: nat, len: nat, config: Sorter, toplevel: bool) returns (ok: bool)
    requires lo + len <= a.Length
    modifies a
    ensures !ok ==> config.partition == HoareAsWritten
    ensures ok && Sorts(config, toplevel) ==> Sorted(a[lo..lo + len])
    ensures Permuted(old(a[..]), a[..], lo, lo + len)
    decreases len
  {
    ok := true;
    if len >= Threshold(config.callback) {
      var pivot := ChoosePivot(a, lo, len, config.pivot);
      ghost var chosen := a[..];
      var p;
      ok, p := Partition(a, lo, len, pivot, config.partition);
      PermutedTrans(old(a[..]), chosen, a[..], lo, lo + len);
      if !ok {
        return;
      }
      ghost var s0 := a[..];
      ok := QuickSort(a, lo, p, config, false);
      ghost var s1 := a[..];
      if ok {
        ok := QuickSort(a, lo + p + 1, len - p - 1, config, false);
        if ok && PartitionIsValid(config.partition) && config.callback == NoCallback {
          QuickSortStep(s0, s1, a[..], lo, p, len);
        }
      }
      BothSidesPermute(s0, s1, a[..], lo, p, len);
      PermutedTrans(old(a[..]), s0, a[..], lo, lo + len);
      if !ok {
        return;
      }
    }
    if toplevel && config.callback == InsertionSortCallback {
      ghost var before := a[..];
      InsertionSort(a, lo, len);
      PermutedTrans(old(a[..]), before, a[..], lo, lo + len);
    }
  }
}
