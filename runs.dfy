/** The specification of a streak: over a sequence of day numbers, a run is a
    stretch of consecutive positions in which every element follows its
    predecessor by exactly the expected gap; the streak is the length of the
    longest run. */
module Runs {

  function Max(a: int, b: int): int {
    if a >= b then a else b
  }

  /** Positions lo..hi-1 of `ds` form a run: each step inside it is exactly `gap`. */
  predicate IsRun(ds: seq<int>, gap: int, lo: int, hi: int) {
    0 <= lo < hi <= |ds| && forall k :: lo < k < hi ==> ds[k] - ds[k - 1] == gap
  }

  /** Length of the run that ends at position j-1 and cannot be extended to the left. */
  function RunEndingAt(ds: seq<int>, gap: int, j: nat): (n: nat)
    requires 1 <= j <= |ds|
    ensures 1 <= n <= j
  {
    if j == 1 || ds[j - 1] - ds[j - 2] != gap then 1 else RunEndingAt(ds, gap, j - 1) + 1
  }

  /** Length of the longest run among the first j positions. */
  function LongestRunWithin(ds: seq<int>, gap: int, j: nat): (n: nat)
    requires 1 <= j <= |ds|
    ensures 1 <= n <= j
  {
    if j == 1 then 1 else Max(LongestRunWithin(ds, gap, j - 1), RunEndingAt(ds, gap, j))
  }

  /** Length of the longest run of `ds`; 0 for no dates at all. */
  function LongestRun(ds: seq<int>, gap: int): (n: nat)
    ensures |ds| == 0 ==> n == 0
    ensures |ds| > 0 ==> 1 <= n <= |ds|
  {
    if |ds| == 0 then 0 else LongestRunWithin(ds, gap, |ds|)
  }

  /** RunEndingAt(j) is a run, and no run ending at j-1 is longer. */
  lemma {:induction false} RunEndingAtIsLongestThere(ds: seq<int>, gap: int, j: nat)
    requires 1 <= j <= |ds|
    ensures IsRun(ds, gap, j - RunEndingAt(ds, gap, j), j)
    ensures forall lo :: IsRun(ds, gap, lo, j) ==> j - lo <= RunEndingAt(ds, gap, j)
  {
    if j > 1 && ds[j - 1] - ds[j - 2] == gap {
      RunEndingAtIsLongestThere(ds, gap, j - 1);
      forall lo | IsRun(ds, gap, lo, j) && lo < j - 1
        ensures j - 1 - lo <= RunEndingAt(ds, gap, j - 1)
      {
        assert IsRun(ds, gap, lo, j - 1);
      }
    } else {
      forall lo | IsRun(ds, gap, lo, j)
        ensures lo == j - 1
      {
      }
    }
  }

  /** LongestRunWithin(j) is the length of some run inside the first j
      positions, and no run inside them is longer. */
  lemma {:induction false} LongestRunWithinIsLongest(ds: seq<int>, gap: int, j: nat)
    requires 1 <= j <= |ds|
    ensures exists lo, hi :: hi <= j && IsRun(ds, gap, lo, hi) && hi - lo == LongestRunWithin(ds, gap, j)
    ensures forall lo, hi :: hi <= j && IsRun(ds, gap, lo, hi) ==> hi - lo <= LongestRunWithin(ds, gap, j)
  {
    RunEndingAtIsLongestThere(ds, gap, j);
    var e := RunEndingAt(ds, gap, j);
    if j == 1 {
      assert IsRun(ds, gap, 0, 1);
    } else {
      LongestRunWithinIsLongest(ds, gap, j - 1);
      if LongestRunWithin(ds, gap, j - 1) < e {
        assert IsRun(ds, gap, j - e, j);
      }
    }
  }

  /** The streak specification: for a non-empty sequence, LongestRun is the
      length of a run, and every run is at most that long. */
  lemma LongestRunIsLongest(ds: seq<int>, gap: int)
    ensures |ds| > 0 ==> exists lo, hi :: IsRun(ds, gap, lo, hi) && hi - lo == LongestRun(ds, gap)
    ensures forall lo, hi :: IsRun(ds, gap, lo, hi) ==> hi - lo <= LongestRun(ds, gap)
  {
    if |ds| > 0 {
      LongestRunWithinIsLongest(ds, gap, |ds|);
    }
  }

  /** Two equal neighbours break every run when the expected gap is positive:
      a duplicated date ends one streak and starts the next. */
  lemma DuplicateBreaksRun(ds: seq<int>, gap: int, k: int, lo: int, hi: int)
    requires gap > 0 && 0 < k < |ds| && ds[k] == ds[k - 1]
    requires IsRun(ds, gap, lo, hi)
    ensures hi <= k || k <= lo
  {
  }
}
