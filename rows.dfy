/** Rows of bars as sequences of items: the orders a sort leaves them
    in, and rearrangements confined to a range of indices. */
module Rows {
  import opened Graphics

  /** The bars at indices `lo..hi-1` are in non-decreasing order. */
  ghost predicate SortedRange(s: seq<Item>, lo: int, hi: int) {
    forall p, q :: lo <= p < q < hi && 0 <= p && q < |s| ==> s[p].val <= s[q].val
  }

  ghost predicate Sorted(s: seq<Item>) {
    SortedRange(s, 0, |s|)
  }

  /** The bars before index `k` are sorted and none is above a bar from
      `k` on (selection sort's finished prefix). */
  ghost predicate SortedPrefix(s: seq<Item>, k: int) {
    forall p, q :: 0 <= p < q < |s| && p < k ==> s[p].val <= s[q].val
  }

  /** The bars from index `k` on are sorted and none is below a bar
      before `k` (bubble sort's finished suffix). */
  ghost predicate SortedSuffix(s: seq<Item>, k: int) {
    forall p, q :: 0 <= p < q < |s| && k <= q ==> s[p].val <= s[q].val
  }

  /** Bubble sort within a pass: the bars from `m` on are finished, and
      the bar at `j` is the largest of the first `j + 1`. */
  ghost predicate BubbledTo(s: seq<Item>, j: int, m: int) {
    0 <= j < |s| && SortedSuffix(s, m)
    && forall k :: 0 <= k < j ==> s[k].val <= s[j].val
  }

  /** `s` is `t` with only the bars at `lo..hi-1` rearranged: the bars
      outside the range are where they were, and the row holds the same
      bars, each as often. */
  ghost predicate PermutedWithin(s: seq<Item>, t: seq<Item>, lo: int, hi: int) {
    0 <= lo <= hi <= |s| == |t|
    && (forall k :: 0 <= k < |s| && !(lo <= k < hi) ==> s[k] == t[k])
    && multiset(s) == multiset(t)
  }

  /** A rearrangement within a range keeps the bars of that range, each
      as often. */
  lemma RangeKeepsBars(s: seq<Item>, t: seq<Item>, lo: int, hi: int)
    requires PermutedWithin(s, t, lo, hi)
    ensures multiset(s[lo..hi]) == multiset(t[lo..hi])
  {
    ThreeParts(s, lo, hi);
    ThreeParts(t, lo, hi);
    assert s[..lo] == t[..lo];
    assert s[hi..] == t[hi..];
    assert multiset(s[lo..hi]) == multiset(s) - multiset(s[..lo]) - multiset(s[hi..]);
    assert multiset(t[lo..hi]) == multiset(t) - multiset(t[..lo]) - multiset(t[hi..]);
  }

  /** The bars of a row are those before, inside and after a range. */
  lemma ThreeParts(s: seq<Item>, lo: int, hi: int)
    requires 0 <= lo <= hi <= |s|
    ensures multiset(s) == multiset(s[..lo]) + multiset(s[lo..hi]) + multiset(s[hi..])
  {
    assert s == s[..lo] + s[lo..hi] + s[hi..];
  }

  /** Exchanging two bars inside a range rearranges only that range. */
  lemma SwapPermutesWithin(t: seq<Item>, i: int, j: int, lo: int, hi: int)
    requires 0 <= lo <= i < hi <= |t| && lo <= j < hi
    ensures PermutedWithin(t[i := t[j]][j := t[i]], t, lo, hi)
  {
  }

  /** Leaving a row as it is rearranges any range of it. */
  lemma PermutedWithinSame(s: seq<Item>, lo: int, hi: int)
    requires 0 <= lo <= hi <= |s|
    ensures PermutedWithin(s, s, lo, hi)
  {
  }

  /** Rearrangements compose. */
  lemma PermutedWithinTrans(s: seq<Item>, t: seq<Item>, u: seq<Item>, lo: int, hi: int)
    requires PermutedWithin(s, t, lo, hi) && PermutedWithin(t, u, lo, hi)
    ensures PermutedWithin(s, u, lo, hi)
  {
  }

  /** A rearrangement of a smaller range is one of a larger range. */
  lemma {:induction false} PermutedWithinWiden(s: seq<Item>, t: seq<Item>, lo: int, hi: int, lo': int, hi': int)
    requires PermutedWithin(s, t, lo, hi) && 0 <= lo' <= lo && hi <= hi' <= |s|
    ensures PermutedWithin(s, t, lo', hi')
  {
  }

  /** A rearrangement of the whole row keeps its bars, each as often. */
  lemma PermutedWithinWhole(s: seq<Item>, t: seq<Item>)
    requires PermutedWithin(s, t, 0, |s|)
    ensures multiset(s) == multiset(t)
  {
  }

  /** A bound on every bar of a range survives its rearrangement. */
  lemma {:induction false} BoundSurvives(s: seq<Item>, t: seq<Item>, lo: int, hi: int, pivot: int, below: bool)
    requires PermutedWithin(s, t, lo, hi)
    requires forall k :: lo <= k < hi ==> if below then t[k].val < pivot else t[k].val >= pivot
    ensures forall k :: lo <= k < hi ==> if below then s[k].val < pivot else s[k].val >= pivot
  {
    RangeKeepsBars(s, t, lo, hi);
    forall k | lo <= k < hi
      ensures if below then s[k].val < pivot else s[k].val >= pivot
    {
      assert s[k] == s[lo..hi][k - lo];
      assert s[k] in multiset(t[lo..hi]);
      var m :| lo <= m < hi && t[m] == s[k] by {
        var r: nat :| r < |t[lo..hi]| && t[lo..hi][r] == s[k];
        assert t[lo + r] == s[k];
      }
    }
  }

  /** Two sorted ranges on either side of a pivot, the left below it and
      the right not below it, make one sorted range. */
  lemma JoinAroundPivot(s: seq<Item>, lo: int, pi: int, hi: int)
    requires 0 <= lo <= pi < hi <= |s|
    requires SortedRange(s, lo, pi) && SortedRange(s, pi + 1, hi)
    requires forall k :: lo <= k < pi ==> s[k].val < s[pi].val
    requires forall k :: pi < k < hi ==> s[k].val >= s[pi].val
    ensures SortedRange(s, lo, hi)
  {
  }

  /** Rearranging each side of the pivot rearranges `low..high`. */
  lemma JoinPermuted(s0: seq<Item>, s1: seq<Item>, s2: seq<Item>, s3: seq<Item>, low: int, pi: int, high: int)
    requires 0 <= low <= pi <= high < |s1| && PermutedWithin(s1, s0, low, high + 1)
    requires PermutedWithin(s2, s1, low, pi) && PermutedWithin(s3, s2, pi + 1, high + 1)
    ensures PermutedWithin(s3, s0, low, high + 1)
  {
    PermutedWithinWiden(s2, s1, low, pi, low, high + 1);
    PermutedWithinWiden(s3, s2, pi + 1, high + 1, low, high + 1);
    PermutedWithinTrans(s3, s2, s1, low, high + 1);
    PermutedWithinTrans(s3, s1, s0, low, high + 1);
  }

  /** The bar at `pi` is above every bar of `lo..pi-1` and not above any
      of `pi+1..hi`: the shape a partition leaves. */
  ghost predicate PivotBetween(s: seq<Item>, lo: int, pi: int, hi: int) {
    0 <= lo <= pi <= hi < |s|
    && (forall k :: lo <= k < pi ==> s[k].val < s[pi].val)
    && (forall k :: pi < k <= hi ==> s[k].val >= s[pi].val)
  }

  /** Sorting each side of the pivot in place sorts `low..high`. */
  lemma JoinSorted(s1: seq<Item>, s2: seq<Item>, s3: seq<Item>, low: int, pi: int, high: int)
    requires PivotBetween(s1, low, pi, high)
    requires PermutedWithin(s2, s1, low, pi) && SortedRange(s2, low, pi)
    requires PermutedWithin(s3, s2, pi + 1, high + 1) && SortedRange(s3, pi + 1, high + 1)
    ensures SortedRange(s3, low, high + 1)
  {
    Unmoved(s2, s1, low, pi, pi);
    Unmoved(s3, s2, pi + 1, high + 1, pi);
    BoundSurvives(s2, s1, low, pi, s1[pi].val, true);
    forall k | low <= k < pi
      ensures s3[k] == s2[k]
    {
      Unmoved(s3, s2, pi + 1, high + 1, k);
    }
    forall k | pi < k <= high
      ensures s2[k].val >= s1[pi].val
    {
      Unmoved(s2, s1, low, pi, k);
    }
    BoundSurvives(s3, s2, pi + 1, high + 1, s1[pi].val, false);
    JoinAroundPivot(s3, low, pi, high + 1);
  }

  /** A rearrangement of `lo..hi-1` leaves every other bar where it is. */
  lemma Unmoved(s: seq<Item>, t: seq<Item>, lo: int, hi: int, k: int)
    requires PermutedWithin(s, t, lo, hi) && 0 <= k < |s| && !(lo <= k < hi)
    ensures s[k] == t[k]
  {
  }
}
