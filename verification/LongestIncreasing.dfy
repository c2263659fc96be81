/**
 Longest strictly increasing subsequence (300、最长上升子序列.py): the quadratic table and the
 tails / bisect version that also rebuilds a subsequence.

 `Rank(a, i)` is the recurrence of the quadratic version.  What a subsequence is, and what it means
 to be longest, is stated on index sequences and does not mention ranks.
 */
module LongestIncreasing {

  import opened Prelude

  // ---------------------------------------------------------------- the reference

  /** `idx` picks increasing positions of `a` holding strictly increasing values. */
  ghost predicate IsIncreasing(a: seq<int>, idx: seq<int>)
  {
    && (forall k :: 0 <= k < |idx| ==> 0 <= idx[k] < |a|)
    && (forall j, k :: 0 <= j < k < |idx| ==> idx[j] < idx[k] && a[idx[j]] < a[idx[k]])
  }

  /** `n` is the length of the longest increasing subsequences of `a`. */
  ghost predicate IsLongest(a: seq<int>, n: nat)
  {
    && (exists idx :: IsIncreasing(a, idx) && |idx| == n)
    && (forall idx :: IsIncreasing(a, idx) ==> |idx| <= n)
  }

  /** So the two versions agree on the length. */
  lemma LongestIsUnique(a: seq<int>, n: nat, m: nat)
    requires IsLongest(a, n) && IsLongest(a, m)
    ensures n == m
  {
  }

  /** `s` lists the values at the positions `idx`. */
  ghost predicate Picks(a: seq<int>, idx: seq<int>, s: seq<int>)
  {
    && |idx| == |s|
    && forall k :: 0 <= k < |idx| ==> 0 <= idx[k] < |a| && s[k] == a[idx[k]]
  }

  // ---------------------------------------------------------------- ranks

  /** 1 + the largest rank before `i` among smaller values, looking at positions below `j` only. */
  function RankFrom(a: seq<int>, i: nat, j: nat): (r: nat)
    requires j <= i < |a|
    ensures r >= 1
    decreases i, j
  {
    if j == 0 then 1
    else
      var r := RankFrom(a, i, j - 1);
      if a[j - 1] < a[i] then Max(r, Rank(a, j - 1) + 1) else r
  }

  /** Length of the longest increasing subsequence that ends at `i`. */
  function Rank(a: seq<int>, i: nat): (r: nat)
    requires i < |a|
    ensures r >= 1
    decreases i, i + 1
  {
    RankFrom(a, i, i)
  }

  lemma {:induction false} RankFromAbove(a: seq<int>, k: nat, i: nat, j: nat)
    requires k < j <= i < |a| && a[k] < a[i]
    ensures Rank(a, k) < RankFrom(a, i, j)
    decreases j
  {
    if k < j - 1 { RankFromAbove(a, k, i, j - 1); }
  }

  lemma {:induction false} RankFromWitness(a: seq<int>, i: nat, j: nat) returns (k: nat)
    requires j <= i < |a| && RankFrom(a, i, j) > 1
    ensures k < j && a[k] < a[i] && Rank(a, k) == RankFrom(a, i, j) - 1
    decreases j
  {
    if a[j - 1] < a[i] && RankFrom(a, i, j) == Rank(a, j - 1) + 1 {
      k := j - 1;
    } else {
      k := RankFromWitness(a, i, j - 1);
    }
  }

  /** A larger value further right has a larger rank. */
  lemma RankAbove(a: seq<int>, k: nat, i: nat)
    requires k < i < |a| && a[k] < a[i]
    ensures Rank(a, k) < Rank(a, i)
  {
    RankFromAbove(a, k, i, i);
  }

  /** Every rank above 1 builds on the rank just below it. */
  lemma RankWitness(a: seq<int>, i: nat) returns (k: nat)
    requires i < |a| && Rank(a, i) > 1
    ensures k < i && a[k] < a[i] && Rank(a, k) == Rank(a, i) - 1
  {
    k := RankFromWitness(a, i, i);
  }

  /** An increasing subsequence is never longer than the rank of its last position. */
  lemma {:induction false} RankBounds(a: seq<int>, idx: seq<int>)
    requires IsIncreasing(a, idx) && |idx| > 0
    ensures |idx| <= Rank(a, idx[|idx| - 1])
    decreases |idx|
  {
    hide Rank;
    if |idx| > 1 {
      RankBounds(a, idx[..|idx| - 1]);
      RankAbove(a, idx[|idx| - 2], idx[|idx| - 1]);
    }
  }

  lemma {:induction false} RankAchieved(a: seq<int>, i: nat) returns (idx: seq<int>)
    requires i < |a|
    ensures IsIncreasing(a, idx) && |idx| == Rank(a, i) && idx[|idx| - 1] == i
    decreases i
  {
    hide Rank;
    if Rank(a, i) == 1 {
      idx := [i];
    } else {
      var k := RankWitness(a, i);
      var shorter := RankAchieved(a, k);
      idx := shorter + [i];
      assert forall j :: 0 <= j < |shorter| - 1 ==> shorter[j] < k && a[shorter[j]] < a[k];
    }
  }

  lemma NoLongerThanRanks(a: seq<int>, n: nat, idx: seq<int>)
    requires forall i :: 0 <= i < |a| ==> Rank(a, i) <= n
    requires IsIncreasing(a, idx)
    ensures |idx| <= n
  {
    hide Rank;
    if |idx| > 0 { RankBounds(a, idx); }
  }

  lemma NothingIncreases(a: seq<int>)
    ensures IsIncreasing(a, [])
  {
  }

  /** The largest rank is the answer. */
  lemma GreatestRankIsLongest(a: seq<int>, n: nat)
    requires forall i :: 0 <= i < |a| ==> Rank(a, i) <= n
    requires if a == [] then n == 0 else exists i :: 0 <= i < |a| && Rank(a, i) == n
    ensures IsLongest(a, n)
  {
    hide Rank, IsIncreasing;
    assert IsIncreasing(a, []) by { NothingIncreases(a); }
    if a != [] {
      var i :| 0 <= i < |a| && Rank(a, i) == n;
      var idx := RankAchieved(a, i);
    }
    forall idx | IsIncreasing(a, idx) ensures |idx| <= n {
      NoLongerThanRanks(a, n, idx);
    }
  }

  lemma LongestOfNothing(n: nat)
    requires IsLongest([], n)
    ensures n == 0
  {
    var idx :| IsIncreasing([], idx) && |idx| == n;
    NoLongerThanRanks([], 0, idx);
  }

  /** Equal ranks never increase in value from left to right. */
  lemma EqualRanks(a: seq<int>, i: nat, j: nat)
    requires i < j < |a| && Rank(a, i) == Rank(a, j)
    ensures a[i] >= a[j]
  {
    if a[i] < a[j] { RankAbove(a, i, j); }
  }

  // ---------------------------------------------------------------- the quadratic table

  method LengthOfLis(nums: seq<int>) returns (n: nat)
    ensures IsLongest(nums, n)
  {
    hide Rank, IsLongest;
    if nums == [] {
      GreatestRankIsLongest(nums, 0);
      return 0;
    }
    var dp := new int[|nums|](_ => 1);
    if Rank(nums, 0) > 1 { var k := RankWitness(nums, 0); }
    for i := 1 to |nums|
      invariant forall k :: 0 <= k < i ==> dp[k] == Rank(nums, k)
      invariant forall k :: i <= k < |nums| ==> dp[k] == 1
    {
      for j := i + 1 downto 0
        invariant forall k :: 0 <= k < i ==> dp[k] == Rank(nums, k)
        invariant forall k :: i < k < |nums| ==> dp[k] == 1
        invariant 1 <= dp[i] <= Rank(nums, i)
        invariant forall k :: j <= k < i && nums[k] < nums[i] ==> Rank(nums, k) < dp[i]
      {
        if nums[j] < nums[i] {
          RankAbove(nums, j, i);
          dp[i] := Max(dp[i], dp[j] + 1);
        }
      }
      if Rank(nums, i) > 1 { var k := RankWitness(nums, i); }
    }
    n := dp[0];
    for i := 1 to |nums|
      invariant forall k :: 0 <= k < |nums| ==> dp[k] == Rank(nums, k)
      invariant exists k :: 0 <= k < |nums| && n == Rank(nums, k)
      invariant forall k :: 0 <= k < i ==> Rank(nums, k) <= n
    {
      n := Max(n, dp[i]);
    }
    GreatestRankIsLongest(nums, n);
  }

  // ---------------------------------------------------------------- tails and bisect

  ghost predicate Ascending(s: seq<int>)
  {
    forall j, k :: 0 <= j < k < |s| ==> s[j] < s[k]
  }

  /** bisect.bisect_left on a strictly ascending list. */
  method BisectLeft(s: seq<int>, x: int) returns (pos: nat)
    requires Ascending(s)
    ensures pos <= |s|
    ensures forall k :: 0 <= k < pos ==> s[k] < x
    ensures forall k :: pos <= k < |s| ==> x <= s[k]
  {
    var lo, hi := 0, |s|;
    while lo < hi
      invariant 0 <= lo <= hi <= |s|
      invariant forall k :: 0 <= k < lo ==> s[k] < x
      invariant forall k :: hi <= k < |s| ==> x <= s[k]
    {
      var mid := (lo + hi) / 2;
      if s[mid] < x { lo := mid + 1; } else { hi := mid; }
    }
    pos := lo;
  }

  ghost predicate TailAt(a: seq<int>, n: nat, helper: seq<int>, k: nat)
    requires n <= |a| && k < |helper|
  {
    exists i :: 0 <= i < n && Rank(a, i) == k + 1 && a[i] == helper[k]
  }

  /** The tail of the rank of a[i] is no greater than a[i]. */
  ghost predicate Covered(a: seq<int>, helper: seq<int>, i: nat)
    requires i < |a|
  {
    Rank(a, i) <= |helper| && helper[Rank(a, i) - 1] <= a[i]
  }

  /** After the first `n` values, helper[k] is the least of those with rank k + 1. */
  ghost predicate Tails(a: seq<int>, n: nat, helper: seq<int>)
    requires n <= |a|
  {
    && Ascending(helper)
    && (forall i :: 0 <= i < n ==> Covered(a, helper, i))
    && (forall k :: 0 <= k < |helper| ==> TailAt(a, n, helper, k))
  }

  lemma TailIndex(a: seq<int>, n: nat, helper: seq<int>, k: nat) returns (i: nat)
    requires n <= |a| && k < |helper| && TailAt(a, n, helper, k)
    ensures i < n && Rank(a, i) == k + 1 && a[i] == helper[k]
  {
    hide Rank;
    i :| 0 <= i < n && Rank(a, i) == k + 1 && a[i] == helper[k];
  }

  /** The place of a[n] among the tails is its rank less one. */
  lemma RankIsPlace(a: seq<int>, n: nat, helper: seq<int>, pos: nat)
    requires n < |a| && Tails(a, n, helper)
    requires pos <= |helper|
    requires forall k :: 0 <= k < pos ==> helper[k] < a[n]
    requires forall k :: pos <= k < |helper| ==> a[n] <= helper[k]
    ensures Rank(a, n) == pos + 1
  {
    hide Rank, Ascending, TailAt;
    if pos > 0 {
      var i := TailIndex(a, n, helper, pos - 1);
      RankAbove(a, i, n);
    }
    if Rank(a, n) > 1 {
      var k := RankWitness(a, n);
      assert Covered(a, helper, k);
    }
  }

  function Placed(helper: seq<int>, pos: nat, x: int): seq<int>
    requires pos <= |helper|
  {
    if pos < |helper| then helper[pos := x] else helper + [x]
  }

  lemma PlacedLength(helper: seq<int>, pos: nat, x: int)
    requires pos <= |helper|
    ensures |Placed(helper, pos, x)| == if pos < |helper| then |helper| else |helper| + 1
  {
  }

  lemma PlacedAscending(helper: seq<int>, pos: nat, x: int)
    requires pos <= |helper| && Ascending(helper)
    requires forall k :: 0 <= k < pos ==> helper[k] < x
    requires forall k :: pos <= k < |helper| ==> x <= helper[k]
    ensures Ascending(Placed(helper, pos, x))
  {
  }

  lemma PlacedTailAt(a: seq<int>, n: nat, helper: seq<int>, pos: nat, k: nat)
    requires n < |a| && pos <= |helper| && Rank(a, n) == pos + 1
    requires k < |Placed(helper, pos, a[n])| && (k != pos ==> TailAt(a, n, helper, k))
    ensures TailAt(a, n + 1, Placed(helper, pos, a[n]), k)
  {
    hide Rank;
    if k != pos {
      var i :| 0 <= i < n && Rank(a, i) == k + 1 && a[i] == helper[k];
    }
  }

  lemma PlacedCovers(a: seq<int>, n: nat, helper: seq<int>, pos: nat, i: nat)
    requires i <= n < |a| && pos <= |helper| && Rank(a, n) == pos + 1
    requires i < n ==> Covered(a, helper, i)
    requires pos < |helper| ==> a[n] <= helper[pos]
    ensures Covered(a, Placed(helper, pos, a[n]), i)
  {
    hide Rank;
  }

  /** Placing a[n] keeps the tails right. */
  lemma TailsExtend(a: seq<int>, n: nat, helper: seq<int>, pos: nat)
    requires n < |a| && Tails(a, n, helper)
    requires pos <= |helper|
    requires forall k :: 0 <= k < pos ==> helper[k] < a[n]
    requires forall k :: pos <= k < |helper| ==> a[n] <= helper[k]
    ensures Rank(a, n) == pos + 1 && Tails(a, n + 1, Placed(helper, pos, a[n]))
  {
    hide Rank, Covered, TailAt, Ascending, Placed;
    RankIsPlace(a, n, helper, pos);
    PlacedAscending(helper, pos, a[n]);
    var m, placed := n + 1, Placed(helper, pos, a[n]);
    PlacedLength(helper, pos, a[n]);
    forall i: nat | i <= n ensures Covered(a, placed, i) {
      PlacedCovers(a, n, helper, pos, i);
    }
    forall k: nat | k < |placed| ensures TailAt(a, m, placed, k) {
      PlacedTailAt(a, n, helper, pos, k);
    }
  }

  // ---------------------------------------------------------------- reconstruction

  ghost predicate Before(a: seq<int>, length: nat, i: nat, idx: seq<int>)
    requires i <= |a| && forall k :: 0 <= k < |idx| ==> 0 <= idx[k] < |a|
  {
    exists j :: 0 <= j < i && Rank(a, j) == length && (idx != [] ==> a[j] < a[idx[0]])
  }

  /** helper[length..] already holds the end of a subsequence, picked at `idx` from positions >= i;
      a value of rank `length` that can go before it is still to come. */
  ghost predicate Rebuilt(a: seq<int>, helper: seq<int>, length: nat, i: nat, idx: seq<int>)
  {
    && i <= |a| && length <= |helper|
    && IsIncreasing(a, idx) && Picks(a, idx, helper[length..])
    && (forall k :: 0 <= k < |idx| ==> i <= idx[k])
    && (length > 0 ==> Before(a, length, i, idx))
  }

  lemma TakeElement(a: seq<int>, helper: seq<int>, length: nat, i: nat, idx: seq<int>)
    requires 0 < i && length > 0 && Rebuilt(a, helper, length, i, idx) && Rank(a, i - 1) == length
    ensures Rebuilt(a, helper[length - 1 := a[i - 1]], length - 1, i - 1, [i - 1] + idx)
  {
    hide Rank;
    var j :| 0 <= j < i && Rank(a, j) == length && (idx != [] ==> a[j] < a[idx[0]]);
    if j < i - 1 { EqualRanks(a, j, i - 1); }
    var longer := [i - 1] + idx;
    assert IsIncreasing(a, longer) by {
      forall k | 0 <= k < |idx| ensures i - 1 < idx[k] && a[i - 1] < a[idx[k]] {
        assert a[idx[0]] <= a[idx[k]];
      }
    }
    var helper' := helper[length - 1 := a[i - 1]];
    assert helper'[length - 1..] == [a[i - 1]] + helper[length..];
    if length > 1 {
      var k := RankWitness(a, i - 1);
      assert Before(a, length - 1, i - 1, longer);
    }
  }

  lemma SkipElement(a: seq<int>, helper: seq<int>, length: nat, i: nat, idx: seq<int>)
    requires 0 < i && Rebuilt(a, helper, length, i, idx) && Rank(a, i - 1) != length
    ensures Rebuilt(a, helper, length, i - 1, idx)
  {
    hide Rank;
  }

  lemma TailsAscend(a: seq<int>, n: nat, helper: seq<int>)
    requires n <= |a| && Tails(a, n, helper)
    ensures Ascending(helper)
    ensures forall j, k :: 0 <= j < k < |helper| ==> helper[j] < helper[k]
  {
  }

  lemma FirstRank(a: seq<int>)
    requires a != []
    ensures Rank(a, 0) == 1
  {
  }

  lemma StartTails(a: seq<int>)
    requires a != []
    ensures Rank(a, 0) == 1 && Tails(a, 1, [a[0]])
  {
    hide Rank;
    FirstRank(a);
    assert TailAt(a, 1, [a[0]], 0);
  }

  /** The number of tails is the greatest rank, and some value of that rank starts the rebuilding. */
  lemma StartRebuilding(a: seq<int>, helper: seq<int>)
    requires a != [] && Tails(a, |a|, helper)
    ensures IsLongest(a, |helper|) && Rebuilt(a, helper, |helper|, |a|, [])
  {
    hide Rank;
    forall i | 0 <= i < |a| ensures Rank(a, i) <= |helper| {
      assert Covered(a, helper, i);
    }
    assert 0 < Rank(a, 0) <= |helper|;
    assert TailAt(a, |a|, helper, |helper| - 1);
    GreatestRankIsLongest(a, |helper|);
    assert helper[|helper|..] == [];
    assert Before(a, |helper|, |a|, []);
  }

  lemma AllRebuilt(a: seq<int>, helper: seq<int>, length: nat, idx: seq<int>)
    requires Rebuilt(a, helper, length, 0, idx)
    ensures IsIncreasing(a, idx) && Picks(a, idx, helper)
  {
    assert length == 0;
    assert helper[0..] == helper;
  }

  /** Returns None on the empty list, otherwise the values of a longest increasing subsequence. */
  method LongestSubsequence(arr: seq<int>) returns (res: Option<seq<int>>)
    ensures res.None? <==> arr == []
    ensures res.Some? ==> IsLongest(arr, |res.value|)
    ensures res.Some? ==> exists idx :: IsIncreasing(arr, idx) && Picks(arr, idx, res.value)
  {
    hide Rank, Ascending, IsLongest, IsIncreasing, Picks, Tails, Rebuilt;
    if arr == [] {
      return None;
    }
    var n := |arr|;
    var dp := new int[n](_ => 1);
    var helper := [arr[0]];
    StartTails(arr);
    for i := 1 to n
      invariant helper != [] && Tails(arr, i, helper)
      invariant forall k :: 0 <= k < i ==> dp[k] == Rank(arr, k)
    {
      var a := arr[i];
      TailsAscend(arr, i, helper);
      if a > helper[|helper| - 1] {
        TailsExtend(arr, i, helper, |helper|);
        helper := helper + [a];
        dp[i] := |helper|;
      } else {
        var pos := BisectLeft(helper, a);
        TailsExtend(arr, i, helper, pos);
        dp[i] := pos + 1;
        helper := helper[pos := a];
      }
    }
    var length := |helper|;
    StartRebuilding(arr, helper);
    ghost var idx := [];
    for i := n downto 0
      invariant 0 <= length <= |helper|
      invariant forall k :: 0 <= k < n ==> dp[k] == Rank(arr, k)
      invariant IsLongest(arr, |helper|)
      invariant Rebuilt(arr, helper, length, i, idx)
    {
      if dp[i] == length {
        TakeElement(arr, helper, length, i + 1, idx);
        length := length - 1;
        helper := helper[length := arr[i]];
        idx := [i] + idx;
      } else {
        SkipElement(arr, helper, length, i + 1, idx);
      }
    }
    AllRebuilt(arr, helper, length, idx);
    return Some(helper);
  }
}
