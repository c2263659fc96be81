/**
 In-place next permutation (31. 下一个排列.py) against the lexicographic order.
 */
module NextPermutation {

  import opened Sequences

  // ---------------------------------------------------------------- the reference

  /** `d` is the first position where the two differ, and `a` is smaller there. */
  ghost predicate SmallerAt(a: seq<int>, b: seq<int>, d: nat)
  {
    d < |a| && d < |b| && a[..d] == b[..d] && a[d] < b[d]
  }

  ghost predicate LexLess(a: seq<int>, b: seq<int>)
  {
    exists d: nat :: SmallerAt(a, b, d)
  }

  /** `r` is the least permutation of `s` above `s`. */
  ghost predicate IsNext(s: seq<int>, r: seq<int>)
  {
    && Permutes(r, s) && LexLess(s, r)
    && forall p :: Permutes(p, s) && LexLess(s, p) ==> p == r || LexLess(r, p)
  }

  /** No permutation of `s` is above `s`. */
  ghost predicate IsLast(s: seq<int>)
  {
    forall p :: Permutes(p, s) ==> !LexLess(s, p)
  }

  ghost predicate Falling(s: seq<int>, from: nat)
  {
    forall i, j :: from <= i < j < |s| ==> s[i] >= s[j]
  }

  // ---------------------------------------------------------------- lemmas

  lemma {:induction false} FirstDifference(a: seq<int>, b: seq<int>) returns (d: nat)
    requires |a| == |b|
    ensures d <= |a| && a[..d] == b[..d] && (d < |a| ==> a[d] != b[d]) && (d == |a| ==> a == b)
  {
    d := 0;
    while d < |a| && a[d] == b[d]
      invariant d <= |a| && a[..d] == b[..d]
    {
      d := d + 1;
    }
    assert a[..|a|] == a && b[..|b|] == b;
  }

  /** What comes after a common front of two permutations is a permutation. */
  lemma PermutesFrom(a: seq<int>, b: seq<int>, d: nat)
    requires Permutes(a, b) && d <= |a| && d <= |b| && a[..d] == b[..d]
    ensures Permutes(a[d..], b[d..])
  {
    assert a == a[..d] + a[d..] && b == a[..d] + b[d..];
    PermutesTail(a[..d], a[d..], b[d..]);
  }

  /** An element of a permutation behind the common front comes from behind the front. */
  lemma ComesFromBehind(p: seq<int>, s: seq<int>, d: nat) returns (k: nat)
    requires Permutes(p, s) && |p| == |s| && d < |s| && p[..d] == s[..d]
    ensures d <= k < |s| && s[k] == p[d]
  {
    PermutesFrom(p, s, d);
    assert p[d] == p[d..][0] && p[d] in p[d..];
    PermutesIn(p[d..], s[d..], p[d]);
    var m :| 0 <= m < |s[d..]| && s[d..][m] == p[d];
    k := d + m;
  }

  /** Ascending order is the least permutation. */
  lemma SortedIsLeast(r: seq<int>, p: seq<int>)
    requires IsSorted(r) && Permutes(p, r)
    ensures p == r || LexLess(r, p)
  {
    PermutesLength(p, r);
    var d := FirstDifference(r, p);
    if d < |r| {
      var k := ComesFromBehind(p, r, d);
      assert SmallerAt(r, p, d);
    }
  }

  /** Nothing above `s` first differs from it inside a falling tail. */
  lemma FallingTailIsLast(s: seq<int>, p: seq<int>, d: nat)
    requires Permutes(p, s) && SmallerAt(s, p, d)
    ensures !Falling(s, d)
  {
    PermutesLength(p, s);
    var k := ComesFromBehind(p, s, d);
  }

  lemma FallingIsLast(s: seq<int>)
    requires Falling(s, 0)
    ensures IsLast(s)
  {
    forall p | Permutes(p, s) ensures !LexLess(s, p) {
      if LexLess(s, p) {
        var d: nat :| SmallerAt(s, p, d);
        FallingTailIsLast(s, p, d);
        assert Falling(s, d);
      }
    }
  }

  /** The pivot `j`, the rightmost larger element `i`, and the result `r` of swapping them and
      sorting what follows. */
  ghost predicate Advanced(s: seq<int>, j: nat, i: nat, r: seq<int>)
  {
    && j < i < |s| && |r| == |s|
    && s[j] < s[i] && Falling(s, j + 1)
    && (forall k :: i < k < |s| ==> s[k] <= s[j])
    && r[..j] == s[..j] && r[j] == s[i] && IsSorted(r[j + 1..]) && Permutes(r, s)
  }

  lemma SamePivotValue(s: seq<int>, j: nat, i: nat, r: seq<int>, p: seq<int>)
    requires Advanced(s, j, i, r) && Permutes(p, s) && |p| == |s|
    requires p[..j] == s[..j] && p[j] == r[j]
    ensures p == r || LexLess(r, p)
  {
    assert r[..j + 1] == r[..j] + [r[j]] == p[..j] + [p[j]] == p[..j + 1];
    PermutesFrom(p, r, j + 1);
    SortedIsLeast(r[j + 1..], p[j + 1..]);
    if p[j + 1..] == r[j + 1..] {
      assert p == p[..j + 1] + p[j + 1..] && r == r[..j + 1] + r[j + 1..];
    } else {
      var d: nat :| SmallerAt(r[j + 1..], p[j + 1..], d);
      assert r[..j + 1 + d] == r[..j + 1] + r[j + 1..][..d];
      assert p[..j + 1 + d] == p[..j + 1] + p[j + 1..][..d];
      assert SmallerAt(r, p, j + 1 + d);
    }
  }

  lemma NoneBetween(s: seq<int>, j: nat, i: nat, r: seq<int>, p: seq<int>)
    requires Advanced(s, j, i, r) && Permutes(p, s) && LexLess(s, p)
    ensures p == r || LexLess(r, p)
  {
    PermutesLength(p, s);
    var d: nat :| SmallerAt(s, p, d);
    if d > j {
      FallingTailIsLast(s, p, d);
    } else if d < j {
      assert r[..d] == r[..j][..d] == s[..j][..d] == p[..d] && r[d] == s[..j][d];
      assert SmallerAt(r, p, d);
    } else {
      var k := ComesFromBehind(p, s, j);
      assert k > j && k <= i;
      if p[j] == r[j] {
        SamePivotValue(s, j, i, r, p);
      } else {
        assert SmallerAt(r, p, j);
      }
    }
  }

  lemma AdvancedIsNext(s: seq<int>, j: nat, i: nat, r: seq<int>)
    requires Advanced(s, j, i, r)
    ensures IsNext(s, r)
  {
    assert SmallerAt(s, r, j);
    forall p | Permutes(p, s) && LexLess(s, p) ensures p == r || LexLess(r, p) {
      NoneBetween(s, j, i, r, p);
    }
  }

  // ---------------------------------------------------------------- the algorithm

  /** Swapping two positions permutes. */
  lemma SwapPermutes(s: seq<int>, i: nat, j: nat)
    requires i < |s| && j < |s|
    ensures Permutes(s[i := s[j]][j := s[i]], s)
  {
  }

  lemma SortedOfPermuted(t: seq<int>, s: seq<int>)
    requires Permutes(t, s)
    ensures Sorted(t) == Sorted(s) && Permutes(Sorted(s), s)
  {
    hide Sorted, IsSorted;
    SortedUnique(Sorted(t), Sorted(s));
  }

  lemma SortTailPermutes(s: seq<int>, k: nat)
    requires k <= |s|
    ensures Permutes(s[..k] + Sorted(s[k..]), s)
  {
    assert s == s[..k] + s[k..];
  }

  /** One call turns `s` into `r`: the next permutation, or ascending order after the last one. */
  ghost predicate Steps(s: seq<int>, r: seq<int>)
  {
    && Permutes(r, s)
    && (IsLast(s) ==> r == Sorted(s))
    && (!IsLast(s) ==> IsNext(s, r))
  }

  lemma NextIsNotLast(s: seq<int>, r: seq<int>)
    requires IsNext(s, r)
    ensures !IsLast(s) && Permutes(r, s)
  {
  }

  lemma PivotPermutes(s: seq<int>, j: nat, i: nat)
    requires j < |s| && i < |s|
    ensures var t := s[i := s[j]][j := s[i]];
            Permutes(t[..j + 1] + Sorted(t[j + 1..]), s)
  {
    hide Sorted, IsSorted;
    SwapPermutes(s, i, j);
    SortTailPermutes(s[i := s[j]][j := s[i]], j + 1);
  }

  lemma PivotAdvances(s: seq<int>, j: nat, i: nat)
    requires j < i < |s| && s[j] < s[i] && Falling(s, j + 1)
    requires forall k :: i < k < |s| ==> s[k] <= s[j]
    ensures var t := s[i := s[j]][j := s[i]];
            Advanced(s, j, i, t[..j + 1] + Sorted(t[j + 1..]))
  {
    hide Falling, Sorted, IsSorted, Permutes;
    var t := s[i := s[j]][j := s[i]];
    var r := t[..j + 1] + Sorted(t[j + 1..]);
    PivotPermutes(s, j, i);
    assert r[..j] == s[..j] && r[j] == s[i] && r[j + 1..] == Sorted(t[j + 1..]);
  }

  /** The outcome when a pivot was found. */
  lemma PivotStep(s: seq<int>, j: nat, i: nat)
    requires j < i < |s| && s[j] < s[i] && Falling(s, j + 1)
    requires forall k :: i < k < |s| ==> s[k] <= s[j]
    ensures var t := s[i := s[j]][j := s[i]];
            Steps(s, t[..j + 1] + Sorted(t[j + 1..]))
  {
    hide Advanced, IsNext, IsLast, Permutes, Falling, Sorted;
    var t := s[i := s[j]][j := s[i]];
    var r := t[..j + 1] + Sorted(t[j + 1..]);
    PivotAdvances(s, j, i);
    AdvancedIsNext(s, j, i, r);
    NextIsNotLast(s, r);
  }

  /** The outcome when the list falls from end to end: Python's nums[-1] is the last element. */
  lemma NoPivotStep(s: seq<int>, i: nat)
    requires i < |s| && Falling(s, 0)
    ensures Steps(s, Sorted(s[i := s[|s| - 1]][|s| - 1 := s[i]]))
  {
    hide Falling, IsSorted, IsLast, IsNext, Sorted, Permutes;
    var t := s[i := s[|s| - 1]][|s| - 1 := s[i]];
    SwapPermutes(s, i, |s| - 1);
    SortedOfPermuted(t, s);
    FallingIsLast(s);
  }

  lemma AllEqualStep(s: seq<int>)
    requires Falling(s, 0) && forall k :: 0 <= k < |s| ==> s[k] <= s[|s| - 1]
    ensures Steps(s, s)
  {
    hide IsLast;
    SortedUnique(Sorted(s), s);
    FallingIsLast(s);
  }

  lemma LastFalls(s: seq<int>)
    requires s != []
    ensures Falling(s, |s| - 1)
  {
  }

  lemma FallsFurther(s: seq<int>, i: nat)
    requires 0 < i < |s| && Falling(s, i) && s[i - 1] >= s[i]
    ensures Falling(s, i - 1)
  {
  }

  /** nums[k:] = sorted(nums[k:]) */
  method SortTail(nums: array<int>, k: nat)
    requires k <= nums.Length
    modifies nums
    ensures nums[..] == old(nums[..k]) + Sorted(old(nums[k..]))
    ensures k == 0 ==> nums[..] == Sorted(old(nums[..]))
  {
    hide Sorted, IsSorted, Permutes;
    ghost var tail := Sorted(nums[k..]);
    WriteSlice(nums, k, Sorted(nums[k..]));
    assert nums[..] == nums[..k] + nums[k..k + |tail|];
    if k == 0 { assert old(nums[0..]) == old(nums[..]); }
  }

  /** Swaps two positions, then sorts from `k` on. */
  method SwapAndSort(nums: array<int>, i: nat, pivot: nat, k: nat)
    requires i < nums.Length && pivot < nums.Length && k <= nums.Length
    modifies nums
    ensures var s := old(nums[..]);
            var t := s[i := s[pivot]][pivot := s[i]];
            nums[..] == t[..k] + Sorted(t[k..]) && (k == 0 ==> nums[..] == Sorted(t))
  {
    hide Sorted, IsSorted, Permutes;
    ghost var s := nums[..];
    nums[i], nums[pivot] := nums[pivot], nums[i];
    assert nums[..] == s[i := s[pivot]][pivot := s[i]];
    SortTail(nums, k);
  }

  lemma EmptyStep(s: seq<int>)
    requires s == []
    ensures Steps(s, s)
  {
  }

  method Next(nums: array<int>)
    modifies nums
    ensures Steps(old(nums[..]), nums[..])
  {
    hide Steps, Falling, Sorted, IsSorted, Permutes;
    ghost var s := nums[..];
    var n := nums.Length;
    if n == 0 {
      EmptyStep(s);
      return;
    }
    var i, j := n - 1, -1;
    LastFalls(s);
    while i > 0
      invariant 0 <= i < n && nums[..] == s && j == -1 && Falling(s, i)
    {
      if nums[i - 1] < nums[i] {
        j := i - 1;
        break;
      }
      FallsFurther(s, i);
      i := i - 1;
    }
    var pivot := if j < 0 then n + j else j;   // Python's index j
    i := n - 1;
    while i >= 0
      invariant -1 <= i < n && nums[..] == s
      invariant forall k :: i < k < n ==> s[k] <= s[pivot]
    {
      if nums[i] > nums[pivot] {
        SwapAndSort(nums, i, pivot, j + 1);
        if j >= 0 {
          PivotStep(s, j, i);
        } else {
          NoPivotStep(s, i);
        }
        return;
      }
      i := i - 1;
    }
    AllEqualStep(s);
  }
}
