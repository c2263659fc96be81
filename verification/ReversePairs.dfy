/**
 Counting reverse pairs while merge sorting in place (493、翻转对.py).

 The reference is the set of index pairs p < q with nums[p] > 2 * nums[q].
 */
module ReversePairs {
  import opened Sequences

  /** The reverse pairs of `s` whose left position is at least `lo`. */
  ghost function PairsFrom(s: seq<int>, lo: nat): set<(int, int)>
  {
    set p, q | lo <= p < q < |s| && s[p] > 2 * s[q] :: (p, q)
  }

  // ---------------------------------------------------------------- counting without indices

  /** Number of values of `t` whose double is below `x`. */
  function Below(t: seq<int>, x: int): (n: nat)
  {
    if t == [] then 0 else (if 2 * t[0] < x then 1 else 0) + Below(t[1..], x)
  }

  /** Number of pairs from `a` and `b` that are reverse pairs. */
  function Cross(a: seq<int>, b: seq<int>): (n: nat)
  {
    if a == [] then 0 else Below(b, a[0]) + Cross(a[1..], b)
  }

  function Count(s: seq<int>): (n: nat)
  {
    if s == [] then 0 else Below(s[1..], s[0]) + Count(s[1..])
  }

  /** The reverse pairs with left position `p` and right position at least `m`. */
  ghost function Row(s: seq<int>, p: nat, m: nat): set<(int, int)>
    requires p < |s|
  {
    set q | m <= q < |s| && s[p] > 2 * s[q] :: (p, q)
  }

  lemma RowMember(s: seq<int>, p: nat, m: nat)
    requires p < |s|
    ensures forall e :: e in Row(s, p, m) <==> e.0 == p && m <= e.1 < |s| && s[p] > 2 * s[e.1]
    ensures forall e :: e in Row(s, p, m + 1) <==> e.0 == p && m < e.1 < |s| && s[p] > 2 * s[e.1]
  {
  }

  lemma RowStep(s: seq<int>, p: nat, m: nat)
    requires p < m < |s|
    ensures |Row(s, p, m)| == |Row(s, p, m + 1)| + if s[p] > 2 * s[m] then 1 else 0
  {
    hide Row;
    RowMember(s, p, m);
    var rest := Row(s, p, m + 1);
    if s[p] > 2 * s[m] {
      assert Row(s, p, m) == rest + {(p, m)};
    } else {
      assert Row(s, p, m) == rest;
    }
  }

  lemma {:induction false} BelowIsRow(s: seq<int>, p: nat, m: nat)
    requires p < m <= |s|
    ensures |Row(s, p, m)| == Below(s[m..], s[p])
    decreases |s| - m
  {
    if m < |s| {
      RowStep(s, p, m);
      BelowIsRow(s, p, m + 1);
      assert s[m..][1..] == s[m + 1..];
    }
  }

  lemma {:induction false} CountIsPairs(s: seq<int>, lo: nat)
    requires lo <= |s|
    ensures |PairsFrom(s, lo)| == Count(s[lo..])
    decreases |s| - lo
  {
    if lo < |s| {
      BelowIsRow(s, lo, lo + 1);
      CountIsPairs(s, lo + 1);
      assert PairsFrom(s, lo) == Row(s, lo, lo + 1) + PairsFrom(s, lo + 1);
      assert s[lo..][1..] == s[lo + 1..];
    } else {
      assert PairsFrom(s, lo) == {};
    }
  }

  lemma {:induction false} BelowConcat(a: seq<int>, b: seq<int>, x: int)
    ensures Below(a + b, x) == Below(a, x) + Below(b, x)
    decreases |a|
  {
    if a == [] {
      assert a + b == b;
    } else {
      assert (a + b)[1..] == a[1..] + b;
      BelowConcat(a[1..], b, x);
    }
  }

  lemma {:induction false} CrossConcat(a: seq<int>, a': seq<int>, b: seq<int>)
    ensures Cross(a + a', b) == Cross(a, b) + Cross(a', b)
    decreases |a|
  {
    if a == [] {
      assert a + a' == a';
    } else {
      assert (a + a')[1..] == a[1..] + a';
      CrossConcat(a[1..], a', b);
    }
  }

  lemma {:induction false} CountConcat(a: seq<int>, b: seq<int>)
    ensures Count(a + b) == Count(a) + Count(b) + Cross(a, b)
    decreases |a|
  {
    if a == [] {
      assert a + b == b;
    } else {
      assert (a + b)[1..] == a[1..] + b;
      CountConcat(a[1..], b);
      BelowConcat(a[1..], b, a[0]);
    }
  }

  // ---------------------------------------------------------------- sorting the halves changes nothing

  /** Taking out position `k`. */
  lemma BelowWithout(t: seq<int>, k: nat, x: int)
    requires k < |t|
    ensures Below(t, x) == Below(t[..k] + t[k + 1..], x) + if 2 * t[k] < x then 1 else 0
  {
    BelowConcat(t[..k], t[k..], x);
    BelowConcat(t[..k], t[k + 1..], x);
    assert t == t[..k] + t[k..] && t[k..][1..] == t[k + 1..];
  }

  lemma {:induction false} BelowPermutes(t: seq<int>, t': seq<int>, x: int)
    requires Permutes(t, t')
    ensures Below(t, x) == Below(t', x)
    decreases |t|
  {
    hide Permutes, Below;
    PermutesLength(t, t');
    if t != [] {
      PermutesIn(t, t', t[0]);
      var k :| 0 <= k < |t'| && t'[k] == t[0];
      PermutesWithout(t, t', 0, k);
      BelowPermutes(t[..0] + t[1..], t'[..k] + t'[k + 1..], x);
      BelowWithout(t, 0, x);
      BelowWithout(t', k, x);
    }
  }

  lemma {:induction false} CrossPermutes(a: seq<int>, a': seq<int>, b: seq<int>)
    requires Permutes(a, a')
    ensures Cross(a, b) == Cross(a', b)
    decreases |a|
  {
    hide Permutes;
    PermutesLength(a, a');
    if a != [] {
      PermutesIn(a, a', a[0]);
      var k :| 0 <= k < |a'| && a'[k] == a[0];
      PermutesWithout(a, a', 0, k);
      assert a[..0] + a[1..] == a[1..];
      CrossPermutes(a[1..], a'[..k] + a'[k + 1..], b);
      CrossConcat(a'[..k], a'[k + 1..], b);
      CrossConcat(a'[..k], [a[0]] + a'[k + 1..], b);
      assert a' == a'[..k] + ([a[0]] + a'[k + 1..]);
      assert ([a[0]] + a'[k + 1..])[1..] == a'[k + 1..];
    }
  }

  lemma {:induction false} CrossPermutesRight(a: seq<int>, b: seq<int>, b': seq<int>)
    requires Permutes(b, b')
    ensures Cross(a, b) == Cross(a, b')
    decreases |a|
  {
    if a != [] {
      BelowPermutes(b, b', a[0]);
      CrossPermutesRight(a[1..], b, b');
    }
  }

  lemma CrossOfSorted(a: seq<int>, b: seq<int>)
    ensures Cross(Sorted(a), Sorted(b)) == Cross(a, b)
  {
    CrossPermutes(Sorted(a), a, Sorted(b));
    CrossPermutesRight(a, Sorted(b), b);
  }

  lemma SortedHalves(a: seq<int>, b: seq<int>)
    ensures Sorted(Sorted(a) + Sorted(b)) == Sorted(a + b)
  {
    SortedUnique(Sorted(Sorted(a) + Sorted(b)), Sorted(a + b));
  }

  /** On sorted values the count is the place where the doubles reach `x`. */
  lemma {:induction false} BelowIsPlace(t: seq<int>, x: int, k: nat)
    requires k <= |t|
    requires forall i :: 0 <= i < k ==> 2 * t[i] < x
    requires forall i :: k <= i < |t| ==> 2 * t[i] >= x
    ensures Below(t, x) == k
    decreases |t|
  {
    if t != [] {
      BelowIsPlace(t[1..], x, if k > 0 then k - 1 else 0);
    }
  }

  // ---------------------------------------------------------------- the algorithm

  /** left[..i] is counted, and the first `j` values of `right` are below left[i - 1]. */
  ghost predicate Counted(left: seq<int>, right: seq<int>, i: nat, j: nat, count: nat)
  {
    && i <= |left| && j <= |right|
    && count == Cross(left[..i], right)
    && forall k :: 0 <= k < j && i < |left| ==> 2 * right[k] < left[i]
  }

  lemma CountRow(left: seq<int>, right: seq<int>, i: nat, j: nat, count: nat)
    requires IsSorted(left) && IsSorted(right) && i < |left| && Counted(left, right, i, j, count)
    requires j < |right| ==> 2 * right[j] >= left[i]
    ensures Counted(left, right, i + 1, j, count + j)
  {
    BelowIsPlace(right, left[i], j);
    assert left[..i + 1] == left[..i] + [left[i]];
    CrossConcat(left[..i], [left[i]], right);
  }

  lemma AllCounted(left: seq<int>, right: seq<int>, j: nat, count: nat)
    requires Counted(left, right, |left|, j, count)
    ensures count == Cross(left, right)
  {
    assert left[..|left|] == left;
  }

  /** After both halves are sorted, the counts of the halves and of the cross pairs add up. */
  lemma HalvesAddUp(a: seq<int>, b: seq<int>)
    ensures Count(a) + Count(b) + Cross(Sorted(a), Sorted(b)) == Count(a + b)
  {
    hide Sorted, Count, Cross;
    CountConcat(a, b);
    CrossOfSorted(a, b);
  }

  lemma ShortRange(s: seq<int>)
    requires |s| <= 1
    ensures Count(s) == 0 && Sorted(s) == s
  {
    assert s == [] || s == [s[0]];
    SortedUnique(Sorted(s), s);
  }

  lemma StartCounting(left: seq<int>, right: seq<int>)
    ensures Counted(left, right, 0, 0, 0)
  {
  }

  lemma AdvanceRow(left: seq<int>, right: seq<int>, i: nat, j: nat, count: nat)
    requires Counted(left, right, i, j, count) && i < |left| && j < |right| && 2 * right[j] < left[i]
    ensures Counted(left, right, i, j + 1, count)
  {
  }

  /** The scanning loops over two sorted ranges. */
  method CountSplit(nums: array<int>, start: int, mid: int, end: int) returns (count: nat)
    requires 0 <= start <= mid <= end + 1 <= nums.Length
    requires IsSorted(nums[start..mid]) && IsSorted(nums[mid..end + 1])
    ensures count == Cross(nums[start..mid], nums[mid..end + 1])
  {
    hide Cross, IsSorted, Counted;
    count := 0;
    ghost var left, right := nums[start..mid], nums[mid..end + 1];
    var j := mid;
    StartCounting(left, right);
    for i := start to mid
      invariant mid <= j <= end + 1
      invariant Counted(left, right, i - start, j - mid, count)
    {
      while j <= end && nums[j] * 2 < nums[i]
        invariant mid <= j <= end + 1
        invariant Counted(left, right, i - start, j - mid, count)
      {
        AdvanceRow(left, right, i - start, j - mid, count);
        j := j + 1;
      }
      CountRow(left, right, i - start, j - mid, count);
      count := count + (j - mid);
    }
    AllCounted(left, right, j - mid, count);
  }

  /** The slices of `s` at `i <= m <= e`, read off its front and its tail. */
  lemma SubSlices(s: seq<int>, i: nat, m: nat, e: nat)
    requires i <= m <= e <= |s|
    ensures s[i..e] == s[i..m] + s[m..e]
    ensures s[..m][i..] == s[i..m] && s[..m][..i] == s[..i]
    ensures s[m..][..e - m] == s[m..e] && s[m..][e - m..] == s[e..]
  {
  }

  method MergeSort(nums: array<int>, start: int, end: int) returns (count: nat)
    requires 0 <= start <= end + 1 <= nums.Length
    modifies nums
    ensures count == Count(old(nums[start..end + 1]))
    ensures nums[start..end + 1] == Sorted(old(nums[start..end + 1]))
    ensures nums[..start] == old(nums[..start]) && nums[end + 1..] == old(nums[end + 1..])
    decreases end - start
  {
    hide Count, Cross, Sorted, IsSorted, Permutes;
    if start >= end {
      ShortRange(nums[start..end + 1]);
      return 0;
    }
    var mid := (start + end) / 2 + 1;
    ghost var a, b := nums[start..mid], nums[mid..end + 1];
    SubSlices(nums[..], start, mid, end + 1);
    count := MergeSort(nums, start, mid - 1);
    SubSlices(nums[..], start, mid, end + 1);
    var upper := MergeSort(nums, mid, end);
    SubSlices(nums[..], start, mid, end + 1);
    var cross := CountSplit(nums, start, mid, end);
    count := count + upper + cross;
    HalvesAddUp(a, b);
    SortedHalves(a, b);
    WriteSlice(nums, start, Sorted(nums[start..end + 1]));
  }

  /** Returns the number of reverse pairs and leaves the list sorted. */
  method CountReversePairs(nums: array<int>) returns (count: nat)
    modifies nums
    ensures count == old(|PairsFrom(nums[..], 0)|)
    ensures IsSorted(nums[..]) && Permutes(nums[..], old(nums[..]))
  {
    CountIsPairs(nums[..], 0);
    count := MergeSort(nums, 0, nums.Length - 1);
    assert nums[0..nums.Length] == nums[..] && old(nums[0..nums.Length]) == old(nums[..])[0..] == old(nums[..]);
  }
}
