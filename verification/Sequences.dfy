/** Python's `sorted` on integers, and facts about permutations of sequences. */
module Sequences {

  ghost predicate IsSorted(s: seq<int>)
  {
    forall i, j :: 0 <= i < j < |s| ==> s[i] <= s[j]
  }

  ghost predicate Permutes<T>(a: seq<T>, b: seq<T>)
  {
    multiset(a) == multiset(b)
  }

  lemma PermutesLength<T>(a: seq<T>, b: seq<T>)
    requires Permutes(a, b)
    ensures |a| == |b|
  {
    assert |multiset(a)| == |multiset(b)|;
  }

  lemma PermutesIn<T>(a: seq<T>, b: seq<T>, x: T)
    requires Permutes(a, b) && x in a
    ensures x in b
  {
    assert x in multiset(a);
  }

  /** Permutations with a common front permute the rest. */
  lemma PermutesTail<T>(front: seq<T>, a: seq<T>, b: seq<T>)
    requires Permutes(front + a, front + b)
    ensures Permutes(a, b)
  {
    assert multiset(a) == multiset(front + a) - multiset(front);
    assert multiset(b) == multiset(front + b) - multiset(front);
  }

  /** Removing an element of both sides keeps a permutation. */
  lemma PermutesWithout<T>(a: seq<T>, b: seq<T>, i: nat, j: nat)
    requires Permutes(a, b) && i < |a| && j < |b| && a[i] == b[j]
    ensures Permutes(a[..i] + a[i + 1..], b[..j] + b[j + 1..])
  {
    assert a == a[..i] + [a[i]] + a[i + 1..];
    assert b == b[..j] + [b[j]] + b[j + 1..];
    assert multiset(a[..i] + a[i + 1..]) == multiset(a) - multiset{a[i]};
    assert multiset(b[..j] + b[j + 1..]) == multiset(b) - multiset{b[j]};
  }

  /** The first place of the sorted `s` that can hold `x`. */
  function Place(x: int, s: seq<int>): (k: nat)
    requires IsSorted(s)
    ensures k <= |s|
    ensures forall i :: 0 <= i < k ==> s[i] < x
    ensures forall i :: k <= i < |s| ==> x <= s[i]
  {
    if s == [] || x <= s[0] then 0 else 1 + Place(x, s[1..])
  }

  lemma InsertAtPlace(x: int, s: seq<int>, k: nat)
    requires k <= |s| && IsSorted(s)
    requires forall i :: 0 <= i < k ==> s[i] < x
    requires forall i :: k <= i < |s| ==> x <= s[i]
    ensures IsSorted(s[..k] + [x] + s[k..])
  {
    var r := s[..k] + [x] + s[k..];
    forall i, j | 0 <= i < j < |r| ensures r[i] <= r[j] {
      assert r[i] == if i < k then s[i] else if i == k then x else s[i - 1];
      assert r[j] == if j < k then s[j] else if j == k then x else s[j - 1];
    }
  }

  function Insert(x: int, s: seq<int>): (r: seq<int>)
    requires IsSorted(s)
    ensures IsSorted(r) && multiset(r) == multiset(s) + multiset{x}
  {
    hide IsSorted;
    var k := Place(x, s);
    InsertAtPlace(x, s, k);
    assert s == s[..k] + s[k..];
    s[..k] + [x] + s[k..]
  }

  function Sorted(s: seq<int>): (r: seq<int>)
    ensures IsSorted(r) && Permutes(r, s) && |r| == |s|
  {
    if s == [] then []
    else
      assert s == [s[0]] + s[1..];
      var r := Insert(s[0], Sorted(s[1..]));
      PermutesLength(r, s);
      r
  }

  lemma SortedHead(a: seq<int>, b: seq<int>)
    requires IsSorted(a) && Permutes(a, b) && a != [] && b != []
    ensures a[0] <= b[0]
  {
    PermutesIn(b, a, b[0]);
  }

  lemma SortedTail(a: seq<int>)
    requires IsSorted(a) && a != []
    ensures IsSorted(a[1..]) && a == [a[0]] + a[1..]
  {
  }

  lemma PermutesBack<T>(a: seq<T>, b: seq<T>)
    requires Permutes(a, b)
    ensures Permutes(b, a)
  {
  }

  /** A sorted sequence is determined by its elements. */
  lemma {:induction false} SortedUnique(a: seq<int>, b: seq<int>)
    requires IsSorted(a) && IsSorted(b) && Permutes(a, b)
    ensures a == b
    decreases |a|
  {
    hide IsSorted, Permutes;
    PermutesLength(a, b);
    if a != [] {
      SortedHead(a, b);
      SortedHead(b, a) by { PermutesBack(a, b); }
      SortedTail(a);
      SortedTail(b);
      PermutesTail([a[0]], a[1..], b[1..]);
      SortedUnique(a[1..], b[1..]);
    }
  }

  /** nums[start:start + len(s)] = s */
  method WriteSlice(nums: array<int>, start: nat, s: seq<int>)
    requires start + |s| <= nums.Length
    modifies nums
    ensures nums[start..start + |s|] == s
    ensures nums[..start] == old(nums[..start])
    ensures nums[start + |s|..] == old(nums[start + |s|..])
  {
    forall k | 0 <= k < |s| {
      nums[start + k] := s[k];
    }
  }
}
