/**
 Largest rectangle in a histogram with a monotone stack (84、柱状图中最大的矩形.py).

 The source appends a 0 to the caller's list, starts its stack with -1 and lets Python's negative
 index read that 0.  The reference is the maximum of width times minimum height over all intervals.
 */
module Histogram {

  import opened Prelude

  datatype Error = IndexError

  /** Python's list indexing for the indices -|s| .. |s|-1. */
  function At(s: seq<int>, k: int): int
    requires -|s| <= k < |s|
  {
    if k < 0 then s[|s| + k] else s[k]
  }

  /** Lowest bar among hs[l..r]. */
  function MinIn(hs: seq<int>, l: nat, r: nat): (m: int)
    requires l < r <= |hs|
    ensures forall k :: l <= k < r ==> m <= hs[k]
    ensures exists k :: l <= k < r && m == hs[k]
    decreases r - l
  {
    if l + 1 == r then hs[l] else Min(hs[l], MinIn(hs, l + 1, r))
  }

  function Area(hs: seq<int>, l: nat, r: nat): int
    requires l < r <= |hs|
  {
    (r - l) * MinIn(hs, l, r)
  }

  /** `ans` is the greatest area over all nonempty intervals of bars (0 if there is no bar). */
  ghost predicate IsLargestArea(hs: seq<int>, ans: int)
  {
    && (forall l: nat, r: nat :: l < r <= |hs| ==> Area(hs, l, r) <= ans)
    && (hs == [] ==> ans == 0)
    && (hs != [] ==> exists l: nat, r: nat :: l < r <= |hs| && Area(hs, l, r) == ans)
  }

  ghost predicate InGap(stack: seq<int>, a: int, e: int)
  {
    1 <= a < |stack| && stack[a - 1] < e < stack[a]
  }

  /** The stack holds -1, then indices below `i` in increasing order whose bars do not decrease;
      every bar between two neighbours on the stack is higher than the right neighbour. */
  ghost predicate Monotone(hs: seq<int>, stack: seq<int>, i: nat)
    requires i <= |hs|
  {
    && |stack| >= 1 && stack[0] == -1
    && (forall a :: 1 <= a < |stack| ==> 0 <= stack[a] < i)
    && (forall a, b :: 0 <= a < b < |stack| ==> stack[a] < stack[b])
    && (forall a, b :: 1 <= a < b < |stack| ==> hs[stack[a]] <= hs[stack[b]])
    && (forall a, e :: InGap(stack, a, e) ==> hs[e] > hs[stack[a]])
  }

  ghost predicate LeftmostLowest(hs: seq<int>, p: nat, l: nat, r: nat)
    requires l <= p < r <= |hs|
  {
    && (forall e :: l <= e < p ==> hs[e] > hs[p])
    && (forall e :: p <= e < r ==> hs[e] >= hs[p])
  }

  /** Every interval in which `p` is the leftmost lowest bar is already accounted for. */
  ghost predicate Settled(hs: seq<int>, p: nat, ans: int)
    requires p < |hs|
  {
    forall l: nat, r: nat | l <= p < r < |hs| && LeftmostLowest(hs, p, l, r) :: hs[p] * (r - l) <= ans
  }

  lemma MulMonotone(h: int, w: int, v: int)
    requires h >= 0 && w <= v
    ensures h * w <= h * v
  {
  }

  ghost predicate Achieved(bars: seq<int>, ans: int)
  {
    ans == 0 || exists l: nat, r: nat :: l < r <= |bars| && Area(bars, l, r) == ans
  }

  /** The state between pops and pushes, when bars 0..i-1 have been pushed. */
  ghost predicate Progress(bars: seq<int>, hs: seq<int>, stack: seq<int>, i: nat, ans: int)
    requires i <= |hs|
  {
    && hs == bars + [0]
    && (forall k :: 0 <= k < i ==> hs[k] >= 0)
    && Monotone(hs, stack, i)
    && (forall p :: 0 <= p < i && p !in stack ==> Settled(hs, p, ans))
    && ans >= 0 && Achieved(bars, ans)
  }

  /** What the bars between the top of the stack and bar `i` look like while `i` makes room. */
  ghost predicate Cleared(hs: seq<int>, stack: seq<int>, i: nat)
    requires i < |hs| && |stack| >= 1 && -1 <= stack[|stack| - 1] < i
  {
    var top := stack[|stack| - 1];
    forall e :: top < e < i ==> hs[e] > hs[i] && (top >= 0 ==> hs[e] >= hs[top])
  }

  /** Popping `p` between the new top `q` and the lower bar `i` settles `p`. */
  lemma PopSettles(hs: seq<int>, p: nat, q: int, i: nat, ans: int)
    requires -1 <= q < p < i < |hs|
    requires hs[i] < hs[p] && hs[p] >= 0
    requires q >= 0 ==> hs[q] <= hs[p]
    requires hs[p] * (i - q - 1) <= ans
    ensures Settled(hs, p, ans)
  {
    forall l: nat, r: nat | l <= p < r < |hs| && LeftmostLowest(hs, p, l, r)
      ensures hs[p] * (r - l) <= ans
    {
      MulMonotone(hs[p], r - l, i - q - 1);
    }
  }

  lemma PopKeepsOrder(hs: seq<int>, stack: seq<int>, i: nat)
    requires i < |hs| && Monotone(hs, stack, i) && Cleared(hs, stack, i)
    requires |stack| > 1 && hs[i] < hs[stack[|stack| - 1]]
    ensures Monotone(hs, stack[..|stack| - 1], i) && Cleared(hs, stack[..|stack| - 1], i)
    ensures forall e :: stack[|stack| - 2] < e < i ==> hs[e] >= hs[stack[|stack| - 1]]
  {
    var rest := stack[..|stack| - 1];
    var p, q := stack[|stack| - 1], stack[|stack| - 2];
    forall e | q < e < i ensures hs[e] >= hs[p] {
      assert e < p ==> InGap(stack, |stack| - 1, e);
    }
    assert forall a, e :: InGap(rest, a, e) ==> InGap(stack, a, e);
    assert rest[|rest| - 1] == q;
  }

  lemma PopArea(bars: seq<int>, hs: seq<int>, p: nat, q: int, i: nat)
    requires hs == bars + [0] && -1 <= q < p < i < |hs|
    requires forall e :: q < e < i ==> hs[e] >= hs[p]
    ensures Area(bars, q + 1, i) == hs[p] * (i - q - 1)
  {
    assert forall e :: q < e < i ==> hs[e] == bars[e];
  }

  lemma RestSettled(hs: seq<int>, stack: seq<int>, i: nat, ans: int, best: int)
    requires i <= |hs| && |stack| > 1 && 0 <= stack[|stack| - 1] < i && ans <= best
    requires forall p :: 0 <= p < i && p !in stack ==> Settled(hs, p, ans)
    requires Settled(hs, stack[|stack| - 1], best)
    ensures forall p :: 0 <= p < i && p !in stack[..|stack| - 1] ==> Settled(hs, p, best)
  {
    forall p | 0 <= p < i && p !in stack[..|stack| - 1] ensures Settled(hs, p, best) {
      assert p in stack ==> p == stack[|stack| - 1];
    }
  }

  /** What the loop needs to know to index safely. */
  lemma StackShape(bars: seq<int>, hs: seq<int>, stack: seq<int>, i: nat, ans: int)
    requires i <= |hs| && Progress(bars, hs, stack, i, ans)
    ensures |stack| >= 1 && -1 <= stack[|stack| - 1] < i
    ensures |stack| == 1 <==> stack[|stack| - 1] == -1
    ensures |stack| > 1 ==> -1 <= stack[|stack| - 2] < stack[|stack| - 1]
    ensures |stack| > 1 && stack[|stack| - 2] >= 0 ==> hs[stack[|stack| - 2]] <= hs[stack[|stack| - 1]]
    ensures forall k :: 0 <= k < i ==> hs[k] >= 0
  {
  }

  lemma PopStep(bars: seq<int>, hs: seq<int>, stack: seq<int>, i: nat, ans: int, h: int, w: int)
    requires i < |hs| && Progress(bars, hs, stack, i, ans) && Cleared(hs, stack, i)
    requires |stack| > 1 && h == hs[stack[|stack| - 1]] && w == i - stack[|stack| - 2] - 1
    requires hs[i] < h
    ensures Progress(bars, hs, stack[..|stack| - 1], i, Max(ans, h * w))
    ensures Cleared(hs, stack[..|stack| - 1], i)
  {
    hide Monotone, Cleared, Settled, MinIn, Area;
    var p, q := stack[|stack| - 1], stack[|stack| - 2];
    StackShape(bars, hs, stack, i, ans);
    PopKeepsOrder(hs, stack, i);
    PopArea(bars, hs, p, q, i);
    PopSettles(hs, p, q, i, Max(ans, h * w));
    RestSettled(hs, stack, i, ans, Max(ans, h * w));
  }

  lemma PushedGap(hs: seq<int>, stack: seq<int>, i: nat, a: int, e: int)
    requires i < |hs| && Monotone(hs, stack, i) && Cleared(hs, stack, i) && InGap(stack + [i], a, e)
    ensures 0 <= e < |hs| && hs[e] > hs[(stack + [i])[a]]
  {
    if a < |stack| { assert InGap(stack, a, e); }
  }

  lemma PushedOrder(hs: seq<int>, stack: seq<int>, i: nat, a: nat)
    requires i < |hs| && Monotone(hs, stack, i) && a < |stack|
    requires stack[|stack| - 1] >= 0 ==> hs[stack[|stack| - 1]] <= hs[i]
    ensures stack[a] < i && (a > 0 ==> hs[stack[a]] <= hs[i])
  {
  }

  lemma PushKeepsOrder(hs: seq<int>, stack: seq<int>, i: nat)
    requires i < |hs| && Monotone(hs, stack, i) && Cleared(hs, stack, i)
    requires stack[|stack| - 1] >= 0 ==> hs[stack[|stack| - 1]] <= hs[i]
    ensures Monotone(hs, stack + [i], i + 1)
  {
    var pushed := stack + [i];
    forall a: nat | a < |stack| ensures pushed[a] < i && (a > 0 ==> hs[pushed[a]] <= hs[i]) {
      PushedOrder(hs, stack, i, a);
    }
    forall a, e | InGap(pushed, a, e) ensures hs[e] > hs[pushed[a]] {
      PushedGap(hs, stack, i, a, e);
    }
  }

  lemma PushStep(bars: seq<int>, hs: seq<int>, stack: seq<int>, i: nat, ans: int)
    requires i < |hs| && Progress(bars, hs, stack, i, ans) && Cleared(hs, stack, i)
    requires At(hs, stack[|stack| - 1]) <= hs[i]
    ensures Progress(bars, hs, stack + [i], i + 1, ans)
  {
    hide Settled, Achieved, Monotone, Cleared;
    StackShape(bars, hs, stack, i, ans);
    PushKeepsOrder(hs, stack, i);
    var pushed := stack + [i];
    forall p | 0 <= p < i + 1 && p !in pushed ensures Settled(hs, p, ans) {
      assert p !in stack && p != i;
    }
  }

  lemma {:induction false} FindLeftmostLowest(hs: seq<int>, l: nat, r: nat, k: nat) returns (p: nat)
    requires l <= k < r <= |hs|
    requires forall j :: l <= j < r ==> hs[k] <= hs[j]
    ensures l <= p < r && hs[p] == hs[k] && LeftmostLowest(hs, p, l, r)
  {
    p := l;
    while hs[p] != hs[k]
      invariant l <= p <= k && forall e :: l <= e < p ==> hs[e] > hs[k]
      decreases k - p
    {
      p := p + 1;
    }
  }

  lemma TopIsHighest(hs: seq<int>, stack: seq<int>, p: nat)
    requires Monotone(hs, stack, |hs|) && p in stack
    ensures hs[p] <= hs[stack[|stack| - 1]]
  {
  }

  /** Once the trailing 0 has been pushed, nothing is left to account for. */
  lemma AreaSettled(bars: seq<int>, hs: seq<int>, stack: seq<int>, ans: int, l: nat, r: nat)
    requires Progress(bars, hs, stack, |hs|, ans) && stack[|stack| - 1] == |bars|
    requires l < r <= |bars|
    ensures Area(bars, l, r) <= ans
  {
    hide Monotone, Achieved, LeftmostLowest;
    var m := MinIn(bars, l, r);
    assert forall j :: l <= j < r ==> m <= bars[j] == hs[j];
    var k :| l <= k < r && bars[k] == m;
    var p := FindLeftmostLowest(hs, l, r, k);
    if p in stack {
      TopIsHighest(hs, stack, p);
    } else {
      assert Settled(hs, p, ans);
    }
  }

  lemma AllSettled(bars: seq<int>, hs: seq<int>, stack: seq<int>, ans: int)
    requires Progress(bars, hs, stack, |hs|, ans) && stack[|stack| - 1] == |bars|
    ensures IsLargestArea(bars, ans)
  {
    hide Monotone, Settled;
    forall l: nat, r: nat | l < r <= |bars| ensures Area(bars, l, r) <= ans {
      AreaSettled(bars, hs, stack, ans, l, r);
    }
    if bars != [] {
      assert Area(bars, 0, 1) == hs[0];
    }
  }

  lemma NothingToClear(hs: seq<int>, stack: seq<int>, i: nat)
    requires i < |hs| && |stack| >= 1 && stack[|stack| - 1] == i - 1
    ensures Cleared(hs, stack, i)
  {
  }

  lemma StartProgress(bars: seq<int>)
    ensures Progress(bars, bars + [0], [-1], 0, 0)
  {
  }

  class Bars {
    var heights: seq<int>

    constructor (hs: seq<int>)
      ensures heights == hs
    {
      heights := hs;
    }

    /** Raises exactly when some height is negative; the list keeps the appended 0 either way. */
    method LargestRectangleArea() returns (res: Result<int, Error>)
      modifies this
      ensures heights == old(heights) + [0]
      ensures res.Err? <==> exists k :: 0 <= k < |old(heights)| && old(heights)[k] < 0
      ensures res.Ok? ==> IsLargestArea(old(heights), res.value)
    {
      hide Progress, Cleared, IsLargestArea;
      ghost var bars := heights;
      heights := heights + [0];
      var hs := heights;
      var stack, ans := [-1], 0;
      StartProgress(bars);
      for i := 0 to |hs|
        invariant hs == heights == bars + [0]
        invariant Progress(bars, hs, stack, i, ans)
        invariant |stack| >= 1 && stack[|stack| - 1] == i - 1
      {
        assert Cleared(hs, stack, i) by { NothingToClear(hs, stack, i); }
        StackShape(bars, hs, stack, i, ans);
        while hs[i] < At(hs, stack[|stack| - 1])
          invariant hs == heights
          invariant Progress(bars, hs, stack, i, ans)
          invariant 1 <= |stack| && -1 <= stack[|stack| - 1] < i
          invariant Cleared(hs, stack, i)
          decreases |stack|
        {
          StackShape(bars, hs, stack, i, ans);
          var h := At(hs, stack[|stack| - 1]);
          if |stack| > 1 { PopStep(bars, hs, stack, i, ans, h, i - stack[|stack| - 2] - 1); }
          stack := stack[..|stack| - 1];
          if stack == [] {
            assert bars[i] < 0;
            return Err(IndexError);
          }
          var w := i - stack[|stack| - 1] - 1;
          ans := Max(ans, h * w);
        }
        PushStep(bars, hs, stack, i, ans);
        stack := stack + [i];
      }
      StackShape(bars, hs, stack, |hs|, ans);
      AllSettled(bars, hs, stack, ans);
      assert forall k :: 0 <= k < |bars| ==> bars[k] == hs[k];
      return Ok(ans);
    }
  }
}
