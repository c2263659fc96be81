/**
 Minimum window substring with two moving ends (76. 最小覆盖子串.py).

 The reference compares multisets: a window covers `t` when it holds every character of `t` at
 least as often as `t` does.
 */
module MinWindow {

  import opened Prelude

  datatype Error = IndexError

  ghost predicate Covers(s: string, t: string, l: nat, r: nat)
  {
    l <= r <= |s| && multiset(t) <= multiset(s[l..r])
  }

  /** s[l..l+n] covers `t`, no covering window is shorter, and none as short starts further left. */
  ghost predicate IsLeftmostShortest(s: string, t: string, l: nat, n: nat)
  {
    && Covers(s, t, l, l + n)
    && forall a: nat, b: nat :: Covers(s, t, a, b) ==> n < b - a || (n == b - a && l <= a)
  }

  // ---------------------------------------------------------------- counting characters

  /** `need` counts the characters of `t`. */
  ghost predicate NeedOf(t: string, need: map<char, nat>)
  {
    && (forall c :: c in need <==> c in t)
    && (forall c :: c in need ==> need[c] == multiset(t)[c])
  }

  method CountNeeds(t: string) returns (need: map<char, nat>)
    ensures NeedOf(t, need)
  {
    need := map[];
    for k := 0 to |t|
      invariant forall c :: c in need <==> c in t[..k]
      invariant forall c :: c in need ==> need[c] == multiset(t[..k])[c]
    {
      assert t[..k + 1] == t[..k] + [t[k]];
      if t[k] in need {
        need := need[t[k] := need[t[k]] + 1];
      } else {
        need := need[t[k] := 1];
      }
    }
    assert t[..|t|] == t;
  }

  /** The needed characters whose count in the window has reached the need. */
  ghost function Reached(need: map<char, nat>, w: multiset<char>): set<char>
  {
    set c | c in need && w[c] >= need[c]
  }

  lemma SubsetOfSameSize<T>(a: set<T>, b: set<T>)
    requires a <= b && |a| == |b|
    ensures a == b
  {
    assert b == a + (b - a);
  }

  /** A window inside another covers no more. */
  lemma CoversMonotone(s: string, t: string, l: nat, r: nat, a: nat, b: nat)
    requires Covers(s, t, l, r) && a <= l && r <= b <= |s|
    ensures Covers(s, t, a, b)
  {
    assert s[a..b] == s[a..l] + s[l..r] + s[r..b];
  }

  // ---------------------------------------------------------------- the window

  /** The dictionary and the counter describe s[left..right]. */
  ghost predicate Tracks(s: string, need: map<char, nat>, window: map<char, nat>, valid: int, left: nat, right: nat)
    requires left <= right <= |s|
  {
    var w := multiset(s[left..right]);
    && window.Keys <= need.Keys
    && (forall c :: c in need ==> w[c] == if c in window then window[c] else 0)
    && valid == |Reached(need, w)|
  }

  /** `valid == len(need)` is the coverage test. */
  lemma ValidMeansCovered(s: string, t: string, need: map<char, nat>, window: map<char, nat>, valid: int,
                          left: nat, right: nat)
    requires left <= right <= |s| && NeedOf(t, need) && Tracks(s, need, window, valid, left, right)
    ensures valid == |need| <==> Covers(s, t, left, right)
    ensures t != "" && valid == |need| ==> left < right
  {
    var w := multiset(s[left..right]);
    var reached := Reached(need, w);
    assert reached <= need.Keys;
    if |reached| == |need| {
      SubsetOfSameSize(reached, need.Keys);
      forall c ensures multiset(t)[c] <= w[c] {
        if c in multiset(t) { assert c in reached; }
      }
      assert t != "" ==> t[0] in multiset(t) && t[0] in w;
    }
    if multiset(t) <= w {
      assert reached == need.Keys;
    }
  }

  lemma ReachedAfterAdd(need: map<char, nat>, w: multiset<char>, c: char)
    ensures |Reached(need, w + multiset{c})| == |Reached(need, w)| + if c in need && w[c] + 1 == need[c] then 1 else 0
  {
    var before, after := Reached(need, w), Reached(need, w + multiset{c});
    if c in need && w[c] + 1 == need[c] {
      assert after == before + {c};
    } else {
      assert after == before;
    }
  }

  lemma ReachedAfterRemove(need: map<char, nat>, w: multiset<char>, c: char)
    requires c in w
    ensures |Reached(need, w - multiset{c})| == |Reached(need, w)| - if c in need && w[c] == need[c] then 1 else 0
  {
    var before, after := Reached(need, w), Reached(need, w - multiset{c});
    if c in need && w[c] == need[c] {
      assert before == after + {c};
    } else {
      assert after == before;
    }
  }

  /** Taking s[right] into the window the way the source updates its dictionaries. */
  lemma AddKeepsTracks(s: string, need: map<char, nat>, window: map<char, nat>, valid: int, left: nat, right: nat,
                       window': map<char, nat>, valid': int)
    requires left <= right < |s| && Tracks(s, need, window, valid, left, right)
    requires var c := s[right];
             if c in need then
               && window' == window[c := (if c in window then window[c] else 0) + 1]
               && valid' == valid + if window'[c] == need[c] then 1 else 0
             else window' == window && valid' == valid
    ensures Tracks(s, need, window', valid', left, right + 1)
  {
    hide Reached;
    var c, w := s[right], multiset(s[left..right]);
    assert s[left..right + 1] == s[left..right] + [c];
    ReachedAfterAdd(need, w, c);
  }

  lemma WindowShrinks(s: string, left: nat, right: nat)
    requires left < right <= |s|
    ensures s[left] in multiset(s[left..right])
    ensures multiset(s[left + 1..right]) == multiset(s[left..right]) - multiset{s[left]}
  {
    assert s[left..right] == [s[left]] + s[left + 1..right];
  }

  lemma LeftmostIsCounted(s: string, need: map<char, nat>, window: map<char, nat>, valid: int, left: nat, right: nat)
    requires left < right <= |s| && Tracks(s, need, window, valid, left, right) && s[left] in need
    ensures s[left] in window && window[s[left]] > 0
  {
    WindowShrinks(s, left, right);
  }

  /** Letting s[left] go. */
  lemma RemoveKeepsTracks(s: string, need: map<char, nat>, window: map<char, nat>, valid: int, left: nat, right: nat,
                          window': map<char, nat>, valid': int)
    requires left < right <= |s| && Tracks(s, need, window, valid, left, right)
    requires var d := s[left];
             if d in need then
               && d in window && window[d] > 0
               && window' == window[d := window[d] - 1]
               && valid' == valid - if window[d] == need[d] then 1 else 0
             else window' == window && valid' == valid
    ensures Tracks(s, need, window', valid', left + 1, right)
  {
    hide Reached;
    var d, w := s[left], multiset(s[left..right]);
    WindowShrinks(s, left, right);
    ReachedAfterRemove(need, w, d);
  }

  /** Everything known about windows that start before `left`. */
  ghost predicate BestBefore(s: string, t: string, left: nat, start: nat, length: Option<int>)
  {
    && (length.Some? ==> length.value >= 0 && Covers(s, t, start, start + length.value))
    && forall a: nat, b: nat | a < left && Covers(s, t, a, b) ::
         length.Some? && (length.value < b - a || (length.value == b - a && start <= a))
  }

  /** Moving the left end past s[left] keeps the record right: s[left..right] is the shortest
      covering window that starts at `left`. */
  lemma BestAfterShrink(s: string, t: string, left: nat, right: nat, start: nat, length: Option<int>,
                        start': nat, length': Option<int>)
    requires left < right <= |s| && Covers(s, t, left, right) && !Covers(s, t, left, right - 1)
    requires BestBefore(s, t, left, start, length)
    requires if length.None? || right - left < length.value
             then start' == left && length' == Some(right - left)
             else start' == start && length' == length
    requires length.Some? ==> start <= left
    ensures BestBefore(s, t, left + 1, start', length')
    ensures !Covers(s, t, left + 1, right - 1)
  {
    hide Covers;
    if Covers(s, t, left + 1, right - 1) { CoversMonotone(s, t, left + 1, right - 1, left, right - 1); }
    forall a: nat, b: nat | a < left + 1 && Covers(s, t, a, b)
      ensures length'.value < b - a || (length'.value == b - a && start' <= a)
    {
      if a == left && b < right {
        CoversMonotone(s, t, a, b, left, right - 1);
      }
    }
  }

  lemma StartTracking(s: string, t: string, need: map<char, nat>)
    requires NeedOf(t, need)
    ensures Tracks(s, need, map[], 0, 0, 0)
    ensures BestBefore(s, t, 0, 0, None)
    ensures t != "" ==> !Covers(s, t, 0, 0)
    ensures need == map[] <==> t == ""
  {
    assert Reached(need, multiset{}) == {} by {
      forall c | c in need ensures need[c] > 0 { assert c in multiset(t); }
    }
    if t != "" {
      assert t[0] in need && t[0] in multiset(t);
    }
  }

  /** Nothing that covers can start at `left` or later once the last window fails. */
  lemma BestOverall(s: string, t: string, left: nat, start: nat, length: Option<int>)
    requires left <= |s| && BestBefore(s, t, left, start, length) && !Covers(s, t, left, |s|)
    ensures length.None? ==> forall a: nat, b: nat :: !Covers(s, t, a, b)
    ensures length.Some? ==> length.value >= 0 && start + length.value <= |s|
    ensures length.Some? ==> IsLeftmostShortest(s, t, start, length.value)
  {
    forall a: nat, b: nat | Covers(s, t, a, b) ensures a < left {
      if a >= left { CoversMonotone(s, t, a, b, left, |s|); }
    }
  }

  /** Raises exactly when `t` is empty and `s` is not. */
  method FindMinWindow(s: string, t: string) returns (res: Result<string, Error>)
    ensures res.Err? <==> t == "" && s != ""
    ensures t != "" ==> ((exists a: nat, b: nat :: Covers(s, t, a, b)) <==> res.Ok? && res.value != "")
    ensures res.Ok? && res.value != "" ==>
              exists l: nat, n: nat :: l + n <= |s| && IsLeftmostShortest(s, t, l, n) && res.value == s[l..l + n]
  {
    hide Covers, NeedOf, Tracks, BestBefore, IsLeftmostShortest;
    var need := CountNeeds(t);
    var window: map<char, nat> := map[];
    var left, right, valid := 0, 0, 0;
    var start, length: Option<int> := 0, None;   // None stands for math.inf
    StartTracking(s, t, need);
    while right < |s|
      invariant 0 <= left <= right <= |s|
      invariant t == "" ==> right == 0 && valid == 0 && length.None?
      invariant Tracks(s, need, window, valid, left, right)
      invariant t != "" ==> !Covers(s, t, left, right)
      invariant 0 <= start <= left && (length.Some? ==> length.value > 0)
      invariant BestBefore(s, t, left, start, length)
    {
      var c := s[right];
      ghost var window0, valid0 := window, valid;
      right := right + 1;
      if c in need {
        if c in window {
          window := window[c := window[c] + 1];
        } else {
          window := window[c := 1];
        }
        if window[c] == need[c] {
          valid := valid + 1;
        }
      }
      AddKeepsTracks(s, need, window0, valid0, left, right - 1, window, valid);
      while valid == |need|
        invariant 0 <= left <= |s| && right > 0
        invariant t == "" ==> need == map[] && valid == 0
        invariant t != "" ==> left <= right && Tracks(s, need, window, valid, left, right)
        invariant t != "" ==> !Covers(s, t, left, right - 1)
        invariant t != "" ==> 0 <= start <= left && (length.Some? ==> length.value > 0)
        invariant t != "" ==> BestBefore(s, t, left, start, length)
        decreases |s| - left
      {
        if t != "" { ValidMeansCovered(s, t, need, window, valid, left, right); }
        ghost var start0, length0 := start, length;
        if length.None? || right - left < length.value {
          start := left;
          length := Some(right - left);
        }
        if left >= |s| {
          return Err(IndexError);
        }
        if t != "" {
          BestAfterShrink(s, t, left, right, start0, length0, start, length);
          if s[left] in need { LeftmostIsCounted(s, need, window, valid, left, right); }
        }
        window0, valid0 := window, valid;
        var d := s[left];
        left := left + 1;
        if d in need {
          if window[d] == need[d] {
            valid := valid - 1;
          }
          window := window[d := window[d] - 1];
        }
        if t != "" { RemoveKeepsTracks(s, need, window0, valid0, left - 1, right, window, valid); }
      }
      ValidMeansCovered(s, t, need, window, valid, left, right);
    }
    if t != "" { BestOverall(s, t, left, start, length); }
    return Ok(if length.None? then "" else s[start..start + length.value]);
  }
}
