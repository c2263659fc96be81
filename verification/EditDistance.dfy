/**
 Edit distance (72、编辑距离.py) against all edit scripts.

 A script is a sequence of single-character insertions, deletions and replacements at arbitrary
 positions, applied one after the other.  `Distance` is the recurrence of the table, which takes the
 diagonal without a minimum when the last characters agree.
 */
module EditDistance {

  import opened Prelude

  // ---------------------------------------------------------------- edit scripts

  datatype Edit = Insert(pos: nat, c: char) | Delete(pos: nat) | Replace(pos: nat, c: char)

  ghost predicate Fits(e: Edit, n: nat)
  {
    if e.Insert? then e.pos <= n else e.pos < n
  }

  function Apply(e: Edit, s: string): string
    requires Fits(e, |s|)
  {
    match e
    case Insert(p, c) => s[..p] + [c] + s[p..]
    case Delete(p) => s[..p] + s[p + 1..]
    case Replace(p, c) => s[..p] + [c] + s[p + 1..]
  }

  /** Running `script` on `from` is possible and ends in `to`. */
  ghost predicate Edits(script: seq<Edit>, from: string, to: string)
    decreases |script|
  {
    if script == [] then from == to
    else Fits(script[0], |from|) && Edits(script[1..], Apply(script[0], from), to)
  }

  /** `n` is the least length of a script from `a` to `b`. */
  ghost predicate IsLeastScriptLength(a: string, b: string, n: nat)
  {
    && (exists script :: Edits(script, a, b) && |script| == n)
    && (forall script :: Edits(script, a, b) ==> n <= |script|)
  }

  // ---------------------------------------------------------------- the recurrence

  function Distance(a: string, b: string): (d: nat)
    decreases |a| + |b|
  {
    if a == "" then |b|
    else if b == "" then |a|
    else
      var a', b' := a[..|a| - 1], b[..|b| - 1];
      if a[|a| - 1] == b[|b| - 1] then Distance(a', b')
      else Min(Min(Distance(a', b) + 1, Distance(a, b') + 1), Distance(a', b') + 1)
  }

  lemma {:induction false} Symmetric(a: string, b: string)
    ensures Distance(a, b) == Distance(b, a)
    decreases |a| + |b|
  {
    if a != "" && b != "" {
      Symmetric(a[..|a| - 1], b[..|b| - 1]);
      Symmetric(a[..|a| - 1], b);
      Symmetric(a, b[..|b| - 1]);
    }
  }

  /** Appending one character to a word moves the distance by at most one. */
  lemma {:induction false} OneMoreChar(a: string, b: string, x: char)
    ensures Distance(a + [x], b) <= Distance(a, b) + 1
    ensures Distance(a, b) <= Distance(a + [x], b) + 1
    decreases |a| + |b|
  {
    assert (a + [x])[..|a|] == a;
    if b != "" {
      var b', y := b[..|b| - 1], b[|b| - 1];
      assert b == b' + [y];
      OneMoreChar(a, b', x);
      OneMoreChar(b', a, y);
      Symmetric(b', a);
      Symmetric(b, a);
    }
  }

  /** The full recurrence: each of the three moves bounds the distance, match or not, and one of
      them attains it. */
  lemma ThreeMoves(a: string, x: char, b: string, y: char)
    ensures Distance(a + [x], b + [y]) <= Distance(a, b + [y]) + 1
    ensures Distance(a + [x], b + [y]) <= Distance(a + [x], b) + 1
    ensures Distance(a + [x], b + [y]) <= Distance(a, b) + if x == y then 0 else 1
    ensures || Distance(a + [x], b + [y]) == Distance(a, b + [y]) + 1
            || Distance(a + [x], b + [y]) == Distance(a + [x], b) + 1
            || Distance(a + [x], b + [y]) == Distance(a, b) + if x == y then 0 else 1
  {
    assert (a + [x])[..|a|] == a && (b + [y])[..|b|] == b;
    OneMoreChar(a, b, x);
    OneMoreChar(b, a, y);
    Symmetric(a, b);
    Symmetric(a, b + [y]);
  }

  // ---------------------------------------------------------------- no script is shorter

  lemma {:induction false} LastEdit(p: string, u: string, v: string, b: string)
    requires |u| <= 1 && |v| <= 1
    ensures Distance(p + u, b) <= Distance(p + v, b) + 1
    decreases |b|
  {
    if u == "" || v == "" {
      assert p + "" == p;
      if u != "" { assert u == [u[0]]; OneMoreChar(p, b, u[0]); }
      if v != "" { assert v == [v[0]]; OneMoreChar(p, b, v[0]); }
    } else {
      assert u == [u[0]] && v == [v[0]];
      if b != "" {
        var b', y := b[..|b| - 1], b[|b| - 1];
        assert b == b' + [y];
        ThreeMoves(p, u[0], b', y);
        ThreeMoves(p, v[0], b', y);
        LastEdit(p, u, v, b');
      }
    }
  }

  lemma DistanceToEmpty(a: string)
    ensures Distance(a, "") == |a|
  {
  }

  /** `s` and `t` differ in at most one character between a common front and a common tail. */
  lemma {:induction false} OneEdit(p: string, u: string, v: string, q: string, b: string)
    requires |u| <= 1 && |v| <= 1
    ensures Distance(p + u + q, b) <= Distance(p + v + q, b) + 1
    decreases |q| + |b|
  {
    hide Distance;
    if q == "" {
      LastEdit(p, u, v, b);
      assert p + u + q == p + u && p + v + q == p + v;
    } else if b == "" {
      DistanceToEmpty(p + u + q);
      DistanceToEmpty(p + v + q);
    } else {
      var q', x := q[..|q| - 1], q[|q| - 1];
      var b', y := b[..|b| - 1], b[|b| - 1];
      assert q == q' + [x] && b == b' + [y];
      assert p + u + q == (p + u + q') + [x] && p + v + q == (p + v + q') + [x];
      ThreeMoves(p + u + q', x, b', y);
      ThreeMoves(p + v + q', x, b', y);
      OneEdit(p, u, v, q', b);
      OneEdit(p, u, v, q, b');
      OneEdit(p, u, v, q', b');
    }
  }

  lemma ApplyMovesDistance(e: Edit, s: string, b: string)
    requires Fits(e, |s|)
    ensures Distance(s, b) <= Distance(Apply(e, s), b) + 1
  {
    var p := e.pos;
    match e
    case Insert(_, c) =>
      OneEdit(s[..p], "", [c], s[p..], b);
      assert s == s[..p] + "" + s[p..];
    case Delete(_) =>
      OneEdit(s[..p], [s[p]], "", s[p + 1..], b);
      assert s == s[..p] + [s[p]] + s[p + 1..];
      assert s[..p] + "" + s[p + 1..] == s[..p] + s[p + 1..];
    case Replace(_, c) =>
      OneEdit(s[..p], [s[p]], [c], s[p + 1..], b);
      assert s == s[..p] + [s[p]] + s[p + 1..];
  }

  lemma {:induction false} DistanceToSelf(s: string)
    ensures Distance(s, s) == 0
    decreases |s|
  {
    if s != "" { DistanceToSelf(s[..|s| - 1]); }
  }

  lemma {:induction false} NoShorterScript(script: seq<Edit>, a: string, b: string)
    requires Edits(script, a, b)
    ensures Distance(a, b) <= |script|
    decreases |script|
  {
    if script == [] {
      DistanceToSelf(a);
    } else {
      NoShorterScript(script[1..], Apply(script[0], a), b);
      ApplyMovesDistance(script[0], a, b);
    }
  }

  // ---------------------------------------------------------------- some script is that short

  lemma ApplyBeforeTail(e: Edit, s: string, tail: string)
    requires Fits(e, |s|)
    ensures Fits(e, |s + tail|) && Apply(e, s + tail) == Apply(e, s) + tail
  {
    var p := e.pos;
    assert (s + tail)[..p] == s[..p] && (s + tail)[p..] == s[p..] + tail;
    if p < |s| { assert (s + tail)[p + 1..] == s[p + 1..] + tail; }
  }

  /** A script works the same in front of a fixed tail. */
  lemma {:induction false} EditsBeforeTail(script: seq<Edit>, from: string, to: string, tail: string)
    requires Edits(script, from, to)
    ensures Edits(script, from + tail, to + tail)
    decreases |script|
  {
    hide Fits, Apply;
    if script != [] {
      ApplyBeforeTail(script[0], from, tail);
      EditsBeforeTail(script[1..], Apply(script[0], from), to, tail);
    }
  }

  lemma {:induction false} EditsThen(script: seq<Edit>, from: string, to: string, last: Edit)
    requires Edits(script, from, to) && Fits(last, |to|)
    ensures Edits(script + [last], from, Apply(last, to))
    decreases |script|
  {
    if script == [] {
      assert (script + [last])[1..] == [];
    } else {
      EditsThen(script[1..], Apply(script[0], from), to, last);
      assert (script + [last])[1..] == script[1..] + [last];
    }
  }

  lemma EditsAfter(first: Edit, script: seq<Edit>, from: string, to: string)
    requires Fits(first, |from|) && Edits(script, Apply(first, from), to)
    ensures Edits([first] + script, from, to)
  {
    assert ([first] + script)[1..] == script;
  }

  lemma InsertLast(script: seq<Edit>, a: string, b: string, y: char)
    requires Edits(script, a, b)
    ensures Edits(script + [Insert(|b|, y)], a, b + [y])
  {
    EditsThen(script, a, b, Insert(|b|, y));
    assert Apply(Insert(|b|, y), b) == b + [y];
  }

  lemma DeleteLast(script: seq<Edit>, a: string, x: char, b: string)
    requires Edits(script, a, b)
    ensures Edits([Delete(|a|)] + script, a + [x], b)
  {
    assert Apply(Delete(|a|), a + [x]) == a;
    EditsAfter(Delete(|a|), script, a + [x], b);
  }

  lemma ReplaceLast(script: seq<Edit>, a: string, x: char, b: string, y: char)
    requires Edits(script, a, b)
    ensures Edits([Replace(|a|, y)] + script, a + [x], b + [y])
  {
    EditsBeforeTail(script, a, b, [y]);
    assert Apply(Replace(|a|, y), a + [x]) == a + [y];
    EditsAfter(Replace(|a|, y), script, a + [x], b + [y]);
  }

  lemma NothingToDo(s: string)
    ensures Edits([], s, s)
  {
  }

  lemma {:induction false} ShortestScript(a: string, b: string) returns (script: seq<Edit>)
    ensures Edits(script, a, b) && |script| == Distance(a, b)
    decreases |a| + |b|
  {
    hide Edits;
    if a == "" && b == "" {
      script := [];
      NothingToDo(a);
    } else if a == "" {
      script := ShortestScript(a, b[..|b| - 1]);
      InsertLast(script, a, b[..|b| - 1], b[|b| - 1]);
      assert b == b[..|b| - 1] + [b[|b| - 1]];
      script := script + [Insert(|b| - 1, b[|b| - 1])];
    } else if b == "" {
      script := ShortestScript(a[..|a| - 1], b);
      DeleteLast(script, a[..|a| - 1], a[|a| - 1], b);
      assert a == a[..|a| - 1] + [a[|a| - 1]];
      script := [Delete(|a| - 1)] + script;
    } else {
      script := ShortestScriptLast(a[..|a| - 1], a[|a| - 1], b[..|b| - 1], b[|b| - 1]);
      assert a == a[..|a| - 1] + [a[|a| - 1]] && b == b[..|b| - 1] + [b[|b| - 1]];
    }
  }

  lemma {:induction false} ShortestScriptLast(a: string, x: char, b: string, y: char) returns (script: seq<Edit>)
    ensures Edits(script, a + [x], b + [y]) && |script| == Distance(a + [x], b + [y])
    decreases |a| + |b| + 2, 0
  {
    hide Edits, Distance;
    ThreeMoves(a, x, b, y);
    var d := Distance(a + [x], b + [y]);
    if d == Distance(a, b + [y]) + 1 {
      script := ShortestScript(a, b + [y]);
      DeleteLast(script, a, x, b + [y]);
      script := [Delete(|a|)] + script;
    } else if d == Distance(a + [x], b) + 1 {
      script := ShortestScript(a + [x], b);
      InsertLast(script, a + [x], b, y);
      script := script + [Insert(|b|, y)];
    } else {
      script := ShortestScript(a, b);
      if x == y {
        EditsBeforeTail(script, a, b, [y]);
      } else {
        ReplaceLast(script, a, x, b, y);
        script := [Replace(|a|, y)] + script;
      }
    }
  }

  lemma DistanceIsLeastScriptLength(a: string, b: string)
    ensures IsLeastScriptLength(a, b, Distance(a, b))
  {
    var best := ShortestScript(a, b);
    forall script | Edits(script, a, b) ensures Distance(a, b) <= |script| {
      NoShorterScript(script, a, b);
    }
  }

  // ---------------------------------------------------------------- the table

  /** One cell from its three neighbours, as the inner loop fills it. */
  lemma CellStep(a: string, b: string, x: nat, y: nat)
    requires 0 < x <= |a| && 0 < y <= |b|
    ensures Distance(a[..x], b[..y]) ==
            if a[x - 1] == b[y - 1] then Distance(a[..x - 1], b[..y - 1])
            else Min(Min(Distance(a[..x - 1], b[..y]) + 1, Distance(a[..x], b[..y - 1]) + 1),
                     Distance(a[..x - 1], b[..y - 1]) + 1)
  {
    assert a[..x][..x - 1] == a[..x - 1] && b[..y][..y - 1] == b[..y - 1];
  }

  lemma EmptyWord(s: string)
    ensures Distance("", s) == |s| && Distance(s, "") == |s|
  {
  }

  method MinDistance(word1: string, word2: string) returns (d: nat)
    ensures IsLeastScriptLength(word1, word2, d)
  {
    hide IsLeastScriptLength, Distance;
    DistanceIsLeastScriptLength(word1, word2);
    EmptyWord(word1);
    EmptyWord(word2);
    if |word1| == 0 { return |word2|; }
    if |word2| == 0 { return |word1|; }
    var first, second := |word1|, |word2|;
    var dp := new int[first + 1, second + 1]((_, _) => 0);
    for i := 0 to first + 1
      invariant forall k :: 0 <= k < i ==> dp[k, 0] == k
    {
      dp[i, 0] := i;
    }
    for j := 0 to second + 1
      invariant forall k :: 1 <= k <= first ==> dp[k, 0] == k
      invariant dp[0, 0] == 0
      invariant forall k :: 0 <= k < j ==> dp[0, k] == k
    {
      dp[0, j] := j;
    }
    forall k | 0 <= k <= first ensures Distance(word1[..k], word2[..0]) == k { EmptyWord(word1[..k]); }
    forall k | 0 <= k <= second ensures Distance(word1[..0], word2[..k]) == k { EmptyWord(word2[..k]); }
    for x := 1 to first + 1
      invariant forall i, j :: 0 <= i <= first && 0 <= j <= second && (i < x || j == 0) ==>
                  dp[i, j] == Distance(word1[..i], word2[..j])
    {
      for y := 1 to second + 1
        invariant forall i, j :: 0 <= i <= first && 0 <= j <= second && (i < x || j == 0 || (i == x && j < y)) ==>
                    dp[i, j] == Distance(word1[..i], word2[..j])
      {
        CellStep(word1, word2, x, y);
        if word1[x - 1] == word2[y - 1] {
          dp[x, y] := dp[x - 1, y - 1];
        } else {
          dp[x, y] := Min(Min(dp[x - 1, y] + 1, dp[x, y - 1] + 1), dp[x - 1, y - 1] + 1);
        }
      }
    }
    assert word1[..first] == word1 && word2[..second] == word2;
    return dp[first, second];
  }
}
