/**
 Union-find on an array with iterative path compression (并查集实现.py) and the friend-circle counter
 built on it (547、朋友圈.py), which carries the same two routines.
 */
module DisjointSet {

  import opened Components
  import opened Forest
  import opened Graph

  /** The array as a pointer structure on 0 .. |s|-1. */
  ghost function Pointing(s: seq<int>): (f: Pointers)
    ensures forall i :: i in f <==> 0 <= i < |s|
    ensures forall i :: 0 <= i < |s| ==> f[i] == s[i]
  {
    map i | 0 <= i < |s| :: s[i]
  }

  lemma PointingUpdate(s: seq<int>, i: nat, v: int)
    requires i < |s|
    ensures Pointing(s[i := v]) == Pointing(s)[i := v]
  {
  }

  /** Where a walk can go and what it finds there. */
  lemma Walk(s: seq<int>, sh: Shape, i: int)
    requires IsForest(Pointing(s), sh) && 0 <= i < |s|
    ensures i in sh.root && i in sh.rank && 0 <= sh.root[i] < |s|
    ensures 0 <= s[i] < |s| && s[i] in sh.root && s[i] in sh.rank
    ensures sh.root[s[i]] == sh.root[i] && s[sh.root[i]] == sh.root[i]
    ensures if s[i] == i then sh.root[i] == i else sh.rank[s[i]] < sh.rank[i]
  {
    assert Fits(Pointing(s), sh, i);
  }

  lemma CompressStep(s: seq<int>, sh: Shape, x: int)
    requires IsForest(Pointing(s), sh) && 0 <= x < |s| && x in sh.root
    ensures IsForest(Pointing(s[x := sh.root[x]]), sh)
  {
    CompressKeepsShape(Pointing(s), sh, x);
    PointingUpdate(s, x, sh.root[x]);
  }

  /** Returns the root of `i`.  The same shape fits the array afterwards: compression moves pointers
      but neither roots nor ranks. */
  method Parent(p: array<int>, i: int, ghost sh: Shape) returns (root: int)
    requires 0 <= i < p.Length && IsForest(Pointing(p[..]), sh)
    modifies p
    ensures IsForest(Pointing(p[..]), sh)
    ensures i in sh.root && root == sh.root[i] && 0 <= root < p.Length && p[root] == root
  {
    hide IsForest, Pointing;
    Walk(p[..], sh, i);
    root := i;
    while p[root] != root
      invariant 0 <= root < p.Length && root in sh.root && root in sh.rank && sh.root[root] == sh.root[i]
      invariant IsForest(Pointing(p[..]), sh)
      decreases sh.rank[root]
    {
      Walk(p[..], sh, root);
      root := p[root];
    }
    Walk(p[..], sh, root);
    var i := i;
    while p[i] != i
      invariant 0 <= i < p.Length && i in sh.root && i in sh.rank && sh.root[i] == root
      invariant IsForest(Pointing(p[..]), sh)
      decreases sh.rank[i]
    {
      Walk(p[..], sh, i);
      ghost var s := p[..];
      var x := i;
      i := p[i];
      CompressStep(p[..], sh, x);
      p[x] := root;
      assert p[..] == s[x := root];
    }
    Walk(p[..], sh, i);
  }

  lemma UnionStep(s: seq<int>, sh: Shape, i: int, j: int) returns (sh': Shape)
    requires 0 <= i < |s| && 0 <= j < |s| && IsForest(Pointing(s), sh)
    requires i in sh.root && j in sh.root && 0 <= sh.root[i] < |s|
    ensures IsForest(Pointing(s[sh.root[i] := sh.root[j]]), sh') && Merged(sh, sh', i, j)
  {
    JoinedMerges(Pointing(s), sh, i, j);
    PointingUpdate(s, sh.root[i], sh.root[j]);
    sh' := Joined(sh, sh.root[i], sh.root[j]);
  }

  /** The classes of `i` and `j` become one, with the root of `j`; no other root changes. */
  method Union(p: array<int>, i: int, j: int, ghost sh: Shape) returns (ghost sh': Shape)
    requires 0 <= i < p.Length && 0 <= j < p.Length && IsForest(Pointing(p[..]), sh)
    modifies p
    ensures IsForest(Pointing(p[..]), sh') && Merged(sh, sh', i, j)
  {
    hide IsForest, Pointing;
    var p1 := Parent(p, i, sh);
    var p2 := Parent(p, j, sh);
    Walk(p[..], sh, p1);
    sh' := UnionStep(p[..], sh, i, j);
    ghost var s := p[..];
    p[p1] := p2;
    assert p[..] == s[p1 := p2];
  }

  // ---------------------------------------------------------------- an array of singletons

  method Singletons(n: nat) returns (p: array<int>, ghost sh: Shape)
    ensures fresh(p) && p.Length == n
    ensures IsForest(Pointing(p[..]), sh)
    ensures forall x :: (x in sh.root <==> 0 <= x < n) && (x in sh.root ==> sh.root[x] == x)
  {
    p := new int[n](i => i);
    ghost var f := Pointing(p[..]);
    sh := Shape(f, map x | x in f :: 0);
    forall x | x in f ensures Fits(f, sh, x) {
    }
  }

  // ---------------------------------------------------------------- friend circles

  /** The rows are at least as long as the matrix is high. */
  ghost predicate IsMatrix(m: seq<seq<int>>)
  {
    forall i :: 0 <= i < |m| ==> |m[i]| >= |m|
  }

  /** The friendships in the first `i` rows and the first `j` columns of row `i`. */
  ghost function Friends(m: seq<seq<int>>, i: nat, j: nat): Edges
    requires IsMatrix(m)
  {
    set a, b | 0 <= a < |m| && 0 <= b < |m| && m[a][b] == 1 && (a < i || (a == i && b < j)) :: (a, b)
  }

  /** Everyone connected to `a`. */
  ghost function Circle(es: Edges, n: nat, a: int): set<int>
  {
    set b | 0 <= b < n && Connected(es, a, b)
  }

  ghost function CirclesUpTo(es: Edges, n: nat, k: nat): set<set<int>>
  {
    set a | 0 <= a < k :: Circle(es, n, a)
  }

  /** The classes of the equivalence closure of `es` on 0 .. n-1. */
  ghost function Circles(es: Edges, n: nat): set<set<int>>
  {
    CirclesUpTo(es, n, n)
  }

  lemma FriendsStep(m: seq<seq<int>>, i: nat, j: nat)
    requires IsMatrix(m) && i < |m| && j < |m|
    ensures Friends(m, i, j + 1) == Friends(m, i, j) + if m[i][j] == 1 then {(i, j)} else {}
    ensures Friends(m, i, |m|) == Friends(m, i + 1, 0)
  {
  }

  /** Equal circles are connected elements. */
  lemma SameCircle(es: Edges, n: nat, a: int, b: int)
    requires 0 <= a < n && 0 <= b < n
    ensures Circle(es, n, a) == Circle(es, n, b) <==> Connected(es, a, b)
  {
    if Circle(es, n, a) == Circle(es, n, b) {
      ConnectedSelf(es, b);
      assert b in Circle(es, n, b);
    }
    if Connected(es, a, b) {
      ConnectedSymmetric(es, a, b);
      forall c | 0 <= c < n ensures Connected(es, a, c) <==> Connected(es, b, c) {
        if Connected(es, a, c) { ConnectedTransitive(es, b, a, c); }
        if Connected(es, b, c) { ConnectedTransitive(es, a, b, c); }
      }
    }
  }

  ghost function RootsUpTo(sh: Shape, k: nat): set<int>
    requires forall a :: 0 <= a < k ==> a in sh.root
  {
    set a | 0 <= a < k :: sh.root[a]
  }

  lemma AddSize<T>(s: set<T>, x: T)
    ensures |s + {x}| == |s| + if x in s then 0 else 1
  {
    if x in s { assert s + {x} == s; }
  }

  lemma RootsStep(sh: Shape, k: nat)
    requires forall a :: 0 <= a <= k ==> a in sh.root
    ensures RootsUpTo(sh, k + 1) == RootsUpTo(sh, k) + {sh.root[k]}
    ensures |RootsUpTo(sh, k + 1)| == |RootsUpTo(sh, k)| + if sh.root[k] in RootsUpTo(sh, k) then 0 else 1
  {
    assert RootsUpTo(sh, k + 1) == RootsUpTo(sh, k) + {sh.root[k]};
    AddSize(RootsUpTo(sh, k), sh.root[k]);
  }

  lemma NoRoots(sh: Shape)
    ensures RootsUpTo(sh, 0) == {}
  {
  }

  lemma CirclesStep(es: Edges, n: nat, k: nat)
    ensures |CirclesUpTo(es, n, k + 1)| ==
            |CirclesUpTo(es, n, k)| + if Circle(es, n, k) in CirclesUpTo(es, n, k) then 0 else 1
    ensures CirclesUpTo(es, n, 0) == {}
  {
    hide Circle;
    assert CirclesUpTo(es, n, k + 1) == CirclesUpTo(es, n, k) + {Circle(es, n, k)};
    AddSize(CirclesUpTo(es, n, k), Circle(es, n, k));
  }

  /** A root is new exactly when its circle is. */
  lemma NewRootNewCircle(es: Edges, sh: Shape, n: nat, k: nat)
    requires Matches(es, sh) && (forall a :: 0 <= a < n ==> a in sh.root) && k < n
    ensures sh.root[k] in RootsUpTo(sh, k) <==> Circle(es, n, k) in CirclesUpTo(es, n, k)
  {
    hide Connected, Circle;
    forall a | 0 <= a < k ensures sh.root[a] == sh.root[k] <==> Circle(es, n, a) == Circle(es, n, k) {
      SameCircle(es, n, a, k);
    }
  }

  /** As many roots as circles. */
  lemma {:induction false} RootsAreCircles(es: Edges, sh: Shape, n: nat, k: nat)
    requires Matches(es, sh) && (forall a :: 0 <= a < n ==> a in sh.root) && k <= n
    ensures |RootsUpTo(sh, k)| == |CirclesUpTo(es, n, k)|
    decreases k
  {
    hide Circle, CirclesUpTo, RootsUpTo, Connected, Matches;
    if k == 0 {
      CirclesStep(es, n, 0);
      NoRoots(sh);
    } else {
      RootsAreCircles(es, sh, n, k - 1);
      RootsStep(sh, k - 1);
      CirclesStep(es, n, k - 1);
      NewRootNewCircle(es, sh, n, k - 1);
    }
  }

  lemma RootsDefined(s: seq<int>, sh: Shape)
    requires IsForest(Pointing(s), sh)
    ensures forall a :: 0 <= a < |s| ==> a in sh.root
  {
  }

  lemma FriendsStart(m: seq<seq<int>>)
    requires IsMatrix(m)
    ensures Friends(m, 0, 0) == {}
  {
  }

  lemma NoCircles(m: seq<seq<int>>)
    requires m == []
    ensures |Circles(Friends(m, |m|, 0), |m|)| == 0
  {
    assert Circles(Friends(m, 0, 0), 0) == {};
  }

  /** The number of circles of friends, directly or through others. */
  method FindCircleNum(m: seq<seq<int>>) returns (count: nat)
    requires IsMatrix(m)
    ensures count == |Circles(Friends(m, |m|, 0), |m|)|
  {
    hide IsForest, Pointing, Matches, Merged, Friends, RootsUpTo, CirclesUpTo;
    if m == [] {
      NoCircles(m);
      return 0;
    }
    var n := |m|;
    var p, sh := Singletons(n);
    MatchesNothing(sh);
    FriendsStart(m);
    for i := 0 to n
      invariant p.Length == n && fresh(p)
      invariant IsForest(Pointing(p[..]), sh) && Matches(Friends(m, i, 0), sh)
    {
      for j := 0 to n
        invariant IsForest(Pointing(p[..]), sh) && Matches(Friends(m, i, j), sh)
      {
        FriendsStep(m, i, j);
        if m[i][j] == 1 {
          ghost var before := sh;
          sh := Union(p, i, j, sh);
          MergedMatches(Friends(m, i, j), before, sh, i, j);
        } else {
          assert Friends(m, i, j) + {} == Friends(m, i, j);
        }
      }
      FriendsStep(m, i, 0);
    }
    var roots := {};
    RootsDefined(p[..], sh);
    NoRoots(sh);
    for i := 0 to n
      invariant IsForest(Pointing(p[..]), sh) && roots == RootsUpTo(sh, i)
    {
      var r := Parent(p, i, sh);
      RootsStep(sh, i);
      roots := roots + {r};
    }
    RootsAreCircles(Friends(m, n, 0), sh, n, n);
    return |roots|;
  }
}
