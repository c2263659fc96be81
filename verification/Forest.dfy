/**
 Parent-pointer forests, the data of union-find: following the pointers from any element ends in an
 element that points to itself.

 `IsForest` is stated with a witness that assigns each element its root and a rank that falls along
 pointers.  `AcyclicIffWalksStop` says that such a witness exists exactly when every walk along the
 pointers stops, `RootIsFixedPoint` that the root is where it stops, and `SameRoots` that all
 witnesses agree on the roots.
 */
module Forest {

  type Pointers = map<int, int>

  datatype Shape = Shape(root: map<int, int>, rank: map<int, nat>)

  /** The witness is right about `x`. */
  ghost predicate Fits(f: Pointers, sh: Shape, x: int)
    requires f.Keys == sh.root.Keys == sh.rank.Keys && x in f
  {
    var r := sh.root[x];
    && f[x] in f && sh.root[f[x]] == r
    && r in f && f[r] == r && sh.root[r] == r && sh.rank[r] <= sh.rank[x]
    && (f[x] == x ==> r == x)
    && (f[x] != x ==> sh.rank[f[x]] < sh.rank[x])
  }

  ghost predicate IsForest(f: Pointers, sh: Shape)
  {
    && f.Keys == sh.root.Keys == sh.rank.Keys
    && forall x {:trigger Fits(f, sh, x)} :: x in f ==> Fits(f, sh, x)
  }

  ghost predicate Acyclic(f: Pointers)
  {
    exists sh :: IsForest(f, sh)
  }

  // ---------------------------------------------------------------- roots

  /** A second witness assigns the same roots. */
  lemma {:induction false} SameRoots(f: Pointers, a: Shape, b: Shape, x: int)
    requires IsForest(f, a) && IsForest(f, b) && x in f
    ensures a.root[x] == b.root[x]
    decreases a.rank[x]
  {
    assert Fits(f, a, x) && Fits(f, b, x);
    if f[x] != x { SameRoots(f, a, b, f[x]); }
  }

  // ---------------------------------------------------------------- the operations keep the shape

  /** Path compression: pointing `x` straight at its root changes no root. */
  lemma CompressKeepsShape(f: Pointers, sh: Shape, x: int)
    requires IsForest(f, sh) && x in f
    ensures IsForest(f[x := sh.root[x]], sh)
  {
    var r := sh.root[x];
    var g := f[x := r];
    assert Fits(f, sh, x) && Fits(f, sh, r) && Fits(f, sh, f[x]);
    forall y | y in g ensures Fits(g, sh, y) {
      assert Fits(f, sh, y);
      assert Fits(f, sh, sh.root[y]);
    }
  }

  /** The shape after the root `a` is pointed at the root `b`. */
  ghost function Joined(sh: Shape, a: int, b: int): Shape
    requires sh.root.Keys == sh.rank.Keys && b in sh.rank
  {
    if a == b then sh
    else Shape(map x | x in sh.root :: if sh.root[x] == a then b else sh.root[x],
               map x | x in sh.root :: if sh.root[x] == a then sh.rank[x] + sh.rank[b] + 1 else sh.rank[x])
  }

  /** Union: the classes of `a` and `b` become one, with root `b`; no other root changes. */
  lemma UnionKeepsForest(f: Pointers, sh: Shape, a: int, b: int)
    requires IsForest(f, sh) && a in f && b in f && f[a] == a && f[b] == b
    ensures IsForest(f[a := b], Joined(sh, a, b))
  {
    var g, sh' := f[a := b], Joined(sh, a, b);
    assert Fits(f, sh, a) && Fits(f, sh, b);
    if a != b {
      assert g.Keys == f.Keys;
      forall y | y in g ensures Fits(g, sh', y) {
        assert Fits(f, sh, y);
        assert Fits(f, sh, sh.root[y]);
      }
    } else {
      assert g == f;
    }
  }

  /** A new element on its own (the dictionary's setdefault). */
  lemma AddKeepsForest(f: Pointers, sh: Shape, x: int)
    requires IsForest(f, sh) && x !in f
    ensures IsForest(f[x := x], Shape(sh.root[x := x], sh.rank[x := 0]))
  {
    var g, sh' := f[x := x], Shape(sh.root[x := x], sh.rank[x := 0]);
    forall y | y in g ensures Fits(g, sh', y) {
      if y != x { assert Fits(f, sh, y); }
    }
  }

  // ---------------------------------------------------------------- what the witness stands for

  ghost predicate Closed(f: Pointers)
  {
    forall x {:trigger f[x]} :: x in f ==> f[x] in f
  }

  /** The element `k` pointers after `x`. */
  ghost function Follow(f: Pointers, x: int, k: nat): (y: int)
    requires Closed(f) && x in f
    ensures y in f
    decreases k
  {
    if k == 0 then x else Follow(f, f[x], k - 1)
  }

  /** After `k` pointers from `x` the walk stands still. */
  ghost predicate StopsAt(f: Pointers, x: int, k: nat)
    requires Closed(f) && x in f
  {
    f[Follow(f, x, k)] == Follow(f, x, k)
  }

  ghost predicate Stops(f: Pointers, x: int)
    requires Closed(f) && x in f
  {
    exists k: nat :: StopsAt(f, x, k)
  }

  ghost predicate EveryWalkStops(f: Pointers)
  {
    Closed(f) && forall x {:trigger Stops(f, x)} :: x in f ==> Stops(f, x)
  }

  lemma {:induction false} RootIsFixedPoint(f: Pointers, sh: Shape, x: int) returns (k: nat)
    requires IsForest(f, sh) && Closed(f) && x in f
    ensures StopsAt(f, x, k) && Follow(f, x, k) == sh.root[x]
    decreases sh.rank[x]
  {
    assert Fits(f, sh, x);
    if f[x] == x {
      k := 0;
    } else {
      k := RootIsFixedPoint(f, sh, f[x]);
      k := k + 1;
    }
  }

  ghost function LeastStop(f: Pointers, x: int, k: nat): (m: nat)
    requires Closed(f) && x in f && StopsAt(f, x, k)
    ensures m <= k && StopsAt(f, x, m) && forall j: nat :: j < m ==> !StopsAt(f, x, j)
  {
    if j: nat :| j < k && StopsAt(f, x, j) then LeastStop(f, x, j) else k
  }

  /** The least number of pointers after which the walk from `x` stands still. */
  ghost function Depth(f: Pointers, x: int): (k: nat)
    requires EveryWalkStops(f) && x in f
    ensures StopsAt(f, x, k) && forall j: nat :: j < k ==> !StopsAt(f, x, j)
  {
    assert Stops(f, x);
    var k: nat :| StopsAt(f, x, k);
    LeastStop(f, x, k)
  }

  lemma DepthFalls(f: Pointers, x: int)
    requires EveryWalkStops(f) && x in f && f[x] != x
    ensures Depth(f, x) == Depth(f, f[x]) + 1
    ensures Follow(f, x, Depth(f, x)) == Follow(f, f[x], Depth(f, f[x]))
  {
    hide Depth;
    var d, e := Depth(f, x), Depth(f, f[x]);
    assert !StopsAt(f, x, 0);
    assert StopsAt(f, f[x], d - 1);
    assert StopsAt(f, x, e + 1);
  }

  lemma RootDepth(f: Pointers, x: int)
    requires EveryWalkStops(f) && x in f && f[x] == x
    ensures Depth(f, x) == 0 && Follow(f, x, 0) == x
  {
    hide Depth;
    assert StopsAt(f, x, 0);
  }

  lemma ForestWalksStop(f: Pointers, sh: Shape)
    requires IsForest(f, sh)
    ensures EveryWalkStops(f)
  {
    forall x | x in f ensures f[x] in f { assert Fits(f, sh, x); }
    forall x | x in f ensures Stops(f, x) {
      var k := RootIsFixedPoint(f, sh, x);
    }
  }

  /** Each walk's end as root and its length as rank. */
  ghost predicate Measures(f: Pointers, sh: Shape)
    requires EveryWalkStops(f)
  {
    && f.Keys == sh.root.Keys == sh.rank.Keys
    && forall x {:trigger sh.rank[x]} :: x in f ==> sh.rank[x] == Depth(f, x) && sh.root[x] == Follow(f, x, Depth(f, x))
  }

  lemma MeasuresFit(f: Pointers, sh: Shape, x: int)
    requires EveryWalkStops(f) && Measures(f, sh) && x in f
    ensures Fits(f, sh, x)
  {
    hide Depth;
    var d := sh.rank[x];
    assert StopsAt(f, x, d);
    var r := Follow(f, x, d);
    RootDepth(f, r);
    assert sh.rank[r] == 0;
    if f[x] == x {
      RootDepth(f, x);
    } else {
      assert sh.rank[f[x]] == Depth(f, f[x]);
      DepthFalls(f, x);
    }
  }

  ghost function Depths(f: Pointers): (m: map<int, nat>)
    requires EveryWalkStops(f)
    ensures m.Keys == f.Keys && forall x {:trigger m[x]} :: x in f ==> m[x] == Depth(f, x)
  {
    map x | x in f :: Depth(f, x)
  }

  ghost function Ends(f: Pointers, depths: map<int, nat>): (m: map<int, int>)
    requires Closed(f) && depths.Keys == f.Keys
    ensures m.Keys == f.Keys && forall x {:trigger m[x]} :: x in f ==> m[x] == Follow(f, x, depths[x])
  {
    map x | x in f :: Follow(f, x, depths[x])
  }

  lemma MeasureWalks(f: Pointers) returns (sh: Shape)
    requires EveryWalkStops(f)
    ensures f.Keys == sh.root.Keys == sh.rank.Keys && Measures(f, sh)
  {
    hide Depth, Follow, Depths, Ends, Stops;
    sh := Shape(Ends(f, Depths(f)), Depths(f));
  }

  lemma WalksStopForest(f: Pointers) returns (sh: Shape)
    requires EveryWalkStops(f)
    ensures IsForest(f, sh)
  {
    hide EveryWalkStops, Fits, Measures;
    sh := MeasureWalks(f);
    forall x | x in f ensures Fits(f, sh, x) { MeasuresFit(f, sh, x); }
  }

  /** A forest is exactly a pointer structure in which every walk stops. */
  lemma AcyclicIffWalksStop(f: Pointers)
    ensures Acyclic(f) <==> EveryWalkStops(f)
  {
    hide EveryWalkStops, IsForest;
    if Acyclic(f) {
      var sh :| IsForest(f, sh);
      ForestWalksStop(f, sh);
    }
    if EveryWalkStops(f) {
      var sh := WalksStopForest(f);
    }
  }
}
