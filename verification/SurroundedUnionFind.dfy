/**
 Surrounded regions by union-find (Solution3 of 130、被围绕的区域.py): border 'O' cells are united with a
 dummy element, inner 'O' cells with their 'O' neighbours, and a cell survives when it shares the
 dummy's root.
 */
module SurroundedUnionFind {

  import opened Board
  import opened Components
  import opened Forest
  import opened Graph

  // ---------------------------------------------------------------- the dictionary

  ghost predicate SameColours(a: Shape, b: Shape)
  {
    forall x {:trigger Colour(b, x)} :: Colour(a, x) == Colour(b, x)
  }

  lemma MergeStep(f: Pointers, sh0: Shape, sh1: Shape, sh2: Shape, i: int, j: int)
    requires IsForest(f, sh2) && SameColours(sh0, sh1) && SameColours(sh1, sh2) && i in f && j in f
    ensures i in sh2.root && j in sh2.root
    ensures Colour(sh0, i) == Colour(sh1, i) == sh2.root[i] && Colour(sh0, j) == sh2.root[j]
    ensures sh2.root.Keys == sh2.rank.Keys && sh2.root[j] in sh2.rank
    ensures IsForest(f[sh2.root[i] := sh2.root[j]], Joined(sh2, sh2.root[i], sh2.root[j]))
    ensures Merged(sh0, Joined(sh2, sh2.root[i], sh2.root[j]), i, j)
  {
    JoinedMerges(f, sh2, i, j);
    var sh' := Joined(sh2, sh2.root[i], sh2.root[j]);
    assert forall x :: Colour(sh0, x) == Colour(sh2, x) by {
      forall x ensures Colour(sh0, x) == Colour(sh2, x) { assert Colour(sh1, x) == Colour(sh2, x); }
    }
  }

  /** The dictionary `f` with its find and union. */
  class Dictionary {
    var f: map<int, int>
    ghost var sh: Shape

    constructor ()
      ensures IsForest(f, sh) && sh == Shape(map[], map[])
    {
      f, sh := map[], Shape(map[], map[]);
    }

    /** Returns the root of `x`, entering it first if need be; no root changes. */
    method Find(x: int) returns (r: int)
      requires IsForest(f, sh)
      modifies this
      ensures IsForest(f, sh) && SameColours(old(sh), sh)
      ensures x in f && r in f && r == Colour(old(sh), x) == Colour(sh, x) && f.Keys == old(f.Keys) + {x}
      ensures x in old(f) ==> sh == old(sh)
      decreases if x in sh.rank then sh.rank[x] else 0
    {
      if x !in f {
        AddKeepsForest(f, sh, x);
        f := f[x := x];
        sh := Shape(sh.root[x := x], sh.rank[x := 0]);
      }
      assert Fits(f, sh, x);
      if f[x] != x {
        var r' := Find(f[x]);
        CompressKeepsShape(f, sh, x);
        f := f[x := r'];
      }
      return f[x];
    }

    /** f[find(y)] = find(x): the class of `y` gets the root of `x`. */
    method Union(x: int, y: int)
      requires IsForest(f, sh)
      modifies this
      ensures IsForest(f, sh) && Merged(old(sh), sh, y, x)
    {
      hide IsForest, Fits;
      ghost var sh0 := sh;
      var rx := Find(x);
      ghost var sh1 := sh;
      var ry := Find(y);
      ghost var sh2 := sh;
      MergeStep(f, sh0, sh1, sh2, y, x);
      sh := Joined(sh, ry, rx);
      f := f[ry := rx];
    }
  }

  // ---------------------------------------------------------------- cells as numbers

  function Id(z: Size, c: Cell): int { c.0 * z.cols + c.1 }

  function Dummy(z: Size): int { z.rows * z.cols }

  lemma MulLe(a: nat, b: nat, n: nat)
    requires a <= b
    ensures a * n <= b * n
  {
  }

  lemma DivModUnique(q: int, r: int, n: int)
    requires 0 <= r < n
    ensures (q * n + r) / n == q && (q * n + r) % n == r
  {
    var x := q * n + r;
    var q', r' := x / n, x % n;
    assert x == q' * n + r' && 0 <= r' < n;
    assert (q - q') * n == r' - r && (q' - q) * n == r - r';
    if q > q' { MulLe(1, q - q', n); }
    if q' > q { MulLe(1, q' - q, n); }
  }

  /** Numbering the cells is one to one and stays below the dummy. */
  lemma IdIsCell(z: Size, c: Cell)
    requires Inside(z, c)
    ensures 0 <= Id(z, c) < Dummy(z)
    ensures Id(z, c) / z.cols == c.0 && Id(z, c) % z.cols == c.1
  {
    var n := z.cols;
    assert c.0 * n + c.1 < c.0 * n + n == (c.0 + 1) * n;
    MulLe(c.0 + 1, z.rows, n);
    DivModUnique(c.0, c.1, n);
  }

  // ---------------------------------------------------------------- the edges that get united

  ghost predicate IsEdge(z: Size, os: set<Cell>, e: (int, int))
  {
    || (exists c :: c in os && OnBorder(z, c) && e == (Dummy(z), Id(z, c)))
    || (exists c, d :: c in os && d in os && Adjacent(c, d) && e == (Id(z, d), Id(z, c)))
  }

  /** Every edge joins a border cell to the dummy or two adjacent 'O' cells. */
  ghost predicate Sound(z: Size, os: set<Cell>, es: Edges)
  {
    forall e :: e in es ==> IsEdge(z, os, e)
  }

  /** All edges of the cell `c` are there. */
  ghost predicate Complete(z: Size, os: set<Cell>, es: Edges, c: Cell)
  {
    if OnBorder(z, c) then (Dummy(z), Id(z, c)) in es
    else forall d :: d in os && Adjacent(c, d) ==> (Id(z, d), Id(z, c)) in es
  }

  ghost predicate Good(z: Size, os: set<Cell>, x: int)
  {
    x == Dummy(z) || (z.cols > 0 && Escapes(z, os, (x / z.cols, x % z.cols)))
  }

  lemma GoodId(z: Size, os: set<Cell>, c: Cell)
    requires Inside(z, c)
    ensures Good(z, os, Id(z, c)) <==> Escapes(z, os, c)
  {
    hide Escapes;
    IdIsCell(z, c);
  }

  lemma DummyGood(z: Size, os: set<Cell>)
    ensures Good(z, os, Dummy(z))
  {
  }

  /** Being good does not change along an edge. */
  lemma EdgeKeepsGood(z: Size, os: set<Cell>, e: (int, int))
    requires IsEdge(z, os, e) && forall c :: c in os ==> Inside(z, c)
    ensures Good(z, os, e.0) == Good(z, os, e.1)
  {
    hide Escapes, Good, Id, Adjacent, OnBorder, Inside;
    if c :| c in os && OnBorder(z, c) && e == (Dummy(z), Id(z, c)) {
      GoodId(z, os, c);
      BorderEscapes(z, os, c);
      DummyGood(z, os);
    } else {
      var c, d :| c in os && d in os && Adjacent(c, d) && e == (Id(z, d), Id(z, c));
      GoodId(z, os, c);
      GoodId(z, os, d);
      AdjacentSymmetric(c, d);
      if Escapes(z, os, c) { NeighbourEscapes(z, os, c, d); }
      if Escapes(z, os, d) { NeighbourEscapes(z, os, d, c); }
    }
  }

  lemma WayOutInside(z: Size, os: set<Cell>, c: Cell, path: seq<Cell>)
    requires IsWayOut(z, os, c, path)
    ensures c in os
  {
  }

  lemma {:induction false} WayOutConnects(z: Size, os: set<Cell>, es: Edges, c: Cell, path: seq<Cell>)
    requires IsWayOut(z, os, c, path) && forall d :: d in os ==> Complete(z, os, es, d)
    ensures Connected(es, Dummy(z), Id(z, c))
    decreases |path|
  {
    hide Connected;
    assert Complete(z, os, es, c);
    if OnBorder(z, c) {
      ConnectedEdge(es, Dummy(z), Id(z, c));
    } else {
      WayOutConnects(z, os, es, path[0], path[1..]);
      WayOutInside(z, os, path[0], path[1..]);
      ConnectedEdge(es, Id(z, path[0]), Id(z, c));
      ConnectedTransitive(es, Dummy(z), Id(z, path[0]), Id(z, c));
    }
  }

  /** A cell is connected to the dummy exactly when it escapes. */
  lemma ConnectedIffEscapes(z: Size, os: set<Cell>, es: Edges, c: Cell)
    requires Inside(z, c) && Sound(z, os, es) && forall d :: d in os ==> Inside(z, d) && Complete(z, os, es, d)
    ensures Connected(es, Dummy(z), Id(z, c)) <==> Escapes(z, os, c)
  {
    hide Good, Id, Complete, Inside, IsEdge, Connected;
    if Connected(es, Dummy(z), Id(z, c)) {
      forall x, y | (x, y) in es ensures Good(z, os, x) == Good(z, os, y) {
        assert IsEdge(z, os, (x, y));
        EdgeKeepsGood(z, os, (x, y));
      }
      DummyGood(z, os);
      ConnectedKeepsColour(es, x => Good(z, os, x), Dummy(z), Id(z, c));
      GoodId(z, os, c);
    }
    if Escapes(z, os, c) {
      var path :| IsWayOut(z, os, c, path);
      WayOutConnects(z, os, es, c, path);
    }
  }

  // ---------------------------------------------------------------- the solver

  /** 'O' exactly on `os`. */
  ghost predicate Shows(board: array2<char>, os: set<Cell>)
    reads board
  {
    && (forall c :: c in os ==> Inside(SizeOf(board), c))
    && forall i, j :: 0 <= i < board.Length0 && 0 <= j < board.Length1 ==> (board[i, j] == 'O' <==> (i, j) in os)
  }

  ghost predicate Before(c: Cell, i: int, j: int)
  {
    c.0 < i || (c.0 == i && c.1 < j)
  }

  /** The unions of the cells before (i, j) are done, and nothing else has been united. */
  ghost predicate United(z: Size, os: set<Cell>, es: Edges, i: int, j: int)
  {
    Sound(z, os, es) && forall c :: c in os && Before(c, i, j) ==> Complete(z, os, es, c)
  }

  /** In the middle of the inner cell `c`: its first `k` neighbours have been tried. */
  ghost predicate Uniting(z: Size, os: set<Cell>, es: Edges, c: Cell, k: nat)
  {
    && United(z, os, es, c.0, c.1)
    && forall m :: 0 <= m < k && m < 4 && Neighbours(c)[m] in os ==> (Id(z, Neighbours(c)[m]), Id(z, c)) in es
  }

  lemma SoundMore(z: Size, os: set<Cell>, es: Edges, e: (int, int), i: int, j: int)
    requires United(z, os, es, i, j) && IsEdge(z, os, e)
    ensures United(z, os, es + {e}, i, j)
  {
    hide IsEdge, Id, OnBorder, Adjacent;
  }

  lemma BorderUnited(z: Size, os: set<Cell>, es: Edges, c: Cell)
    requires United(z, os, es, c.0, c.1) && c in os && OnBorder(z, c)
    ensures United(z, os, es + {(Dummy(z), Id(z, c))}, c.0, c.1 + 1)
  {
    hide Id, OnBorder;
    var e := (Dummy(z), Id(z, c));
    assert IsEdge(z, os, e);
    SoundMore(z, os, es, e, c.0, c.1);
    forall d | d in os && Before(d, c.0, c.1 + 1) ensures Complete(z, os, es + {e}, d) {
      assert d == c || Before(d, c.0, c.1);
    }
  }

  lemma NeighbourUnited(z: Size, os: set<Cell>, es: Edges, c: Cell, k: nat)
    requires k < 4 && Uniting(z, os, es, c, k) && c in os && Neighbours(c)[k] in os
    ensures Uniting(z, os, es + {(Id(z, Neighbours(c)[k]), Id(z, c))}, c, k + 1)
  {
    hide Id, OnBorder, Complete, Before;
    var d := Neighbours(c)[k];
    assert Adjacent(c, d);
    assert IsEdge(z, os, (Id(z, d), Id(z, c)));
    SoundMore(z, os, es, (Id(z, d), Id(z, c)), c.0, c.1);
  }

  lemma NeighboursUnited(z: Size, os: set<Cell>, es: Edges, c: Cell)
    requires Uniting(z, os, es, c, 4) && !OnBorder(z, c)
    ensures United(z, os, es, c.0, c.1 + 1)
  {
    hide Id;
    forall d | d in os && Adjacent(c, d) ensures (Id(z, d), Id(z, c)) in es {
      var m := NeighbourIndex(c, d);
    }
    forall d | d in os && Before(d, c.0, c.1 + 1) ensures Complete(z, os, es, d) {
      assert d == c || Before(d, c.0, c.1);
    }
  }

  lemma SkippedUnited(z: Size, os: set<Cell>, es: Edges, c: Cell)
    requires United(z, os, es, c.0, c.1) && c !in os
    ensures United(z, os, es, c.0, c.1 + 1)
  {
    hide Complete;
    forall d | d in os && Before(d, c.0, c.1 + 1) ensures Complete(z, os, es, d) {
      assert d != c ==> Before(d, c.0, c.1);
    }
  }

  lemma StartUniting(z: Size, os: set<Cell>, es: Edges, c: Cell)
    requires United(z, os, es, c.0, c.1)
    ensures Uniting(z, os, es, c, 0)
  {
  }

  lemma SkipUniting(z: Size, os: set<Cell>, es: Edges, c: Cell, k: nat)
    requires k < 4 && Uniting(z, os, es, c, k) && Neighbours(c)[k] !in os
    ensures Uniting(z, os, es, c, k + 1)
  {
    hide United, Id;
  }

  /** The unions for one cell. */
  method UniteCell(board: array2<char>, dict: Dictionary, i: int, j: int, ghost os: set<Cell>, ghost es: Edges)
    returns (ghost more: Edges)
    requires Inside(SizeOf(board), (i, j)) && Shows(board, os) && United(SizeOf(board), os, es, i, j)
    requires IsForest(dict.f, dict.sh) && Matches(es, dict.sh)
    modifies dict
    ensures IsForest(dict.f, dict.sh) && Matches(more, dict.sh) && United(SizeOf(board), os, more, i, j + 1)
  {
    hide IsForest, Matches, United, Uniting, Merged;
    ghost var z, c := SizeOf(board), (i, j);
    var row, col := board.Length0, board.Length1;
    var dummy := row * col;
    more := es;
    if board[i, j] == 'O' {
      if i == 0 || i == row - 1 || j == 0 || j == col - 1 {
        ghost var sh := dict.sh;
        dict.Union(i * col + j, dummy);
        MergedMatches(more, sh, dict.sh, dummy, i * col + j);
        BorderUnited(z, os, more, c);
        more := more + {(Dummy(z), Id(z, c))};
      } else {
        StartUniting(z, os, more, c);
        var offsets := [(-1, 0), (1, 0), (0, -1), (0, 1)];
        for k := 0 to 4
          invariant IsForest(dict.f, dict.sh) && Matches(more, dict.sh) && Uniting(z, os, more, c, k)
        {
          var (x, y) := offsets[k];
          assert Neighbours(c)[k] == (i + x, j + y);
          if board[i + x, j + y] == 'O' {
            ghost var sh := dict.sh;
            dict.Union(i * col + j, (i + x) * col + (j + y));
            MergedMatches(more, sh, dict.sh, (i + x) * col + (j + y), i * col + j);
            NeighbourUnited(z, os, more, c, k);
            more := more + {(Id(z, Neighbours(c)[k]), Id(z, c))};
          } else {
            SkipUniting(z, os, more, c, k);
          }
        }
        NeighboursUnited(z, os, more, c);
      }
    } else {
      SkippedUnited(z, os, more, c);
    }
  }

  lemma NextRow(z: Size, os: set<Cell>, es: Edges, i: int)
    requires United(z, os, es, i, z.cols) && forall c :: c in os ==> Inside(z, c)
    ensures United(z, os, es, i + 1, 0)
  {
    hide Complete;
    forall c | c in os && Before(c, i + 1, 0) ensures Complete(z, os, es, c) {
      assert Before(c, i, z.cols);
    }
  }

  lemma StartUnited(z: Size, os: set<Cell>)
    requires forall c :: c in os ==> Inside(z, c)
    ensures United(z, os, {}, 0, 0)
  {
  }

  lemma AllUnited(z: Size, os: set<Cell>, es: Edges)
    requires United(z, os, es, z.rows, 0) && forall c :: c in os ==> Inside(z, c)
    ensures Sound(z, os, es) && forall c :: c in os ==> Inside(z, c) && Complete(z, os, es, c)
  {
    hide Complete;
    forall c | c in os ensures Complete(z, os, es, c) {
      assert Before(c, z.rows, 0);
    }
  }

  lemma SameColoursMatch(es: Edges, a: Shape, b: Shape)
    requires Matches(es, a) && SameColours(a, b)
    ensures Matches(es, b)
  {
  }

  /** Equal roots of the dummy and a cell mean that the cell escapes. */
  lemma SameRootIffEscapes(z: Size, os: set<Cell>, es: Edges, sh: Shape, c: Cell)
    requires Matches(es, sh) && Inside(z, c) && Sound(z, os, es)
    requires forall d :: d in os ==> Inside(z, d) && Complete(z, os, es, d)
    ensures Colour(sh, Dummy(z)) == Colour(sh, Id(z, c)) <==> Escapes(z, os, c)
  {
    hide Escapes, Connected, Complete, Sound, Inside, Colour;
    ConnectedIffEscapes(z, os, es, c);
  }

  method DecideCell(board: array2<char>, dict: Dictionary, i: int, j: int, ghost os: set<Cell>, ghost es: Edges)
    requires Inside(SizeOf(board), (i, j)) && Sound(SizeOf(board), os, es)
    requires forall d :: d in os ==> Inside(SizeOf(board), d) && Complete(SizeOf(board), os, es, d)
    requires IsForest(dict.f, dict.sh) && Matches(es, dict.sh)
    modifies dict, board
    ensures IsForest(dict.f, dict.sh) && Matches(es, dict.sh)
    ensures board[i, j] == if Escapes(SizeOf(board), os, (i, j)) then 'O' else 'X'
    ensures forall x, y :: 0 <= x < board.Length0 && 0 <= y < board.Length1 && (x, y) != (i, j) ==>
              board[x, y] == old(board[x, y])
  {
    hide IsForest, Matches, Sound, Complete, Colour, Escapes;
    ghost var z := SizeOf(board);
    var col := board.Length1;
    var dummy := board.Length0 * board.Length1;
    SameRootIffEscapes(z, os, es, dict.sh, (i, j));
    ghost var sh0 := dict.sh;
    var a := dict.Find(dummy);
    ghost var sh1 := dict.sh;
    SameColoursMatch(es, sh0, sh1);
    var b := dict.Find(i * col + j);
    SameColoursMatch(es, sh1, dict.sh);
    assert Colour(sh1, i * col + j) == Colour(sh0, i * col + j);
    if a == b {
      board[i, j] := 'O';
    } else {
      board[i, j] := 'X';
    }
  }

  lemma XOShows(board: array2<char>)
    requires OnlyXO(board)
    ensures Shows(board, OCells(board))
  {
  }

  lemma ShowsInside(board: array2<char>, os: set<Cell>)
    requires Shows(board, os)
    ensures forall c :: c in os ==> Inside(SizeOf(board), c)
  {
  }

  method Solve(board: array2<char>)
    requires OnlyXO(board)
    modifies board
    ensures Solved(board, old(OCells(board)))
  {
    hide IsForest, Matches, United, Sound, Complete, Escapes, OCells, Shows;
    ghost var os := OCells(board);
    XOShows(board);
    if board.Length0 == 0 || board.Length1 == 0 {
      return;
    }
    ghost var z := SizeOf(board);
    var row, col := board.Length0, board.Length1;
    var dict := new Dictionary();
    ghost var es: Edges := {};
    ShowsInside(board, os);
    StartUnited(z, os);
    MatchesNothing(dict.sh);
    for i := 0 to row
      invariant Shows(board, os) && IsForest(dict.f, dict.sh) && Matches(es, dict.sh) && United(z, os, es, i, 0)
    {
      for j := 0 to col
        invariant Shows(board, os) && IsForest(dict.f, dict.sh) && Matches(es, dict.sh) && United(z, os, es, i, j)
      {
        es := UniteCell(board, dict, i, j, os, es);
      }
      NextRow(z, os, es, i);
    }
    AllUnited(z, os, es);
    for i := 0 to row
      invariant IsForest(dict.f, dict.sh) && Matches(es, dict.sh)
      invariant forall x, y :: 0 <= x < i && 0 <= y < col ==> board[x, y] == if Escapes(z, os, (x, y)) then 'O' else 'X'
    {
      for j := 0 to col
        invariant IsForest(dict.f, dict.sh) && Matches(es, dict.sh)
        invariant forall x, y :: 0 <= x <= i && 0 <= y < col && (x < i || y < j) ==>
                    board[x, y] == if Escapes(z, os, (x, y)) then 'O' else 'X'
      {
        DecideCell(board, dict, i, j, os, es);
      }
    }
  }
}
