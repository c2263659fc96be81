/**
 Surrounded regions (130、被围绕的区域.py): what all three solvers compute.

 A board is described by the set `os` of its 'O' cells.  A cell escapes when a path of 'O' cells leads
 from it to the border; a solved board has 'O' on the escaping cells and 'X' everywhere else.
 */
module Board {

  type Cell = (int, int)

  datatype Size = Size(rows: nat, cols: nat)

  // ---------------------------------------------------------------- the reference

  predicate Inside(z: Size, c: Cell)
  {
    0 <= c.0 < z.rows && 0 <= c.1 < z.cols
  }

  predicate OnBorder(z: Size, c: Cell)
  {
    Inside(z, c) && (c.0 == 0 || c.0 == z.rows - 1 || c.1 == 0 || c.1 == z.cols - 1)
  }

  function Gap(a: int, b: int): nat
  {
    if a < b then b - a else a - b
  }

  /** Row distance and column distance add up to 1. */
  predicate Adjacent(a: Cell, b: Cell)
  {
    Gap(a.0, b.0) + Gap(a.1, b.1) == 1
  }

  lemma AdjacentSymmetric(a: Cell, b: Cell)
    requires Adjacent(a, b)
    ensures Adjacent(b, a)
  {
  }

  /** `path` continues from `c` over adjacent 'O' cells to the border. */
  ghost predicate IsWayOut(z: Size, os: set<Cell>, c: Cell, path: seq<Cell>)
    decreases |path|
  {
    && c in os
    && if path == [] then OnBorder(z, c)
       else Adjacent(c, path[0]) && IsWayOut(z, os, path[0], path[1..])
  }

  ghost predicate Escapes(z: Size, os: set<Cell>, c: Cell)
  {
    exists path :: IsWayOut(z, os, c, path)
  }

  lemma BorderEscapes(z: Size, os: set<Cell>, c: Cell)
    requires c in os && OnBorder(z, c)
    ensures Escapes(z, os, c)
  {
    assert IsWayOut(z, os, c, []);
  }

  lemma NeighbourEscapes(z: Size, os: set<Cell>, c: Cell, d: Cell)
    requires Escapes(z, os, c) && d in os && Adjacent(c, d)
    ensures Escapes(z, os, d)
  {
    var path :| IsWayOut(z, os, c, path);
    AdjacentSymmetric(c, d);
    assert ([c] + path)[1..] == path;
    assert IsWayOut(z, os, d, [c] + path);
  }

  // ---------------------------------------------------------------- boards

  ghost function SizeOf(board: array2<char>): Size
  {
    Size(board.Length0, board.Length1)
  }

  ghost predicate OnlyXO(board: array2<char>)
    reads board
  {
    forall i, j :: 0 <= i < board.Length0 && 0 <= j < board.Length1 ==> board[i, j] == 'X' || board[i, j] == 'O'
  }

  ghost function OCells(board: array2<char>): set<Cell>
    reads board
  {
    set i, j | 0 <= i < board.Length0 && 0 <= j < board.Length1 && board[i, j] == 'O' :: (i, j)
  }

  /** The final board for the initial 'O' cells `os`. */
  ghost predicate Solved(board: array2<char>, os: set<Cell>)
    reads board
  {
    forall i, j :: 0 <= i < board.Length0 && 0 <= j < board.Length1 ==>
      board[i, j] == if Escapes(SizeOf(board), os, (i, j)) then 'O' else 'X'
  }

  // ---------------------------------------------------------------- marking, shared by DFS and BFS

  /** The cells tried from `c`, in the order of the source. */
  function Neighbours(c: Cell): seq<Cell>
  {
    [(c.0 - 1, c.1), (c.0 + 1, c.1), (c.0, c.1 - 1), (c.0, c.1 + 1)]
  }

  /** They are the adjacent cells, all of them and no others. */
  lemma NeighboursAreAdjacent(a: Cell, b: Cell)
    ensures b in Neighbours(a) <==> Adjacent(a, b)
  {
    var (i, j) := a;
    assert Neighbours(a)[0] == (i - 1, j) && Neighbours(a)[1] == (i + 1, j);
    assert Neighbours(a)[2] == (i, j - 1) && Neighbours(a)[3] == (i, j + 1);
  }

  /** The place of an adjacent cell among those tried. */
  lemma NeighbourIndex(a: Cell, b: Cell) returns (k: nat)
    requires Adjacent(a, b)
    ensures k < 4 && Neighbours(a)[k] == b
  {
    NeighboursAreAdjacent(a, b);
    k :| k < |Neighbours(a)| && Neighbours(a)[k] == b;
  }

  /** 'L' on the marked cells, the initial contents elsewhere. */
  ghost predicate Marked(board: array2<char>, os: set<Cell>, marked: set<Cell>)
    reads board
  {
    && marked <= os
    && (forall c :: c in os ==> Inside(SizeOf(board), c))
    && forall i, j :: 0 <= i < board.Length0 && 0 <= j < board.Length1 ==>
         board[i, j] == if (i, j) in marked then 'L' else if (i, j) in os then 'O' else 'X'
  }

  /** Overwriting one more 'O' (or 'L') cell with 'L'. */
  lemma MarkCell(board: array2<char>, os: set<Cell>, marked: set<Cell>, c: Cell)
    requires c in os && Inside(SizeOf(board), c)
    requires board[c.0, c.1] == 'L'
    requires marked <= os && forall d :: d in os ==> Inside(SizeOf(board), d)
    requires forall i, j :: 0 <= i < board.Length0 && 0 <= j < board.Length1 && (i, j) != c ==>
               board[i, j] == if (i, j) in marked then 'L' else if (i, j) in os then 'O' else 'X'
    ensures Marked(board, os, marked + {c})
  {
  }

  /** Every 'O' neighbour of the given cells is marked. */
  ghost predicate Swept(os: set<Cell>, cells: set<Cell>, marked: set<Cell>)
  {
    forall c, d :: c in cells && d in os && Adjacent(c, d) ==> d in marked
  }

  ghost predicate AllEscape(z: Size, os: set<Cell>, cells: set<Cell>)
  {
    forall c :: c in cells ==> Escapes(z, os, c)
  }

  ghost predicate BorderDone(z: Size, os: set<Cell>, marked: set<Cell>)
  {
    forall c :: c in os && OnBorder(z, c) ==> c in marked
  }

  /** The first `k` cells of the top and bottom rows have been visited. */
  ghost predicate RowsDone(z: Size, os: set<Cell>, marked: set<Cell>, k: nat)
  {
    forall c :: c in os && 0 <= c.1 < k && (c.0 == 0 || c.0 == z.rows - 1) ==> c in marked
  }

  /** The first `k` cells of the left and right columns have been visited. */
  ghost predicate ColumnsDone(z: Size, os: set<Cell>, marked: set<Cell>, k: nat)
  {
    forall c :: c in os && 0 <= c.0 < k && (c.1 == 0 || c.1 == z.cols - 1) ==> c in marked
  }

  lemma AllBorderDone(z: Size, os: set<Cell>, marked: set<Cell>)
    requires RowsDone(z, os, marked, z.cols) && ColumnsDone(z, os, marked, z.rows)
    ensures BorderDone(z, os, marked)
  {
  }

  /** A swept marking that covers the border covers every way out. */
  lemma {:induction false} WayOutMarked(z: Size, os: set<Cell>, marked: set<Cell>, c: Cell, path: seq<Cell>)
    requires Swept(os, marked, marked) && IsWayOut(z, os, c, path)
    requires BorderDone(z, os, marked)
    ensures c in marked
    decreases |path|
  {
    if path != [] {
      WayOutMarked(z, os, marked, path[0], path[1..]);
      AdjacentSymmetric(c, path[0]);
    }
  }

  /** Then the marked cells are exactly the escaping ones. */
  lemma MarkedIffEscapes(z: Size, os: set<Cell>, marked: set<Cell>, c: Cell)
    requires Swept(os, marked, marked) && AllEscape(z, os, marked)
    requires BorderDone(z, os, marked)
    ensures c in marked <==> Escapes(z, os, c)
  {
    if Escapes(z, os, c) {
      var path :| IsWayOut(z, os, c, path);
      WayOutMarked(z, os, marked, c, path);
    }
  }

  /** Between two searches: nothing marked has an unmarked 'O' neighbour, and all of it escapes. */
  ghost predicate Settled(board: array2<char>, os: set<Cell>, marked: set<Cell>)
    reads board
  {
    Marked(board, os, marked) && Swept(os, marked, marked) && AllEscape(SizeOf(board), os, marked)
  }

  /** A search marked `more` on top of a settled `marked` and swept all of the new cells. */
  lemma SettledAfterSearch(board: array2<char>, os: set<Cell>, marked: set<Cell>, more: set<Cell>)
    requires Marked(board, os, more) && marked <= more
    requires Swept(os, marked, marked) && Swept(os, more - marked, more) && AllEscape(SizeOf(board), os, more)
    ensures Settled(board, os, more)
  {
  }

  lemma SettledCell(board: array2<char>, os: set<Cell>, marked: set<Cell>, c: Cell)
    requires Settled(board, os, marked) && Inside(SizeOf(board), c)
    ensures board[c.0, c.1] == 'O' <==> c in os && c !in marked
    ensures c in os && OnBorder(SizeOf(board), c) ==> Escapes(SizeOf(board), os, c)
  {
    if c in os && OnBorder(SizeOf(board), c) { BorderEscapes(SizeOf(board), os, c); }
  }

  lemma StartMarking(board: array2<char>)
    requires OnlyXO(board)
    ensures Settled(board, OCells(board), {})
  {
  }

  lemma EmptyBoard(board: array2<char>, os: set<Cell>)
    requires board.Length0 == 0
    ensures Solved(board, os)
  {
  }

  /** The last pass of both marking solvers. */
  method Finish(board: array2<char>, ghost os: set<Cell>, ghost marked: set<Cell>)
    requires Settled(board, os, marked) && BorderDone(SizeOf(board), os, marked)
    modifies board
    ensures Solved(board, os)
  {
    hide Swept, AllEscape, BorderDone, Escapes;
    ghost var z := SizeOf(board);
    for x := 0 to board.Length0
      invariant forall i, j :: 0 <= i < x && 0 <= j < board.Length1 ==>
                  board[i, j] == if (i, j) in marked then 'O' else 'X'
      invariant forall i, j :: x <= i < board.Length0 && 0 <= j < board.Length1 ==>
                  board[i, j] == if (i, j) in marked then 'L' else if (i, j) in os then 'O' else 'X'
    {
      for y := 0 to board.Length1
        invariant forall i, j :: 0 <= i <= x && 0 <= j < board.Length1 && (i < x || j < y) ==>
                    board[i, j] == if (i, j) in marked then 'O' else 'X'
        invariant forall i, j :: x <= i < board.Length0 && 0 <= j < board.Length1 && (x < i || y <= j) ==>
                    board[i, j] == if (i, j) in marked then 'L' else if (i, j) in os then 'O' else 'X'
      {
        if board[x, y] == 'O' {
          board[x, y] := 'X';
        }
        if board[x, y] == 'L' {
          board[x, y] := 'O';
        }
      }
    }
    forall i, j | 0 <= i < board.Length0 && 0 <= j < board.Length1
      ensures board[i, j] == if Escapes(z, os, (i, j)) then 'O' else 'X'
    {
      MarkedIffEscapes(z, os, marked, (i, j));
    }
  }
}
