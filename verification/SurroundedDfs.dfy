/** Surrounded regions by recursive depth-first search from the border (Solution1 of 130、被围绕的区域.py). */
module SurroundedDfs {

  import opened Board

  /** What a search has done so far: `more` extends `marked`, only `c` may still have unmarked
      neighbours, and of those only the ones after the first `k`. */
  ghost predicate Searching(board: array2<char>, os: set<Cell>, marked: set<Cell>, more: set<Cell>, c: Cell, k: nat)
    reads board
  {
    && Marked(board, os, more) && marked <= more && c in more && c !in marked
    && AllEscape(SizeOf(board), os, more)
    && Swept(os, more - marked - {c}, more)
    && forall m :: 0 <= m < k && m < 4 && Neighbours(c)[m] in os ==> Neighbours(c)[m] in more
  }

  lemma StartSearch(board: array2<char>, os: set<Cell>, marked: set<Cell>, c: Cell)
    requires c in os && c !in marked && Marked(board, os, marked + {c})
    requires AllEscape(SizeOf(board), os, marked) && Escapes(SizeOf(board), os, c)
    ensures Searching(board, os, marked, marked + {c}, c, 0)
  {
    assert marked + {c} - marked - {c} == {};
  }

  /** A nested search from neighbour `k` hands over its cells. */
  lemma AfterNested(board: array2<char>, os: set<Cell>, marked: set<Cell>, mid: set<Cell>, more: set<Cell>,
                    c: Cell, k: nat)
    requires k < 4 && Marked(board, os, more) && marked <= mid <= more && c in mid && c !in marked
    requires Swept(os, mid - marked - {c}, mid) && Swept(os, more - mid, more)
    requires AllEscape(SizeOf(board), os, more)
    requires forall m :: 0 <= m < k && Neighbours(c)[m] in os ==> Neighbours(c)[m] in mid
    requires Neighbours(c)[k] in more
    ensures Searching(board, os, marked, more, c, k + 1)
  {
  }

  lemma SkipNeighbour(board: array2<char>, os: set<Cell>, marked: set<Cell>, more: set<Cell>, c: Cell, k: nat)
    requires k < 4 && Searching(board, os, marked, more, c, k)
    requires Neighbours(c)[k] in os ==> Neighbours(c)[k] in more
    ensures Searching(board, os, marked, more, c, k + 1)
  {
  }

  /** What the nested call needs to know about neighbour `k`. */
  lemma NeighbourState(board: array2<char>, os: set<Cell>, marked: set<Cell>, more: set<Cell>, c: Cell, k: nat)
    requires k < 4 && Searching(board, os, marked, more, c, k)
    ensures var d := Neighbours(c)[k];
            if Inside(SizeOf(board), d)
            then (board[d.0, d.1] == 'O' <==> d in os && d !in more) && (d in os ==> Escapes(SizeOf(board), os, d))
            else d !in os
  {
    var d := Neighbours(c)[k];
    if d in os { NeighbourEscapes(SizeOf(board), os, c, d); }
  }

  lemma SearchDone(board: array2<char>, os: set<Cell>, marked: set<Cell>, more: set<Cell>, c: Cell)
    requires Searching(board, os, marked, more, c, 4)
    ensures Marked(board, os, more) && AllEscape(SizeOf(board), os, more) && Swept(os, more - marked, more)
    ensures marked <= more && c in more
  {
    forall a, d | a in more - marked && d in os && Adjacent(a, d) ensures d in more {
      if a == c {
        var m := NeighbourIndex(c, d);
      }
    }
  }

  lemma SearchingParts(board: array2<char>, os: set<Cell>, marked: set<Cell>, more: set<Cell>, c: Cell, k: nat)
    requires Searching(board, os, marked, more, c, k)
    ensures Marked(board, os, more) && marked <= more && c in more && c !in marked
    ensures AllEscape(SizeOf(board), os, more) && Swept(os, more - marked - {c}, more)
    ensures forall m :: 0 <= m < k && m < 4 && Neighbours(c)[m] in os ==> Neighbours(c)[m] in more
  {
  }

  /** Marks the 'O' cells reachable from (x, y) over unmarked cells: afterwards every newly marked cell
      has all its 'O' neighbours marked. */
  method Dfs(board: array2<char>, x: int, y: int, ghost os: set<Cell>, ghost marked: set<Cell>)
    returns (ghost more: set<Cell>)
    requires (x, y) in os && (x, y) !in marked
    requires Marked(board, os, marked) && AllEscape(SizeOf(board), os, marked) && Escapes(SizeOf(board), os, (x, y))
    modifies board
    ensures Marked(board, os, more) && AllEscape(SizeOf(board), os, more)
    ensures marked <= more && (x, y) in more && Swept(os, more - marked, more)
    decreases os - marked
  {
    hide AllEscape, Escapes, Swept, Searching;
    ghost var c := (x, y);
    board[x, y] := 'L';
    MarkCell(board, os, marked, c);
    more := marked + {c};
    StartSearch(board, os, marked, c);
    var neighbours := Neighbours((x, y));
    for k := 0 to 4
      invariant Searching(board, os, marked, more, c, k)
    {
      var (p, q) := neighbours[k];
      NeighbourState(board, os, marked, more, c, k);
      if 0 <= p < board.Length0 && 0 <= q < board.Length1 && board[p, q] == 'O' {
        ghost var mid := more;
        SearchingParts(board, os, marked, more, c, k);
        more := Dfs(board, p, q, os, mid);
        AfterNested(board, os, marked, mid, more, c, k);
      } else {
        SkipNeighbour(board, os, marked, more, c, k);
      }
    }
    SearchDone(board, os, marked, more, c);
  }

  /** `if board[x][y] == 'O': dfs(x, y)` on a border cell. */
  method Visit(board: array2<char>, x: int, y: int, ghost os: set<Cell>, ghost marked: set<Cell>)
    returns (ghost more: set<Cell>)
    requires OnBorder(SizeOf(board), (x, y)) && Settled(board, os, marked)
    modifies board
    ensures Settled(board, os, more) && marked <= more && ((x, y) in os ==> (x, y) in more)
  {
    hide Escapes, Swept, AllEscape;
    SettledCell(board, os, marked, (x, y));
    more := marked;
    if board[x, y] == 'O' {
      more := Dfs(board, x, y, os, marked);
      SettledAfterSearch(board, os, marked, more);
    }
  }

  method Solve(board: array2<char>)
    requires OnlyXO(board)
    requires board.Length0 > 0 ==> board.Length1 > 0
    modifies board
    ensures Solved(board, old(OCells(board)))
  {
    hide Settled, Solved, OCells, BorderDone;
    ghost var os, marked := OCells(board), {};
    StartMarking(board);
    if board.Length0 == 0 {
      EmptyBoard(board, os);
      return;
    }
    var raw, col := board.Length0, board.Length1;
    ghost var z := SizeOf(board);
    for i := 0 to col
      invariant Settled(board, os, marked) && RowsDone(z, os, marked, i)
    {
      marked := Visit(board, 0, i, os, marked);
      marked := Visit(board, raw - 1, i, os, marked);
    }
    for j := 0 to raw
      invariant Settled(board, os, marked) && RowsDone(z, os, marked, col) && ColumnsDone(z, os, marked, j)
    {
      marked := Visit(board, j, 0, os, marked);
      marked := Visit(board, j, col - 1, os, marked);
    }
    AllBorderDone(z, os, marked);
    Finish(board, os, marked);
  }
}
