/**
 Surrounded regions by breadth-first search from the border (Solution2 of 130、被围绕的区域.py).

 A cell is marked when it leaves the queue, not when it enters, so it can be queued many times.
 Termination rests on ghost levels: an entry's level never exceeds the number of marked cells, and
 replacing an entry by at most four entries of the next level lowers the sum of 5^(bound - level).
 */
module SurroundedBfs {

  import opened Board

  // ---------------------------------------------------------------- the measure

  function Pow5(k: int): (r: nat)
    ensures r >= 1
    decreases if k < 0 then 0 else k
  {
    if k <= 0 then 1 else 5 * Pow5(k - 1)
  }

  function Weight(bound: nat, levels: seq<nat>): nat
  {
    if levels == [] then 0 else Pow5(bound - levels[0]) + Weight(bound, levels[1..])
  }

  lemma {:induction false} WeightAppend(bound: nat, levels: seq<nat>, l: nat)
    ensures Weight(bound, levels + [l]) == Weight(bound, levels) + Pow5(bound - l)
    decreases |levels|
  {
    if levels == [] {
      assert levels + [l] == [l] && [l][1..] == [];
    } else {
      assert (levels + [l])[1..] == levels[1..] + [l];
      WeightAppend(bound, levels[1..], l);
    }
  }

  // ---------------------------------------------------------------- the invariant

  ghost predicate Covered(os: set<Cell>, cells: set<Cell>, marked: set<Cell>, queue: seq<Cell>)
  {
    forall c, d :: c in cells && d in os && Adjacent(c, d) ==> d in marked || d in queue
  }

  /** Queue entries are escaping 'O' cells, and whatever the new cells touch is marked or queued. */
  ghost predicate Flooding(board: array2<char>, os: set<Cell>, base: set<Cell>, marked: set<Cell>, queue: seq<Cell>)
    reads board
  {
    && Marked(board, os, marked) && base <= marked && AllEscape(SizeOf(board), os, marked)
    && (forall c :: c in queue ==> c in os && Escapes(SizeOf(board), os, c))
    && Covered(os, marked - base, marked, queue)
  }

  /** The same while the neighbours of `c` from the k-th on are still to be looked at. */
  ghost predicate Spreading(board: array2<char>, os: set<Cell>, base: set<Cell>, marked: set<Cell>, queue: seq<Cell>,
                            c: Cell, k: nat)
    reads board
  {
    && Marked(board, os, marked) && base <= marked && AllEscape(SizeOf(board), os, marked) && c in marked
    && (forall d :: d in queue ==> d in os && Escapes(SizeOf(board), os, d))
    && Covered(os, marked - base - {c}, marked, queue)
    && forall m :: 0 <= m < k && m < 4 && Neighbours(c)[m] in os ==>
         Neighbours(c)[m] in marked || Neighbours(c)[m] in queue
  }

  /** An entry's level is at most the number of marked cells, and below it once its cell is marked. */
  ghost predicate Leveled(marked: set<Cell>, queue: seq<Cell>, levels: seq<nat>)
  {
    && |levels| == |queue|
    && forall k :: 0 <= k < |queue| ==> levels[k] + (if queue[k] in marked then 1 else 0) <= |marked|
  }

  // ---------------------------------------------------------------- steps

  lemma StartFlood(board: array2<char>, os: set<Cell>, base: set<Cell>, c: Cell)
    requires Marked(board, os, base) && AllEscape(SizeOf(board), os, base)
    requires c in os && c !in base && Escapes(SizeOf(board), os, c)
    ensures Flooding(board, os, base, base, [c]) && Leveled(base, [c], [0])
  {
    assert base - base == {};
  }

  lemma SubsetSize<T>(a: set<T>, b: set<T>)
    requires a <= b
    ensures |a| <= |b|
  {
    assert b == a + (b - a);
  }

  lemma PopLevels(os: set<Cell>, marked: set<Cell>, queue: seq<Cell>, levels: seq<nat>)
    requires queue != [] && Leveled(marked, queue, levels) && marked <= os && queue[0] in os
    ensures Leveled(marked + {queue[0]}, queue[1..], levels[1..])
    ensures levels[0] + 1 <= |marked + {queue[0]}| <= |os|
  {
    var more := marked + {queue[0]};
    SubsetSize(more, os);
    if queue[0] in marked {
      assert more == marked;
    } else {
      assert |more| == |marked| + 1;
    }
  }

  /** `base` and `marked` describe the board before the popped cell `c` was overwritten with 'L'. */
  lemma PopFlood(board: array2<char>, os: set<Cell>, base: set<Cell>, marked: set<Cell>, queue: seq<Cell>)
    requires queue != [] && Marked(board, os, marked + {queue[0]}) && base <= marked
    requires AllEscape(SizeOf(board), os, marked) && Covered(os, marked - base, marked, queue)
    requires forall c :: c in queue ==> c in os && Escapes(SizeOf(board), os, c)
    ensures Spreading(board, os, base, marked + {queue[0]}, queue[1..], queue[0], 0)
  {
    hide Escapes, Adjacent;
    var c, more := queue[0], marked + {queue[0]};
    assert queue == [c] + queue[1..];
    assert more - base - {c} <= marked - base;
  }

  lemma PushNeighbour(board: array2<char>, os: set<Cell>, base: set<Cell>, marked: set<Cell>, queue: seq<Cell>,
                      c: Cell, k: nat)
    requires k < 4 && Spreading(board, os, base, marked, queue, c, k) && Neighbours(c)[k] in os
    ensures Spreading(board, os, base, marked, queue + [Neighbours(c)[k]], c, k + 1)
  {
    hide Escapes, Marked;
    var d := Neighbours(c)[k];
    NeighbourEscapes(SizeOf(board), os, c, d);
  }

  lemma SkipNeighbour(board: array2<char>, os: set<Cell>, base: set<Cell>, marked: set<Cell>, queue: seq<Cell>,
                      c: Cell, k: nat)
    requires k < 4 && Spreading(board, os, base, marked, queue, c, k)
    requires Neighbours(c)[k] in os ==> Neighbours(c)[k] in marked
    ensures Spreading(board, os, base, marked, queue, c, k + 1)
  {
  }

  lemma NeighbourState(board: array2<char>, os: set<Cell>, base: set<Cell>, marked: set<Cell>, queue: seq<Cell>,
                       c: Cell, k: nat)
    requires k < 4 && Spreading(board, os, base, marked, queue, c, k)
    ensures var d := Neighbours(c)[k];
            if Inside(SizeOf(board), d) then board[d.0, d.1] == 'O' <==> d in os && d !in marked else d !in os
  {
  }

  lemma SpreadDone(board: array2<char>, os: set<Cell>, base: set<Cell>, marked: set<Cell>, queue: seq<Cell>, c: Cell)
    requires Spreading(board, os, base, marked, queue, c, 4)
    ensures Flooding(board, os, base, marked, queue)
  {
    forall a, d | a in marked - base && d in os && Adjacent(a, d) ensures d in marked || d in queue {
      if a == c {
        var m := NeighbourIndex(c, d);
      }
    }
  }

  lemma FloodDone(board: array2<char>, os: set<Cell>, base: set<Cell>, marked: set<Cell>)
    requires Flooding(board, os, base, marked, []) && Swept(os, base, base)
    ensures Settled(board, os, marked) && base <= marked
  {
    assert Swept(os, marked - base, marked);
    SettledAfterSearch(board, os, base, marked);
  }

  // ---------------------------------------------------------------- the search

  lemma FloodingParts(board: array2<char>, os: set<Cell>, base: set<Cell>, marked: set<Cell>, queue: seq<Cell>)
    requires Flooding(board, os, base, marked, queue) && queue != []
    ensures Marked(board, os, marked) && base <= marked && AllEscape(SizeOf(board), os, marked)
    ensures forall c :: c in queue ==> c in os && Escapes(SizeOf(board), os, c)
    ensures Covered(os, marked - base, marked, queue)
    ensures queue[0] in os && Inside(SizeOf(board), queue[0])
  {
  }

  lemma PushLevel(marked: set<Cell>, queue: seq<Cell>, levels: seq<nat>, d: Cell, l: nat)
    requires Leveled(marked, queue, levels) && d !in marked && l <= |marked|
    ensures Leveled(marked, queue + [d], levels + [l])
  {
  }

  /** k * unit for k up to 4. */
  ghost function Times(k: nat, unit: nat): nat
  {
    if k == 0 then 0 else if k == 1 then unit else if k == 2 then 2 * unit else if k == 3 then 3 * unit else 4 * unit
  }

  /** The loop over the four neighbours of the popped cell (i, j). */
  method PushNeighbours(board: array2<char>, i: int, j: int, q0: seq<Cell>,
                        ghost os: set<Cell>, ghost base: set<Cell>, ghost marked: set<Cell>,
                        ghost levels0: seq<nat>, ghost l: nat, ghost bound: nat)
    returns (queue: seq<Cell>, ghost levels: seq<nat>)
    requires Spreading(board, os, base, marked, q0, (i, j), 0)
    requires Leveled(marked, q0, levels0) && l + 1 <= |marked| && |levels0| == |q0|
    ensures Flooding(board, os, base, marked, queue) && q0 <= queue
    ensures Leveled(marked, queue, levels) && |levels| == |queue|
    ensures Weight(bound, levels) <= Weight(bound, levels0) + 4 * Pow5(bound - l - 1)
  {
    hide AllEscape, Escapes, Swept, Covered, Flooding, Spreading, Leveled, Pow5, Weight;
    ghost var c := (i, j);
    queue, levels := q0, levels0;
    ghost var unit, weight := Pow5(bound - l - 1), Weight(bound, levels0);
    var neighbours := Neighbours((i, j));
    for k := 0 to 4
      invariant Spreading(board, os, base, marked, queue, c, k) && q0 <= queue
      invariant Leveled(marked, queue, levels) && |levels| == |queue|
      invariant Weight(bound, levels) <= weight + Times(k, unit)
    {
      var (p, q) := neighbours[k];
      NeighbourState(board, os, base, marked, queue, c, k);
      if 0 <= p < board.Length0 && 0 <= q < board.Length1 && board[p, q] == 'O' {
        PushNeighbour(board, os, base, marked, queue, c, k);
        PushLevel(marked, queue, levels, (p, q), l + 1);
        WeightAppend(bound, levels, l + 1);
        queue, levels := queue + [(p, q)], levels + [l + 1];
      } else {
        SkipNeighbour(board, os, base, marked, queue, c, k);
      }
    }
    SpreadDone(board, os, base, marked, queue, c);
  }

  /** Four entries of the next level weigh less than the popped one. */
  lemma PopWeight(bound: nat, levels: seq<nat>)
    requires levels != [] && levels[0] + 1 <= bound
    ensures Weight(bound, levels[1..]) + 4 * Pow5(bound - levels[0] - 1) < Weight(bound, levels)
  {
  }

  /** Marks everything reachable from the unmarked 'O' cell (x, y). */
  method Bfs(board: array2<char>, x: int, y: int, ghost os: set<Cell>, ghost base: set<Cell>)
    returns (ghost marked: set<Cell>)
    requires (x, y) in os && (x, y) !in base && Settled(board, os, base) && Escapes(SizeOf(board), os, (x, y))
    modifies board
    ensures Settled(board, os, marked) && base <= marked && (x, y) in marked
  {
    hide AllEscape, Escapes, Swept, Covered, Flooding, Spreading, Leveled, Pow5, Weight;
    var queue := [(x, y)];
    marked := base;
    ghost var levels: seq<nat> := [0];
    ghost var bound := |os|;
    StartFlood(board, os, base, (x, y));
    while queue != []
      invariant Flooding(board, os, base, marked, queue)
      invariant Leveled(marked, queue, levels) && |levels| == |queue|
      invariant (x, y) in marked || (x, y) in queue
      decreases Weight(bound, levels)
    {
      FloodingParts(board, os, base, marked, queue);
      PopLevels(os, marked, queue, levels);
      PopWeight(bound, levels);
      var (i, j) := queue[0];
      ghost var c := queue[0];
      board[i, j] := 'L';
      MarkCell(board, os, marked, c);
      PopFlood(board, os, base, marked, queue);
      assert queue == [c] + queue[1..];
      marked := marked + {c};
      queue, levels := PushNeighbours(board, i, j, queue[1..], os, base, marked, levels[1..], levels[0], bound);
    }
    FloodDone(board, os, base, marked);
  }

  /** `if board[x][y] == 'O': bfs(x, y)` on a border cell. */
  method Visit(board: array2<char>, x: int, y: int, ghost os: set<Cell>, ghost marked: set<Cell>)
    returns (ghost more: set<Cell>)
    requires OnBorder(SizeOf(board), (x, y)) && Settled(board, os, marked)
    modifies board
    ensures Settled(board, os, more) && marked <= more && ((x, y) in os ==> (x, y) in more)
  {
    hide Escapes, Swept, AllEscape;
    SettledCell(board, os, marked, (x, y));
    more := marked;
    if board[x, y] == 'O' {
      more := Bfs(board, x, y, os, marked);
    }
  }

  method Solve(board: array2<char>)
    requires OnlyXO(board)
    requires board.Length0 > 0 ==> board.Length1 > 0
    modifies board
    ensures Solved(board, old(OCells(board)))
  {
    hide Settled, Solved, OCells, BorderDone;
    ghost var os, marked := OCells(board), {};
    StartMarking(board);
    if board.Length0 == 0 {
      EmptyBoard(board, os);
      return;
    }
    var raw, col := board.Length0, board.Length1;
    ghost var z := SizeOf(board);
    for i := 0 to col
      invariant Settled(board, os, marked) && RowsDone(z, os, marked, i)
    {
      marked := Visit(board, 0, i, os, marked);
      marked := Visit(board, raw - 1, i, os, marked);
    }
    for j := 0 to raw
      invariant Settled(board, os, marked) && RowsDone(z, os, marked, col) && ColumnsDone(z, os, marked, j)
    {
      marked := Visit(board, j, 0, os, marked);
      marked := Visit(board, j, col - 1, os, marked);
    }
    AllBorderDone(z, os, marked);
    Finish(board, os, marked);
  }
}
