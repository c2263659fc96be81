/** Where the source solves a problem several times, its solutions give the same answer. */
module Agreement {
  import opened Prelude

  import opened Board
  import CycleEntry
  import LongestIncreasing
  import SurroundedBfs
  import SurroundedDfs
  import SurroundedUnionFind

  method Copy(board: array2<char>) returns (copy: array2<char>)
    ensures fresh(copy) && SizeOf(copy) == SizeOf(board)
    ensures OCells(copy) == OCells(board) && (OnlyXO(board) ==> OnlyXO(copy))
  {
    copy := new char[board.Length0, board.Length1]((i, j)
      reads board
      requires 0 <= i < board.Length0 && 0 <= j < board.Length1 => board[i, j]);
  }

  /** The three solvers, each on its own copy of the board. */
  method SolveThreeWays(board: array2<char>) returns (a: array2<char>, b: array2<char>, c: array2<char>)
    requires OnlyXO(board)
    requires board.Length0 > 0 ==> board.Length1 > 0
    ensures fresh(a) && fresh(b) && fresh(c) && SizeOf(a) == SizeOf(b) == SizeOf(c) == SizeOf(board)
    ensures Solved(a, OCells(board))
    ensures forall i, j :: 0 <= i < board.Length0 && 0 <= j < board.Length1 ==> a[i, j] == b[i, j] == c[i, j]
  {
    hide Escapes, OCells, OnlyXO;
    a := Copy(board);
    b := Copy(board);
    c := Copy(board);
    SurroundedDfs.Solve(a);
    SurroundedBfs.Solve(b);
    SurroundedUnionFind.Solve(c);
  }

  /** The quadratic table and the tails version on one list. */
  method BothLengths(nums: seq<int>) returns (n: nat, s: Option<seq<int>>)
    ensures if nums == [] then n == 0 && s.None? else s.Some? && |s.value| == n
  {
    n := LongestIncreasing.LengthOfLis(nums);
    s := LongestIncreasing.LongestSubsequence(nums);
    if s.Some? {
      LongestIncreasing.LongestIsUnique(nums, n, |s.value|);
    } else {
      LongestIncreasing.LongestOfNothing(n);
    }
  }

  /** The visited set and the two pointers on one list. */
  method BothEntries(head: CycleEntry.ListNode?, ghost nodes: set<CycleEntry.ListNode>)
    returns (r: CycleEntry.ListNode?, q: CycleEntry.ListNode?)
    requires CycleEntry.Closed(head, nodes)
    ensures r == q && CycleEntry.IsEntry(head, r, nodes)
  {
    r := CycleEntry.DetectCycleSet(head, nodes);
    q := CycleEntry.DetectCycleTwoPointers(head, nodes);
    CycleEntry.EntryIsUnique(head, r, q, nodes);
  }
}
