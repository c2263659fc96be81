/**
 First node of the cycle of a linked list (142、环形链表II.py): the visited-set version and Floyd's
 two pointers.  Neither changes the list.
 */
module CycleEntry {

  class ListNode {
    var next: ListNode?
  }

  // ---------------------------------------------------------------- the reference

  /** `nodes` contains `n` and is closed under `next`: the finite structure the list lives in. */
  ghost predicate Closed(n: ListNode?, nodes: set<ListNode>)
    reads nodes
  {
    && (n != null ==> n in nodes)
    && forall m :: m in nodes && m.next != null ==> m.next in nodes
  }

  /** The node `k` links after `n`; null once the list has ended. */
  ghost function After(n: ListNode?, k: nat, nodes: set<ListNode>): (r: ListNode?)
    requires Closed(n, nodes)
    reads nodes
    ensures r != null ==> r in nodes
  {
    if k == 0 then n
    else
      var m := After(n, k - 1, nodes);
      if m == null then null else m.next
  }

  /** Following the links from `n` leads back to `n`. */
  ghost predicate OnCycle(n: ListNode, nodes: set<ListNode>)
    requires Closed(n, nodes)
    reads nodes
  {
    exists d: nat :: d > 0 && After(n, d, nodes) == n
  }

  ghost predicate FirstAt(head: ListNode?, r: ListNode, k: nat, nodes: set<ListNode>)
    requires Closed(head, nodes)
    reads nodes
  {
    && After(head, k, nodes) == r
    && forall j: nat :: j < k ==> After(head, j, nodes) != null && !OnCycle(After(head, j, nodes), nodes)
  }

  /** null if the list ends; otherwise the first node from the head that lies on a cycle. */
  ghost predicate IsEntry(head: ListNode?, r: ListNode?, nodes: set<ListNode>)
    requires Closed(head, nodes)
    reads nodes
  {
    if r == null then exists k: nat :: After(head, k, nodes) == null
    else r in nodes && OnCycle(r, nodes) && exists k: nat :: FirstAt(head, r, k, nodes)
  }

  lemma {:induction false} AfterAfter(n: ListNode?, j: nat, k: nat, nodes: set<ListNode>)
    requires Closed(n, nodes)
    ensures After(After(n, j, nodes), k, nodes) == After(n, j + k, nodes)
    decreases k
  {
    if k > 0 { AfterAfter(n, j, k - 1, nodes); }
  }

  lemma {:induction false} EndsForGood(n: ListNode?, j: nat, k: nat, nodes: set<ListNode>)
    requires Closed(n, nodes) && j <= k && After(n, j, nodes) == null
    ensures After(n, k, nodes) == null
    decreases k
  {
    if j < k { EndsForGood(n, j, k - 1, nodes); }
  }

  /** A node on a cycle is never followed by the end of the list. */
  lemma {:induction false} CycleNeverEnds(n: ListNode, d: nat, k: nat, nodes: set<ListNode>)
    requires Closed(n, nodes) && d > 0 && After(n, d, nodes) == n
    ensures After(n, k, nodes) != null
    decreases k
  {
    if k < d {
      if After(n, k, nodes) == null { EndsForGood(n, k, d, nodes); }
    } else {
      CycleNeverEnds(n, d, k - d, nodes);
      AfterAfter(n, d, k - d, nodes);
    }
  }

  lemma EntryExcludesEnd(head: ListNode?, r: ListNode, nodes: set<ListNode>)
    requires Closed(head, nodes) && IsEntry(head, r, nodes)
    ensures !IsEntry(head, null, nodes)
  {
    var k: nat :| FirstAt(head, r, k, nodes);
    var d: nat :| d > 0 && After(r, d, nodes) == r;
    forall e: nat ensures After(head, e, nodes) != null {
      CycleNeverEnds(r, d, e, nodes);
      AfterAfter(head, k, e, nodes);
      if After(head, e, nodes) == null { EndsForGood(head, e, k + e, nodes); }
    }
  }

  /** The reference names one node only, so any two methods that meet it agree. */
  lemma EntryIsUnique(head: ListNode?, r: ListNode?, q: ListNode?, nodes: set<ListNode>)
    requires Closed(head, nodes) && IsEntry(head, r, nodes) && IsEntry(head, q, nodes)
    ensures r == q
  {
    if r == null && q != null { EntryExcludesEnd(head, q, nodes); }
    if r != null && q == null { EntryExcludesEnd(head, r, nodes); }
    if r != null && q != null {
      var j: nat :| FirstAt(head, r, j, nodes);
      var k: nat :| FirstAt(head, q, k, nodes);
    }
  }

  // ---------------------------------------------------------------- positions on a rho-shaped list

  ghost predicate Distinct(head: ListNode?, n: nat, nodes: set<ListNode>)
    requires Closed(head, nodes)
    reads nodes
  {
    && (forall i: nat :: i < n ==> After(head, i, nodes) != null)
    && (forall i: nat, j: nat :: i < j < n ==> After(head, i, nodes) != After(head, j, nodes))
  }

  /** The first `n` nodes are distinct and the link of the last one goes back to position `mu`. */
  ghost predicate Rho(head: ListNode?, n: nat, mu: nat, nodes: set<ListNode>)
    requires Closed(head, nodes)
    reads nodes
  {
    && mu < n && Distinct(head, n, nodes)
    && After(head, n, nodes) == After(head, mu, nodes)
  }

  /** Position, among the first n, reached after `k` links. */
  function Pos(n: nat, mu: nat, k: nat): (p: nat)
    requires mu < n
    ensures p < n && (k < n ==> p == k) && (k >= mu ==> p >= mu)
    decreases k
  {
    if k < n then k else Pos(n, mu, k - (n - mu))
  }

  lemma {:induction false} PosSucc(n: nat, mu: nat, k: nat)
    requires mu < n
    ensures Pos(n, mu, k + 1) == if Pos(n, mu, k) + 1 < n then Pos(n, mu, k) + 1 else mu
    decreases k
  {
    if k >= n { PosSucc(n, mu, k - (n - mu)); }
  }

  lemma AfterStep(n: ListNode?, k: nat, nodes: set<ListNode>)
    requires Closed(n, nodes)
    ensures var m := After(n, k, nodes);
            After(n, k + 1, nodes) == if m == null then null else m.next
  {
  }

  lemma {:induction false} AfterIsPos(head: ListNode?, n: nat, mu: nat, k: nat, nodes: set<ListNode>)
    requires Closed(head, nodes) && Rho(head, n, mu, nodes)
    ensures After(head, k, nodes) == After(head, Pos(n, mu, k), nodes)
    decreases k
  {
    if k > 0 {
      AfterIsPos(head, n, mu, k - 1, nodes);
      PosSucc(n, mu, k - 1);
      AfterStep(head, Pos(n, mu, k - 1), nodes);
      AfterStep(head, k - 1, nodes);
    }
  }

  /** Two walks meet exactly when their positions do. */
  lemma MeetIffPos(head: ListNode?, n: nat, mu: nat, j: nat, k: nat, nodes: set<ListNode>)
    requires Closed(head, nodes) && Rho(head, n, mu, nodes)
    ensures After(head, j, nodes) == After(head, k, nodes) <==> Pos(n, mu, j) == Pos(n, mu, k)
    ensures After(head, j, nodes) != null
  {
    AfterIsPos(head, n, mu, j, nodes);
    AfterIsPos(head, n, mu, k, nodes);
    assert After(head, Pos(n, mu, j), nodes) != null;
  }

  /** Equal positions on the cycle stay equal when both walks go back together. */
  lemma {:induction false} PosBack(n: nat, mu: nat, a: nat, b: nat, s: nat)
    requires mu < n && a >= mu && b >= mu && Pos(n, mu, a + s) == Pos(n, mu, b + s)
    ensures Pos(n, mu, a) == Pos(n, mu, b)
    decreases s
  {
    hide Pos;
    if s > 0 {
      PosSucc(n, mu, a + s - 1);
      PosSucc(n, mu, b + s - 1);
      PosBack(n, mu, a, b, s - 1);
    }
  }

  /** Some multiple of the cycle length lies between 1 and n and not before the entry. */
  lemma {:induction false} MeetingTime(n: nat, mu: nat) returns (t: nat)
    requires mu < n
    ensures 1 <= t <= n && mu <= t && Pos(n, mu, 2 * t) == Pos(n, mu, t)
  {
    var lam := n - mu;
    t := lam;
    while t < mu
      invariant lam <= t <= n
      invariant forall x: nat :: x >= mu ==> Pos(n, mu, x + t) == Pos(n, mu, x)
      decreases n - t
    {
      forall x: nat | x >= mu ensures Pos(n, mu, x + (t + lam)) == Pos(n, mu, x) {
        assert Pos(n, mu, (x + t) + lam) == Pos(n, mu, x + t);
      }
      t := t + lam;
    }
    assert Pos(n, mu, t + t) == Pos(n, mu, t);
  }

  lemma NotOnCycle(head: ListNode?, n: nat, mu: nat, j: nat, nodes: set<ListNode>)
    requires Closed(head, nodes) && Rho(head, n, mu, nodes) && j < mu
    requires After(head, j, nodes) != null
    ensures !OnCycle(After(head, j, nodes), nodes)
  {
    var m := After(head, j, nodes);
    forall d: nat | d > 0 ensures After(m, d, nodes) != m {
      AfterAfter(head, j, d, nodes);
      MeetIffPos(head, n, mu, j, j + d, nodes);
    }
  }

  /** On a rho shape the entry is the node at `mu`. */
  lemma RhoEntry(head: ListNode?, n: nat, mu: nat, nodes: set<ListNode>)
    requires Closed(head, nodes) && Rho(head, n, mu, nodes)
    ensures IsEntry(head, After(head, mu, nodes), nodes)
  {
    var r := After(head, mu, nodes);
    MeetIffPos(head, n, mu, mu, n, nodes);
    AfterAfter(head, mu, n - mu, nodes);
    assert After(r, n - mu, nodes) == r;
    forall j: nat | j < mu
      ensures After(head, j, nodes) != null && !OnCycle(After(head, j, nodes), nodes)
    {
      MeetIffPos(head, n, mu, j, j, nodes);
      NotOnCycle(head, n, mu, j, nodes);
    }
    assert FirstAt(head, r, mu, nodes);
  }

  // ---------------------------------------------------------------- the visited set

  ghost predicate Among(head: ListNode?, m: ListNode, n: nat, nodes: set<ListNode>)
    requires Closed(head, nodes)
    reads nodes
  {
    exists i: nat :: i < n && After(head, i, nodes) == m
  }

  /** `seen` holds the first `n` nodes, which are distinct. */
  ghost predicate Visited(head: ListNode?, n: nat, seen: set<ListNode>, nodes: set<ListNode>)
    requires Closed(head, nodes)
    reads nodes
  {
    && seen <= nodes && Distinct(head, n, nodes)
    && (forall i: nat :: i < n ==> After(head, i, nodes) in seen)
    && (forall m :: m in seen ==> Among(head, m, n, nodes))
  }

  lemma AmongMore(head: ListNode?, m: ListNode, n: nat, k: nat, nodes: set<ListNode>)
    requires Closed(head, nodes) && Among(head, m, n, nodes) && n <= k
    ensures Among(head, m, k, nodes)
  {
  }

  lemma AmongLast(head: ListNode?, n: nat, m: ListNode, nodes: set<ListNode>)
    requires Closed(head, nodes) && After(head, n, nodes) == m
    ensures Among(head, m, n + 1, nodes)
  {
  }

  lemma VisitNext(head: ListNode?, n: nat, seen: set<ListNode>, p: ListNode, nodes: set<ListNode>)
    requires Closed(head, nodes) && Visited(head, n, seen, nodes)
    requires p == After(head, n, nodes) && p !in seen
    ensures Visited(head, n + 1, seen + {p}, nodes)
    ensures After(head, n + 1, nodes) == p.next && p in nodes
  {
    hide Among;
    AfterStep(head, n, nodes);
    var k := n + 1;
    forall m | m in seen + {p} ensures Among(head, m, k, nodes) {
      if m == p { AmongLast(head, n, p, nodes); } else { AmongMore(head, m, n, k, nodes); }
    }
  }

  lemma VisitAgain(head: ListNode?, n: nat, seen: set<ListNode>, nodes: set<ListNode>) returns (mu: nat)
    requires Closed(head, nodes) && Visited(head, n, seen, nodes) && After(head, n, nodes) in seen
    ensures Rho(head, n, mu, nodes) && After(head, mu, nodes) == After(head, n, nodes)
  {
    assert Among(head, After(head, n, nodes), n, nodes);
    mu :| mu < n && After(head, mu, nodes) == After(head, n, nodes);
  }

  lemma NothingVisited(head: ListNode?, nodes: set<ListNode>)
    requires Closed(head, nodes)
    ensures Visited(head, 0, {}, nodes)
  {
  }

  lemma EndIsEntry(head: ListNode?, k: nat, nodes: set<ListNode>)
    requires Closed(head, nodes) && After(head, k, nodes) == null
    ensures IsEntry(head, null, nodes)
  {
  }

  method DetectCycleSet(head: ListNode?, ghost nodes: set<ListNode>) returns (r: ListNode?)
    requires Closed(head, nodes)
    ensures IsEntry(head, r, nodes)
  {
    hide IsEntry, Rho, Visited;
    if head == null || head.next == null {
      EndIsEntry(head, if head == null then 0 else 1, nodes);
      return null;
    }
    var seen: set<ListNode> := {};
    var p := head;
    ghost var n: nat := 0;
    NothingVisited(head, nodes);
    while p != null
      invariant p == After(head, n, nodes)
      invariant Visited(head, n, seen, nodes)
      decreases nodes - seen
    {
      if p !in seen {
        VisitNext(head, n, seen, p, nodes);
        seen := seen + {p};
        p := p.next;
        n := n + 1;
      } else {
        ghost var mu := VisitAgain(head, n, seen, nodes);
        RhoEntry(head, n, mu, nodes);
        return p;
      }
    }
    EndIsEntry(head, n, nodes);
    return null;
  }

  // ---------------------------------------------------------------- two pointers

  /** Every finite structure is either a list of some length or rho-shaped. */
  lemma {:induction false} ShapeOf(head: ListNode?, n: nat, seen: set<ListNode>, nodes: set<ListNode>)
    returns (cyclic: bool, size: nat, mu: nat)
    requires Closed(head, nodes) && Visited(head, n, seen, nodes)
    ensures cyclic ==> Rho(head, size, mu, nodes)
    ensures !cyclic ==> Distinct(head, size, nodes) && After(head, size, nodes) == null
    decreases nodes - seen
  {
    hide Rho, Distinct;
    var p := After(head, n, nodes);
    if p == null {
      cyclic, size, mu := false, n, 0;
    } else if p in seen {
      mu := VisitAgain(head, n, seen, nodes);
      cyclic, size := true, n;
    } else {
      VisitNext(head, n, seen, p, nodes);
      cyclic, size, mu := ShapeOf(head, n + 1, seen + {p}, nodes);
    }
  }

  /** What the first loop may rely on while the pointers have made `t` and `2t` steps. */
  ghost predicate Racing(head: ListNode?, nodes: set<ListNode>, cyclic: bool, n: nat, mu: nat, bound: nat)
    requires Closed(head, nodes)
    reads nodes
  {
    if cyclic
    then Rho(head, n, mu, nodes) && mu <= bound && 1 <= bound && Pos(n, mu, 2 * bound) == Pos(n, mu, bound)
    else bound == n && Distinct(head, n, nodes) && After(head, n, nodes) == null
  }

  /** A step of the race: the slow pointer does not fall off, and the bound is not overrun. */
  lemma RaceStep(head: ListNode?, nodes: set<ListNode>, cyclic: bool, n: nat, mu: nat, bound: nat, t: nat)
    requires Closed(head, nodes) && Racing(head, nodes, cyclic, n, mu, bound)
    requires t < bound && After(head, 2 * t + 1, nodes) != null
    ensures After(head, t, nodes) != null && t + 1 <= bound
    ensures After(head, t + 1, nodes) != After(head, 2 * t + 2, nodes) ==> t + 1 < bound
    ensures After(head, t + 1, nodes) == After(head, 2 * t + 2, nodes) ==> cyclic
  {
    if cyclic {
      MeetIffPos(head, n, mu, t, t, nodes);
      if t + 1 == bound { MeetIffPos(head, n, mu, t + 1, 2 * t + 2, nodes); }
    } else {
      if n <= 2 * t + 1 { EndsForGood(head, n, 2 * t + 1, nodes); }
      assert t + 1 < n;
      if 2 * t + 2 >= n { EndsForGood(head, n, 2 * t + 2, nodes); }
    }
  }

  /** After a meeting at `t`, walking on from the meeting node and from the head in step, the walks
      meet again first at the entry. */
  lemma SecondMeeting(head: ListNode?, n: nat, mu: nat, t: nat, j: nat, nodes: set<ListNode>)
    requires Closed(head, nodes) && Rho(head, n, mu, nodes)
    requires t > 0 && After(head, t, nodes) == After(head, 2 * t, nodes) && j <= mu
    ensures After(head, j, nodes) == After(head, t + j, nodes) <==> j == mu
    ensures After(head, j, nodes) != null && After(head, t + j, nodes) != null
  {
    hide After, Distinct;
    MeetIffPos(head, n, mu, t, 2 * t, nodes);
    assert t >= mu;
    PosBack(n, mu, mu, t + mu, t - mu);
    MeetIffPos(head, n, mu, j, t + j, nodes);
    MeetIffPos(head, n, mu, t + j, j, nodes);
  }

  lemma StartRace(head: ListNode?, nodes: set<ListNode>) returns (cyclic: bool, n: nat, mu: nat, bound: nat)
    requires Closed(head, nodes) && head != null
    ensures Racing(head, nodes, cyclic, n, mu, bound) && bound > 0
  {
    NothingVisited(head, nodes);
    cyclic, n, mu := ShapeOf(head, 0, {}, nodes);
    if cyclic {
      bound := MeetingTime(n, mu);
    } else {
      bound := n;
    }
  }

  lemma RhoOf(head: ListNode?, nodes: set<ListNode>, cyclic: bool, n: nat, mu: nat, bound: nat)
    requires Closed(head, nodes) && Racing(head, nodes, cyclic, n, mu, bound) && cyclic
    ensures Rho(head, n, mu, nodes)
  {
  }

  method DetectCycleTwoPointers(head: ListNode?, ghost nodes: set<ListNode>) returns (r: ListNode?)
    requires Closed(head, nodes)
    ensures IsEntry(head, r, nodes)
  {
    hide IsEntry, Rho, Racing, Distinct;
    if head == null || head.next == null {
      EndIsEntry(head, if head == null then 0 else 1, nodes);
      return null;
    }
    ghost var cyclic, n, mu, bound := StartRace(head, nodes);
    var fast, slow := head, head;
    ghost var t: nat := 0;
    while fast != null && fast.next != null
      invariant slow == After(head, t, nodes) && fast == After(head, 2 * t, nodes)
      invariant t < bound
      decreases bound - t
    {
      RaceStep(head, nodes, cyclic, n, mu, bound, t);
      fast := fast.next.next;
      slow := slow.next;
      t := t + 1;
      if slow == fast {
        break;
      }
    }
    if fast == null || fast.next == null {
      EndIsEntry(head, if fast == null then 2 * t else 2 * t + 1, nodes);
      return null;
    }
    slow := head;
    ghost var j: nat := 0;
    RhoOf(head, nodes, cyclic, n, mu, bound);
    while slow != fast
      invariant j <= mu && slow == After(head, j, nodes) && fast == After(head, t + j, nodes)
      decreases mu - j
    {
      SecondMeeting(head, n, mu, t, j, nodes);
      fast := fast.next;
      slow := slow.next;
      j := j + 1;
    }
    SecondMeeting(head, n, mu, t, j, nodes);
    RhoEntry(head, n, mu, nodes);
    return slow;
  }
}
