/**
 Deletion from a binary tree by rewriting its nodes (450. 删除二叉搜索树中的节点.py).

 `Run` is the source's recursion on plain trees with a bound on the depth of calls, and `Ends` says, by
 looking at the tree alone, whether that recursion stops: it follows the chain of successor keys and
 asks that none equals the key it is to replace.  Distinct keys are enough; with equal keys the
 self-call on the same root can repeat for ever.  `Deleted` is the tree that results.
 */
module BstDelete {

  import opened Prelude
  import opened Sequences

  datatype Tree = Leaf | Node(left: Tree, val: int, right: Tree)

  function Inorder(t: Tree): seq<int>
  {
    match t
    case Leaf => []
    case Node(l, v, r) => Inorder(l) + [v] + Inorder(r)
  }

  /** The key at the end of the descent to the left. */
  function Leftmost(t: Tree): int
    requires t.Node?
  {
    if t.left.Leaf? then t.val else Leftmost(t.left)
  }

  /** The branch that copies the successor's key: the right child has a left child. */
  predicate TakesSuccessor(t: Tree)
  {
    t.Node? && t.right.Node? && t.right.left.Node?
  }

  // ---------------------------------------------------------------- the source's recursion

  /** deleteNode with at most `depth` nested calls; None when that is not enough. */
  function Run(t: Tree, key: int, depth: nat): Option<Tree>
    decreases depth
  {
    if depth == 0 then None
    else match t
      case Leaf => Some(Leaf)
      case Node(l, v, r) =>
        if v == key then
          if TakesSuccessor(t) then
            var m := Leftmost(r);
            match Run(t, m, depth - 1)
            case Some(Node(l', _, r')) => Some(Node(l', m, r'))
            case _ => None
          else if r.Leaf? && l.Node? then Some(l)
          else if l.Leaf? && r.Node? then Some(r)
          else if l.Node? && r.Node? then Some(Node(l, r.val, r.right))
          else Some(Leaf)
        else if v > key then
          match Run(l, key, depth - 1)
          case Some(l') => Some(Node(l', v, r))
          case None => None
        else
          match Run(r, key, depth - 1)
          case Some(r') => Some(Node(l, v, r'))
          case None => None
  }

  /** The call returns for some depth of recursion. */
  ghost predicate Returns(t: Tree, key: int)
  {
    exists depth: nat :: Run(t, key, depth).Some?
  }

  // ---------------------------------------------------------------- when it ends, and with what

  /** Along the search path, wherever a successor's key is copied, that key differs from the key it
      replaces and can itself be deleted from its side. */
  predicate Ends(t: Tree, key: int)
  {
    match t
    case Leaf => true
    case Node(l, v, r) =>
      if v == key then
        TakesSuccessor(t) ==>
          var m := Leftmost(r);
          m != key && if key > m then Ends(l, m) else Ends(r, m)
      else if v > key then Ends(l, key)
      else Ends(r, key)
  }

  function Deleted(t: Tree, key: int): Tree
    requires Ends(t, key)
  {
    match t
    case Leaf => Leaf
    case Node(l, v, r) =>
      if v == key then
        if TakesSuccessor(t) then
          var m := Leftmost(r);
          if key > m then Node(Deleted(l, m), m, r) else Node(l, m, Deleted(r, m))
        else if r.Leaf? then l
        else if l.Leaf? then r
        else Node(l, r.val, r.right)
      else if v > key then Node(Deleted(l, key), v, r)
      else Node(l, v, Deleted(r, key))
  }

  function Height(t: Tree): nat
  {
    match t
    case Leaf => 0
    case Node(l, _, r) => 1 + Max(Height(l), Height(r))
  }

  /** Where the condition holds, two calls per level are enough. */
  lemma {:induction false} EndsRuns(t: Tree, key: int, depth: nat)
    requires Ends(t, key) && depth >= 2 * Height(t) + 1
    ensures Run(t, key, depth) == Some(Deleted(t, key))
    decreases t
  {
    if t.Node? {
      if t.val == key {
        if TakesSuccessor(t) {
          var m := Leftmost(t.right);
          if key > m { EndsRuns(t.left, m, depth - 2); } else { EndsRuns(t.right, m, depth - 2); }
        }
      } else if t.val > key {
        EndsRuns(t.left, key, depth - 1);
      } else {
        EndsRuns(t.right, key, depth - 1);
      }
    }
  }

  /** Whatever depth a call returned with, the condition held and the result is `Deleted`. */
  lemma {:induction false} RunEnds(t: Tree, key: int, depth: nat)
    requires Run(t, key, depth).Some?
    ensures Ends(t, key) && Run(t, key, depth).value == Deleted(t, key)
    decreases depth
  {
    if t.Node? {
      if t.val == key {
        if TakesSuccessor(t) { RunEnds(t, Leftmost(t.right), depth - 1); }
      } else if t.val > key {
        RunEnds(t.left, key, depth - 1);
      } else {
        RunEnds(t.right, key, depth - 1);
      }
    }
  }

  /** Deleting never makes the tree higher. */
  lemma {:induction false} DeletedNoHigher(t: Tree, key: int)
    requires Ends(t, key)
    ensures Height(Deleted(t, key)) <= Height(t)
    decreases t
  {
    if t.Node? {
      if t.val == key {
        if TakesSuccessor(t) {
          var m := Leftmost(t.right);
          if key > m { DeletedNoHigher(t.left, m); } else { DeletedNoHigher(t.right, m); }
        }
      } else if t.val > key {
        DeletedNoHigher(t.left, key);
      } else {
        DeletedNoHigher(t.right, key);
      }
    }
  }

  /** For every tree, ordered or not: the call returns if and only if `Ends` holds. */
  lemma ReturnsIffEnds(t: Tree, key: int)
    ensures Returns(t, key) <==> Ends(t, key)
  {
    if Ends(t, key) {
      EndsRuns(t, key, 2 * Height(t) + 1);
    }
    if Returns(t, key) {
      var depth: nat :| Run(t, key, depth).Some?;
      RunEnds(t, key, depth);
    }
  }

  /** A search tree with one key twice, on which deleting that key never returns. */
  lemma DuplicateKeyLoops()
    ensures var t := Node(Leaf, 5, Node(Node(Leaf, 5, Leaf), 7, Leaf));
            IsSorted(Inorder(t)) && !Returns(t, 5)
  {
    var t := Node(Leaf, 5, Node(Node(Leaf, 5, Leaf), 7, Leaf));
    assert Inorder(t) == [5, 5, 7];
    ReturnsIffEnds(t, 5);
  }

  lemma InorderLong(a: int, b: int, c: int, d: int, e: int)
    ensures Inorder(Node(Leaf, a, Node(Node(Leaf, b, Node(Node(Leaf, c, Leaf), d, Leaf)), e, Leaf))) == [a, b, c, d, e]
  {
    assert Inorder(Node(Leaf, c, Leaf)) == [c];
    assert Inorder(Node(Node(Leaf, c, Leaf), d, Leaf)) == [c, d];
    assert Inorder(Node(Leaf, b, Node(Node(Leaf, c, Leaf), d, Leaf))) == [b, c, d];
  }

  lemma FiveSorted(a: int, b: int, c: int, d: int, e: int)
    requires a <= b <= c <= d <= e
    ensures IsSorted([a, b, c, d, e])
  {
  }

  /** The key itself may be unique: here 1 is replaced by its successor 2, whose own successor is 2. */
  lemma DuplicateSuccessorLoops()
    ensures var t := Node(Leaf, 1, Node(Node(Leaf, 2, Node(Node(Leaf, 2, Leaf), 3, Leaf)), 9, Leaf));
            Inorder(t) == [1, 2, 2, 3, 9] && IsSorted(Inorder(t)) && !Returns(t, 1)
  {
    hide IsSorted, Run, Returns;
    var a := Node(Leaf, 2, Node(Node(Leaf, 2, Leaf), 3, Leaf));
    var r := Node(a, 9, Leaf);
    var t := Node(Leaf, 1, r);
    assert Inorder(t) == [1, 2, 2, 3, 9] by { InorderLong(1, 2, 2, 3, 9); }
    FiveSorted(1, 2, 2, 3, 9);
    assert !Ends(a, 2) && !Ends(r, 2) && Leftmost(r) == 2;
    ReturnsIffEnds(t, 1);
  }

  // ---------------------------------------------------------------- search trees

  lemma {:induction false} LeftmostIsFirst(t: Tree)
    requires t.Node?
    ensures |Inorder(t)| > 0 && Leftmost(t) == Inorder(t)[0]
    decreases t
  {
    if t.left.Node? { LeftmostIsFirst(t.left); }
  }

  /** The parts of a sorted in-order sequence. */
  ghost predicate SortedAround(l: seq<int>, v: int, r: seq<int>)
  {
    && IsSorted(l) && IsSorted(r)
    && (forall x :: x in l ==> x <= v) && (forall x :: x in r ==> v <= x)
  }

  lemma SortedSides(l: seq<int>, v: int, r: seq<int>)
    requires IsSorted(l + [v] + r)
    ensures SortedAround(l, v, r)
  {
    var s := l + [v] + r;
    assert s[|l|] == v;
    forall i | 0 <= i < |l| ensures l[i] <= v { assert s[i] == l[i]; }
    forall i | 0 <= i < |r| ensures v <= r[i] { assert s[|l| + 1 + i] == r[i]; }
    forall i, j | 0 <= i < j < |l| ensures l[i] <= l[j] { assert s[i] == l[i] && s[j] == l[j]; }
    forall i, j | 0 <= i < j < |r| ensures r[i] <= r[j] { assert s[|l| + 1 + i] == r[i] && s[|l| + 1 + j] == r[j]; }
  }

  lemma SortedWhole(l: seq<int>, v: int, r: seq<int>)
    requires SortedAround(l, v, r)
    ensures IsSorted(l + [v] + r)
  {
    var s := l + [v] + r;
    forall i, j | 0 <= i < j < |s| ensures s[i] <= s[j] {
      assert i < |l| ==> s[i] == l[i] && l[i] in l;
      assert i > |l| ==> s[i] == r[i - |l| - 1];
      assert j < |l| ==> s[j] == l[j];
      assert j > |l| ==> s[j] == r[j - |l| - 1] && r[j - |l| - 1] in r;
    }
  }

  /** The keys of `t` as a multiset. */
  ghost function Keys(t: Tree): multiset<int>
  {
    multiset(Inorder(t))
  }

  lemma KeysOfNode(l: Tree, v: int, r: Tree)
    ensures Keys(Node(l, v, r)) == Keys(l) + multiset{v} + Keys(r)
    ensures forall x :: x in Inorder(l) <==> x in Keys(l)
    ensures forall x :: x in Inorder(r) <==> x in Keys(r)
  {
    assert Inorder(Node(l, v, r)) == Inorder(l) + [v] + Inorder(r);
  }

  ghost predicate IsSearchTree(t: Tree)
  {
    IsSorted(Inorder(t))
  }

  lemma SearchTreeParts(l: Tree, v: int, r: Tree)
    ensures IsSearchTree(Node(l, v, r)) <==>
            && IsSearchTree(l) && IsSearchTree(r)
            && (forall x :: x in Keys(l) ==> x <= v) && (forall x :: x in Keys(r) ==> v <= x)
    ensures Keys(Node(l, v, r)) == Keys(l) + multiset{v} + Keys(r)
  {
    hide IsSorted;
    KeysOfNode(l, v, r);
    if IsSearchTree(Node(l, v, r)) { SortedSides(Inorder(l), v, Inorder(r)); }
    if SortedAround(Inorder(l), v, Inorder(r)) { SortedWhole(Inorder(l), v, Inorder(r)); }
  }

  lemma LeftmostIsLeast(t: Tree)
    requires t.Node? && IsSearchTree(t)
    ensures Leftmost(t) in Keys(t) && forall x :: x in Keys(t) ==> Leftmost(t) <= x
  {
    LeftmostIsFirst(t);
    assert forall x :: x in Keys(t) ==> x in Inorder(t);
  }

  /** Taking the least key of the right side up to the root. */
  lemma SuccessorMovesUp(l: Tree, v: int, r: Tree, m: int, r': Tree)
    requires IsSearchTree(Node(l, v, r)) && IsSearchTree(r') && m in Keys(r) && Keys(r') == Keys(r) - multiset{m}
    requires forall x :: x in Keys(r) ==> m <= x
    ensures IsSearchTree(Node(l, m, r')) && Keys(Node(l, m, r')) == Keys(Node(l, v, r)) - multiset{v}
  {
    hide IsSearchTree, Keys;
    SearchTreeParts(l, v, r);
    SearchTreeParts(l, m, r');
    assert forall x :: x in Keys(r') ==> x in Keys(r);
  }

  lemma MinusFromPart(part: multiset<int>, v: int, other: multiset<int>, key: int)
    requires key != v && key !in other
    ensures part + multiset{v} + other - multiset{key} == part - multiset{key} + multiset{v} + other
    ensures other + multiset{v} + part - multiset{key} == other + multiset{v} + (part - multiset{key})
    ensures forall x :: x in part - multiset{key} ==> x in part
  {
  }

  lemma DeletedOnLeft(l: Tree, v: int, r: Tree, key: int, l': Tree)
    requires IsSearchTree(Node(l, v, r)) && IsSearchTree(l') && key < v && Keys(l') == Keys(l) - multiset{key}
    ensures IsSearchTree(Node(l', v, r)) && Keys(Node(l', v, r)) == Keys(Node(l, v, r)) - multiset{key}
  {
    hide IsSearchTree, Keys;
    SearchTreeParts(l, v, r);
    SearchTreeParts(l', v, r);
    MinusFromPart(Keys(l), v, Keys(r), key);
  }

  lemma DeletedOnRight(l: Tree, v: int, r: Tree, key: int, r': Tree)
    requires IsSearchTree(Node(l, v, r)) && IsSearchTree(r') && v < key && Keys(r') == Keys(r) - multiset{key}
    ensures IsSearchTree(Node(l, v, r')) && Keys(Node(l, v, r')) == Keys(Node(l, v, r)) - multiset{key}
  {
    hide IsSearchTree, Keys;
    SearchTreeParts(l, v, r);
    SearchTreeParts(l, v, r');
    MinusFromPart(Keys(r), v, Keys(l), key);
  }

  lemma EmptyTree()
    ensures IsSearchTree(Leaf) && Keys(Leaf) == multiset{}
  {
  }

  /** The root goes and its children are put together without a successor. */
  lemma ChildrenJoined(l: Tree, v: int, r: Tree)
    requires IsSearchTree(Node(l, v, r)) && !TakesSuccessor(Node(l, v, r))
    ensures var t := if r.Leaf? then l else if l.Leaf? then r else Node(l, r.val, r.right);
            IsSearchTree(t) && Keys(t) == Keys(Node(l, v, r)) - multiset{v}
  {
    hide IsSearchTree, Keys;
    SearchTreeParts(l, v, r);
    EmptyTree();
    if l.Node? && r.Node? {
      SearchTreeParts(Leaf, r.val, r.right);
      SearchTreeParts(l, r.val, r.right);
      assert r == Node(Leaf, r.val, r.right);
      assert r.val in Keys(r) && forall x :: x in Keys(r.right) ==> x in Keys(r);
    }
  }

  lemma SuccessorSide(t: Tree)
    requires TakesSuccessor(t)
    ensures t.Node? && t.right.Node?
  {
  }

  /** On search trees, equal keys included: whenever the call returns, exactly one occurrence of the
      key is gone (none if there was none) and the tree is again a search tree. */
  lemma {:induction false} DeletedKeys(t: Tree, key: int)
    requires IsSearchTree(t) && Ends(t, key)
    ensures IsSearchTree(Deleted(t, key)) && Keys(Deleted(t, key)) == Keys(t) - multiset{key}
    decreases t
  {
    hide IsSearchTree, Keys, Leftmost, TakesSuccessor;
    if t.Leaf? {
      EmptyTree();
    } else {
      var l, v, r := t.left, t.val, t.right;
      SearchTreeParts(l, v, r);
      if v == key {
        if TakesSuccessor(t) {
          SuccessorSide(t);
          var m := Leftmost(r);
          LeftmostIsLeast(r);
          DeletedKeys(r, m);
          SuccessorMovesUp(l, v, r, m, Deleted(r, m));
        } else {
          ChildrenJoined(l, v, r);
        }
      } else if v > key {
        DeletedKeys(l, key);
        DeletedOnLeft(l, v, r, key, Deleted(l, key));
      } else {
        DeletedKeys(r, key);
        DeletedOnRight(l, v, r, key, Deleted(r, key));
      }
    }
  }

  /** With distinct keys the call always returns. */
  lemma {:induction false} DistinctKeysEnd(t: Tree, key: int)
    requires IsSearchTree(t) && forall x :: Keys(t)[x] <= 1
    ensures Ends(t, key)
    decreases t
  {
    hide IsSearchTree, Keys, Leftmost;
    if t.Node? {
      var l, v, r := t.left, t.val, t.right;
      SearchTreeParts(l, v, r);
      assert forall x :: Keys(l)[x] <= Keys(t)[x] && Keys(r)[x] <= Keys(t)[x];
      if v == key {
        if TakesSuccessor(t) {
          LeftmostIsLeast(r);
          assert Leftmost(r) == v ==> Keys(t)[v] >= 2;
          DistinctKeysEnd(r, Leftmost(r));
        }
      } else if v > key {
        DistinctKeysEnd(l, key);
      } else {
        DistinctKeysEnd(r, key);
      }
    }
  }

  /** The promise for search trees with distinct keys. */
  lemma DistinctKeysDeleted(t: Tree, key: int)
    requires IsSearchTree(t) && forall x :: Keys(t)[x] <= 1
    ensures Returns(t, key) && Ends(t, key)
    ensures IsSearchTree(Deleted(t, key)) && forall x :: Keys(Deleted(t, key))[x] <= 1
    ensures forall x :: x in Keys(Deleted(t, key)) <==> x in Keys(t) && x != key
  {
    hide IsSearchTree, Keys, Ends, Deleted, Returns;
    DistinctKeysEnd(t, key);
    ReturnsIffEnds(t, key);
    DeletedKeys(t, key);
  }

  // ---------------------------------------------------------------- nodes

  class TreeNode {
    var val: int
    var left: TreeNode?
    var right: TreeNode?
    ghost var repr: set<TreeNode>   // the nodes of the subtree
    ghost var tree: Tree            // the subtree they make up

    ghost predicate Valid()
      reads this, repr
      decreases repr
    {
      && this in repr
      && (left != null ==> left in repr && left.repr <= repr - {this} && left.Valid())
      && (right != null ==> right in repr && right.repr <= repr - {this} && right.Valid())
      && (left != null && right != null ==> left.repr !! right.repr)
      && tree == Node(TreeOf(left), val, TreeOf(right))
    }
  }

  ghost function TreeOf(n: TreeNode?): Tree
    reads n
  {
    if n == null then Leaf else n.tree
  }

  ghost function ReprOf(n: TreeNode?): set<TreeNode>
    reads n
  {
    if n == null then {} else n.repr
  }

  ghost predicate IsTree(n: TreeNode?)
    reads n, ReprOf(n)
  {
    n != null ==> n.Valid()
  }

  lemma Parts(n: TreeNode)
    requires n.Valid()
    ensures n in n.repr && n.tree == Node(TreeOf(n.left), n.val, TreeOf(n.right))
    ensures IsTree(n.left) && IsTree(n.right)
  {
  }

  /** A node over two disjoint valid subtrees. */
  lemma Assemble(n: TreeNode)
    requires n in n.repr && n.tree == Node(TreeOf(n.left), n.val, TreeOf(n.right))
    requires n.left != null ==> n.left in n.repr && n.left.repr <= n.repr - {n} && n.left.Valid()
    requires n.right != null ==> n.right in n.repr && n.right.repr <= n.repr - {n} && n.right.Valid()
    requires n.left != null && n.right != null ==> n.left.repr !! n.right.repr
    ensures n.Valid()
  {
  }

  lemma SpliceParts(root: TreeNode)
    requires root.Valid() && root.left != null && root.right != null && root.right.left == null
    ensures var l, r := root.left, root.right;
            && l.Valid() && l.repr <= root.repr && r.repr <= root.repr && l in l.repr
            && r in r.repr && r !in l.repr && l.repr !! r.repr && r != root
            && r.tree == Node(Leaf, r.val, TreeOf(r.right))
            && (r.right != null ==> r.right.Valid() && r.right in r.repr && r.right.repr <= r.repr - {r})
  {
  }

  /** The descent to the left. */
  method DescendLeft(n: TreeNode) returns (m: int)
    requires n.Valid()
    ensures n.tree.Node? && m == Leftmost(n.tree)
  {
    var tmp: TreeNode := n;
    while tmp.left != null
      invariant tmp.Valid() && n.tree.Node? && tmp.tree.Node? && Leftmost(tmp.tree) == Leftmost(n.tree)
      decreases tmp.repr
    {
      tmp := tmp.left;
    }
    m := tmp.val;
  }

  /** root.val = m */
  method Overwrite(root: TreeNode, m: int)
    requires root.Valid()
    modifies root`val, root`tree
    ensures root.Valid() && root.tree == old(root.tree).(val := m)
  {
    assert root !in ReprOf(root.left) && root !in ReprOf(root.right);
    root.val := m;
    root.tree := root.tree.(val := m);
  }

  /** The right child without a left subtree takes over the left subtree of `root`. */
  method Splice(root: TreeNode) returns (r: TreeNode)
    requires root.Valid() && root.left != null && root.right != null && root.right.left == null
    modifies root.right
    ensures r.Valid() && r.repr <= old(root.repr)
    ensures r.tree == old(Node(root.left.tree, root.right.val, TreeOf(root.right.right)))
  {
    hide TreeNode.Valid;
    SpliceParts(root);
    r := root.right;
    r.left := root.left;
    r.tree := r.tree.(left := root.left.tree);
    r.repr := r.repr + root.left.repr;
    Assemble(r);
  }

  /** On every tree and key for which the recursion ends: the result is `Deleted`.  Nodes are reused,
      and none outside the tree is touched. */
  method DeleteNode(root: TreeNode?, key: int) returns (r: TreeNode?)
    requires IsTree(root) && Ends(TreeOf(root), key)
    modifies ReprOf(root)
    ensures IsTree(r) && ReprOf(r) <= old(ReprOf(root))
    ensures TreeOf(r) == Deleted(old(TreeOf(root)), key)
    ensures root != null && old(root.val) != key ==> r == root && root.val == old(root.val)
    decreases TreeOf(root), if root != null && root.val == key then 1 else 0, 1
  {
    if root == null {
      return root;
    }
    Parts(root);
    if root.val == key {
      if root.right != null && root.right.left != null {
        Parts(root.right);
        Parts(root.right.left);
        TakeSuccessor(root);
        return root;
      } else if root.right == null && root.left != null {
        return root.left;
      } else if root.left == null && root.right != null {
        return root.right;
      } else if root.left != null && root.right != null {
        r := Splice(root);
        return r;
      } else {
        return null;
      }
    } else if root.val > key {
      DeleteInLeft(root, key);
    } else {
      DeleteInRight(root, key);
    }
    return root;
  }

  /** The root keeps its place and takes the leftmost key of its right subtree, which is first deleted
      from the same root while that still holds its old key. */
  method TakeSuccessor(root: TreeNode)
    requires root.Valid() && TakesSuccessor(root.tree) && Ends(root.tree, root.val)
    modifies root.repr
    ensures root.Valid() && root.repr <= old(root.repr)
    ensures root.tree == Deleted(old(root.tree), old(root.val))
    decreases root.tree, 1, 0
  {
    hide TreeNode.Valid;
    Parts(root);
    var m := DescendLeft(root.right);
    var _ := DeleteNode(root, m);
    Parts(root);
    Overwrite(root, m);
  }

  method DeleteInLeft(root: TreeNode, key: int)
    requires root.Valid() && key < root.val && Ends(TreeOf(root.left), key)
    modifies root.repr
    ensures root.Valid() && root.repr == old(root.repr) && root.val == old(root.val)
    ensures root.tree == old(root.tree).(left := Deleted(old(TreeOf(root.left)), key))
    decreases root.tree, 0, 0
  {
    hide Ends, Deleted;
    var child := DeleteNode(root.left, key);
    root.left := child;
    root.tree := root.tree.(left := TreeOf(child));
  }

  method DeleteInRight(root: TreeNode, key: int)
    requires root.Valid() && root.val < key && Ends(TreeOf(root.right), key)
    modifies root.repr
    ensures root.Valid() && root.repr == old(root.repr) && root.val == old(root.val)
    ensures root.tree == old(root.tree).(right := Deleted(old(TreeOf(root.right)), key))
    decreases root.tree, 0, 0
  {
    hide Ends, Deleted;
    var child := DeleteNode(root.right, key);
    root.right := child;
    root.tree := root.tree.(right := TreeOf(child));
  }
}
