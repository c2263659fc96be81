/** Undirected connectivity: the equivalence closure of a set of edges, by explicit paths. */
module Graph {

  type Edges = set<(int, int)>

  ghost predicate Linked(es: Edges, a: int, b: int)
  {
    (a, b) in es || (b, a) in es
  }

  /** `path` lists the vertices after `a` on a walk from `a` to `b`. */
  ghost predicate IsPath(es: Edges, a: int, b: int, path: seq<int>)
    decreases |path|
  {
    if path == [] then a == b
    else Linked(es, a, path[0]) && IsPath(es, path[0], b, path[1..])
  }

  ghost predicate Connected(es: Edges, a: int, b: int)
  {
    exists path :: IsPath(es, a, b, path)
  }

  lemma ConnectedSelf(es: Edges, a: int)
    ensures Connected(es, a, a)
  {
    assert IsPath(es, a, a, []);
  }

  lemma ConnectedEdge(es: Edges, a: int, b: int)
    requires Linked(es, a, b)
    ensures Connected(es, a, b)
  {
    assert IsPath(es, b, b, []);
    assert [b][1..] == [];
    assert IsPath(es, a, b, [b]);
  }

  lemma {:induction false} PathThenPath(es: Edges, a: int, b: int, c: int, p: seq<int>, q: seq<int>)
    requires IsPath(es, a, b, p) && IsPath(es, b, c, q)
    ensures IsPath(es, a, c, p + q)
    decreases |p|
  {
    if p == [] {
      assert p + q == q;
    } else {
      PathThenPath(es, p[0], b, c, p[1..], q);
      assert (p + q)[1..] == p[1..] + q;
    }
  }

  lemma ConnectedTransitive(es: Edges, a: int, b: int, c: int)
    requires Connected(es, a, b) && Connected(es, b, c)
    ensures Connected(es, a, c)
  {
    var p :| IsPath(es, a, b, p);
    var q :| IsPath(es, b, c, q);
    PathThenPath(es, a, b, c, p, q);
  }

  lemma {:induction false} PathBack(es: Edges, a: int, b: int, p: seq<int>)
    requires IsPath(es, a, b, p)
    ensures Connected(es, b, a)
    decreases |p|
  {
    if p == [] {
      ConnectedSelf(es, a);
    } else {
      PathBack(es, p[0], b, p[1..]);
      ConnectedEdge(es, p[0], a);
      ConnectedTransitive(es, b, p[0], a);
    }
  }

  lemma ConnectedSymmetric(es: Edges, a: int, b: int)
    requires Connected(es, a, b)
    ensures Connected(es, b, a)
  {
    var p :| IsPath(es, a, b, p);
    PathBack(es, a, b, p);
  }

  lemma {:induction false} PathInMore(es: Edges, more: Edges, a: int, b: int, p: seq<int>)
    requires IsPath(es, a, b, p) && es <= more
    ensures IsPath(more, a, b, p)
    decreases |p|
  {
    if p != [] { PathInMore(es, more, p[0], b, p[1..]); }
  }

  lemma ConnectedInMore(es: Edges, more: Edges, a: int, b: int)
    requires Connected(es, a, b) && es <= more
    ensures Connected(more, a, b)
  {
    var p :| IsPath(es, a, b, p);
    PathInMore(es, more, a, b, p);
  }

  /** A colouring that is constant along every edge is constant on connected vertices. */
  lemma {:induction false} PathKeepsColour<C>(es: Edges, colour: int -> C, a: int, b: int, p: seq<int>)
    requires IsPath(es, a, b, p)
    requires forall x, y :: (x, y) in es ==> colour(x) == colour(y)
    ensures colour(a) == colour(b)
    decreases |p|
  {
    if p != [] {
      PathKeepsColour(es, colour, p[0], b, p[1..]);
    }
  }

  lemma ConnectedKeepsColour<C>(es: Edges, colour: int -> C, a: int, b: int)
    requires Connected(es, a, b)
    requires forall x, y :: (x, y) in es ==> colour(x) == colour(y)
    ensures colour(a) == colour(b)
  {
    var p :| IsPath(es, a, b, p);
    PathKeepsColour(es, colour, a, b, p);
  }
}
