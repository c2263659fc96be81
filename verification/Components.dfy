/**
 Union-find against connectivity: the roots of a forest and the edges that were united describe the
 same equivalence.
 */
module Components {
  import opened Forest
  import opened Graph

  /** The root of `x`; an element that was never entered stands for itself. */
  ghost function Colour(sh: Shape, x: int): int
  {
    if x in sh.root then sh.root[x] else x
  }

  /** Equal roots mean connected elements, and conversely. */
  ghost predicate Matches(es: Edges, sh: Shape)
  {
    forall a, b {:trigger Connected(es, a, b)} :: Colour(sh, a) == Colour(sh, b) <==> Connected(es, a, b)
  }

  /** `sh'` gives everything in the class of `i` the root of `j` and leaves the rest alone. */
  ghost predicate Merged(sh: Shape, sh': Shape, i: int, j: int)
  {
    forall x {:trigger Colour(sh', x)} ::
      Colour(sh', x) == if Colour(sh, x) == Colour(sh, i) then Colour(sh, j) else Colour(sh, x)
  }

  lemma MatchesNothing(sh: Shape)
    requires forall x :: x in sh.root ==> sh.root[x] == x
    ensures Matches({}, sh)
  {
    hide Connected;
    forall a, b ensures Colour(sh, a) == Colour(sh, b) <==> Connected({}, a, b) {
      if a == b { ConnectedSelf({}, a); }
      if Connected({}, a, b) { ConnectedKeepsColour({}, x => x, a, b); }
    }
  }

  /** Joined roots stand for connected elements. */
  lemma MergedSound(es: Edges, sh: Shape, sh': Shape, i: int, j: int, a: int, b: int)
    requires Matches(es, sh) && Merged(sh, sh', i, j) && Colour(sh', a) == Colour(sh', b)
    ensures Connected(es + {(i, j)}, a, b)
  {
    hide Connected, Colour;
    var more := es + {(i, j)};
    ConnectedEdge(more, i, j);
    ConnectedSymmetric(more, i, j);
    if Colour(sh, a) == Colour(sh, b) {
      assert Connected(es, a, b);
      ConnectedInMore(es, more, a, b);
    } else if Colour(sh, a) == Colour(sh, i) {
      assert Connected(es, a, i) && Connected(es, j, b);
      ConnectedInMore(es, more, a, i);
      ConnectedInMore(es, more, j, b);
      ConnectedTransitive(more, a, i, j);
      ConnectedTransitive(more, a, j, b);
    } else {
      assert Connected(es, a, j) && Connected(es, i, b);
      ConnectedInMore(es, more, a, j);
      ConnectedInMore(es, more, i, b);
      ConnectedTransitive(more, a, j, i);
      ConnectedTransitive(more, a, i, b);
    }
  }

  /** Connected elements have been joined. */
  lemma MergedComplete(es: Edges, sh: Shape, sh': Shape, i: int, j: int, a: int, b: int)
    requires Matches(es, sh) && Merged(sh, sh', i, j) && Connected(es + {(i, j)}, a, b)
    ensures Colour(sh', a) == Colour(sh', b)
  {
    hide Connected, Colour;
    var more := es + {(i, j)};
    forall x, y | (x, y) in more ensures Colour(sh', x) == Colour(sh', y) {
      if (x, y) in es {
        ConnectedEdge(es, x, y);
        assert Colour(sh, x) == Colour(sh, y);
      }
    }
    ConnectedKeepsColour(more, x => Colour(sh', x), a, b);
  }

  /** Uniting `i` and `j` adds exactly the edge between them. */
  lemma MergedMatches(es: Edges, sh: Shape, sh': Shape, i: int, j: int)
    requires Matches(es, sh) && Merged(sh, sh', i, j)
    ensures Matches(es + {(i, j)}, sh')
  {
    hide Connected, Colour;
    var more := es + {(i, j)};
    forall a, b ensures Colour(sh', a) == Colour(sh', b) <==> Connected(more, a, b) {
      if Colour(sh', a) == Colour(sh', b) { MergedSound(es, sh, sh', i, j, a, b); }
      if Connected(more, a, b) { MergedComplete(es, sh, sh', i, j, a, b); }
    }
  }

  /** Pointing the root `a` at the root `b` merges their classes. */
  lemma JoinedMerges(f: Pointers, sh: Shape, i: int, j: int)
    requires IsForest(f, sh) && i in f && j in f
    ensures Fits(f, sh, i) && Fits(f, sh, j)
    ensures IsForest(f[sh.root[i] := sh.root[j]], Joined(sh, sh.root[i], sh.root[j]))
    ensures Merged(sh, Joined(sh, sh.root[i], sh.root[j]), i, j)
  {
    var a, b := sh.root[i], sh.root[j];
    assert Fits(f, sh, i) && Fits(f, sh, j);
    UnionKeepsForest(f, sh, a, b);
  }
}
