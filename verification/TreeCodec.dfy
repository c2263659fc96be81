/**
 Preorder serializer of binary trees and its parser (297. 二叉树的序列化与反序列化.py), down to the
 characters: decimal numerals, "#" for a missing child, and ',' between tokens.

 Which token belongs to which node is stated on paths: a path of left and right steps leads to every
 node and to every missing child, and in the order of the tokens a path comes before its extensions
 and left comes before right.
 */
module TreeCodec {

  import opened Numerals
  import opened Prelude

  datatype Tree = Empty | Node(val: int, left: Tree, right: Tree)

  datatype Error = StopIteration | ValueError

  // ---------------------------------------------------------------- join and split

  /** ",".join(ts) */
  function Join(ts: seq<string>): string
  {
    if ts == [] then "" else if |ts| == 1 then ts[0] else ts[0] + "," + Join(ts[1..])
  }

  /** Position of the first comma, or the length. */
  function CommaAt(s: string): (k: nat)
    ensures k <= |s| && ',' !in s[..k] && (k < |s| ==> s[k] == ',')
  {
    if s == "" || s[0] == ',' then 0 else 1 + CommaAt(s[1..])
  }

  /** s.split(",") */
  function Split(s: string): (ts: seq<string>)
    ensures ts != []
    decreases |s|
  {
    var k := CommaAt(s);
    if k == |s| then [s] else [s[..k]] + Split(s[k + 1..])
  }

  lemma FirstComma(a: string, b: string)
    requires ',' !in a
    ensures CommaAt(a) == |a| && CommaAt(a + "," + b) == |a|
  {
    var s := a + "," + b;
    assert forall i :: 0 <= i < |a| ==> s[i] == a[i];
    assert s[|a|] == ',';
  }

  lemma {:induction false} SplitOfJoin(ts: seq<string>)
    requires ts != [] && forall k :: 0 <= k < |ts| ==> ',' !in ts[k]
    ensures Split(Join(ts)) == ts
    decreases |ts|
  {
    if |ts| == 1 {
      FirstComma(ts[0], "");
    } else {
      FirstComma(ts[0], Join(ts[1..]));
      var s := Join(ts);
      assert s[..|ts[0]|] == ts[0] && s[|ts[0]| + 1..] == Join(ts[1..]);
      SplitOfJoin(ts[1..]);
    }
  }

  /** Where token `k` starts in the joined string. */
  function Offset(ts: seq<string>, k: nat): nat
    requires k <= |ts|
  {
    if k == 0 then 0 else Offset(ts, k - 1) + |ts[k - 1]| + 1
  }

  lemma {:induction false} OffsetInTail(ts: seq<string>, k: nat)
    requires 0 < k <= |ts|
    ensures Offset(ts, k) == |ts[0]| + 1 + Offset(ts[1..], k - 1)
    decreases k
  {
    if k > 1 { OffsetInTail(ts, k - 1); }
  }

  lemma OffsetAtStart(ts: seq<string>)
    ensures Offset(ts, 0) == 0
  {
  }

  lemma AfterComma(a: string, rest: string, i: nat, j: nat)
    requires i <= j <= |rest|
    ensures var s, n := a + "," + rest, |a| + 1;
            s[n + i..n + j] == rest[i..j] && (j < |rest| ==> s[n + j] == rest[j])
  {
    assert (a + "," + rest)[|a| + 1..] == rest;
  }

  /** The joined string: every token at its place, a comma after each but the last, nothing else. */
  lemma {:induction false} JoinLayout(ts: seq<string>, k: nat)
    requires k < |ts|
    ensures var s, i, j := Join(ts), Offset(ts, k), Offset(ts, k) + |ts[k]|;
            && j <= |s| && s[i..j] == ts[k]
            && if k + 1 < |ts| then j < |s| && s[j] == ',' else j == |s|
    decreases |ts|
  {
    hide Offset;
    if k == 0 {
      OffsetAtStart(ts);
    } else {
      JoinLayout(ts[1..], k - 1);
      OffsetInTail(ts, k);
      var i := Offset(ts[1..], k - 1);
      AfterComma(ts[0], Join(ts[1..]), i, i + |ts[k]|);
    }
  }

  /** Splitting loses nothing and leaves no comma in a token. */
  lemma {:induction false} JoinOfSplit(s: string)
    ensures Join(Split(s)) == s
    ensures forall k :: 0 <= k < |Split(s)| ==> ',' !in Split(s)[k]
    decreases |s|
  {
    var k := CommaAt(s);
    if k == |s| {
      assert s[..k] == s;
    } else {
      JoinOfSplit(s[k + 1..]);
      assert s == s[..k] + "," + s[k + 1..];
    }
  }

  // ---------------------------------------------------------------- trees and tokens

  function Tokens(t: Tree): (ts: seq<string>)
    ensures ts != []
  {
    match t
    case Empty => ["#"]
    case Node(v, l, r) => [Str(v)] + Tokens(l) + Tokens(r)
  }

  function Encode(t: Tree): string
  {
    Join(Tokens(t))
  }

  /** One tree off the front of the tokens, with the tokens that are left. */
  function Parse(ts: seq<string>): (r: Result<(Tree, seq<string>), Error>)
    ensures r.Ok? ==> |r.value.1| < |ts|
    decreases |ts|
  {
    if ts == [] then Err(StopIteration)
    else if ts[0] == "#" then Ok((Empty, ts[1..]))
    else match ParseInt(ts[0])
      case None => Err(ValueError)
      case Some(v) =>
        match Parse(ts[1..])
        case Err(e) => Err(e)
        case Ok((l, rest)) =>
          match Parse(rest)
          case Err(e) => Err(e)
          case Ok((r, rest')) => Ok((Node(v, l, r), rest'))
  }

  /** Tokens after the first complete tree are ignored, as in the source. */
  function Decode(data: string): Result<Tree, Error>
  {
    match Parse(Split(data))
    case Err(e) => Err(e)
    case Ok((t, _)) => Ok(t)
  }

  lemma {:induction false} TokensHaveNoComma(t: Tree, k: nat)
    requires k < |Tokens(t)|
    ensures ',' !in Tokens(t)[k]
    decreases t
  {
    match t
    case Empty =>
    case Node(v, l, r) =>
      IntOfStr(v);
      if 0 < k <= |Tokens(l)| { TokensHaveNoComma(l, k - 1); }
      if |Tokens(l)| < k { TokensHaveNoComma(r, k - 1 - |Tokens(l)|); }
  }

  /** The parser consumes exactly the tokens of the tree. */
  lemma {:induction false} ParseConsumesTokens(t: Tree, rest: seq<string>)
    ensures Parse(Tokens(t) + rest) == Ok((t, rest))
    decreases t
  {
    hide ParseInt, Str;
    var ts := Tokens(t) + rest;
    match t
    case Empty =>
      assert ts[1..] == rest;
    case Node(v, l, r) =>
      IntOfStr(v);
      assert ts[1..] == Tokens(l) + (Tokens(r) + rest);
      ParseConsumesTokens(l, Tokens(r) + rest);
      ParseConsumesTokens(r, rest);
  }

  // ---------------------------------------------------------------- which token belongs to which node

  datatype Side = ToLeft | ToRight

  /** The steps from the root to a node or to a missing child. */
  type Path = seq<Side>

  function At(t: Tree, p: Path): Option<Tree>
    decreases |p|
  {
    if p == [] then Some(t)
    else match t
      case Empty => None
      case Node(_, l, r) => At(if p[0] == ToLeft then l else r, p[1..])
  }

  ghost predicate DivergeAt(p: Path, q: Path, k: nat)
  {
    k < |p| && k < |q| && p[..k] == q[..k] && p[k] == ToLeft && q[k] == ToRight
  }

  /** A path comes before its extensions, and left before right. */
  ghost predicate Precedes(p: Path, q: Path)
  {
    || (|p| < |q| && p == q[..|p|])
    || exists k: nat :: DivergeAt(p, q, k)
  }

  ghost predicate InOrder(ps: seq<Path>)
  {
    forall i, j :: 0 <= i < j < |ps| ==> Precedes(ps[i], ps[j])
  }

  lemma DivergeOneWay(p: Path, q: Path, k: nat, m: nat)
    requires DivergeAt(p, q, k)
    ensures !DivergeAt(q, p, m)
  {
    assert forall i :: 0 <= i < k ==> p[i] == p[..k][i] == q[..k][i] == q[i];
    if k < m && m <= |p| && m <= |q| { assert p[..m][k] != q[..m][k]; }
  }

  lemma NotBothPrecede(p: Path, q: Path)
    requires Precedes(p, q)
    ensures !Precedes(q, p)
  {
    if k: nat :| DivergeAt(p, q, k) {
      forall m: nat ensures !DivergeAt(q, p, m) { DivergeOneWay(p, q, k, m); }
      assert |q| < |p| ==> p[..|q|][k] == p[k];
    } else {
      assert forall k :: 0 <= k < |p| ==> q[..|p|][k] == q[k];
    }
  }

  lemma TailMembers(ps: seq<Path>, qs: seq<Path>, p: Path)
    requires InOrder(ps) && ps != [] && qs != [] && ps[0] == qs[0] && (forall x :: x in ps <==> x in qs)
    requires p in ps[1..]
    ensures p in qs[1..]
  {
    hide Precedes;
    var i :| 0 < i < |ps| && ps[i] == p;
    assert p in qs && qs == [qs[0]] + qs[1..];
    if p == qs[0] { NotBothPrecede(ps[0], ps[i]); }
  }

  lemma SameFirst(ps: seq<Path>, qs: seq<Path>)
    requires InOrder(ps) && InOrder(qs) && ps != [] && (forall x :: x in ps <==> x in qs)
    ensures qs != [] && ps[0] == qs[0]
  {
    hide Precedes;
    assert ps[0] in qs;
    assert qs[0] in ps;
    if ps[0] != qs[0] {
      var i :| 0 <= i < |ps| && ps[i] == qs[0];
      NotBothPrecede(ps[0], qs[0]);
    }
  }

  /** A set of paths can be listed in this order in one way only. */
  lemma {:induction false} OrderIsUnique(ps: seq<Path>, qs: seq<Path>)
    requires InOrder(ps) && InOrder(qs) && forall p :: p in ps <==> p in qs
    ensures ps == qs
    decreases |ps|
  {
    hide Precedes;
    if ps == [] {
      if qs != [] { SameFirst(qs, ps); }
    } else {
      SameFirst(ps, qs);
      forall p ensures p in ps[1..] <==> p in qs[1..] {
        if p in ps[1..] { TailMembers(ps, qs, p); }
        if p in qs[1..] { TailMembers(qs, ps, p); }
      }
      OrderIsUnique(ps[1..], qs[1..]);
      assert ps == [ps[0]] + ps[1..] && qs == [qs[0]] + qs[1..];
    }
  }

  function Under(side: Side, ps: seq<Path>): (qs: seq<Path>)
    ensures |qs| == |ps| && forall i :: 0 <= i < |ps| ==> qs[i] == [side] + ps[i]
  {
    seq(|ps|, i requires 0 <= i < |ps| => [side] + ps[i])
  }

  function Places(t: Tree): (ps: seq<Path>)
    ensures ps != []
  {
    match t
    case Empty => [[]]
    case Node(_, l, r) => [[]] + Under(ToLeft, Places(l)) + Under(ToRight, Places(r))
  }

  lemma PrecedesUnder(side: Side, p: Path, q: Path)
    requires Precedes(p, q)
    ensures Precedes([side] + p, [side] + q)
  {
    var p', q' := [side] + p, [side] + q;
    if |p| < |q| && p == q[..|p|] {
      assert q'[..|p'|] == p';
    } else {
      var k: nat :| DivergeAt(p, q, k);
      assert p'[..k + 1] == [side] + p[..k] && q'[..k + 1] == [side] + q[..k];
      assert DivergeAt(p', q', k + 1);
    }
  }

  lemma LeftPrecedesRight(p: Path, q: Path)
    ensures Precedes([ToLeft] + p, [ToRight] + q)
  {
    assert DivergeAt([ToLeft] + p, [ToRight] + q, 0);
  }

  lemma RootPrecedes(p: Path)
    requires p != []
    ensures Precedes([], p)
  {
  }

  lemma InOrderUnder(side: Side, ps: seq<Path>)
    requires InOrder(ps)
    ensures InOrder(Under(side, ps))
  {
    hide Precedes, Under;
    forall i, j | 0 <= i < j < |ps| ensures Precedes(Under(side, ps)[i], Under(side, ps)[j]) {
      PrecedesUnder(side, ps[i], ps[j]);
    }
  }

  /** The root, then what is under its left side, then what is under its right side. */
  lemma InOrderJoined(ls: seq<Path>, rs: seq<Path>)
    requires InOrder(ls) && InOrder(rs)
    ensures InOrder([[]] + Under(ToLeft, ls) + Under(ToRight, rs))
  {
    hide Precedes, Under;
    var a, b := Under(ToLeft, ls), Under(ToRight, rs);
    var ps := [[]] + a + b;
    InOrderUnder(ToLeft, ls);
    InOrderUnder(ToRight, rs);
    forall i, j | 0 <= i < j < |ps| ensures Precedes(ps[i], ps[j]) {
      if i == 0 {
        RootPrecedes(ps[j]);
      } else if j <= |ls| {
        assert Precedes(a[i - 1], a[j - 1]);
      } else if i <= |ls| {
        LeftPrecedesRight(ls[i - 1], rs[j - 1 - |ls|]);
      } else {
        assert Precedes(b[i - 1 - |ls|], b[j - 1 - |ls|]);
      }
    }
  }

  lemma OneInOrder()
    ensures InOrder([[]])
  {
  }

  lemma {:induction false} PlacesInOrder(t: Tree)
    ensures InOrder(Places(t))
    decreases t
  {
    hide InOrder;
    match t
    case Empty => OneInOrder();
    case Node(_, l, r) =>
      PlacesInOrder(l);
      PlacesInOrder(r);
      InOrderJoined(Places(l), Places(r));
  }

  lemma InUnder(side: Side, ps: seq<Path>, p: Path)
    ensures p in Under(side, ps) <==> p != [] && p[0] == side && p[1..] in ps
  {
    hide Under;
    if p != [] && p[0] == side && p[1..] in ps {
      var i :| 0 <= i < |ps| && ps[i] == p[1..];
      assert Under(side, ps)[i] == p;
    }
  }

  /** The places are all of the paths that stay in the tree. */
  lemma {:induction false} PlacesAreAll(t: Tree, p: Path)
    ensures p in Places(t) <==> At(t, p).Some?
    decreases t
  {
    hide Under;
    match t
    case Empty =>
    case Node(_, l, r) =>
      InUnder(ToLeft, Places(l), p);
      InUnder(ToRight, Places(r), p);
      if p != [] {
        PlacesAreAll(l, p[1..]);
        PlacesAreAll(r, p[1..]);
      }
  }

  lemma PlaceUnder(v: int, l: Tree, r: Tree, i: nat)
    requires i < |Places(Node(v, l, r))|
    ensures |Places(Node(v, l, r))| == 1 + |Places(l)| + |Places(r)|
    ensures Places(Node(v, l, r))[i] ==
            if i == 0 then []
            else if i <= |Places(l)| then [ToLeft] + Places(l)[i - 1]
            else [ToRight] + Places(r)[i - 1 - |Places(l)|]
  {
    hide Under;
  }

  lemma AtUnder(v: int, l: Tree, r: Tree, side: Side, p: Path)
    ensures At(Node(v, l, r), [side] + p) == At(if side == ToLeft then l else r, p)
  {
    assert ([side] + p)[1..] == p;
  }

  /** Place `i` of a tree, taken apart. */
  lemma PlaceOfNode(v: int, l: Tree, r: Tree, i: nat)
    requires i < |Places(Node(v, l, r))|
    ensures |Places(Node(v, l, r))| == 1 + |Places(l)| + |Places(r)|
    ensures var t := Node(v, l, r);
            At(t, Places(t)[i]) ==
            if i == 0 then Some(t)
            else if i <= |Places(l)| then At(l, Places(l)[i - 1])
            else At(r, Places(r)[i - 1 - |Places(l)|])
  {
    hide Places;
    PlaceUnder(v, l, r, i);
    if i > |Places(l)| {
      AtUnder(v, l, r, ToRight, Places(r)[i - 1 - |Places(l)|]);
    } else if i > 0 {
      AtUnder(v, l, r, ToLeft, Places(l)[i - 1]);
    }
  }

  function TokenOf(t: Tree): string
  {
    match t
    case Empty => "#"
    case Node(v, _, _) => Str(v)
  }

  lemma PlaceOfEmpty()
    ensures Places(Empty) == [[]] && At(Empty, []) == Some(Empty)
  {
  }

  /** Token `i` is the text of what stands at place `i`. */
  lemma {:induction false} TokenAtPlace(t: Tree, i: nat)
    requires i < |Tokens(t)|
    ensures |Tokens(t)| == |Places(t)|
    ensures At(t, Places(t)[i]).Some? && Tokens(t)[i] == TokenOf(At(t, Places(t)[i]).value)
    decreases t
  {
    hide Str, At, Places;
    match t
    case Empty =>
      PlaceOfEmpty();
    case Node(v, l, r) =>
      PlaceOfNode(v, l, r, 0);
      TokenAtPlace(l, if 0 < i <= |Tokens(l)| then i - 1 else 0);
      TokenAtPlace(r, if i > |Tokens(l)| then i - 1 - |Tokens(l)| else 0);
      PlaceOfNode(v, l, r, i);
  }

  /** What the parser makes of one token. */
  ghost predicate ReadsAs(token: string, t: Tree)
  {
    match t
    case Empty => token == "#"
    case Node(v, _, _) => token != "#" && ParseInt(token) == Some(v)
  }

  /** Token `i` of any accepted list is read into place `i` of the result. */
  lemma {:induction false} ParsedAtPlace(ts: seq<string>, i: nat)
    requires Parse(ts).Ok? && i < |Places(Parse(ts).value.0)|
    ensures var (t, rest) := Parse(ts).value;
            && |Places(t)| + |rest| == |ts| && rest == ts[|Places(t)|..]
            && At(t, Places(t)[i]).Some? && ReadsAs(ts[i], At(t, Places(t)[i]).value)
    decreases |ts|
  {
    hide ParseInt, At, Places;
    if ts[0] == "#" {
      PlaceOfEmpty();
    } else {
      var (l, mid) := Parse(ts[1..]).value;
      var (r, rest) := Parse(mid).value;
      var v := ParseInt(ts[0]).value;
      PlaceOfNode(v, l, r, i);
      ParsedAtPlace(ts[1..], if 0 < i <= |Places(l)| then i - 1 else 0);
      ParsedAtPlace(mid, if i > |Places(l)| then i - 1 - |Places(l)| else 0);
    }
  }

  // ---------------------------------------------------------------- which strings are accepted

  ghost predicate IsReadable(token: string)
  {
    token == "#" || ParseInt(token).Some?
  }

  /** Numbers less "#" marks among the first `n` tokens. */
  function Surplus(ts: seq<string>, n: nat): int
    requires n <= |ts|
  {
    if n == 0 then 0 else Surplus(ts, n - 1) + if ts[n - 1] == "#" then -1 else 1
  }

  /** The first `n` tokens are readable and do not complete a tree: no prefix has more marks than
      numbers. */
  ghost predicate StillOpen(ts: seq<string>, n: nat)
    requires n <= |ts|
  {
    && (forall m :: 0 <= m < n ==> IsReadable(ts[m]))
    && (forall m :: 0 <= m <= n ==> Surplus(ts, m) >= 0)
  }

  /** Token `n` is the one that completes a tree. */
  ghost predicate ClosesAt(ts: seq<string>, n: nat)
  {
    n < |ts| && StillOpen(ts, n) && ts[n] == "#" && Surplus(ts, n) == 0
  }

  /** Token `n` is needed and is neither a mark nor a number. */
  ghost predicate BreaksAt(ts: seq<string>, n: nat)
  {
    n < |ts| && StillOpen(ts, n) && !IsReadable(ts[n])
  }

  lemma {:induction false} SurplusFrom(ts: seq<string>, a: nat, b: nat)
    requires a + b <= |ts|
    ensures Surplus(ts, a + b) == Surplus(ts, a) + Surplus(ts[a..], b)
    decreases b
  {
    if b > 0 { SurplusFrom(ts, a, b - 1); }
  }

  /** The first `a` tokens are read and leave `w` more trees to come than before. */
  ghost predicate Advanced(ts: seq<string>, a: nat, w: nat)
  {
    0 < a <= |ts| && StillOpen(ts, a - 1) && IsReadable(ts[a - 1]) && Surplus(ts, a) == w
  }

  lemma OpenFrom(ts: seq<string>, a: nat, w: nat, b: nat)
    requires Advanced(ts, a, w) && a + b <= |ts| && StillOpen(ts[a..], b)
    ensures StillOpen(ts, a + b) && Surplus(ts, a + b) == w + Surplus(ts[a..], b)
  {
    hide IsReadable, Surplus;
    forall m | 0 <= m <= a + b ensures Surplus(ts, m) >= 0 {
      if m >= a { SurplusFrom(ts, a, m - a); }
    }
    forall m | 0 <= m < a + b ensures IsReadable(ts[m]) {
      if m >= a { assert ts[m] == ts[a..][m - a]; }
    }
    SurplusFrom(ts, a, b);
  }

  /** What a result of the parser says about the tokens, `n` being the last one looked at. */
  ghost predicate Tells(ts: seq<string>, r: Result<(Tree, seq<string>), Error>, n: nat)
  {
    match r
    case Ok((_, rest)) => ClosesAt(ts, n) && rest == ts[n + 1..]
    case Err(ValueError) => BreaksAt(ts, n)
    case Err(StopIteration) => n == |ts| && StillOpen(ts, n)
  }

  lemma AdvancedBound(ts: seq<string>, a: nat, w: nat)
    requires Advanced(ts, a, w)
    ensures 0 < a <= |ts|
  {
  }

  lemma FailsFrom(ts: seq<string>, a: nat, w: nat, e: Error, b: nat)
    requires Advanced(ts, a, w) && Tells(ts[a..], Err(e), b)
    ensures Tells(ts, Err(e), a + b)
  {
    hide Advanced, StillOpen, IsReadable;
    AdvancedBound(ts, a, w);
    OpenFrom(ts, a, w, b);
  }

  lemma ClosesFrom(ts: seq<string>, a: nat, w: nat, b: nat)
    requires Advanced(ts, a, w) && ClosesAt(ts[a..], b)
    ensures a + b < |ts| && ts[a + b + 1..] == ts[a..][b + 1..]
    ensures w == 0 ==> ClosesAt(ts, a + b)
    ensures w > 0 ==> Advanced(ts, a + b + 1, w - 1)
  {
    hide StillOpen;
    OpenFrom(ts, a, w, b);
  }

  lemma FirstNumber(ts: seq<string>)
    requires ts != [] && ts[0] != "#" && ParseInt(ts[0]).Some?
    ensures Advanced(ts, 1, 1)
  {
    hide ParseInt;
    assert Surplus(ts, 0) == 0;
  }

  lemma FirstStops(ts: seq<string>)
    requires ts == [] || ts[0] == "#" || ParseInt(ts[0]).None?
    ensures Tells(ts, Parse(ts), 0)
  {
    hide ParseInt;
    assert Surplus(ts, 0) == 0;
  }

  lemma TellsClosed(ts: seq<string>, r: Result<(Tree, seq<string>), Error>, n: nat)
    requires r.Ok? && Tells(ts, r, n)
    ensures ClosesAt(ts, n) && n < |ts| && r.value.1 == ts[n + 1..]
  {
  }

  lemma TellsOk(ts: seq<string>, r: Result<(Tree, seq<string>), Error>, n: nat)
    requires r.Ok? && ClosesAt(ts, n) && n < |ts| && r.value.1 == ts[n + 1..]
    ensures Tells(ts, r, n)
  {
  }

  lemma ParseNumber(ts: seq<string>)
    requires ts != [] && ts[0] != "#" && ParseInt(ts[0]).Some?
    ensures var first := Parse(ts[1..]);
            if first.Err? then Parse(ts) == Err(first.error)
            else
              var second := Parse(first.value.1);
              if second.Err? then Parse(ts) == Err(second.error)
              else Parse(ts).Ok? && Parse(ts).value.1 == second.value.1
  {
    hide ParseInt;
  }

  /** How far the parser gets, and why it stops there. */
  lemma {:induction false} ParseOutcome(ts: seq<string>) returns (n: nat)
    ensures Tells(ts, Parse(ts), n)
    decreases |ts|
  {
    hide Parse, ParseInt, Tells, Advanced, ClosesAt, Surplus, StillOpen, IsReadable;
    n := 0;
    if ts == [] || ts[0] == "#" || ParseInt(ts[0]).None? {
      FirstStops(ts);
      return;
    }
    FirstNumber(ts);
    ParseNumber(ts);
    var first := Parse(ts[1..]);
    var a := ParseOutcome(ts[1..]);
    if first.Err? {
      FailsFrom(ts, 1, 1, first.error, a);
      n := 1 + a;
      return;
    }
    TellsClosed(ts[1..], first, a);
    ClosesFrom(ts, 1, 1, a);
    var second := Parse(ts[a + 2..]);
    var b := ParseOutcome(ts[a + 2..]);
    n := a + 2 + b;
    if second.Err? {
      FailsFrom(ts, a + 2, 0, second.error, b);
    } else {
      TellsClosed(ts[a + 2..], second, b);
      ClosesFrom(ts, a + 2, 0, b);
      TellsOk(ts, Parse(ts), n);
    }
  }

  ghost predicate Closes(ts: seq<string>)
  {
    exists n: nat :: ClosesAt(ts, n)
  }

  ghost predicate Breaks(ts: seq<string>)
  {
    exists n: nat :: BreaksAt(ts, n)
  }

  ghost predicate RunsOut(ts: seq<string>)
  {
    StillOpen(ts, |ts|)
  }

  lemma MarkIsReadable()
    ensures IsReadable("#")
  {
  }

  /** No tree is completed and nothing is unreadable while reading goes on. */
  lemma NoEarlyEnd(ts: seq<string>, m: nat, n: nat)
    requires n <= |ts| && StillOpen(ts, n) && m < n
    ensures !ClosesAt(ts, m) && !BreaksAt(ts, m)
  {
    hide IsReadable;
    assert Surplus(ts, m + 1) >= 0;
  }

  /** Reading ends in one way only. */
  lemma OneEnd(ts: seq<string>)
    ensures !(Closes(ts) && Breaks(ts)) && !(Closes(ts) && RunsOut(ts)) && !(Breaks(ts) && RunsOut(ts))
  {
    hide IsReadable, StillOpen, Surplus;
    if Closes(ts) {
      var m: nat :| ClosesAt(ts, m);
      if Breaks(ts) {
        var n: nat :| BreaksAt(ts, n);
        if m < n { NoEarlyEnd(ts, m, n); }
        if n < m { NoEarlyEnd(ts, n, m); }
        MarkIsReadable();
      }
      if RunsOut(ts) { NoEarlyEnd(ts, m, |ts|); }
    }
    if Breaks(ts) && RunsOut(ts) {
      var n: nat :| BreaksAt(ts, n);
      NoEarlyEnd(ts, n, |ts|);
    }
  }

  /** deserialize returns if and only if some token completes a tree; it raises ValueError if and only
      if an unreadable token comes before that, and StopIteration if and only if the tokens are all
      readable and run out. */
  lemma DecodeOutcome(data: string)
    ensures Decode(data).Ok? <==> Closes(Split(data))
    ensures Decode(data) == Err(ValueError) <==> Breaks(Split(data))
    ensures Decode(data) == Err(StopIteration) <==> RunsOut(Split(data))
  {
    hide Parse, Split, StillOpen, ClosesAt, BreaksAt;
    var ts := Split(data);
    var n := ParseOutcome(ts);
    OneEnd(ts);
    match Parse(ts)
    case Ok(_) => assert ClosesAt(ts, n);
    case Err(ValueError) => assert BreaksAt(ts, n);
    case Err(StopIteration) =>
  }

  /** The round trip, at string level. */
  lemma DecodeOfEncode(t: Tree)
    ensures Decode(Encode(t)) == Ok(t)
  {
    forall k | 0 <= k < |Tokens(t)| ensures ',' !in Tokens(t)[k] { TokensHaveNoComma(t, k); }
    SplitOfJoin(Tokens(t));
    ParseConsumesTokens(t, []);
    assert Tokens(t) + [] == Tokens(t);
  }

  /** Different trees never share a string. */
  lemma EncodeInjective(t: Tree, u: Tree)
    requires Encode(t) == Encode(u)
    ensures t == u
  {
    DecodeOfEncode(t);
    DecodeOfEncode(u);
  }

  // ---------------------------------------------------------------- the methods

  class TreeNode {
    var val: int
    var left: TreeNode?
    var right: TreeNode?

    constructor (x: int)
      ensures val == x && left == null && right == null
    {
      val, left, right := x, null, null;
    }
  }

  /** The objects reachable from `n`, all in `fp`, unfold to the tree `t`. */
  ghost predicate Holds(n: TreeNode?, t: Tree, fp: set<TreeNode>)
    reads fp
    decreases t
  {
    match t
    case Empty => n == null
    case Node(v, l, r) => n != null && n in fp && n.val == v && Holds(n.left, l, fp) && Holds(n.right, r, fp)
  }

  /** The objects visited when unfolding. */
  ghost function Footprint(n: TreeNode?, t: Tree, fp: set<TreeNode>): (r: set<TreeNode>)
    requires Holds(n, t, fp)
    reads fp
    ensures r <= fp
    decreases t
  {
    match t
    case Empty => {}
    case Node(_, l, r) => {n} + Footprint(n.left, l, fp) + Footprint(n.right, r, fp)
  }

  /** No object is met twice: the structure is a tree, not merely a way to write one down. */
  ghost predicate Unshared(n: TreeNode?, t: Tree, fp: set<TreeNode>)
    requires Holds(n, t, fp)
    reads fp
    decreases t
  {
    match t
    case Empty => true
    case Node(_, l, r) =>
      && n !in Footprint(n.left, l, fp) && n !in Footprint(n.right, r, fp)
      && Footprint(n.left, l, fp) !! Footprint(n.right, r, fp)
      && Unshared(n.left, l, fp) && Unshared(n.right, r, fp)
  }

  /** The object `n` and those below it form the tree `t`, each object in one place. */
  ghost predicate IsTree(n: TreeNode?, t: Tree, fp: set<TreeNode>)
    reads fp
  {
    Holds(n, t, fp) && Unshared(n, t, fp)
  }

  lemma {:induction false} HoldsInMore(n: TreeNode?, t: Tree, fp: set<TreeNode>, more: set<TreeNode>)
    requires Holds(n, t, fp) && fp <= more
    ensures Holds(n, t, more) && Footprint(n, t, more) == Footprint(n, t, fp)
    ensures Unshared(n, t, fp) ==> Unshared(n, t, more)
    decreases t
  {
    match t
    case Empty =>
    case Node(_, l, r) =>
      HoldsInMore(n.left, l, fp, more);
      HoldsInMore(n.right, r, fp, more);
  }

  lemma NothingHeld()
    ensures IsTree(null, Empty, {})
  {
  }

  /** A new node over two structures without common objects. */
  lemma Grown(node: TreeNode, l: Tree, r: Tree, fpL: set<TreeNode>, fpR: set<TreeNode>)
    requires IsTree(node.left, l, fpL) && IsTree(node.right, r, fpR)
    requires node !in fpL && node !in fpR && fpL !! fpR
    ensures IsTree(node, Node(node.val, l, r), {node} + fpL + fpR)
  {
    var fp := {node} + fpL + fpR;
    HoldsInMore(node.left, l, fpL, fp);
    HoldsInMore(node.right, r, fpR, fp);
  }

  /** Following `p` from `n` stays on the objects; it may end at None. */
  ghost predicate Reaches(n: TreeNode?, p: Path, fp: set<TreeNode>)
    reads fp
    decreases |p|
  {
    && (n != null ==> n in fp)
    && (p != [] ==> n != null && Reaches(if p[0] == ToLeft then n.left else n.right, p[1..], fp))
  }

  ghost function ObjectAt(n: TreeNode?, p: Path, fp: set<TreeNode>): (o: TreeNode?)
    requires Reaches(n, p, fp)
    reads fp
    ensures o != null ==> o in fp
    decreases |p|
  {
    if p == [] then n else ObjectAt(if p[0] == ToLeft then n.left else n.right, p[1..], fp)
  }

  /** `ps` lists the paths that can be followed from `n`, all of them, in order. */
  ghost predicate Lists(n: TreeNode?, ps: seq<Path>, fp: set<TreeNode>)
    reads fp
  {
    InOrder(ps) && forall p :: p in ps <==> Reaches(n, p, fp)
  }

  ghost predicate WrittenAt(n: TreeNode?, fp: set<TreeNode>, ts: seq<string>, ps: seq<Path>)
    reads fp
  {
    && Lists(n, ps, fp) && |ts| == |ps|
    && forall i :: 0 <= i < |ts| ==>
         && Reaches(n, ps[i], fp)
         && var o := ObjectAt(n, ps[i], fp);
            ts[i] == if o == null then "#" else Str(o.val)
  }

  /** The tokens are the texts of the objects and missing children below `n`, in order of their paths. */
  ghost predicate Written(n: TreeNode?, fp: set<TreeNode>, ts: seq<string>)
    reads fp
  {
    exists ps :: WrittenAt(n, fp, ts, ps)
  }

  ghost predicate ReadAt(n: TreeNode?, fp: set<TreeNode>, ts: seq<string>, ps: seq<Path>)
    reads fp
  {
    && Lists(n, ps, fp) && |ps| <= |ts|
    && forall i :: 0 <= i < |ps| ==>
         && Reaches(n, ps[i], fp)
         && var o := ObjectAt(n, ps[i], fp);
            if o == null then ts[i] == "#" else ts[i] != "#" && ParseInt(ts[i]) == Some(o.val)
  }

  /** In order of their paths, the objects below `n` hold the numbers of the first tokens, and the
      missing children stand where the tokens say "#". */
  ghost predicate ReadFrom(n: TreeNode?, fp: set<TreeNode>, ts: seq<string>)
    reads fp
  {
    exists ps :: ReadAt(n, fp, ts, ps)
  }

  /** Paths in the objects are paths in the tree they unfold to. */
  lemma {:induction false} HoldsAt(n: TreeNode?, t: Tree, fp: set<TreeNode>, p: Path)
    requires Holds(n, t, fp)
    ensures Reaches(n, p, fp) <==> At(t, p).Some?
    ensures Reaches(n, p, fp) ==>
              match At(t, p).value
              case Empty => ObjectAt(n, p, fp) == null
              case Node(v, _, _) => ObjectAt(n, p, fp) != null && ObjectAt(n, p, fp).val == v
    decreases |p|
  {
    if p != [] && t.Node? {
      HoldsAt(if p[0] == ToLeft then n.left else n.right, if p[0] == ToLeft then t.left else t.right, fp, p[1..]);
    }
  }

  lemma PlacesListed(n: TreeNode?, t: Tree, fp: set<TreeNode>)
    requires Holds(n, t, fp)
    ensures Lists(n, Places(t), fp)
  {
    hide Holds, InOrder, Places, Reaches, At;
    PlacesInOrder(t);
    forall p ensures p in Places(t) <==> Reaches(n, p, fp) {
      PlacesAreAll(t, p);
      HoldsAt(n, t, fp, p);
    }
  }

  lemma HeldIsWritten(n: TreeNode?, t: Tree, fp: set<TreeNode>)
    requires Holds(n, t, fp)
    ensures Written(n, fp, Tokens(t))
  {
    hide Holds, Lists, Places, Tokens, Reaches, ObjectAt, At, Str;
    PlacesListed(n, t, fp);
    TokenAtPlace(t, 0);
    forall i | 0 <= i < |Tokens(t)|
      ensures Reaches(n, Places(t)[i], fp)
      ensures var o := ObjectAt(n, Places(t)[i], fp);
              Tokens(t)[i] == if o == null then "#" else Str(o.val)
    {
      TokenAtPlace(t, i);
      HoldsAt(n, t, fp, Places(t)[i]);
    }
    assert WrittenAt(n, fp, Tokens(t), Places(t));
  }

  lemma HeldIsRead(n: TreeNode?, ts: seq<string>, fp: set<TreeNode>)
    requires Parse(ts).Ok? && Holds(n, Parse(ts).value.0, fp)
    ensures ReadFrom(n, fp, ts)
  {
    hide Holds, Lists, Places, Parse, Reaches, ObjectAt, At, ParseInt;
    var t := Parse(ts).value.0;
    PlacesListed(n, t, fp);
    ParsedAtPlace(ts, 0);
    forall i | 0 <= i < |Places(t)|
      ensures Reaches(n, Places(t)[i], fp)
      ensures var o := ObjectAt(n, Places(t)[i], fp);
              if o == null then ts[i] == "#" else ts[i] != "#" && ParseInt(ts[i]) == Some(o.val)
    {
      ParsedAtPlace(ts, i);
      HoldsAt(n, t, fp, Places(t)[i]);
    }
    assert ReadAt(n, fp, ts, Places(t));
  }

  /** serialize: `vals` is the list that the inner dfs appends to. */
  class Serializer {
    var vals: seq<string>

    constructor ()
      ensures vals == []
    {
      vals := [];
    }

    method Dfs(node: TreeNode?, ghost t: Tree, ghost fp: set<TreeNode>)
      requires Holds(node, t, fp)
      modifies this
      ensures vals == old(vals) + Tokens(t)
      decreases t
    {
      if node != null {
        vals := vals + [Str(node.val)];
        Dfs(node.left, t.left, fp);
        Dfs(node.right, t.right, fp);
      } else {
        vals := vals + ["#"];
      }
    }
  }

  method Serialize(root: TreeNode?, ghost t: Tree, ghost fp: set<TreeNode>) returns (data: string)
    requires Holds(root, t, fp)
    ensures data == Encode(t) && Written(root, fp, Tokens(t))
  {
    hide Holds, Written;
    var s := new Serializer();
    s.Dfs(root, t, fp);
    assert [] + Tokens(t) == Tokens(t);
    data := Join(s.vals);
    HeldIsWritten(root, t, fp);
  }

  /** deserialize: `rest` is what the shared iterator has not delivered yet. */
  class Deserializer {
    var rest: seq<string>

    constructor (tokens: seq<string>)
      ensures rest == tokens
    {
      rest := tokens;
    }

    method Dfs() returns (res: Result<TreeNode?, Error>, ghost fp: set<TreeNode>)
      modifies this
      ensures fresh(fp) && |rest| <= |old(rest)|
      ensures match old(Parse(rest))
              case Err(e) => res == Err(e)
              case Ok((t, left)) => res.Ok? && rest == left && IsTree(res.value, t, fp)
      decreases |rest|
    {
      hide ParseInt, Holds, Unshared, Footprint, IsTree;
      fp := {};
      if rest == [] {
        return Err(StopIteration), fp;
      }
      var v := rest[0];
      rest := rest[1..];
      if v == "#" {
        NothingHeld();
        return Ok(null), fp;
      }
      var parsed := ParseInt(v);
      if parsed.None? {
        return Err(ValueError), fp;
      }
      var node := new TreeNode(parsed.value);
      ghost var p1 := Parse(rest);
      var l, fpL := Dfs();
      if l.Err? {
        return l, fp;
      }
      node.left := l.value;
      ghost var p2 := Parse(rest);
      var r, fpR := Dfs();
      if r.Err? {
        return r, fp;
      }
      node.right := r.value;
      fp := {node} + fpL + fpR;
      Grown(node, p1.value.0, p2.value.0, fpL, fpR);
      return Ok(node), fp;
    }
  }

  /** Builds new objects for the decoded tree, or raises what the parser raises. */
  method Deserialize(data: string) returns (res: Result<TreeNode?, Error>, ghost fp: set<TreeNode>)
    ensures fresh(fp)
    ensures match Decode(data)
            case Err(e) => res == Err(e)
            case Ok(t) => res.Ok? && IsTree(res.value, t, fp) && ReadFrom(res.value, fp, Split(data))
  {
    hide Parse, Split, Holds, Unshared, ReadFrom;
    var d := new Deserializer(Split(data));
    res, fp := d.Dfs();
    if res.Ok? { HeldIsRead(res.value, Split(data), fp); }
  }

  /** Serializing any structure and parsing the string back yields new objects, none of them shared,
      that unfold to the same tree. */
  method RoundTrip(root: TreeNode?, ghost t: Tree, ghost fp: set<TreeNode>)
    returns (copy: TreeNode?, ghost fp': set<TreeNode>)
    requires Holds(root, t, fp)
    ensures fresh(fp') && IsTree(copy, t, fp')
  {
    var data := Serialize(root, t, fp);
    DecodeOfEncode(t);
    var res: Result<TreeNode?, Error>;
    res, fp' := Deserialize(data);
    copy := res.value;
  }
}
