/**
 LRU cache: a hash map into a doubly linked list between two sentinels (146、LRU缓存机制.py).

 The abstract cache is the list of key/value pairs, most recently used first.
 */
module LruCache {

  import opened Prelude

  // ---------------------------------------------------------------- the abstract cache

  type Pairs = seq<(int, int)>

  /** Position of `key`, or the length. */
  function Find(l: Pairs, key: int): (p: nat)
    ensures p <= |l|
    ensures forall i :: 0 <= i < p ==> l[i].0 != key
    ensures p < |l| ==> l[p].0 == key
  {
    if l == [] || l[0].0 == key then 0 else 1 + Find(l[1..], key)
  }

  predicate Has(l: Pairs, key: int) { Find(l, key) < |l| }

  /** The list without its pair for `key`. */
  function Drop(l: Pairs, key: int): Pairs
  {
    var p := Find(l, key);
    if p < |l| then l[..p] + l[p + 1..] else l
  }

  function GetAfter(l: Pairs, key: int): Pairs
  {
    if Has(l, key) then [l[Find(l, key)]] + Drop(l, key) else l
  }

  /** A hit on put replaces the value; a miss that overflows the capacity drops the last pair. */
  function PutAfter(capacity: int, l: Pairs, key: int, value: int): Pairs
  {
    if Has(l, key) then [(key, value)] + Drop(l, key)
    else
      var more := [(key, value)] + l;
      if |more| > capacity then more[..|more| - 1] else more
  }

  function Reply(l: Pairs, key: int): int
  {
    if Has(l, key) then l[Find(l, key)].1 else -1
  }

  ghost predicate DistinctKeys(l: Pairs)
  {
    forall i, j :: 0 <= i < j < |l| ==> l[i].0 != l[j].0
  }

  // ---------------------------------------------------------------- runs

  datatype Call = Get(key: int) | Put(key: int, value: int)

  function Apply(capacity: int, l: Pairs, c: Call): Pairs
  {
    match c
    case Get(k) => GetAfter(l, k)
    case Put(k, v) => PutAfter(capacity, l, k, v)
  }

  /** The cache after the calls `cs` on a new cache. */
  function Run(capacity: int, cs: seq<Call>): Pairs
  {
    if cs == [] then [] else Apply(capacity, Run(capacity, cs[..|cs| - 1]), cs[|cs| - 1])
  }

  /** Whether the call uses its key: a put always, a get when it hits. */
  predicate IsUse(capacity: int, before: seq<Call>, c: Call)
  {
    c.Put? || Has(Run(capacity, before), c.key)
  }

  /** All keys ever put with their latest values, in order of last use: no capacity. */
  function Ledger(capacity: int, cs: seq<Call>): Pairs
  {
    if cs == [] then []
    else
      var before, c := cs[..|cs| - 1], cs[|cs| - 1];
      var all := Ledger(capacity, before);
      match c
      case Put(k, v) => [(k, v)] + Drop(all, k)
      case Get(k) => if IsUse(capacity, before, c) then GetAfter(all, k) else all
  }

  /** Index of the last call that used `key`, or -1. */
  function LastUse(capacity: int, cs: seq<Call>, key: int): int
  {
    if cs == [] then -1
    else
      var before, c := cs[..|cs| - 1], cs[|cs| - 1];
      if c.key == key && IsUse(capacity, before, c) then |cs| - 1 else LastUse(capacity, before, key)
  }

  /** The value of the last put of `key`, if any. */
  function LastPut(cs: seq<Call>, key: int): Option<int>
  {
    if cs == [] then None
    else if cs[|cs| - 1].Put? && cs[|cs| - 1].key == key then Some(cs[|cs| - 1].value)
    else LastPut(cs[..|cs| - 1], key)
  }

  // ---------------------------------------------------------------- the cache is the recent end of the ledger

  function Cut(l: Pairs, n: nat): Pairs
  {
    l[..Min(n, |l|)]
  }

  lemma FindInCut(l: Pairs, n: nat, key: int)
    ensures Has(Cut(l, n), key) <==> Find(l, key) < Min(n, |l|)
    ensures Has(Cut(l, n), key) ==> Find(Cut(l, n), key) == Find(l, key) && Cut(l, n)[Find(l, key)] == l[Find(l, key)]
  {
    hide Find;
    var r := Cut(l, n);
    assert forall i :: 0 <= i < |r| ==> r[i] == l[i];
    var p, q := Find(r, key), Find(l, key);
    assert p < |r| ==> p == q;
    assert q < |r| ==> p == q;
  }

  lemma CutMoveToFront(l: Pairs, n: nat, key: int, x: (int, int))
    requires Has(Cut(l, n), key)
    ensures Cut([x] + Drop(l, key), n) == [x] + Drop(Cut(l, n), key)
  {
    hide Find;
    FindInCut(l, n, key);
    var p := Find(l, key);
    var r := Cut(l, n);
    var front := [x] + l[..p];
    assert Drop(r, key) == l[..p] + l[p + 1..|r|];
    assert Cut([x] + Drop(l, key), n) == (front + l[p + 1..])[..|r|] == front + l[p + 1..|r|];
  }

  lemma CutInsert(l: Pairs, n: nat, key: int, x: (int, int))
    requires !Has(Cut(l, n), key)
    ensures var more := [x] + Cut(l, n);
            Cut([x] + Drop(l, key), n) == if |more| > n then more[..|more| - 1] else more
  {
    FindInCut(l, n, key);
    var p := Find(l, key);
    if p < |l| {
      assert Drop(l, key)[..n] == l[..n];
    }
  }

  lemma CutNothing(n: nat)
    ensures Cut([], n) == []
  {
  }

  lemma HasMore(l: Pairs, n: nat, key: int)
    requires Has(Cut(l, n), key)
    ensures Has(l, key)
  {
    FindInCut(l, n, key);
  }

  /** At any time the cache is the first `capacity` pairs of the ledger. */
  lemma {:induction false} CacheIsRecentEnd(capacity: int, cs: seq<Call>)
    ensures Run(capacity, cs) == Cut(Ledger(capacity, cs), Max(capacity, 0))
    decreases |cs|
  {
    hide Cut, Drop, Find;
    var n := Max(capacity, 0);
    if cs == [] {
      CutNothing(n);
    } else {
      var before, c := cs[..|cs| - 1], cs[|cs| - 1];
      CacheIsRecentEnd(capacity, before);
      var l := Ledger(capacity, before);
      FindInCut(l, n, c.key);
      if Has(Cut(l, n), c.key) {
        CutMoveToFront(l, n, c.key, if c.Put? then (c.key, c.value) else l[Find(l, c.key)]);
        HasMore(l, n, c.key);
      } else if c.Put? {
        CutInsert(l, n, c.key, (c.key, c.value));
      }
    }
  }

  // ---------------------------------------------------------------- what the ledger says

  /** The ledger is sorted by last use, and holds for each key the value of its last put. */
  ghost predicate Truthful(capacity: int, cs: seq<Call>, l: Pairs)
  {
    && (forall i, j :: 0 <= i < j < |l| ==>
          LastUse(capacity, cs, l[i].0) > LastUse(capacity, cs, l[j].0))
    && (forall i :: 0 <= i < |l| ==> 0 <= LastUse(capacity, cs, l[i].0) < |cs| && LastPut(cs, l[i].0) == Some(l[i].1))
    && (forall k :: LastPut(cs, k).Some? || LastUse(capacity, cs, k) >= 0 ==> Has(l, k))
  }

  lemma TruthfulDistinct(capacity: int, cs: seq<Call>, l: Pairs)
    requires Truthful(capacity, cs, l)
    ensures DistinctKeys(l)
  {
  }

  lemma HasElement(l: Pairs, i: nat)
    requires i < |l|
    ensures Has(l, l[i].0)
  {
  }

  /** What Drop leaves, as positions in the original. */
  lemma DropAt(l: Pairs, key: int, i: nat)
    requires DistinctKeys(l) && i < |Drop(l, key)|
    ensures Drop(l, key)[i] == l[if i < Find(l, key) then i else i + 1]
    ensures Drop(l, key)[i].0 != key
    ensures Find(l, key) <= i ==> i + 1 < |l|
  {
  }

  lemma DropHas(l: Pairs, key: int, k: int)
    requires Has(l, k) && k != key
    ensures Has(Drop(l, key), k)
  {
    var p, q := Find(l, key), Find(l, k);
    var r := Drop(l, key);
    assert r[if q < p then q else q - 1] == l[q];
    HasElement(r, if q < p then q else q - 1);
  }

  lemma Snoc(capacity: int, before: seq<Call>, c: Call, k: int)
    ensures LastUse(capacity, before + [c], k) ==
            if k == c.key && IsUse(capacity, before, c) then |before| else LastUse(capacity, before, k)
    ensures LastPut(before + [c], k) == if c.Put? && c.key == k then Some(c.value) else LastPut(before, k)
  {
    assert (before + [c])[..|before|] == before;
  }

  lemma HasInFront(l: Pairs, k: int, x: (int, int))
    requires Has(l, k)
    ensures Has([x] + l, k)
  {
    assert ([x] + l)[Find(l, k) + 1] == l[Find(l, k)];
    HasElement([x] + l, Find(l, k) + 1);
  }

  /** A use of a key moves it to the front and leaves the rest as truthful as before. */
  lemma TruthfulAfterUse(capacity: int, before: seq<Call>, c: Call, l: Pairs, value: int)
    requires Truthful(capacity, before, l) && IsUse(capacity, before, c)
    requires LastPut(before + [c], c.key) == Some(value)
    ensures Truthful(capacity, before + [c], [(c.key, value)] + Drop(l, c.key))
  {
    hide IsUse, Has, Drop, Find, LastUse, LastPut;
    var cs, d := before + [c], Drop(l, c.key);
    var r := [(c.key, value)] + d;
    TruthfulDistinct(capacity, before, l);
    Snoc(capacity, before, c, c.key);
    forall i | 0 <= i < |d|
      ensures d[i].0 != c.key && LastUse(capacity, cs, d[i].0) == LastUse(capacity, before, d[i].0)
      ensures 0 <= LastUse(capacity, cs, d[i].0) < |before| && LastPut(cs, d[i].0) == Some(d[i].1)
    {
      DropAt(l, c.key, i);
      Snoc(capacity, before, c, d[i].0);
    }
    forall i, j | 0 <= i < j < |d|
      ensures LastUse(capacity, cs, d[i].0) > LastUse(capacity, cs, d[j].0)
    {
      DropAt(l, c.key, i);
      DropAt(l, c.key, j);
    }
    forall k | LastPut(cs, k).Some? || LastUse(capacity, cs, k) >= 0 ensures Has(r, k) {
      Snoc(capacity, before, c, k);
      HasElement(r, 0);
      if k != c.key {
        DropHas(l, c.key, k);
        HasInFront(d, k, r[0]);
      }
    }
  }

  lemma TruthfulAfterMiss(capacity: int, before: seq<Call>, c: Call, l: Pairs)
    requires Truthful(capacity, before, l) && !IsUse(capacity, before, c)
    ensures Truthful(capacity, before + [c], l)
  {
    hide Has, Find, LastUse, LastPut;
    forall k
      ensures LastUse(capacity, before + [c], k) == LastUse(capacity, before, k)
      ensures LastPut(before + [c], k) == LastPut(before, k)
    {
      Snoc(capacity, before, c, k);
    }
  }

  lemma NothingTruthful(capacity: int)
    ensures Truthful(capacity, [], [])
  {
  }

  lemma FoundIsLastPut(capacity: int, cs: seq<Call>, l: Pairs, key: int)
    requires Truthful(capacity, cs, l) && Has(l, key)
    ensures l[Find(l, key)] == (key, l[Find(l, key)].1) && LastPut(cs, key) == Some(l[Find(l, key)].1)
  {
  }

  lemma {:induction false} LedgerIsTruthful(capacity: int, cs: seq<Call>)
    ensures Truthful(capacity, cs, Ledger(capacity, cs))
    decreases |cs|
  {
    hide Truthful, LastPut, LastUse, Drop, Find;
    if cs == [] {
      NothingTruthful(capacity);
    } else {
      var before, c := cs[..|cs| - 1], cs[|cs| - 1];
      assert cs == before + [c];
      LedgerIsTruthful(capacity, before);
      var l := Ledger(capacity, before);
      Snoc(capacity, before, c, c.key);
      if c.Put? {
        TruthfulAfterUse(capacity, before, c, l, c.value);
      } else if IsUse(capacity, before, c) {
        CacheIsRecentEnd(capacity, before);
        HasMore(l, Max(capacity, 0), c.key);
        FoundIsLastPut(capacity, before, l, c.key);
        TruthfulAfterUse(capacity, before, c, l, l[Find(l, c.key)].1);
      } else {
        TruthfulAfterMiss(capacity, before, c, l);
      }
    }
  }

  // ---------------------------------------------------------------- the promises of an LRU cache

  /** Over every run: distinct keys, at most `capacity` of them, each with its latest value, and
      sorted by last use. */
  lemma CacheInvariant(capacity: int, cs: seq<Call>)
    ensures DistinctKeys(Run(capacity, cs)) && |Run(capacity, cs)| <= Max(capacity, 0)
    ensures forall i :: 0 <= i < |Run(capacity, cs)| ==>
              LastPut(cs, Run(capacity, cs)[i].0) == Some(Run(capacity, cs)[i].1)
    ensures forall i, j :: 0 <= i < j < |Run(capacity, cs)| ==>
              LastUse(capacity, cs, Run(capacity, cs)[i].0) > LastUse(capacity, cs, Run(capacity, cs)[j].0)
  {
    hide LastUse, LastPut, Run, Ledger, Find;
    CacheIsRecentEnd(capacity, cs);
    LedgerIsTruthful(capacity, cs);
    TruthfulDistinct(capacity, cs, Ledger(capacity, cs));
  }

  /** A key that was put and is no longer in the cache was last used before every key in it, and the
      cache is full. */
  lemma MissingKeysAreOlder(capacity: int, cs: seq<Call>, key: int, i: nat)
    requires LastPut(cs, key).Some? && !Has(Run(capacity, cs), key)
    ensures |Run(capacity, cs)| == Max(capacity, 0)
    ensures i < |Run(capacity, cs)| ==> LastUse(capacity, cs, Run(capacity, cs)[i].0) > LastUse(capacity, cs, key)
  {
    hide LastUse, LastPut, Run, Ledger;
    CacheIsRecentEnd(capacity, cs);
    LedgerIsTruthful(capacity, cs);
    var l := Ledger(capacity, cs);
    FindInCut(l, Max(capacity, 0), key);
    assert Has(l, key) && l[Find(l, key)].0 == key;
  }

  /** The keys used later than `key` was. */
  ghost function LaterKeys(capacity: int, cs: seq<Call>, key: int): set<int>
  {
    set i | 0 <= i < |cs| && LastUse(capacity, cs, cs[i].key) > LastUse(capacity, cs, key) :: cs[i].key
  }

  ghost function FirstKeys(l: Pairs, p: nat): set<int>
    requires p <= |l|
  {
    set i | 0 <= i < p :: l[i].0
  }

  lemma {:induction false} FirstKeysSize(l: Pairs, p: nat)
    requires p <= |l| && DistinctKeys(l)
    ensures |FirstKeys(l, p)| == p
    decreases p
  {
    if p > 0 {
      FirstKeysSize(l, p - 1);
      assert FirstKeys(l, p) == FirstKeys(l, p - 1) + {l[p - 1].0};
    }
  }

  lemma {:induction false} UsedKeyWasCalled(capacity: int, cs: seq<Call>, key: int) returns (i: nat)
    requires LastUse(capacity, cs, key) >= 0
    ensures i < |cs| && cs[i].key == key
    decreases |cs|
  {
    var before, c := cs[..|cs| - 1], cs[|cs| - 1];
    if c.key == key && IsUse(capacity, before, c) {
      i := |cs| - 1;
    } else {
      i := UsedKeyWasCalled(capacity, before, key);
    }
  }

  /** In the ledger a key comes after exactly the keys used later. */
  lemma LaterKeysAreFirst(capacity: int, cs: seq<Call>, l: Pairs, key: int)
    requires Truthful(capacity, cs, l) && Has(l, key)
    ensures LaterKeys(capacity, cs, key) == FirstKeys(l, Find(l, key))
  {
    hide LastUse, LastPut;
    var p := Find(l, key);
    assert l[p].0 == key;
    forall k | k in LaterKeys(capacity, cs, key) ensures k in FirstKeys(l, p) {
      assert Has(l, k) && l[Find(l, k)].0 == k;
      assert Find(l, k) < p;
    }
    forall k | k in FirstKeys(l, p) ensures k in LaterKeys(capacity, cs, key) {
      var i := UsedKeyWasCalled(capacity, cs, k);
      assert cs[i].key == k;
    }
  }

  /** The exact hit condition: a key is in the cache if and only if it was put and fewer than
      `capacity` other keys have been used since its last use. */
  lemma HitIffRecent(capacity: int, cs: seq<Call>, key: int)
    ensures Has(Run(capacity, cs), key) <==>
            LastPut(cs, key).Some? && |LaterKeys(capacity, cs, key)| < capacity
  {
    hide LastUse, LastPut, Run, Ledger, Find, LaterKeys, FirstKeys;
    CacheIsRecentEnd(capacity, cs);
    LedgerIsTruthful(capacity, cs);
    var l := Ledger(capacity, cs);
    FindInCut(l, Max(capacity, 0), key);
    if Has(l, key) {
      TruthfulDistinct(capacity, cs, l);
      LaterKeysAreFirst(capacity, cs, l, key);
      FirstKeysSize(l, Find(l, key));
      FoundIsLastPut(capacity, cs, l, key);
    }
  }

  /** What get returns after any run. */
  lemma GetReturnsLatest(capacity: int, cs: seq<Call>, key: int)
    ensures Has(Run(capacity, cs), key) ==> LastPut(cs, key) == Some(Reply(Run(capacity, cs), key))
    ensures !Has(Run(capacity, cs), key) ==> Reply(Run(capacity, cs), key) == -1
    ensures LastPut(cs, key).None? ==> !Has(Run(capacity, cs), key)
  {
    hide LastUse, LastPut, Run;
    CacheInvariant(capacity, cs);
    var p := Find(Run(capacity, cs), key);
  }

  /** A put of a new key into a full cache evicts exactly the least recently used key. */
  lemma EvictsLeastRecent(capacity: int, cs: seq<Call>, key: int, value: int)
    requires capacity > 0 && |Run(capacity, cs)| == capacity && !Has(Run(capacity, cs), key)
    ensures var l := Run(capacity, cs);
            && Run(capacity, cs + [Put(key, value)]) == [(key, value)] + l[..capacity - 1]
            && !Has(Run(capacity, cs + [Put(key, value)]), l[capacity - 1].0)
            && forall i :: 0 <= i < capacity - 1 ==>
                 LastUse(capacity, cs, l[i].0) > LastUse(capacity, cs, l[capacity - 1].0)
  {
    hide LastUse, LastPut;
    var l := Run(capacity, cs);
    CacheInvariant(capacity, cs);
    assert (cs + [Put(key, value)])[..|cs|] == cs;
    HasElement(l, capacity - 1);
  }

  // ---------------------------------------------------------------- the linked list

  class DLinkNode {
    var key: int
    var value: int
    var pre: DLinkNode?
    var next: DLinkNode?

    constructor (key: int, value: int)
      ensures this.key == key && this.value == value && pre == null && next == null
    {
      this.key, this.value, pre, next := key, value, null, null;
    }
  }

  /** The nodes of `ns` are distinct and `pre` and `next` are mutually inverse along it. */
  ghost predicate Linked(ns: seq<DLinkNode>)
    reads ns`next, ns`pre
  {
    && |ns| >= 2
    && (forall i, j :: 0 <= i < j < |ns| ==> ns[i] != ns[j])
    && (forall i {:trigger ns[i].next} :: 0 <= i < |ns| - 1 ==> ns[i].next == ns[i + 1])
    && (forall i {:trigger ns[i].pre} :: 1 <= i < |ns| ==> ns[i].pre == ns[i - 1])
  }

  /** The map holds exactly the nodes of `ns`, under their keys. */
  ghost predicate Indexed(ns: seq<DLinkNode>, cache: map<int, DLinkNode>)
    reads ns`key
  {
    && (forall i :: 0 <= i < |ns| ==> ns[i].key in cache && cache[ns[i].key] == ns[i])
    && (forall k :: k in cache ==> cache[k] in ns && cache[k].key == k)
  }

  ghost function PairsOf(ns: seq<DLinkNode>): (l: Pairs)
    reads ns`key, ns`value
    ensures |l| == |ns| && forall i :: 0 <= i < |ns| ==> l[i] == (ns[i].key, ns[i].value)
  {
    if ns == [] then [] else [(ns[0].key, ns[0].value)] + PairsOf(ns[1..])
  }

  /** The list between the sentinels. */
  ghost function Inner<T>(ns: seq<T>): (s: seq<T>)
    requires |ns| >= 2
    ensures |s| == |ns| - 2
  {
    ns[1..|ns| - 1]
  }

  /** `s` without the element at `p`. */
  ghost function Without<T>(s: seq<T>, p: nat): (r: seq<T>)
    requires p < |s|
    ensures |r| == |s| - 1
  {
    s[..p] + s[p + 1..]
  }

  /** Linking the neighbours of position `p` to each other links the list without it. */
  lemma RelinkWithout(ns: seq<DLinkNode>, p: nat)
    requires 0 < p < |ns| - 1 && forall i, j :: 0 <= i < j < |ns| ==> ns[i] != ns[j]
    requires ns[p - 1].next == ns[p + 1] && ns[p + 1].pre == ns[p - 1]
    requires forall i {:trigger ns[i].next} :: 0 <= i < |ns| - 1 && i != p - 1 && i != p ==> ns[i].next == ns[i + 1]
    requires forall i {:trigger ns[i].pre} :: 1 <= i < |ns| && i != p + 1 && i != p ==> ns[i].pre == ns[i - 1]
    ensures Linked(Without(ns, p))
  {
    var ms := Without(ns, p);
    forall i | 0 <= i < |ms| - 1 ensures ms[i].next == ms[i + 1] {
      assert ms[i] == ns[if i < p then i else i + 1];
    }
    forall i | 1 <= i < |ms| ensures ms[i].pre == ms[i - 1] {
      assert ms[i] == ns[if i < p then i else i + 1];
    }
  }

  lemma WithoutEnds<T>(s: seq<T>, p: nat)
    requires 0 < p < |s| - 1 && forall i, j :: 0 <= i < j < |s| ==> s[i] != s[j]
    ensures Without(s, p)[0] == s[0] && Without(s, p)[|s| - 2] == s[|s| - 1]
    ensures forall x :: x in Without(s, p) ==> x in s && x != s[p]
  {
  }

  lemma InnerWithout<T>(ns: seq<T>, p: nat)
    requires |ns| >= 2 && p < |ns| - 2
    ensures Inner(Without(ns, p + 1)) == Without(Inner(ns), p)
  {
  }

  lemma InnerAdded<T>(ns: seq<T>, x: T)
    requires |ns| >= 2
    ensures Inner([ns[0], x] + ns[1..]) == [x] + Inner(ns)
  {
  }

  /** The node of a cached key, and its pair in the abstract list. */
  lemma FindNode(ns: seq<DLinkNode>, cache: map<int, DLinkNode>, key: int) returns (p: nat)
    requires Indexed(ns, cache) && key in cache
    ensures p < |ns| && ns[p] == cache[key] && ns[p].key == key
    ensures Has(PairsOf(ns), key) && Find(PairsOf(ns), key) == p
  {
    p := Find(PairsOf(ns), key);
    var q :| 0 <= q < |ns| && ns[q] == cache[key];
    assert PairsOf(ns)[q].0 == key;
  }

  lemma InnerAt<T>(ns: seq<T>, p: nat)
    requires p < |ns| - 2
    ensures Inner(ns)[p] == ns[p + 1]
  {
  }

  lemma InnerNodes<T>(ns: seq<T>)
    requires |ns| >= 2
    ensures forall i :: 0 <= i < |Inner(ns)| ==> Inner(ns)[i] in ns
  {
  }

  /** What a hit at position `p` does to the abstract list. */
  lemma OnHit(l: Pairs, key: int, p: nat)
    requires Has(l, key) && Find(l, key) == p
    ensures GetAfter(l, key) == [l[p]] + Without(l, p) && Reply(l, key) == l[p].1
    ensures forall capacity, value :: PutAfter(capacity, l, key, value) == [(key, value)] + Without(l, p)
  {
  }

  lemma OnMiss(l: Pairs, key: int)
    requires !Has(l, key)
    ensures GetAfter(l, key) == l && Reply(l, key) == -1
  {
  }

  lemma MissingKey(ns: seq<DLinkNode>, cache: map<int, DLinkNode>, key: int)
    requires Indexed(ns, cache) && key !in cache
    ensures !Has(PairsOf(ns), key)
  {
  }

  lemma SameNodesKeepIndex(ns: seq<DLinkNode>, ms: seq<DLinkNode>, cache: map<int, DLinkNode>)
    requires Indexed(ns, cache) && forall n :: n in ms <==> n in ns
    ensures Indexed(ms, cache)
  {
    forall i | 0 <= i < |ms| ensures ms[i].key in cache && cache[ms[i].key] == ms[i] {
      assert ms[i] in ns;
    }
  }

  lemma FrontedKeepsIndex(ns: seq<DLinkNode>, cache: map<int, DLinkNode>, p: nat)
    requires Indexed(ns, cache) && p < |ns|
    ensures Indexed([ns[p]] + Without(ns, p), cache)
  {
    hide Indexed;
    assert ns == ns[..p] + [ns[p]] + ns[p + 1..];
    SameNodesKeepIndex(ns, [ns[p]] + Without(ns, p), cache);
  }

  lemma PairsConcat(a: seq<DLinkNode>, b: seq<DLinkNode>)
    ensures PairsOf(a + b) == PairsOf(a) + PairsOf(b)
  {
    hide PairsOf;
  }

  lemma PairsSplit(ns: seq<DLinkNode>, p: nat)
    requires p <= |ns|
    ensures PairsOf(ns[..p]) == PairsOf(ns)[..p] && PairsOf(ns[p..]) == PairsOf(ns)[p..]
  {
    hide PairsOf;
    assert ns == ns[..p] + ns[p..];
    PairsConcat(ns[..p], ns[p..]);
  }

  lemma PairsWithout(ns: seq<DLinkNode>, p: nat)
    requires p < |ns|
    ensures PairsOf(Without(ns, p)) == Without(PairsOf(ns), p)
  {
    hide PairsOf;
    PairsConcat(ns[..p], ns[p + 1..]);
    PairsSplit(ns, p);
    PairsSplit(ns, p + 1);
  }

  lemma AddedPairs(ns: seq<DLinkNode>, n: DLinkNode)
    ensures PairsOf([n] + ns) == [(n.key, n.value)] + PairsOf(ns)
  {
    hide PairsOf;
    PairsConcat([n], ns);
    assert PairsOf([n]) == [(n.key, n.value)];
  }

  lemma FrontedPairs(ns: seq<DLinkNode>, p: nat)
    requires p < |ns|
    ensures PairsOf([ns[p]] + Without(ns, p)) == [PairsOf(ns)[p]] + Without(PairsOf(ns), p)
  {
    hide PairsOf, Without;
    AddedPairs(Without(ns, p), ns[p]);
    PairsWithout(ns, p);
  }

  lemma WithoutUpdated<T>(s: seq<T>, p: nat, x: T)
    requires p < |s|
    ensures Without(s[p := x], p) == Without(s, p)
  {
  }

  lemma DistinctInner(ns: seq<DLinkNode>)
    requires |ns| >= 2 && Linked(ns)
    ensures forall i, j :: 0 <= i < j < |Inner(ns)| ==> Inner(ns)[i] != Inner(ns)[j]
  {
  }

  lemma AddedKeepsIndex(ns: seq<DLinkNode>, cache: map<int, DLinkNode>, n: DLinkNode)
    requires Indexed(ns, cache) && n.key !in cache
    ensures Indexed([n] + ns, cache[n.key := n])
  {
  }

  lemma LastKeepsIndex(ns: seq<DLinkNode>, cache: map<int, DLinkNode>)
    requires ns != [] && Indexed(ns, cache)
    requires forall i, j :: 0 <= i < j < |ns| ==> ns[i] != ns[j]
    ensures Indexed(ns[..|ns| - 1], cache - {ns[|ns| - 1].key})
  {
    var last := ns[|ns| - 1];
    assert ns == ns[..|ns| - 1] + [last];
    forall k | k in cache && k != last.key ensures cache[k] in ns[..|ns| - 1] {
      assert cache[k] != last;
    }
  }

  class LRUCache {
    var capacity: int
    var size: int
    var head: DLinkNode
    var tail: DLinkNode
    var cache: map<int, DLinkNode>
    ghost var nodes: seq<DLinkNode>   // the whole list, sentinels included

    ghost predicate Valid()
      reads this, nodes
    {
      && |nodes| >= 2 && Linked(nodes) && nodes[0] == head && nodes[|nodes| - 1] == tail
      && Indexed(Inner(nodes), cache)
      && size == |nodes| - 2 && size <= Max(capacity, 0)
    }

    /** The abstract cache. */
    ghost function Contents(): Pairs
      requires Valid()
      reads this, nodes
    {
      PairsOf(Inner(nodes))
    }

    constructor (capacity: int)
      ensures Valid() && Contents() == [] && this.capacity == capacity && fresh(nodes)
    {
      this.capacity := capacity;
      size := 0;
      var h := new DLinkNode(0, 0);
      var t := new DLinkNode(0, 0);
      h.next := t;
      t.pre := h;
      head, tail, cache, nodes := h, t, map[], [h, t];
    }

    /** The list is linked from head to tail; says nothing about the map. */
    ghost predicate Chained()
      reads this, nodes
    {
      |nodes| >= 2 && Linked(nodes) && nodes[0] == head && nodes[|nodes| - 1] == tail
    }

    /** Unlinks the inner node at `p`. */
    method RemoveNode(node: DLinkNode, ghost p: nat)
      requires Chained() && p < |nodes| - 2 && nodes[p + 1] == node
      modifies `nodes, nodes`next, nodes`pre
      ensures Chained() && Inner(nodes) == Without(Inner(old(nodes)), p)
      ensures forall n :: n in nodes ==> n in old(nodes) && n != node
    {
      hide Inner, Without;
      assert node.pre == nodes[p] && node.next == nodes[p + 2];
      node.pre.next := node.next;
      node.next.pre := node.pre;
      InnerWithout(nodes, p);
      RelinkWithout(nodes, p + 1);
      WithoutEnds(nodes, p + 1);
      nodes := Without(nodes, p + 1);
    }

    /** Links a node between the head and the first inner node. */
    method AddNode(node: DLinkNode)
      requires Chained() && node !in nodes
      modifies `nodes, nodes`next, nodes`pre, node`pre, node`next
      ensures Chained() && Inner(nodes) == [node] + Inner(old(nodes))
      ensures forall n :: n in nodes <==> n in old(nodes) || n == node
    {
      assert head.next == nodes[1];
      node.pre := head;
      node.next := head.next;
      head.next.pre := node;
      head.next := node;
      InnerAdded(nodes, node);
      nodes := [head, node] + nodes[1..];
    }

    /** Moves an inner node to the place after the head; only links change. */
    method MoveToHead(node: DLinkNode, ghost p: nat)
      requires Chained() && p < |nodes| - 2 && nodes[p + 1] == node
      modifies `nodes, nodes`next, nodes`pre
      ensures Chained() && Inner(nodes) == [node] + Without(Inner(old(nodes)), p)
      ensures forall n :: n in nodes ==> n in old(nodes)
    {
      hide Linked, Inner, Without;
      assert node in nodes;
      RemoveNode(node, p);
      assert forall k :: 0 <= k < |nodes| ==> nodes[k] in old(nodes);
      AddNode(node);
    }

    method RemoveTail() returns (node: DLinkNode)
      requires Chained() && |nodes| > 2
      modifies `nodes, nodes`next, nodes`pre
      ensures Chained() && node == old(nodes)[|old(nodes)| - 2]
      ensures Inner(nodes) == Inner(old(nodes))[..|old(nodes)| - 3]
      ensures forall n :: n in nodes ==> n in old(nodes)
    {
      assert tail.pre == nodes[|nodes| - 2];
      node := tail.pre;
      RemoveNode(node, |nodes| - 3);
    }

    method Get(key: int) returns (r: int)
      requires Valid()
      modifies `nodes, nodes`next, nodes`pre
      ensures Valid() && forall n :: n in nodes ==> n in old(nodes)
      ensures Contents() == GetAfter(old(Contents()), key) && r == Reply(old(Contents()), key)
    {
      hide Linked, Indexed, PairsOf, Find, Has, Drop, GetAfter, Reply, Inner, Without;
      ghost var inner := Inner(nodes);
      if key !in cache {
        MissingKey(inner, cache, key);
        OnMiss(PairsOf(inner), key);
        return -1;
      }
      var node := cache[key];
      ghost var p := FindNode(inner, cache, key);
      InnerAt(nodes, p);
      OnHit(PairsOf(inner), key, p);
      MoveToHead(node, p);
      FrontedKeepsIndex(inner, cache, p);
      FrontedPairs(inner, p);
      return node.value;
    }

    method Put(key: int, value: int)
      requires Valid()
      modifies this, nodes
      ensures Valid() && capacity == old(capacity)
      ensures forall n :: n in nodes ==> n in old(nodes) || fresh(n)
      ensures Contents() == PutAfter(capacity, old(Contents()), key, value)
    {
      if key !in cache {
        Insert(key, value);
      } else {
        Replace(key, value);
      }
    }

    /** The branch of put for a key that is not cached. */
    method Insert(key: int, value: int)
      requires Valid() && key !in cache
      modifies this, nodes
      ensures Valid() && capacity == old(capacity)
      ensures forall n :: n in nodes ==> n in old(nodes) || fresh(n)
      ensures Contents() == PutAfter(capacity, old(Contents()), key, value)
    {
      hide Linked, Indexed, PairsOf, Find, Inner;
      MissingKey(Inner(nodes), cache, key);
      AddPair(key, value);
      if size > capacity {
        assert forall k :: 0 <= k < |nodes| ==> nodes[k] in old(nodes) || fresh(nodes[k]);
        Evict();
      }
    }

    /** Enters a new node in the list and in the map. */
    method AddPair(key: int, value: int)
      requires Chained() && Indexed(Inner(nodes), cache) && size == |nodes| - 2 && key !in cache
      modifies `nodes, `cache, `size, nodes`next, nodes`pre
      ensures Chained() && Indexed(Inner(nodes), cache) && size == |nodes| - 2 == old(size) + 1
      ensures PairsOf(Inner(nodes)) == [(key, value)] + old(PairsOf(Inner(nodes)))
      ensures |PairsOf(Inner(nodes))| == size
      ensures forall n :: n in nodes ==> n in old(nodes) || fresh(n)
    {
      hide Linked, Indexed, PairsOf, Inner;
      ghost var inner := Inner(nodes);
      InnerNodes(nodes);
      var node := new DLinkNode(key, value);
      AddedKeepsIndex(inner, cache, node);
      AddedPairs(inner, node);
      cache := cache[key := node];
      AddNode(node);
      assert Inner(nodes) == [node] + inner;
      size := size + 1;
    }

    /** Drops the last inner node from the list and from the map. */
    method Evict()
      requires Chained() && |nodes| > 2 && Indexed(Inner(nodes), cache) && size == |nodes| - 2
      modifies `nodes, `cache, `size, nodes`next, nodes`pre
      ensures Chained() && Indexed(Inner(nodes), cache) && size == |nodes| - 2 == old(size) - 1
      ensures PairsOf(Inner(nodes)) == old(PairsOf(Inner(nodes)))[..size]
      ensures forall n :: n in nodes ==> n in old(nodes)
    {
      hide Linked, Indexed, PairsOf;
      ghost var inner := Inner(nodes);
      DistinctInner(nodes);
      var removed := RemoveTail();
      LastKeepsIndex(inner, cache);
      PairsSplit(inner, |inner| - 1);
      cache := cache - {removed.key};
      size := size - 1;
    }

    /** The branch of put for a cached key. */
    method Replace(key: int, value: int)
      requires Valid() && key in cache
      modifies this, nodes
      ensures Valid() && capacity == old(capacity)
      ensures forall n :: n in nodes ==> n in old(nodes)
      ensures Contents() == PutAfter(capacity, old(Contents()), key, value)
    {
      hide Linked, Indexed, PairsOf, Find, Has, Drop, PutAfter, Inner, Without;
      ghost var inner := Inner(nodes);
      DistinctInner(nodes);
      var node := cache[key];
      ghost var p := FindNode(inner, cache, key);
      ghost var l := PairsOf(inner);
      InnerAt(nodes, p);
      OnHit(l, key, p);
      assert node in nodes;
      node.value := value;
      assert PairsOf(inner) == l[p := (key, value)];
      MoveToHead(node, p);
      FrontedKeepsIndex(inner, cache, p);
      FrontedPairs(inner, p);
      WithoutUpdated(l, p, (key, value));
      assert PairsOf(inner) == l[p := (key, value)];
      assert PairsOf(Inner(nodes)) == [(key, value)] + Without(l, p);
    }
  }

  /** Makes the calls `cs` on a new cache, one after the other: the theorems about `Run` are about the
      class.  A put answers nothing, here -1. */
  method Drive(capacity: int, cs: seq<Call>) returns (c: LRUCache, replies: seq<int>)
    ensures c.Valid() && c.capacity == capacity && c.Contents() == Run(capacity, cs)
    ensures |replies| == |cs|
    ensures forall i :: 0 <= i < |cs| && cs[i].Get? ==> replies[i] == Reply(Run(capacity, cs[..i]), cs[i].key)
  {
    hide GetAfter, PutAfter, Reply, LRUCache.Valid, LRUCache.Contents;
    c := new LRUCache(capacity);
    replies := [];
    for k := 0 to |cs|
      invariant c.Valid() && c.capacity == capacity && c.Contents() == Run(capacity, cs[..k])
      invariant fresh(c) && |replies| == k && forall i :: 0 <= i < |c.nodes| ==> fresh(c.nodes[i])
      invariant forall i :: 0 <= i < k && cs[i].Get? ==> replies[i] == Reply(Run(capacity, cs[..i]), cs[i].key)
    {
      assert cs[..k + 1][..k] == cs[..k];
      ghost var before := c.nodes;
      match cs[k] {
      case Get(key) =>
        var r := c.Get(key);
        replies := replies + [r];
      case Put(key, value) =>
        c.Put(key, value);
        replies := replies + [-1];
      }
      forall i | 0 <= i < |c.nodes| ensures fresh(c.nodes[i]) {
        assert c.nodes[i] in c.nodes;
        assert forall n :: n in before ==> fresh(n);
      }
    }
    assert cs[..|cs|] == cs;
  }
}
