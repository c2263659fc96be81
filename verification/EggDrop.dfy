/**
 Egg dropping (887. 鸡蛋掉落.py).

 `Drops` is the linear minimax recurrence that the source keeps in a comment.  A `Strategy` is a
 decision tree of drops; running it against a hidden threshold floor is given by `Run`, which
 knows nothing about the recurrence.  `Solver.Dp` is the memoised binary search.
 */
module EggDrop {

  import opened Prelude

  // ---------------------------------------------------------------- the linear minimax recurrence

  /** Worst case with `k` eggs and `n` floors left, when the first drop is made from floor `i`. */
  function FirstDrop(k: nat, n: nat, i: nat): (r: nat)
    requires k >= 2 && 1 <= i <= n
    decreases n, 0
  {
    1 + Max(Drops(k - 1, i - 1), Drops(k, n - i))
  }

  /** Least value of `FirstDrop` over the first drops 1..i. */
  function BestUpTo(k: nat, n: nat, i: nat): (r: nat)
    requires k >= 2 && 1 <= i <= n
    ensures forall j :: 1 <= j <= i ==> r <= FirstDrop(k, n, j)
    ensures exists j :: 1 <= j <= i && r == FirstDrop(k, n, j)
    decreases n, i
  {
    if i == 1 then FirstDrop(k, n, 1)
    else Min(BestUpTo(k, n, i - 1), FirstDrop(k, n, i))
  }

  function Drops(k: nat, n: nat): (r: nat)
    requires k >= 1
    decreases n, n + 1
  {
    if k == 1 then n
    else if n == 0 then 0
    else BestUpTo(k, n, n)
  }

  lemma BaseCases(k: nat, n: nat)
    requires k >= 1
    ensures Drops(1, n) == n && Drops(k, 0) == 0
  {
  }

  /** Every first drop bounds the minimax value. */
  lemma DropsAtMost(k: nat, n: nat, i: nat)
    requires k >= 2 && 1 <= i <= n
    ensures Drops(k, n) <= 1 + Max(Drops(k - 1, i - 1), Drops(k, n - i))
  {
    assert Drops(k, n) <= FirstDrop(k, n, i);
  }

  /** Some first drop attains it. */
  lemma DropsAttained(k: nat, n: nat) returns (i: nat)
    requires k >= 2 && n > 0
    ensures 1 <= i <= n && Drops(k, n) == 1 + Max(Drops(k - 1, i - 1), Drops(k, n - i))
  {
    i :| 1 <= i <= n && Drops(k, n) == FirstDrop(k, n, i);
  }

  lemma {:induction false} DropsMonotoneStep(k: nat, n: nat)
    requires k >= 1
    ensures Drops(k, n) <= Drops(k, n + 1)
    decreases n
  {
    hide Drops;
    BaseCases(k, n);
    BaseCases(k, n + 1);
    if k > 1 && n > 0 {
      var i := DropsAttained(k, n + 1);
      if i == n + 1 {
        DropsMonotoneStep(k - 1, n - 1);
        DropsAtMost(k, n, n);
      } else {
        DropsMonotoneStep(k, n - i);
        DropsAtMost(k, n, i);
      }
    }
  }

  lemma {:induction false} DropsMonotone(k: nat, m: nat, n: nat)
    requires k >= 1 && m <= n
    ensures Drops(k, m) <= Drops(k, n)
    decreases n - m
  {
    if m < n {
      DropsMonotone(k, m, n - 1);
      DropsMonotoneStep(k, n - 1);
    }
  }

  /** An extra egg never hurts. */
  lemma {:induction false} ExtraEgg(k: nat, n: nat)
    requires k >= 1
    ensures Drops(k + 1, n) <= Drops(k, n)
    decreases n
  {
    hide Drops;
    BaseCases(k, 0);
    BaseCases(k + 1, n);
    if n > 0 {
      if k == 1 {
        ExtraEgg(1, n - 1);
        BaseCases(1, n - 1);
        DropsAtMost(2, n, 1);
      } else {
        var i := DropsAttained(k, n);
        ExtraEgg(k - 1, i - 1);
        ExtraEgg(k, n - i);
        DropsAtMost(k + 1, n, i);
      }
    }
  }

  // ---------------------------------------------------------------- decision trees

  /** Either announce the threshold, or drop an egg from `floor` and continue by the outcome. */
  datatype Strategy = Answer(threshold: int)
                    | Drop(floor: int, broken: Strategy, survived: Strategy)

  /** What the strategy announces when eggs break exactly above `threshold`; None if it needs an
      egg that is no longer there. */
  function Run(s: Strategy, eggs: nat, threshold: int): Option<int>
  {
    match s
    case Answer(f) => Some(f)
    case Drop(x, b, u) =>
      if eggs == 0 then None
      else if threshold < x then Run(b, eggs - 1, threshold)
      else Run(u, eggs, threshold)
  }

  /** Number of drops made on that run. */
  function Cost(s: Strategy, threshold: int): nat
  {
    match s
    case Answer(_) => 0
    case Drop(x, b, u) => 1 + if threshold < x then Cost(b, threshold) else Cost(u, threshold)
  }

  /** With `eggs` eggs the strategy finds every threshold in lo..hi. */
  ghost predicate Finds(s: Strategy, eggs: nat, lo: int, hi: int)
  {
    forall f :: lo <= f <= hi ==> Run(s, eggs, f) == Some(f)
  }

  /** No strategy does better than the recurrence on its worst threshold. */
  lemma {:induction false} LowerBound(s: Strategy, k: nat, lo: int, hi: int) returns (f: int)
    requires lo <= hi && Finds(s, k, lo, hi)
    ensures lo <= f <= hi
    ensures k == 0 ==> lo == hi
    ensures k > 0 ==> Cost(s, f) >= Drops(k, hi - lo)
    decreases s
  {
    assert Run(s, k, lo) == Some(lo) && Run(s, k, hi) == Some(hi);
    match s
    case Answer(_) => f := lo;
    case Drop(x, b, u) =>
      if x <= lo {
        assert Finds(u, k, lo, hi);
        f := LowerBound(u, k, lo, hi);
      } else if hi < x {
        assert Finds(b, k - 1, lo, hi);
        f := LowerBound(b, k - 1, lo, hi);
        if k > 1 { ExtraEgg(k - 1, hi - lo); }
      } else {
        assert Finds(b, k - 1, lo, x - 1);
        assert Finds(u, k, x, hi);
        var f1 := LowerBound(b, k - 1, lo, x - 1);
        var f2 := LowerBound(u, k, x, hi);
        if k == 1 {
          f := f2;
        } else {
          assert Drops(k, hi - lo) <= FirstDrop(k, hi - lo, x - lo);
          f := if Drops(k - 1, x - 1 - lo) > Drops(k, hi - x) then f1 else f2;
        }
      }
  }

  /** Some strategy needs at most that many drops on every threshold. */
  lemma {:induction false} UpperBound(k: nat, lo: int, n: nat) returns (s: Strategy)
    requires k >= 1
    ensures Finds(s, k, lo, lo + n)
    ensures forall f :: lo <= f <= lo + n ==> Cost(s, f) <= Drops(k, n)
    decreases n
  {
    if n == 0 {
      s := Answer(lo);
    } else if k == 1 {
      var u := UpperBound(1, lo + 1, n - 1);
      s := Drop(lo + 1, Answer(lo), u);
    } else {
      var i :| 1 <= i <= n && Drops(k, n) == FirstDrop(k, n, i);
      var b := UpperBound(k - 1, lo, i - 1);
      var u := UpperBound(k, lo + i, n - i);
      s := Drop(lo + i, b, u);
    }
  }

  /** `d` drops suffice on every threshold of 0..n for some strategy, and fewer never do. */
  ghost predicate IsLeastWorstCase(k: nat, n: nat, d: nat)
  {
    && (exists s :: Finds(s, k, 0, n) && forall f :: 0 <= f <= n ==> Cost(s, f) <= d)
    && (forall s :: Finds(s, k, 0, n) ==> exists f :: 0 <= f <= n && Cost(s, f) >= d)
  }

  lemma DropsIsLeastWorstCase(k: nat, n: nat)
    requires k >= 1
    ensures IsLeastWorstCase(k, n, Drops(k, n))
  {
    var best := UpperBound(k, 0, n);
    forall s | Finds(s, k, 0, n)
      ensures exists f :: 0 <= f <= n && Cost(s, f) >= Drops(k, n)
    {
      var f := LowerBound(s, k, 0, n);
    }
  }

  // ---------------------------------------------------------------- the memoised binary search

  /** min(res, x), where None stands for float('INF'). */
  function Better(res: Option<int>, x: int): int
  {
    if res.Some? then Min(res.value, x) else x
  }

  /** `res` is the value of some first drop, and no first drop outside lo..hi is better. */
  ghost predicate Narrowed(k: nat, n: nat, lo: int, hi: int, res: Option<int>)
    requires k >= 2
  {
    && 1 <= lo <= hi + 1 <= n + 1
    && (res.None? ==> lo == 1 && hi == n)
    && (res.Some? ==> exists i :: 1 <= i <= n && res.value == FirstDrop(k, n, i))
    && (res.Some? ==> forall i :: 1 <= i < lo || hi < i <= n ==> res.value <= FirstDrop(k, n, i))
  }

  /** The egg breaks the harder way at `mid`, so higher first drops are no better. */
  lemma BrokenStep(k: nat, n: nat, lo: int, hi: int, mid: int, res: Option<int>)
    requires k >= 2 && Narrowed(k, n, lo, hi, res) && lo <= mid <= hi
    requires Drops(k - 1, mid - 1) > Drops(k, n - mid)
    ensures Narrowed(k, n, lo, mid - 1, Some(Better(res, Drops(k - 1, mid - 1) + 1)))
  {
    hide Drops;
    var x := Drops(k - 1, mid - 1) + 1;
    assert x == FirstDrop(k, n, mid);
    forall i | mid <= i <= n ensures x <= FirstDrop(k, n, i) {
      DropsMonotone(k - 1, mid - 1, i - 1);
    }
  }

  /** The egg survives the harder way at `mid`, so lower first drops are no better. */
  lemma SurvivedStep(k: nat, n: nat, lo: int, hi: int, mid: int, res: Option<int>)
    requires k >= 2 && Narrowed(k, n, lo, hi, res) && lo <= mid <= hi
    requires Drops(k - 1, mid - 1) <= Drops(k, n - mid)
    ensures Narrowed(k, n, mid + 1, hi, Some(Better(res, Drops(k, n - mid) + 1)))
  {
    hide Drops;
    var x := Drops(k, n - mid) + 1;
    assert x == FirstDrop(k, n, mid);
    forall i | 1 <= i <= mid ensures x <= FirstDrop(k, n, i) {
      DropsMonotone(k, n - mid, n - i);
    }
  }

  lemma NarrowedDone(k: nat, n: nat, lo: int, hi: int, res: Option<int>)
    requires k >= 2 && n > 0 && Narrowed(k, n, lo, hi, res) && lo > hi
    ensures res.Some? && res.value == Drops(k, n)
  {
  }

  lemma StartNarrowing(k: nat, n: nat)
    requires k >= 2
    ensures Narrowed(k, n, 1, n, None)
  {
  }

  class Solver {
    var memo: map<(int, int), int>

    /** Every memo entry is the minimax value of its key. */
    ghost predicate Valid()
      reads this
    {
      forall p :: p in memo ==> p.0 >= 1 && p.1 >= 0 && memo[p] == Drops(p.0, p.1)
    }

    constructor ()
      ensures Valid() && memo == map[]
    {
      memo := map[];
    }

    method Dp(k: int, n: int) returns (r: int)
      requires k >= 1 && n >= 0
      requires Valid()
      modifies this
      ensures Valid() && old(memo.Keys) <= memo.Keys
      ensures r == Drops(k, n)
      decreases n
    {
      hide Drops, Narrowed;
      BaseCases(k, n);
      if k == 1 { return n; }
      if n == 0 { return 0; }
      if (k, n) in memo { return memo[(k, n)]; }
      var res: Option<int> := None;
      var lo, hi := 1, n;
      StartNarrowing(k, n);
      while lo <= hi
        invariant 1 <= lo <= hi + 1 <= n + 1
        invariant Valid() && old(memo.Keys) <= memo.Keys
        invariant Narrowed(k, n, lo, hi, res)
      {
        var mid := (lo + hi) / 2;
        var broken := Dp(k - 1, mid - 1);
        var notBroken := Dp(k, n - mid);
        if broken > notBroken {
          BrokenStep(k, n, lo, hi, mid, res);
          hi := mid - 1;
          res := Some(Better(res, broken + 1));
        } else {
          SurvivedStep(k, n, lo, hi, mid, res);
          lo := mid + 1;
          res := Some(Better(res, notBroken + 1));
        }
      }
      NarrowedDone(k, n, lo, hi, res);
      memo := memo[(k, n) := res.value];
      r := res.value;
    }
  }

  method SuperEggDrop(k: int, n: int) returns (r: int)
    requires k >= 1 && n >= 0
    ensures r >= 0 && IsLeastWorstCase(k, n, r)
  {
    var solver := new Solver();
    r := solver.Dp(k, n);
    DropsIsLeastWorstCase(k, n);
  }
}
