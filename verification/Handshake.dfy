/**
 The two-semaphore handshake of thread3.c: `read` stores each input into a shared variable, `accu`
 adds it up.  Both threads are sequences of atomic steps, and a run is any interleaving of them.  The
 number of rounds is the number of inputs (5 in the source).
 */
module Handshake {

  import opened Prelude

  datatype ReaderAt = Prompting | WaitingTwo | Scanning | PostingOne | ReaderDone

  datatype AccuAt = WaitingOne | Adding | PostingTwo | Printing | AccuDone

  /** `added` records the values `accu` has read, in order; it is not a variable of the program. */
  datatype State = State(
    one: nat, two: nat,                    // sem_one, sem_two
    num: int,                              // the shared variable
    reader: ReaderAt, rounds: nat,         // read: next step, completed rounds
    accu: AccuAt, turns: nat, sum: int,    // accu: next step, completed rounds, local sum
    printed: Option<int>, added: seq<int>)

  datatype Action = Prompt | WaitTwo | Scan | PostOne | WaitOne | Add | PostTwo | Print

  function Init(inputs: seq<int>): State
  {
    State(0, 1, 0,
          if inputs == [] then ReaderDone else Prompting, 0,
          if inputs == [] then Printing else WaitingOne, 0, 0, None, [])
  }

  predicate Enabled(s: State, a: Action)
  {
    match a
    case Prompt => s.reader == Prompting
    case WaitTwo => s.reader == WaitingTwo && s.two > 0
    case Scan => s.reader == Scanning
    case PostOne => s.reader == PostingOne
    case WaitOne => s.accu == WaitingOne && s.one > 0
    case Add => s.accu == Adding
    case PostTwo => s.accu == PostingTwo
    case Print => s.accu == Printing
  }

  ghost predicate Step(inputs: seq<int>, s: State, a: Action, t: State)
  {
    && Enabled(s, a)
    && match a
       case Prompt => t == s.(reader := WaitingTwo)
       case WaitTwo => t == s.(two := s.two - 1, reader := Scanning)
       case Scan => s.rounds < |inputs| && t == s.(num := inputs[s.rounds], reader := PostingOne)
       case PostOne => t == s.(one := s.one + 1, rounds := s.rounds + 1,
                               reader := if s.rounds + 1 < |inputs| then Prompting else ReaderDone)
       case WaitOne => t == s.(one := s.one - 1, accu := Adding)
       case Add => t == s.(sum := s.sum + s.num, added := s.added + [s.num], accu := PostingTwo)
       case PostTwo => t == s.(two := s.two + 1, turns := s.turns + 1,
                               accu := if s.turns + 1 < |inputs| then WaitingOne else Printing)
       case Print => t == s.(printed := Some(s.sum), accu := AccuDone)
  }

  /** Both threads have returned, so both joins in main succeed. */
  predicate Finished(s: State)
  {
    s.reader == ReaderDone && s.accu == AccuDone
  }

  ghost predicate CanStep(inputs: seq<int>, s: State, t: State)
  {
    exists a :: Step(inputs, s, a, t)
  }

  ghost predicate Follows(inputs: seq<int>, run: seq<State>, k: nat)
    requires 0 < k < |run|
  {
    CanStep(inputs, run[k - 1], run[k])
  }

  /** A run from the initial state under some schedule. */
  ghost predicate IsRun(inputs: seq<int>, run: seq<State>)
  {
    && run != [] && run[0] == Init(inputs)
    && forall k :: 0 < k < |run| ==> Follows(inputs, run, k)
  }

  function Sum(xs: seq<int>): int
  {
    if xs == [] then 0 else Sum(xs[..|xs| - 1]) + xs[|xs| - 1]
  }

  // ---------------------------------------------------------------- the invariant

  /** Threads between a wait and the matching post of the other semaphore. */
  function Inside(s: State): nat
  {
    (if s.reader == Scanning || s.reader == PostingOne then 1 else 0) +
    (if s.accu == Adding || s.accu == PostingTwo then 1 else 0)
  }

  /** The last value stored has not been read yet. */
  predicate Full(s: State)
  {
    s.reader == PostingOne || s.one == 1 || s.accu == Adding
  }

  ghost predicate Inv(inputs: seq<int>, s: State)
  {
    var stored := s.rounds + if s.reader == PostingOne then 1 else 0;
    var read := s.turns + if s.accu == PostingTwo then 1 else 0;
    && s.one + s.two + Inside(s) == 1
    && stored <= |inputs|
    && (s.reader == ReaderDone <==> s.rounds == |inputs|)
    && (s.accu == Printing || s.accu == AccuDone <==> s.turns == |inputs|)
    && stored == read + (if Full(s) then 1 else 0)
    && (Full(s) ==> s.num == inputs[read])
    && s.added == inputs[..read] && s.sum == Sum(s.added)
    && s.printed == (if s.accu == AccuDone then Some(s.sum) else None)
  }

  lemma AddedOne(inputs: seq<int>, n: nat)
    requires n < |inputs|
    ensures inputs[..n] + [inputs[n]] == inputs[..n + 1]
    ensures Sum(inputs[..n + 1]) == Sum(inputs[..n]) + inputs[n]
  {
    assert inputs[..n + 1][..n] == inputs[..n];
  }

  lemma StepKeepsInv(inputs: seq<int>, s: State, a: Action, t: State)
    requires Inv(inputs, s) && Step(inputs, s, a, t)
    ensures Inv(inputs, t)
  {
    hide Sum;
    if a == Add { AddedOne(inputs, |s.added|); }
  }

  lemma {:induction false} RunKeepsInv(inputs: seq<int>, run: seq<State>, k: nat)
    requires IsRun(inputs, run) && k < |run|
    ensures Inv(inputs, run[k])
    decreases k
  {
    if k > 0 {
      RunKeepsInv(inputs, run, k - 1);
      assert Follows(inputs, run, k);
      var a :| Step(inputs, run[k - 1], a, run[k]);
      StepKeepsInv(inputs, run[k - 1], a, run[k]);
    }
  }

  // ---------------------------------------------------------------- safety

  /** In every reachable state the semaphores and the threads inside a section total 1, the two
      threads are never both about to touch `num`, and what was added so far is a prefix of the
      inputs: nothing is lost, repeated or reordered. */
  lemma RunIsSafe(inputs: seq<int>, run: seq<State>, k: nat)
    requires IsRun(inputs, run) && k < |run|
    ensures run[k].one + run[k].two + Inside(run[k]) == 1
    ensures !(Enabled(run[k], Scan) && Enabled(run[k], Add))
    ensures run[k].added <= inputs && run[k].sum == Sum(run[k].added)
    ensures run[k].rounds - 1 <= run[k].turns <= run[k].rounds
    ensures Finished(run[k]) ==> run[k].added == inputs && run[k].printed == Some(Sum(inputs))
  {
    RunKeepsInv(inputs, run, k);
    assert inputs[..|inputs|] == inputs;
  }

  // ---------------------------------------------------------------- progress

  lemma EnabledAction(inputs: seq<int>, s: State) returns (a: Action)
    requires Inv(inputs, s) && !Finished(s)
    ensures Enabled(s, a)
  {
    a := match s.reader
         case Prompting => Prompt
         case Scanning => Scan
         case PostingOne => PostOne
         case WaitingTwo =>
           if s.two > 0 then WaitTwo
           else if s.accu == WaitingOne then WaitOne
           else if s.accu == Adding then Add else PostTwo
         case ReaderDone =>
           if s.accu == WaitingOne then WaitOne
           else if s.accu == Adding then Add
           else if s.accu == PostingTwo then PostTwo else Print;
  }

  lemma After(inputs: seq<int>, s: State, a: Action) returns (t: State)
    requires Inv(inputs, s) && Enabled(s, a)
    ensures Step(inputs, s, a, t)
  {
    t := match a
         case Prompt => s.(reader := WaitingTwo)
         case WaitTwo => s.(two := s.two - 1, reader := Scanning)
         case Scan => s.(num := inputs[s.rounds], reader := PostingOne)
         case PostOne => s.(one := s.one + 1, rounds := s.rounds + 1,
                            reader := if s.rounds + 1 < |inputs| then Prompting else ReaderDone)
         case WaitOne => s.(one := s.one - 1, accu := Adding)
         case Add => s.(sum := s.sum + s.num, added := s.added + [s.num], accu := PostingTwo)
         case PostTwo => s.(two := s.two + 1, turns := s.turns + 1,
                            accu := if s.turns + 1 < |inputs| then WaitingOne else Printing)
         case Print => s.(printed := Some(s.sum), accu := AccuDone);
  }

  lemma ExtendRun(inputs: seq<int>, run: seq<State>, a: Action, t: State)
    requires IsRun(inputs, run) && Step(inputs, run[|run| - 1], a, t)
    ensures IsRun(inputs, run + [t])
  {
    var longer := run + [t];
    forall k | 0 < k < |longer| ensures Follows(inputs, longer, k) {
      if k < |run| {
        assert Follows(inputs, run, k);
        var b :| Step(inputs, run[k - 1], b, run[k]);
        assert Step(inputs, longer[k - 1], b, longer[k]);
      } else {
        assert Step(inputs, longer[k - 1], a, longer[k]);
      }
    }
  }

  /** No reachable unfinished state is stuck. */
  lemma NoDeadlock(inputs: seq<int>, run: seq<State>) returns (a: Action, t: State)
    requires IsRun(inputs, run) && !Finished(run[|run| - 1])
    ensures Step(inputs, run[|run| - 1], a, t) && IsRun(inputs, run + [t])
  {
    var s := run[|run| - 1];
    RunKeepsInv(inputs, run, |run| - 1);
    a := EnabledAction(inputs, s);
    t := After(inputs, s, a);
    ExtendRun(inputs, run, a, t);
  }

  /** Steps still to be taken: four per round of `read`, three per round of `accu`, and the print. */
  function Remaining(n: nat, s: State): int
  {
    4 * (n - s.rounds) + 3 * (n - s.turns) + 1
    - (match s.reader case WaitingTwo => 1 case Scanning => 2 case PostingOne => 3 case _ => 0)
    - (match s.accu case Adding => 1 case PostingTwo => 2 case AccuDone => 1 case _ => 0)
  }

  /** Every schedule takes the same number of steps; a run that cannot be extended is finished and
      has printed the sum of all inputs. */
  lemma {:induction false} RunLength(inputs: seq<int>, run: seq<State>, k: nat)
    requires IsRun(inputs, run) && k < |run|
    ensures k + Remaining(|inputs|, run[k]) == 7 * |inputs| + 1
    ensures Remaining(|inputs|, run[k]) >= 0
    ensures Remaining(|inputs|, run[k]) == 0 <==> Finished(run[k])
    decreases k
  {
    RunKeepsInv(inputs, run, k);
    if k > 0 {
      RunLength(inputs, run, k - 1);
      assert Follows(inputs, run, k);
    }
  }

  /** The main result: a run is complete exactly when it has 7n + 1 steps, and then the sum of all
      inputs has been printed. */
  lemma CompleteRunPrintsSum(inputs: seq<int>, run: seq<State>)
    requires IsRun(inputs, run)
    ensures |run| <= 7 * |inputs| + 2
    ensures Finished(run[|run| - 1]) <==> |run| == 7 * |inputs| + 2
    ensures |run| == 7 * |inputs| + 2 ==> run[|run| - 1].printed == Some(Sum(inputs))
    ensures |run| < 7 * |inputs| + 2 <==> exists t :: IsRun(inputs, run + [t])
  {
    RunLength(inputs, run, |run| - 1);
    RunIsSafe(inputs, run, |run| - 1);
    if |run| < 7 * |inputs| + 2 {
      var a, t := NoDeadlock(inputs, run);
    } else if t :| IsRun(inputs, run + [t]) {
      RunLength(inputs, run + [t], |run|);
    }
  }
}
