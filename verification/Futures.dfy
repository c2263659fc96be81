/**
 The asyncio-style Future of future_source.py.

 `Apply` is one call on the abstract state, `Future` the class whose methods update its fields, and
 `Run` the state after any sequence of calls.  Callbacks, contexts and results are represented by
 their identities; `scheduled` lists what the future has handed to `loop.call_soon`, in order.
 */
module Futures {

  import opened Prelude

  datatype Status = Pending | Cancelled | Finished

  datatype ExceptionType = StopIteration | OtherType(name: string)

  datatype Exception = Exception(kind: ExceptionType, args: string)

  /** What can be passed to set_exception: a class, an instance, or None. */
  datatype ExceptionArg = TypeArg(kind: ExceptionType) | InstanceArg(exc: Exception) | NoneArg

  datatype Error = CancelledError | InvalidStateError | TypeError | Stored(exc: Exception)

  datatype Entry = Entry(fn: int, context: Option<int>)

  datatype State = State(
    status: Status, result: Option<int>, exception: Option<Exception>,
    callbacks: seq<Entry>, scheduled: seq<Entry>, logTraceback: bool)

  /** `current` is the context that contextvars.copy_context() would return at the call. */
  datatype Call =
    | Cancel
    | SetResult(v: int)
    | SetException(arg: ExceptionArg)
    | GetResult
    | GetException
    | AddDoneCallback(fn: int, context: Option<int>, current: int)
    | RemoveDoneCallback(fn: int)

  datatype Reply =
    | Nothing
    | Flag(b: bool)
    | Number(n: nat)
    | Value(v: Option<int>)
    | Exc(e: Option<Exception>)
    | Raises(error: Error)

  datatype Outcome = Outcome(after: State, reply: Reply)

  // ---------------------------------------------------------------- one call

  const INITIAL_STATE := State(Pending, None, None, [], [], false)

  function Instance(arg: ExceptionArg): Option<Exception>
  {
    match arg
    case TypeArg(kind) => Some(Exception(kind, ""))
    case InstanceArg(e) => Some(e)
    case NoneArg => None
  }

  predicate IsStopIteration(e: Option<Exception>)
  {
    e.Some? && e.value.kind == StopIteration
  }

  /** The callbacks other than `fn`, in order. */
  function Others(cs: seq<Entry>, fn: int): (r: seq<Entry>)
    ensures |r| <= |cs|
  {
    if cs == [] then []
    else if cs[|cs| - 1].fn != fn then Others(cs[..|cs| - 1], fn) + [cs[|cs| - 1]]
    else Others(cs[..|cs| - 1], fn)
  }

  /** Hands all callbacks to the loop and clears the list. */
  function ScheduleAll(s: State): State
  {
    s.(callbacks := [], scheduled := s.scheduled + s.callbacks)
  }

  function EntryFor(s: State, c: Call): (e: Entry)
    requires c.AddDoneCallback?
    ensures e.fn == c.fn
  {
    if s.status != Pending then Entry(c.fn, c.context)
    else Entry(c.fn, if c.context.None? then Some(c.current) else c.context)
  }

  function Apply(c: Call, s: State): Outcome
  {
    match c
    case Cancel =>
      var t := s.(logTraceback := false);
      if s.status != Pending then Outcome(t, Flag(false))
      else Outcome(ScheduleAll(t.(status := Cancelled)), Flag(true))
    case SetResult(v) =>
      if s.status != Pending then Outcome(s, Raises(InvalidStateError))
      else Outcome(ScheduleAll(s.(result := Some(v), status := Finished)), Nothing)
    case SetException(arg) =>
      var e := Instance(arg);
      if s.status != Pending then Outcome(s, Raises(InvalidStateError))
      else if IsStopIteration(e) then Outcome(s, Raises(TypeError))
      else Outcome(ScheduleAll(s.(exception := e, status := Finished)).(logTraceback := true), Nothing)
    case GetResult =>
      if s.status == Cancelled then Outcome(s, Raises(CancelledError))
      else if s.status == Pending then Outcome(s, Raises(InvalidStateError))
      else Outcome(s.(logTraceback := false),
                   if s.exception.Some? then Raises(Stored(s.exception.value)) else Value(s.result))
    case GetException =>
      if s.status == Cancelled then Outcome(s, Raises(CancelledError))
      else if s.status == Pending then Outcome(s, Raises(InvalidStateError))
      else Outcome(s.(logTraceback := false), Exc(s.exception))
    case AddDoneCallback(_, _, _) =>
      if s.status != Pending then Outcome(s.(scheduled := s.scheduled + [EntryFor(s, c)]), Nothing)
      else Outcome(s.(callbacks := s.callbacks + [EntryFor(s, c)]), Nothing)
    case RemoveDoneCallback(fn) =>
      var left := Others(s.callbacks, fn);
      Outcome(s.(callbacks := left), Number(|s.callbacks| - |left|))
  }

  // ---------------------------------------------------------------- the class

  lemma {:induction false} NoneRemoved(cs: seq<Entry>, fn: int)
    ensures |Others(cs, fn)| == |cs| ==> Others(cs, fn) == cs
  {
    if cs != [] { NoneRemoved(cs[..|cs| - 1], fn); }
  }

  class Future {
    var status: Status
    var result: Option<int>
    var exception: Option<Exception>
    var callbacks: seq<Entry>
    var logTraceback: bool
    var scheduled: seq<Entry>

    ghost function View(): State
      reads this
    {
      State(status, result, exception, callbacks, scheduled, logTraceback)
    }

    constructor ()
      ensures View() == INITIAL_STATE
    {
      status, result, exception := Pending, None, None;
      callbacks, logTraceback, scheduled := [], false, [];
    }

    method CallSoon(e: Entry)
      modifies `scheduled
      ensures scheduled == old(scheduled) + [e]
    {
      scheduled := scheduled + [e];
    }

    method ScheduleCallbacks()
      modifies `callbacks, `scheduled
      ensures View() == ScheduleAll(old(View()))
    {
      var cs := callbacks;
      if cs == [] {
        return;
      }
      callbacks := [];
      for k := 0 to |cs|
        invariant callbacks == [] && scheduled == old(scheduled) + cs[..k]
      {
        assert cs[..k + 1] == cs[..k] + [cs[k]];
        CallSoon(cs[k]);
      }
    }

    method Cancel() returns (b: bool)
      modifies this
      ensures Outcome(View(), Flag(b)) == Apply(Call.Cancel, old(View()))
    {
      logTraceback := false;
      if status != Pending {
        return false;
      }
      status := Cancelled;
      ScheduleCallbacks();
      return true;
    }

    method SetResult(v: int) returns (r: Reply)
      modifies this
      ensures Outcome(View(), r) == Apply(Call.SetResult(v), old(View()))
    {
      if status != Pending {
        return Raises(InvalidStateError);
      }
      result := Some(v);
      status := Finished;
      ScheduleCallbacks();
      return Nothing;
    }

    method SetException(arg: ExceptionArg) returns (r: Reply)
      modifies this
      ensures Outcome(View(), r) == Apply(Call.SetException(arg), old(View()))
    {
      if status != Pending {
        return Raises(InvalidStateError);
      }
      var e := Instance(arg);
      if IsStopIteration(e) {
        return Raises(TypeError);
      }
      exception := e;
      status := Finished;
      ScheduleCallbacks();
      logTraceback := true;
      return Nothing;
    }

    method Result() returns (r: Reply)
      modifies this
      ensures Outcome(View(), r) == Apply(GetResult, old(View()))
    {
      if status == Cancelled {
        return Raises(CancelledError);
      }
      if status != Finished {
        return Raises(InvalidStateError);
      }
      logTraceback := false;
      if exception.Some? {
        return Raises(Stored(exception.value));
      }
      return Value(result);
    }

    method GetStoredException() returns (r: Reply)
      modifies this
      ensures Outcome(View(), r) == Apply(GetException, old(View()))
    {
      if status == Cancelled {
        return Raises(CancelledError);
      }
      if status != Finished {
        return Raises(InvalidStateError);
      }
      logTraceback := false;
      return Exc(exception);
    }

    method AddDoneCallback(fn: int, context: Option<int>, current: int)
      modifies this
      ensures View() == Apply(Call.AddDoneCallback(fn, context, current), old(View())).after
    {
      if status != Pending {
        CallSoon(Entry(fn, context));
      } else {
        callbacks := callbacks + [Entry(fn, if context.None? then Some(current) else context)];
      }
    }

    method RemoveDoneCallback(fn: int) returns (removed: nat)
      modifies this
      ensures Outcome(View(), Number(removed)) == Apply(Call.RemoveDoneCallback(fn), old(View()))
    {
      var filtered := [];
      for k := 0 to |callbacks|
        invariant filtered == Others(callbacks[..k], fn)
        invariant View() == old(View())
      {
        assert callbacks[..k + 1][..k] == callbacks[..k];
        if callbacks[k].fn != fn {
          filtered := filtered + [callbacks[k]];
        }
      }
      assert callbacks[..|callbacks|] == callbacks;
      removed := |callbacks| - |filtered|;
      if removed > 0 {
        callbacks := filtered;
      } else {
        NoneRemoved(callbacks, fn);
      }
    }

    /** The method that a call stands for. */
    method Perform(c: Call) returns (r: Reply)
      modifies this
      ensures Outcome(View(), r) == Apply(c, old(View()))
    {
      match c
      case Cancel =>
        var b := Cancel();
        r := Flag(b);
      case SetResult(v) =>
        r := SetResult(v);
      case SetException(arg) =>
        r := SetException(arg);
      case GetResult =>
        r := Result();
      case GetException =>
        r := GetStoredException();
      case AddDoneCallback(fn, context, current) =>
        AddDoneCallback(fn, context, current);
        r := Nothing;
      case RemoveDoneCallback(fn) =>
        var n := RemoveDoneCallback(fn);
        r := Number(n);
    }
  }

  // ---------------------------------------------------------------- whole runs

  /** The state after the calls `cs` on a new future. */
  function Run(cs: seq<Call>): State
  {
    if cs == [] then INITIAL_STATE else Apply(cs[|cs| - 1], Run(cs[..|cs| - 1])).after
  }

  predicate Done(s: State) { s.status != Pending }

  /** The caller sees the call succeed: cancel() returns True, set_result and set_exception return. */
  predicate Settles(s: State, c: Call)
  {
    var reply := Apply(c, s).reply;
    match c
    case Cancel => reply == Flag(true)
    case SetResult(_) => reply == Nothing
    case SetException(_) => reply == Nothing
    case _ => false
  }

  /** That is exactly so while the future is pending, except for StopIteration, class or instance. */
  lemma SettlesIff(s: State, c: Call)
    ensures Settles(s, c) <==>
            && !Done(s)
            && match c
               case Cancel => true
               case SetResult(_) => true
               case SetException(TypeArg(kind)) => kind != StopIteration
               case SetException(InstanceArg(e)) => e.kind != StopIteration
               case SetException(NoneArg) => true
               case _ => false
  {
  }

  /** A pending future refuses StopIteration, class or instance, and nothing else; a refusal leaves no
      trace. */
  lemma RefusedIffStopIteration(s: State, arg: ExceptionArg)
    requires !Done(s)
    ensures Apply(SetException(arg), s).reply == Raises(TypeError) <==>
            arg == TypeArg(StopIteration) || (arg.InstanceArg? && arg.exc.kind == StopIteration)
    ensures if Apply(SetException(arg), s).reply == Raises(TypeError) then Apply(SetException(arg), s).after == s
            else Settles(s, SetException(arg))
  {
  }

  /** Status, result and exception that a settling call leaves behind. */
  function Verdict(c: Call): (Status, Option<int>, Option<Exception>)
  {
    match c
    case SetResult(v) => (Finished, Some(v), None)
    case SetException(TypeArg(kind)) => (Finished, None, Some(Exception(kind, "")))
    case SetException(InstanceArg(e)) => (Finished, None, Some(e))
    case SetException(NoneArg) => (Finished, None, None)
    case _ => (Cancelled, None, None)
  }

  /** Number of calls in the run that settled the future. */
  function Settlings(cs: seq<Call>): nat
  {
    if cs == [] then 0
    else
      var pre := cs[..|cs| - 1];
      Settlings(pre) + if Settles(Run(pre), cs[|cs| - 1]) then 1 else 0
  }

  /** At most one call ever settles the future, and exactly one has once it is done. */
  lemma {:induction false} SettledAtMostOnce(cs: seq<Call>)
    ensures Settlings(cs) == if Done(Run(cs)) then 1 else 0
    ensures Settlings(cs) == 0 ==> Run(cs).result.None? && Run(cs).exception.None?
    decreases |cs|
  {
    if cs != [] { SettledAtMostOnce(cs[..|cs| - 1]); }
  }

  /** A call on a done future leaves the outcome alone; a settling call leaves its own. */
  lemma CallOnOutcome(c: Call, s: State)
    ensures var t := Apply(c, s).after;
            && (Done(s) ==> (t.status, t.result, t.exception) == (s.status, s.result, s.exception))
            && (Settles(s, c) && s.result.None? && s.exception.None? ==>
                  (t.status, t.result, t.exception) == Verdict(c))
    ensures Settles(s, c) ==> !Done(s)
  {
  }

  lemma VerdictIsFinal(c: Call)
    ensures Verdict(c).0 != Pending
  {
  }

  /** The outcome is that of the settling call, in every later state. */
  lemma {:induction false} OutcomeNeverChanges(cs: seq<Call>, k: nat)
    requires k < |cs| && Settles(Run(cs[..k]), cs[k])
    ensures (Run(cs).status, Run(cs).result, Run(cs).exception) == Verdict(cs[k])
    decreases |cs|
  {
    hide Apply, Settles, Settlings, Verdict;
    var pre := cs[..|cs| - 1];
    CallOnOutcome(cs[|cs| - 1], Run(pre));
    if k == |cs| - 1 {
      SettledAtMostOnce(pre);
    } else {
      assert pre[..k] == cs[..k];
      OutcomeNeverChanges(pre, k);
      VerdictIsFinal(cs[k]);
    }
  }

  /** What result() and exception() answer once call `k` has settled the future, whatever follows. */
  lemma RepliesAreThatOfTheSettlingCall(cs: seq<Call>, k: nat)
    requires k < |cs| && Settles(Run(cs[..k]), cs[k])
    ensures var result, exception := Apply(GetResult, Run(cs)).reply, Apply(GetException, Run(cs)).reply;
            match cs[k]
            case SetResult(v) => result == Value(Some(v)) && exception == Exc(None)
            case SetException(TypeArg(kind)) =>
              result == Raises(Stored(Exception(kind, ""))) && exception == Exc(Some(Exception(kind, "")))
            case SetException(InstanceArg(e)) => result == Raises(Stored(e)) && exception == Exc(Some(e))
            case SetException(NoneArg) => result == Value(None) && exception == Exc(None)
            case _ => result == exception == Raises(CancelledError)
    ensures Apply(Cancel, Run(cs)).reply == Flag(false)
    ensures forall v :: Apply(SetResult(v), Run(cs)).reply == Raises(InvalidStateError)
    ensures forall arg :: Apply(SetException(arg), Run(cs)).reply == Raises(InvalidStateError)
  {
    hide Run, Settles;
    OutcomeNeverChanges(cs, k);
  }

  /** Before that, both raise and the state is untouched. */
  lemma RepliesWhilePending(cs: seq<Call>)
    requires !Done(Run(cs))
    ensures Apply(GetResult, Run(cs)) == Outcome(Run(cs), Raises(InvalidStateError))
    ensures Apply(GetException, Run(cs)) == Outcome(Run(cs), Raises(InvalidStateError))
    ensures Settlings(cs) == 0
  {
    SettledAtMostOnce(cs);
  }

  /** Makes the calls `cs` on a new future, one after the other: the theorems about `Run` are about the
      class. */
  method Drive(cs: seq<Call>) returns (f: Future, replies: seq<Reply>)
    ensures f.View() == Run(cs)
    ensures |replies| == |cs| && forall i :: 0 <= i < |cs| ==> replies[i] == Apply(cs[i], Run(cs[..i])).reply
  {
    hide Apply;
    f := new Future();
    replies := [];
    for k := 0 to |cs|
      invariant f.View() == Run(cs[..k]) && fresh(f)
      invariant |replies| == k
      invariant forall i :: 0 <= i < k ==> replies[i] == Apply(cs[i], Run(cs[..i])).reply
    {
      assert cs[..k + 1][..k] == cs[..k];
      var reply := f.Perform(cs[k]);
      replies := replies + [reply];
    }
    assert cs[..|cs|] == cs;
  }

  // ---------------------------------------------------------------- every callback once, in order

  ghost predicate RemovedBy(cs: seq<Call>, k: nat, r: int)
    requires k < |cs| && cs[k].AddDoneCallback?
  {
    k < r < |cs| && cs[r] == RemoveDoneCallback(cs[k].fn) && !Done(Run(cs[..r]))
  }

  /** The callback added by call `k` was still pending when a later call removed it. */
  ghost predicate Removed(cs: seq<Call>, k: nat)
    requires k < |cs| && cs[k].AddDoneCallback?
  {
    exists r :: RemovedBy(cs, k, r)
  }

  /** What call `k` asks the loop to run: its function, in the context it gives; without one, in the
      context of the caller if the future is still pending, and in none of its own if it is done. */
  ghost function Requested(cs: seq<Call>, k: nat): Entry
    requires k < |cs| && cs[k].AddDoneCallback?
  {
    Entry(cs[k].fn,
          if cs[k].context.Some? then cs[k].context
          else if Done(Run(cs[..k])) then None
          else Some(cs[k].current))
  }

  /** The callbacks added by the first `n` calls and not removed while pending, in order of addition. */
  ghost function Surviving(cs: seq<Call>, n: nat): seq<Entry>
    requires n <= |cs|
  {
    if n == 0 then []
    else if cs[n - 1].AddDoneCallback? && !Removed(cs, n - 1)
    then Surviving(cs, n - 1) + [Requested(cs, n - 1)]
    else Surviving(cs, n - 1)
  }

  /** Whether a callback was removed after one more call. */
  lemma RemovedAfter(pre: seq<Call>, c: Call, k: nat)
    requires k < |pre| && pre[k].AddDoneCallback?
    ensures Removed(pre + [c], k) <==>
            Removed(pre, k) || (!Done(Run(pre)) && c == RemoveDoneCallback(pre[k].fn))
  {
    var cs := pre + [c];
    if Removed(cs, k) {
      var r :| RemovedBy(cs, k, r);
      assert cs[..r] == pre[..r];
      if r < |pre| { assert RemovedBy(pre, k, r); } else { assert pre[..r] == pre; }
    }
    if Removed(pre, k) {
      var r :| RemovedBy(pre, k, r);
      assert cs[..r] == pre[..r];
      assert RemovedBy(cs, k, r);
    }
    if !Done(Run(pre)) && c == RemoveDoneCallback(pre[k].fn) {
      assert cs[..|pre|] == pre;
      assert RemovedBy(cs, k, |pre|);
    }
  }

  lemma RequestedAfter(pre: seq<Call>, c: Call, k: nat)
    requires k < |pre| && pre[k].AddDoneCallback?
    ensures Requested(pre + [c], k) == Requested(pre, k) && Requested(pre, k).fn == pre[k].fn
  {
    hide Run;
    assert (pre + [c])[..k] == pre[..k];
  }

  lemma OthersNothing(fn: int)
    ensures Others([], fn) == []
  {
  }

  lemma OthersSnoc(es: seq<Entry>, e: Entry, fn: int)
    ensures Others(es + [e], fn) == if e.fn != fn then Others(es, fn) + [e] else Others(es, fn)
  {
    assert (es + [e])[..|es|] == es;
  }

  lemma SurvivingStep(cs: seq<Call>, n: nat)
    requires n < |cs|
    ensures Surviving(cs, n + 1) ==
            if cs[n].AddDoneCallback? && !Removed(cs, n) then Surviving(cs, n) + [Requested(cs, n)]
            else Surviving(cs, n)
  {
    hide Removed, Requested;
  }

  lemma NoneSurviving(cs: seq<Call>)
    ensures Surviving(cs, 0) == []
  {
  }

  /** One more call leaves the survivors alone, unless it removes pending callbacks. */
  lemma {:induction false} SurvivingAfter(pre: seq<Call>, c: Call, n: nat)
    requires n <= |pre|
    ensures Surviving(pre + [c], n) ==
            if c.RemoveDoneCallback? && !Done(Run(pre)) then Others(Surviving(pre, n), c.fn)
            else Surviving(pre, n)
  {
    hide Surviving, Removed, Requested, Run, Done, Others;
    if n == 0 {
      NoneSurviving(pre);
      NoneSurviving(pre + [c]);
      if c.RemoveDoneCallback? { OthersNothing(c.fn); }
    } else {
      SurvivingAfter(pre, c, n - 1);
      SurvivingStep(pre, n - 1);
      SurvivingStep(pre + [c], n - 1);
      if pre[n - 1].AddDoneCallback? {
        RemovedAfter(pre, c, n - 1);
        RequestedAfter(pre, c, n - 1);
        if c.RemoveDoneCallback? { OthersSnoc(Surviving(pre, n - 1), Requested(pre, n - 1), c.fn); }
      }
    }
  }

  /** Nothing is scheduled before the future is done, and nothing is pending afterwards. */
  predicate Tidy(s: State)
  {
    if Done(s) then s.callbacks == [] else s.scheduled == []
  }

  /** Scheduled callbacks followed by pending ones, after one call. */
  lemma CallOnCallbacks(c: Call, s: State)
    requires Tidy(s)
    ensures var t := Apply(c, s).after;
            && Tidy(t)
            && t.scheduled + t.callbacks ==
               if c.AddDoneCallback? then s.scheduled + s.callbacks + [EntryFor(s, c)]
               else if c.RemoveDoneCallback? && !Done(s) then Others(s.scheduled + s.callbacks, c.fn)
               else s.scheduled + s.callbacks
  {
    assert s.scheduled + s.callbacks == if Done(s) then s.scheduled else s.callbacks;
  }

  lemma InitialTidy()
    ensures Tidy(INITIAL_STATE) && INITIAL_STATE.scheduled + INITIAL_STATE.callbacks == []
  {
  }

  lemma NotYetRemoved(cs: seq<Call>)
    requires cs != [] && cs[|cs| - 1].AddDoneCallback?
    ensures !Removed(cs, |cs| - 1)
  {
  }

  lemma EntryIsRequested(cs: seq<Call>)
    requires cs != [] && cs[|cs| - 1].AddDoneCallback?
    ensures EntryFor(Run(cs[..|cs| - 1]), cs[|cs| - 1]) == Requested(cs, |cs| - 1)
  {
    hide Run;
  }

  /** The main result on callbacks: what has been scheduled, followed by what is pending, is exactly
      the sequence of surviving callbacks. */
  lemma {:induction false} EachSurvivorOnceInOrder(cs: seq<Call>)
    ensures Run(cs).scheduled + Run(cs).callbacks == Surviving(cs, |cs|)
    ensures Tidy(Run(cs))
    decreases |cs|
  {
    hide Apply, Tidy, Removed, EntryFor, Requested, Others, Done, INITIAL_STATE;
    if cs == [] {
      InitialTidy();
    } else {
      var pre, c := cs[..|cs| - 1], cs[|cs| - 1];
      EachSurvivorOnceInOrder(pre);
      assert cs == pre + [c] && cs[..|pre|] == pre;
      SurvivingAfter(pre, c, |pre|);
      CallOnCallbacks(c, Run(pre));
      if c.AddDoneCallback? {
        NotYetRemoved(cs);
        EntryIsRequested(cs);
      }
    }
  }

  // ---------------------------------------------------------------- conservation and the log flag

  function Additions(cs: seq<Call>): nat
  {
    if cs == [] then 0
    else Additions(cs[..|cs| - 1]) + if cs[|cs| - 1].AddDoneCallback? then 1 else 0
  }

  /** Sum of the numbers returned by remove_done_callback. */
  function Removals(cs: seq<Call>): nat
  {
    if cs == [] then 0
    else
      var reply := Apply(cs[|cs| - 1], Run(cs[..|cs| - 1])).reply;
      Removals(cs[..|cs| - 1]) + if reply.Number? then reply.n else 0
  }

  lemma CallConserves(c: Call, s: State)
    ensures var o := Apply(c, s);
            |o.after.callbacks| + |o.after.scheduled| + (if o.reply.Number? then o.reply.n else 0) ==
            |s.callbacks| + |s.scheduled| + if c.AddDoneCallback? then 1 else 0
  {
  }

  lemma {:induction false} CallbacksConserved(cs: seq<Call>)
    ensures Additions(cs) == |Run(cs).callbacks| + |Run(cs).scheduled| + Removals(cs)
    decreases |cs|
  {
    hide Apply;
    if cs != [] {
      CallbacksConserved(cs[..|cs| - 1]);
      CallConserves(cs[|cs| - 1], Run(cs[..|cs| - 1]));
    }
  }

  predicate Retrieves(c: Call) { c.Cancel? || c.GetResult? || c.GetException? }

  /** Call `k` was a set_exception that returned (with None it stores nothing), and nobody has asked for
      the outcome or tried to cancel since. */
  ghost predicate Unretrieved(cs: seq<Call>, k: nat)
  {
    && k < |cs| && cs[k].SetException? && Settles(Run(cs[..k]), cs[k])
    && forall r :: k < r < |cs| ==> !Retrieves(cs[r])
  }

  /** One call on the flag. */
  lemma FlagAfter(c: Call, s: State)
    requires s.logTraceback ==> s.status == Finished
    ensures Apply(c, s).after.logTraceback <==>
            (s.logTraceback && !Retrieves(c)) || (c.SetException? && Settles(s, c))
    ensures Apply(c, s).after.logTraceback ==> Apply(c, s).after.status == Finished
  {
  }

  lemma UnretrievedAfter(pre: seq<Call>, c: Call, k: nat)
    ensures Unretrieved(pre + [c], k) <==>
            || (Unretrieved(pre, k) && !Retrieves(c))
            || (k == |pre| && c.SetException? && Settles(Run(pre), c))
  {
    hide Settles, Run;
    var cs := pre + [c];
    if k < |pre| {
      assert cs[..k] == pre[..k] && cs[k] == pre[k];
      if Unretrieved(pre, k) && !Retrieves(c) {
        forall r | k < r < |cs| ensures !Retrieves(cs[r]) { assert r < |pre| ==> cs[r] == pre[r]; }
      }
      if Unretrieved(cs, k) {
        assert cs[|pre|] == c;
        forall r | k < r < |pre| ensures !Retrieves(pre[r]) { assert cs[r] == pre[r]; }
      }
    } else if k == |pre| {
      assert cs[..k] == pre;
    }
  }

  lemma NothingUnretrieved()
    ensures forall k: nat :: !Unretrieved([], k)
  {
  }

  /** The "exception was never retrieved" flag is up exactly in that case. */
  lemma {:induction false} LogFlagMeansUnretrieved(cs: seq<Call>)
    ensures Run(cs).logTraceback <==> exists k: nat :: Unretrieved(cs, k)
    ensures Run(cs).logTraceback ==> Run(cs).status == Finished
    decreases |cs|
  {
    hide Apply, Settles, Unretrieved;
    if cs == [] {
      NothingUnretrieved();
    } else {
      var pre, c := cs[..|cs| - 1], cs[|cs| - 1];
      assert cs == pre + [c];
      LogFlagMeansUnretrieved(pre);
      FlagAfter(c, Run(pre));
      if Run(pre).logTraceback {
        var k: nat :| Unretrieved(pre, k);
        UnretrievedAfter(pre, c, k);
      }
      UnretrievedAfter(pre, c, |pre|);
      if k: nat :| Unretrieved(cs, k) { UnretrievedAfter(pre, c, k); }
    }
  }
}
