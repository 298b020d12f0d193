/** WithTimeout/TaskEx.cs: a task raced against a delay. The race is an
    ordered trace of events: the task finishing with some state, or the delay
    firing. A guard is the completion source handed back to the caller and
    whether some continuation has read the task's outcome (so that a later
    failure is observed rather than left to the unobserved-exception
    handler). */
module Timeout {
  import opened Tasks
  import opened CompletionSource

  datatype Event<T> = TaskDone(state: TaskState<T>) | DelayFired

  datatype Guard<T> = Guard(handle: Cell<T>, observed: bool)

  /** A task is reported done only once it has finished. */
  ghost predicate WellFormed<T>(trace: seq<Event<T>>) {
    forall i :: 0 <= i < |trace| ==> (trace[i].TaskDone? ==> trace[i].state.IsTerminal())
  }

  /** The two continuations of WithTimeout: the one on the task rebroadcasts
      its outcome with FromTask, which reads it; the one on the delay tries
      to cancel. Both write through TrySet. */
  function Step<T, U>(g: Guard<U>, e: Event<T>, resultSelector: T -> U): (r: Guard<U>)
    requires e.TaskDone? ==> e.state.IsTerminal()
    ensures r.handle.Some?
    ensures g.handle.Some? ==> r.handle == g.handle
    ensures e.TaskDone? ==> r.observed
    ensures e.TaskDone? && g.handle.None? ==> r.handle == FromTaskWith(None, e.state, resultSelector).cell
    ensures e.DelayFired? ==> r.observed == g.observed
    ensures e.DelayFired? && g.handle.None? ==> r.handle == Some(Cancelled)
  {
    match e
    case TaskDone(state) => Guard(FromTaskWith(g.handle, state, resultSelector).cell, true)
    case DelayFired => Guard(TrySet(g.handle, Cancelled), g.observed)
  }

  /** The guard after the events of a trace, starting from g. */
  function RunFrom<T, U>(g: Guard<U>, trace: seq<Event<T>>, resultSelector: T -> U): Guard<U>
    requires WellFormed(trace)
    decreases |trace|
  {
    if trace == [] then g else RunFrom(Step(g, trace[0], resultSelector), trace[1..], resultSelector)
  }

  /** `task.WithTimeout(timeout)` after the events of `trace`: the first
      event decides the handle, and the task is read once it finishes,
      whichever event came first. */
  function WithTimeout<T>(trace: seq<Event<T>>): (g: Guard<T>)
    requires WellFormed(trace)
    ensures trace == [] ==> g == Guard(None, false)
    ensures trace != [] && trace[0].TaskDone? ==> g.handle == FromTask(None, trace[0].state).cell
    ensures trace != [] && trace[0].DelayFired? ==> g.handle == Some(Cancelled)
    ensures g.observed <==> exists i :: 0 <= i < |trace| && trace[i].TaskDone?
  {
    FirstEventDecides(trace, Identity);
    RunFrom(Guard(None, false), trace, Identity)
  }

  /** The non-generic `task.WithTimeout(timeout)`: its task continuation
      calls the TaskCompletionSource<object> overload of FromTask, which is
      the mapping with a selector answering null. */
  function WithTimeoutUntyped<T>(trace: seq<Event<T>>): (g: Guard<Obj>)
    requires WellFormed(trace)
    ensures trace == [] ==> g == Guard(None, false)
    ensures trace != [] && trace[0].TaskDone? ==> g.handle == FromTaskUntyped(None, trace[0].state).cell
    ensures trace != [] && trace[0].DelayFired? ==> g.handle == Some(Cancelled)
    ensures g.observed <==> exists i :: 0 <= i < |trace| && trace[i].TaskDone?
  {
    FirstEventDecides(trace, AsNull);
    RunFrom(Guard(None, false), trace, AsNull)
  }

  /** A race started with an empty guard: the first event alone decides the
      handle, and the task is read exactly when its event occurs. */
  lemma FirstEventDecides<T, U>(trace: seq<Event<T>>, resultSelector: T -> U)
    requires WellFormed(trace)
    ensures var g := RunFrom(Guard(None, false), trace, resultSelector);
            && (trace == [] ==> g == Guard(None, false))
            && (trace != [] && trace[0].TaskDone? ==> g.handle == FromTaskWith(None, trace[0].state, resultSelector).cell)
            && (trace != [] && trace[0].DelayFired? ==> g.handle == Some(Cancelled))
            && (g.observed <==> exists i :: 0 <= i < |trace| && trace[i].TaskDone?)
  {
    AlwaysObserved(Guard(None, false), trace, resultSelector);
    if trace != [] {
      if trace[0].TaskDone? {
        TaskWinsRace(trace, resultSelector);
      } else {
        TimeoutWinsRace(trace, resultSelector);
      }
    }
  }

  /** First writer wins: once the handle is set, no later event changes it. */
  lemma {:induction false} SettledHandleStays<T, U>(g: Guard<U>, trace: seq<Event<T>>, resultSelector: T -> U)
    requires WellFormed(trace) && g.handle.Some?
    ensures RunFrom(g, trace, resultSelector).handle == g.handle
    decreases |trace|
  {
    if trace != [] {
      SettledHandleStays(Step(g, trace[0], resultSelector), trace[1..], resultSelector);
    }
  }

  /** If the task finishes before the delay fires, the handle carries the
      task's outcome through the FromTask mapping. */
  lemma TaskWinsRace<T, U>(trace: seq<Event<T>>, resultSelector: T -> U)
    requires WellFormed(trace) && |trace| > 0 && trace[0].TaskDone?
    ensures RunFrom(Guard(None, false), trace, resultSelector).handle
         == FromTaskWith(None, trace[0].state, resultSelector).cell
  {
    SettledHandleStays(Step(Guard(None, false), trace[0], resultSelector), trace[1..], resultSelector);
  }

  /** If the delay fires first, the handle is cancelled, whatever the task
      does afterwards. */
  lemma TimeoutWinsRace<T, U>(trace: seq<Event<T>>, resultSelector: T -> U)
    requires WellFormed(trace) && |trace| > 0 && trace[0].DelayFired?
    ensures RunFrom(Guard(None, false), trace, resultSelector).handle == Some(Cancelled)
  {
    SettledHandleStays(Step(Guard(None, false), trace[0], resultSelector), trace[1..], resultSelector);
  }

  /** The task's outcome is read exactly when the task has finished: its
      continuation is attached whether or not the timeout wins. */
  lemma {:induction false} AlwaysObserved<T, U>(g: Guard<U>, trace: seq<Event<T>>, resultSelector: T -> U)
    requires WellFormed(trace)
    ensures RunFrom(g, trace, resultSelector).observed
        <==> g.observed || exists i :: 0 <= i < |trace| && trace[i].TaskDone?
    decreases |trace|
  {
    if trace != [] {
      AlwaysObserved(Step(g, trace[0], resultSelector), trace[1..], resultSelector);
      assert forall i :: 1 <= i < |trace| ==> trace[i] == trace[1..][i - 1];
    }
  }

  /** The non-generic guard resolves with null when the task succeeds first. */
  lemma UntypedTaskWinsWithNull<T>(v: T, rest: seq<Event<T>>)
    requires WellFormed([TaskDone(RanToCompletion(v))] + rest)
    ensures WithTimeoutUntyped([TaskDone(RanToCompletion(v))] + rest).handle == Some(Resolved(Null))
  {
    TaskWinsRace([TaskDone(RanToCompletion(v))] + rest, AsNull);
  }

  /** The sample's failing task (it throws after 500 ms) guarded by a 100 ms
      timeout through the non-generic overload: awaiting the guard throws
      TaskCanceledException, and the later failure is still read by the
      guard's continuation. */
  lemma FailingTaskAfterTimeout(e: Exn)
    ensures var g := WithTimeoutUntyped<()>([DelayFired, TaskDone(Faulted(e, []))]);
            && g.handle == Some(Cancelled)
            && Await(Handle(g.handle)) == Throws(TaskCanceled)
            && g.observed
  {
    var trace: seq<Event<()>> := [DelayFired, TaskDone(Faulted(e, []))];
    TimeoutWinsRace(trace, AsNull);
    AlwaysObserved(Guard(None, false), trace, AsNull);
    assert trace[1].TaskDone?;
  }

  /** The objects line 56 of WithTimeoutNaive can compare: the guarded task,
      the delay, and the task returned by Task.WhenAny. */
  datatype Ref = TaskRef | DelayRef | WhenAnyRef

  /** The task WhenAny reports as finished first (`t.Result`). */
  function Winner<T>(first: Event<T>): (w: Ref)
    ensures w == TaskRef <==> first.TaskDone?
  {
    if first.TaskDone? then TaskRef else DelayRef
  }

  /** The guarded task's state when the WhenAny continuation runs. */
  function StateAt<T>(first: Event<T>): (s: TaskState<T>)
    ensures first.DelayFired? ==> s.Pending?
  {
    match first
    case TaskDone(state) => state
    case DelayFired => Pending(WaitingForActivation)
  }

  /** The single continuation of WithTimeoutNaive, run when the first event
      arrives, given the object `t` it compares with `task`. When the
      comparison holds it calls FromTask on the task (whose exception, if
      thrown, leaves the handle unset); otherwise it cancels. Nothing else
      ever reads the task. */
  function NaiveContinuation<T>(first: Event<T>, t: Ref): (g: Guard<Obj>)
    ensures t != TaskRef ==> g == Guard(Some(Cancelled), false)
    ensures t == TaskRef && first.TaskDone? ==> g.observed
  {
    if t == TaskRef then
      var transfer := FromTaskUntyped(None, StateAt(first));
      Guard(transfer.cell, first.TaskDone?)
    else
      Guard(TrySet(None, Cancelled), false)
  }

  /** `task.WithTimeoutNaive(timeout)` as written: line 56 compares `t`, the
      task WhenAny returned, with `task`. That comparison never holds, so
      the guard cancels whatever happens first and never reads the task.
      Events after the first reach no continuation. */
  function WithTimeoutNaive<T>(trace: seq<Event<T>>): (g: Guard<Obj>)
    ensures trace == [] ==> g.handle.None?
    ensures trace != [] ==> g == Guard(Some(Cancelled), false)
  {
    if trace == [] then Guard(None, false) else NaiveContinuation(trace[0], WhenAnyRef)
  }

  /** WithTimeoutNaive with line 56 comparing `t.Result`, the winner: a task
      finishing first is rebroadcast and read, a delay firing first cancels
      without reading the task. */
  function WithTimeoutNaiveCorrected<T>(trace: seq<Event<T>>): (g: Guard<Obj>)
    ensures trace == [] ==> g.handle.None?
    ensures trace != [] && trace[0].TaskDone? ==>
              g.observed && g.handle == FromTaskUntyped(None, trace[0].state).cell
    ensures trace != [] && trace[0].DelayFired? ==> g == Guard(Some(Cancelled), false)
  {
    if trace == [] then Guard(None, false) else NaiveContinuation(trace[0], Winner(trace[0]))
  }

  /** A task that succeeds well before the timeout still yields a cancelled
      naive guard, while WithTimeout resolves. */
  lemma NaiveCancelsEarlySuccess(v: Obj)
    ensures WithTimeoutNaive([TaskDone(RanToCompletion(v))]).handle == Some(Cancelled)
    ensures WithTimeoutUntyped([TaskDone(RanToCompletion(v))]).handle == Some(Resolved(Null))
  {
    UntypedTaskWinsWithNull(v, []);
    assert [TaskDone(RanToCompletion(v))] + [] == [TaskDone(RanToCompletion(v))];
  }

  /** Corrected naive guard: a task finishing first is rebroadcast (and read)
      exactly as by WithTimeout. */
  lemma NaiveCorrectedTaskWins<T>(trace: seq<Event<T>>)
    requires WellFormed(trace) && |trace| > 0 && trace[0].TaskDone?
    ensures WithTimeoutNaiveCorrected(trace).handle == WithTimeoutUntyped(trace).handle
    ensures WithTimeoutNaiveCorrected(trace).observed
  {
    TaskWinsRace(trace, AsNull);
    UntypedIsConstantSelector(None, trace[0].state);
  }

  /** Corrected naive guard: a delay firing first cancels, and the task's
      later failure is never read, unlike with WithTimeout. */
  lemma NaiveCorrectedLosesLateFailure(e: Exn)
    ensures var trace: seq<Event<Obj>> := [DelayFired, TaskDone(Faulted(e, []))];
            && WithTimeoutNaiveCorrected(trace) == Guard(Some(Cancelled), false)
            && WithTimeoutUntyped(trace).observed
  {
    var trace: seq<Event<Obj>> := [DelayFired, TaskDone(Faulted(e, []))];
    AlwaysObserved(Guard(None, false), trace, AsNull);
    assert trace[1].TaskDone?;
  }
}
