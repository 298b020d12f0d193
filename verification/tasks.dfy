/** Values shared by every combinator: exceptions, task statuses, outcomes and
    the single-assignment cell behind a TaskCompletionSource. */
module Tasks {

  datatype Option<+T> = None | Some(value: T)

  /** The non-terminal values of .NET's TaskStatus. */
  datatype Phase =
    | Created
    | WaitingForActivation
    | WaitingToRun
    | Running
    | WaitingForChildrenToComplete

  /** Exceptions, up to identity. `Error` stands for any exception raised by
      user code; the other three are the ones the library itself produces. */
  datatype Exn =
    | Error(id: nat)
    | TaskCanceled
    | InvalidOperation(status: Phase)
    | Aggregate(inner: seq<Exn>)

  /** The observable state of a task. A faulted task holds an
      AggregateException, which always has at least one inner exception:
      `first` followed by `rest`. */
  datatype TaskState<+T> =
    | Pending(phase: Phase)
    | RanToCompletion(result: T)
    | Canceled
    | Faulted(first: Exn, rest: seq<Exn>)
  {
    predicate IsTerminal() {
      !Pending?
    }

    /** `task.Exception.InnerExceptions` */
    function InnerExceptions(): seq<Exn>
      requires Faulted?
    {
      [first] + rest
    }
  }

  /** What a completion source can be set to: TrySetResult, TrySetException
      and TrySetCanceled respectively. */
  datatype Outcome<+T> = Resolved(value: T) | Failed(error: Exn) | Cancelled

  /** A TaskCompletionSource: empty until its first successful TrySet. */
  type Cell<T> = Option<Outcome<T>>

  /** The `object` a non-generic TaskCompletionSource<object> carries. */
  datatype Obj = Null | Ref(id: nat)

  /** `tcs.Task`: the task view of a completion source. A pending source's
      task waits for activation; an exception set through TrySetException is
      wrapped in an aggregate of exactly one. */
  function Handle<T>(c: Cell<T>): (t: TaskState<T>)
    ensures t.IsTerminal() <==> c.Some?
    ensures c == Some(Cancelled) <==> t == Canceled
    ensures t.RanToCompletion? <==> c.Some? && c.value.Resolved?
    ensures t.RanToCompletion? ==> t.result == c.value.value
    ensures t.Faulted? <==> c.Some? && c.value.Failed?
    ensures t.Faulted? ==> t.first == c.value.error && t.rest == []
  {
    match c
    case None => Pending(WaitingForActivation)
    case Some(Resolved(v)) => RanToCompletion(v)
    case Some(Failed(e)) => Faulted(e, [])
    case Some(Cancelled) => Canceled
  }

  /** Reading a finished task: its value, or the exception thrown. */
  datatype Read<T> = Value(value: T) | Throws(error: Exn)

  /** `task.Result` on a finished task: a faulted or cancelled task throws an
      AggregateException, holding the inner exceptions or a
      TaskCanceledException respectively. */
  function ReadResult<T>(task: TaskState<T>): (r: Read<T>)
    requires task.IsTerminal()
    ensures r.Value? <==> task.RanToCompletion?
    ensures r.Value? ==> r.value == task.result
    ensures task.Faulted? ==> r == Throws(Aggregate(task.InnerExceptions()))
    ensures task.Canceled? ==> r == Throws(Aggregate([TaskCanceled]))
  {
    match task
    case RanToCompletion(v) => Value(v)
    case Faulted(first, rest) => Throws(Aggregate([first] + rest))
    case Canceled => Throws(Aggregate([TaskCanceled]))
  }

  /** `await task` on a finished task: a faulted task rethrows its first
      inner exception, a cancelled one a TaskCanceledException. */
  function Await<T>(task: TaskState<T>): (r: Read<T>)
    requires task.IsTerminal()
    ensures r.Value? <==> task.RanToCompletion?
    ensures r.Value? ==> r.value == task.result
    ensures task.Faulted? ==> r == Throws(task.InnerExceptions()[0])
    ensures task.Canceled? ==> r == Throws(TaskCanceled)
  {
    match task
    case RanToCompletion(v) => Value(v)
    case Faulted(first, _) => Throws(first)
    case Canceled => Throws(TaskCanceled)
  }

  /** A task together with its rank: its position in the order in which
      `Task.WhenAny` reports tasks, as supplied by the scheduler. Among the
      tasks still raced, the one with the smallest rank is reported first.
      This is the finishing order as long as no two raced tasks have both
      already finished when a race begins; otherwise WhenAny reports the one
      earlier in its list, and the ranks follow that choice. */
  datatype Task<+T> = Task(rank: nat, state: TaskState<T>)

  /** No two tasks share a rank. */
  ghost predicate DistinctRanks<T>(tasks: seq<Task<T>>) {
    forall i, j :: 0 <= i < |tasks| && 0 <= j < |tasks| && i != j ==> tasks[i].rank != tasks[j].rank
  }

  /** Every task eventually finishes. */
  ghost predicate AllTerminal<T>(tasks: seq<Task<T>>) {
    forall i :: 0 <= i < |tasks| ==> tasks[i].state.IsTerminal()
  }

  /** The indices 0, 1, ..., n-1 in order. */
  function Iota(n: nat): (r: seq<nat>)
    ensures |r| == n
    ensures forall i :: 0 <= i < n ==> r[i] == i
  {
    seq(n, i => i)
  }
}
