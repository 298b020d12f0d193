/** The single-assignment completion source and the status-to-outcome
    mapping that every combinator reuses (TaskCompletionSourceEx.FromTask). */
module CompletionSource {
  import opened Tasks

  /** TrySetResult / TrySetException / TrySetCanceled: the first write wins. */
  function TrySet<T>(c: Cell<T>, o: Outcome<T>): (r: Cell<T>)
    ensures r.Some?
    ensures c.Some? ==> r == c
    ensures c.None? ==> r == Some(o)
  {
    if c.Some? then c else Some(o)
  }

  /** A sequence of writes applied one after another. */
  function TrySetAll<T>(c: Cell<T>, writes: seq<Outcome<T>>): Cell<T>
    decreases |writes|
  {
    if writes == [] then c else TrySetAll(TrySet(c, writes[0]), writes[1..])
  }

  /** However many writers race, the cell ends up holding what it held
      before, or else the very first write. */
  lemma {:induction false} FirstWriterWins<T>(c: Cell<T>, writes: seq<Outcome<T>>)
    ensures c.Some? ==> TrySetAll(c, writes) == c
    ensures c.None? && writes != [] ==> TrySetAll(c, writes) == Some(writes[0])
    ensures c.None? && writes == [] ==> TrySetAll(c, writes) == None
    decreases |writes|
  {
    if writes != [] {
      FirstWriterWins(TrySet(c, writes[0]), writes[1..]);
    }
  }

  /** The exception a faulted task is rebroadcast with: the only inner
      exception when there is exactly one, the whole aggregate otherwise. */
  function TargetException<T>(task: TaskState<T>): (e: Exn)
    requires task.Faulted?
    ensures |task.InnerExceptions()| == 1 ==> e == task.first
    ensures |task.InnerExceptions()| != 1 ==> e == Aggregate(task.InnerExceptions())
  {
    var inner := task.InnerExceptions();
    if |inner| == 1 then inner[0] else Aggregate(inner)
  }

  /** The outcome a terminal task maps onto; None for a task still running. */
  function OutcomeOf<T, U>(task: TaskState<T>, resultSelector: T -> U): (o: Option<Outcome<U>>)
    ensures o.None? <==> task.Pending?
  {
    match task
    case Pending(_) => None
    case Faulted(_, _) => Some(Failed(TargetException(task)))
    case Canceled => Some(Cancelled)
    case RanToCompletion(v) => Some(Resolved(resultSelector(v)))
  }

  /** The cell after a FromTask call, and the exception the call threw. */
  datatype Transfer<T> = Transfer(cell: Cell<T>, thrown: Option<Exn>)

  /** `tcs.FromTask(task, resultSelector)`. */
  function FromTaskWith<T, U>(c: Cell<U>, task: TaskState<T>, resultSelector: T -> U): (r: Transfer<U>)
    ensures r.thrown.Some? <==> task.Pending?
    ensures task.Pending? ==> r.cell == c && r.thrown == Some(InvalidOperation(task.phase))
    ensures c.Some? ==> r.cell == c
    ensures c.None? && task.Faulted? && task.rest == [] ==> r.cell == Some(Failed(task.first))
    ensures c.None? && task.Faulted? && task.rest != [] ==>
              r.cell == Some(Failed(Aggregate([task.first] + task.rest)))
    ensures c.None? && task.Canceled? ==> r.cell == Some(Cancelled)
    ensures c.None? && task.RanToCompletion? ==> r.cell == Some(Resolved(resultSelector(task.result)))
  {
    match OutcomeOf(task, resultSelector)
    case None => Transfer(c, Some(InvalidOperation(task.phase)))
    case Some(o) => Transfer(TrySet(c, o), None)
  }

  /** The selector of the generic overload: the task's own result. */
  function Identity<T>(x: T): T {
    x
  }

  /** The selector the non-generic overload behaves as: always null. */
  function AsNull<T>(x: T): Obj {
    Null
  }

  /** `tcs.FromTask(task)`: the selector reads the task's own result. */
  function FromTask<T>(c: Cell<T>, task: TaskState<T>): (r: Transfer<T>)
    ensures r == FromTaskWith(c, task, Identity)
    ensures c.None? && task.RanToCompletion? ==> r.cell == Some(Resolved(task.result))
  {
    FromTaskWith(c, task, Identity)
  }

  /** The non-generic `tcs.FromTask(task)` on a TaskCompletionSource<object>:
      a successful task resolves the cell with null, whatever it returned. */
  function FromTaskUntyped<T>(c: Cell<Obj>, task: TaskState<T>): (r: Transfer<Obj>)
    ensures r.thrown.Some? <==> task.Pending?
    ensures task.Pending? ==> r.cell == c && r.thrown == Some(InvalidOperation(task.phase))
    ensures c.Some? ==> r.cell == c
    ensures c.None? && task.Faulted? && task.rest == [] ==> r.cell == Some(Failed(task.first))
    ensures c.None? && task.Faulted? && task.rest != [] ==>
              r.cell == Some(Failed(Aggregate([task.first] + task.rest)))
    ensures c.None? && task.Canceled? ==> r.cell == Some(Cancelled)
    ensures c.None? && task.RanToCompletion? ==> r.cell == Some(Resolved(Null))
  {
    match task
    case Faulted(_, _) => Transfer(TrySet(c, Failed(TargetException(task))), None)
    case Canceled => Transfer(TrySet(c, Cancelled), None)
    case RanToCompletion(_) => Transfer(TrySet(c, Resolved(Null)), None)
    case Pending(phase) => Transfer(c, Some(InvalidOperation(phase)))
  }

  /** The non-generic overload is the generic mapping with a selector that
      always answers null. */
  lemma UntypedIsConstantSelector<T>(c: Cell<Obj>, task: TaskState<T>)
    ensures FromTaskUntyped(c, task) == FromTaskWith(c, task, AsNull)
  {
  }

  /** One call changes the cell at most once: it either leaves it as it was
      or fills a cell that was empty. */
  lemma AtMostOneChange<T, U>(c: Cell<U>, task: TaskState<T>, resultSelector: T -> U)
    ensures var r := FromTaskWith(c, task, resultSelector);
            r.cell == c || (c.None? && r.cell.Some? && r.thrown.None?)
  {
  }

  /** The selector is consulted only for a successful task: for any other
      status the result does not depend on it. */
  lemma SelectorOnlyOnSuccess<T, U>(c: Cell<U>, task: TaskState<T>, f: T -> U, g: T -> U)
    requires !task.RanToCompletion?
    ensures FromTaskWith(c, task, f) == FromTaskWith(c, task, g)
  {
  }

  /** Rebroadcasting a settled completion source onto a fresh one copies its
      outcome exactly: an exception set on the first comes back unwrapped. */
  lemma RebroadcastRoundTrip<T>(o: Outcome<T>)
    ensures FromTask(None, Handle(Some(o))).cell == Some(o)
    ensures FromTask(None, Handle(Some(o))).thrown.None?
  {
  }

  /** A selector applied after rebroadcasting is the same as one applied to
      the original task: chained FromTask calls compose. */
  lemma RebroadcastComposes<T, U>(task: TaskState<T>, f: T -> U)
    requires task.IsTerminal()
    ensures FromTask(None, Handle(FromTaskWith(None, task, f).cell)).cell == FromTaskWith(None, task, f).cell
  {
  }
}
