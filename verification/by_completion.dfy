/** ProcessTasksByCompletion.TaskEx: a task sequence turned into a sequence of
    handles that finish in the order WhenAny reports the tasks. The scheduler
    is the tasks' ranks; the lazy iterator is driven by a consumer that awaits
    each handle before asking for the next, so one loop iteration creates a
    fresh completion source, lets the race of the remaining tasks settle it,
    and yields it. */
module ByCompletion {
  import opened Tasks
  import opened CompletionSource
  import opened WorkList

  /** `TaskEx.FromTask(result, taskSelector)`: the selector is applied once;
      the returned handle finishes when the selected task does, carrying
      `result` on success and the task's own failure or cancellation
      otherwise. While the selected task runs, the handle is pending. */
  function FromResult<R, V>(result: R, taskSelector: R -> Task<V>): (h: Task<R>)
    ensures var inner := taskSelector(result);
            && h.rank == inner.rank
            && (h.state.Pending? <==> inner.state.Pending?)
            && (h.state.RanToCompletion? <==> inner.state.RanToCompletion?)
            && (h.state.RanToCompletion? ==> h.state.result == result)
            && (h.state.Canceled? <==> inner.state.Canceled?)
            && (h.state.Faulted? <==> inner.state.Faulted?)
            && (inner.state.Faulted? && inner.state.rest == [] ==> h.state == Faulted(inner.state.first, []))
            && (inner.state.Faulted? && inner.state.rest != [] ==>
                  h.state == Faulted(Aggregate(inner.state.InnerExceptions()), []))
  {
    var task := taskSelector(result);
    var tcs: Cell<R> := None;
    // the continuation runs only once the selected task has finished
    var settled := if task.state.IsTerminal() then FromTaskWith(tcs, task.state, (_: V) => result).cell else tcs;
    Task(task.rank, Handle(settled))
  }

  /** The outcome a fresh completion source receives from each task, in
      source order. */
  function Rebroadcasts<T, U>(tasks: seq<Task<T>>, resultSelector: T -> U): (r: seq<Cell<U>>)
    ensures |r| == |tasks|
    ensures forall j :: 0 <= j < |tasks| ==> r[j] == FromTaskWith(None, tasks[j].state, resultSelector).cell
  {
    seq(|tasks|, j requires 0 <= j < |tasks| => FromTaskWith(None, tasks[j].state, resultSelector).cell)
  }

  /** `order` lists every task exactly once. */
  ghost predicate IsPermutation<T>(tasks: seq<Task<T>>, order: seq<nat>) {
    multiset(order) == multiset(Iota(|tasks|))
  }

  /** The iterator behind both OrderByCompletion overloads: the k-th handle
      receives, through `resultSelector`, the outcome of the k-th task
      WhenAny reports. `order` records which task that was. */
  method OrderByCompletionWith<T, U>(tasks: seq<Task<T>>, resultSelector: T -> U)
    returns (handles: seq<Cell<U>>, order: seq<nat>)
    requires DistinctRanks(tasks) && AllTerminal(tasks)
    ensures |handles| == |tasks| && |order| == |tasks|
    ensures Below(order, |tasks|) && IsPermutation(tasks, order)
    ensures ByRank(tasks, order)
    ensures handles == Pick(Rebroadcasts(tasks, resultSelector), order)
    ensures forall k :: 0 <= k < |handles| ==> handles[k].Some?
    ensures multiset(handles) == multiset(Rebroadcasts(tasks, resultSelector))
  {
    var work := Iota(|tasks|);
    handles, order := [], [];
    ProgressStart(tasks);
    while |work| != 0
      invariant Progress(tasks, order, work)
      invariant handles == Pick(Rebroadcasts(tasks, resultSelector), order)
      decreases |work|
    {
      var handle, finished;
      handle, finished, work := NextCompletion(tasks, resultSelector, order, work);
      PickAppend(Rebroadcasts(tasks, resultSelector), order, finished);
      handles := handles + [handle];
      order := order + [finished];
    }
    PickPermutation(Rebroadcasts(tasks, resultSelector), order);
  }

  /** One iteration of the iterator: a fresh completion source receives the
      outcome of the task that wins the race of the work list, and that task
      leaves the list. */
  method NextCompletion<T, U>(tasks: seq<Task<T>>, resultSelector: T -> U, order: seq<nat>, work: seq<nat>)
    returns (handle: Cell<U>, finished: nat, work': seq<nat>)
    requires DistinctRanks(tasks) && Progress(tasks, order, work) && |work| > 0
    ensures Progress(tasks, order + [finished], work') && |work'| == |work| - 1
    ensures finished < |tasks| && handle == FromTaskWith(None, tasks[finished].state, resultSelector).cell
  {
    var tcs: Cell<U> := None;
    finished := work[WhenAny(tasks, work)];
    ProgressStep(tasks, order, work);
    work' := Remove(work, finished);
    var transfer := FromTaskWith(tcs, tasks[finished].state, resultSelector);
    handle := transfer.cell;
  }

  /** `tasks.OrderByCompletion()`: the k-th handle carries the exact outcome
      of the k-th task WhenAny reports. */
  method OrderByCompletion<T>(tasks: seq<Task<T>>) returns (handles: seq<Cell<T>>, order: seq<nat>)
    requires DistinctRanks(tasks) && AllTerminal(tasks)
    ensures |handles| == |tasks| && |order| == |tasks|
    ensures Below(order, |tasks|) && IsPermutation(tasks, order)
    ensures ByRank(tasks, order)
    ensures forall k :: 0 <= k < |handles| ==> handles[k] == FromTask(None, tasks[order[k]].state).cell
    ensures forall k :: 0 <= k < |handles| ==> tasks[order[k]].state.RanToCompletion? ==>
              handles[k] == Some(Resolved(tasks[order[k]].state.result))
    ensures multiset(handles) == multiset(Rebroadcasts(tasks, Identity))
  {
    handles, order := OrderByCompletionWith(tasks, Identity);
  }

  /** The anonymous `{Element, Task}` pair of the element overload. */
  datatype Pair<E, V> = Pair(element: E, task: Task<V>)

  /** The task the selector starts for each element. */
  function Selected<E, V>(sequence: seq<E>, taskSelector: E -> Task<V>): (ts: seq<Task<V>>)
    ensures |ts| == |sequence|
    ensures forall i :: 0 <= i < |sequence| ==> ts[i] == taskSelector(sequence[i])
  {
    seq(|sequence|, i requires 0 <= i < |sequence| => taskSelector(sequence[i]))
  }

  /** All wrapped tasks, created before the first handle is asked for: one
      per element, each finishing with its pair when its task does. */
  function WrapAll<E, V>(sequence: seq<E>, taskSelector: E -> Task<V>): (ws: seq<Task<Pair<E, V>>>)
    ensures |ws| == |sequence|
    ensures forall i :: 0 <= i < |sequence| ==>
              ws[i] == FromResult(Pair(sequence[i], taskSelector(sequence[i])), (p: Pair<E, V>) => p.task)
  {
    seq(|sequence|, i requires 0 <= i < |sequence| =>
      FromResult(Pair(sequence[i], taskSelector(sequence[i])), (p: Pair<E, V>) => p.task))
  }

  /** Wrapping an element's task in a pair and unwrapping the element again
      gives the outcome the task itself would give with the element as its
      result. */
  lemma PairRoundTrip<E, V>(e: E, task: Task<V>)
    requires task.state.IsTerminal()
    ensures FromTaskWith(None, FromResult(Pair(e, task), (p: Pair<E, V>) => p.task).state, (p: Pair<E, V>) => p.element).cell
         == FromTaskWith(None, task.state, (_: V) => e).cell
  {
  }

  /** `sequence.OrderByCompletion(taskSelector)`: the k-th handle finishes
      with the element whose wrapped task WhenAny reports k-th, or with that
      task's failure or cancellation. */
  method OrderByCompletionOf<E, V>(sequence: seq<E>, taskSelector: E -> Task<V>)
    returns (handles: seq<Cell<E>>, order: seq<nat>)
    requires DistinctRanks(Selected(sequence, taskSelector)) && AllTerminal(Selected(sequence, taskSelector))
    ensures |handles| == |sequence| && |order| == |sequence|
    ensures Below(order, |Selected(sequence, taskSelector)|) && IsPermutation(Selected(sequence, taskSelector), order)
    ensures ByRank(Selected(sequence, taskSelector), order)
    ensures forall k :: 0 <= k < |handles| ==>
              handles[k] == FromTaskWith(None, taskSelector(sequence[order[k]]).state, (_: V) => sequence[order[k]]).cell
    ensures forall k :: 0 <= k < |handles| ==> taskSelector(sequence[order[k]]).state.RanToCompletion? ==>
              handles[k] == Some(Resolved(sequence[order[k]]))
  {
    var tasks := WrapAll(sequence, taskSelector);
    WrapAllRanks(sequence, taskSelector);
    handles, order := OrderByCompletionWith(tasks, (p: Pair<E, V>) => p.element);
    SameRanksByRank(tasks, Selected(sequence, taskSelector), order);
    forall k | 0 <= k < |handles|
      ensures handles[k] == FromTaskWith(None, taskSelector(sequence[order[k]]).state, (_: V) => sequence[order[k]]).cell
    {
      PairRoundTrip(sequence[order[k]], taskSelector(sequence[order[k]]));
    }
  }

  /** The wrapped tasks finish exactly when the selected tasks do. */
  lemma WrapAllRanks<E, V>(sequence: seq<E>, taskSelector: E -> Task<V>)
    ensures var ws := WrapAll(sequence, taskSelector);
            var ts := Selected(sequence, taskSelector);
            && (forall i :: 0 <= i < |ws| ==> ws[i].rank == ts[i].rank)
            && (AllTerminal(ts) ==> AllTerminal(ws))
            && (DistinctRanks(ts) ==> DistinctRanks(ws))
  {
  }

  /** Following the ranks of one task list is following the ranks of any
      list with the same ranks. */
  lemma SameRanksByRank<T, S>(a: seq<Task<T>>, b: seq<Task<S>>, order: seq<nat>)
    requires |a| == |b| && forall i :: 0 <= i < |a| ==> a[i].rank == b[i].rank
    requires Below(order, |a|)
    ensures Below(order, |b|)
    ensures ByRank(a, order) <==> ByRank(b, order)
  {
  }

  /** The completion order is determined by the ranks alone: two
      permutations that both follow the ranks are the same. */
  lemma {:induction false} CompletionOrderUnique<T>(tasks: seq<Task<T>>, a: seq<nat>, b: seq<nat>)
    requires DistinctRanks(tasks)
    requires Below(a, |tasks|) && Below(b, |tasks|)
    requires IsPermutation(tasks, a) && IsPermutation(tasks, b)
    requires ByRank(tasks, a) && ByRank(tasks, b)
    ensures a == b
  {
    assert |a| == |multiset(a)| == |multiset(b)| == |b|;
    forall k | 0 <= k < |a|
      ensures a[k] == b[k]
    {
      SamePrefix(tasks, a, b, k);
    }
  }

  /** Induction step of CompletionOrderUnique: positions 0..k agree. */
  lemma {:induction false} SamePrefix<T>(tasks: seq<Task<T>>, a: seq<nat>, b: seq<nat>, k: nat)
    requires DistinctRanks(tasks)
    requires Below(a, |tasks|) && Below(b, |tasks|) && |a| == |b|
    requires multiset(a) == multiset(b)
    requires ByRank(tasks, a) && ByRank(tasks, b)
    requires k < |a|
    ensures forall i :: 0 <= i <= k ==> a[i] == b[i]
    decreases k
  {
    if k > 0 {
      SamePrefix(tasks, a, b, k - 1);
    }
    RankNoLater(tasks, a, b, k);
    RankNoLater(tasks, b, a, k);
  }

  /** When two orders agree before position k, the task at k in a is ranked
      no later than the task at k in b. */
  lemma RankNoLater<T>(tasks: seq<Task<T>>, a: seq<nat>, b: seq<nat>, k: nat)
    requires Below(a, |tasks|) && Below(b, |tasks|) && |a| == |b|
    requires multiset(a) == multiset(b)
    requires ByRank(tasks, a) && ByRank(tasks, b)
    requires k < |a| && forall i :: 0 <= i < k ==> a[i] == b[i]
    ensures tasks[a[k]].rank <= tasks[b[k]].rank
  {
    assert b[k] in multiset(a);
    var m :| 0 <= m < |a| && a[m] == b[k];
    NotBefore(tasks, a, b, k, m);
    if m > k {
      assert tasks[a[k]].rank < tasks[a[m]].rank;
    }
  }

  /** The task at position k of b sits at position k or later in a. */
  lemma NotBefore<T>(tasks: seq<Task<T>>, a: seq<nat>, b: seq<nat>, k: nat, m: nat)
    requires Below(a, |tasks|) && Below(b, |tasks|) && |a| == |b|
    requires ByRank(tasks, b)
    requires k < |a| && forall i :: 0 <= i < k ==> a[i] == b[i]
    requires m < |a| && a[m] == b[k]
    ensures k <= m
  {
  }

  /** Three tasks taking 3, 1 and 2 seconds, given in that order, come out
      as the 1-second, the 2-second and then the 3-second task. */
  lemma ThreeOneTwo<T>(tasks: seq<Task<T>>, order: seq<nat>)
    requires |tasks| == 3 && tasks[0].rank == 3 && tasks[1].rank == 1 && tasks[2].rank == 2
    requires Below(order, |tasks|) && IsPermutation(tasks, order) && ByRank(tasks, order)
    ensures order == [1, 2, 0]
  {
    ThreeOneTwoFacts(tasks);
    CompletionOrderUnique(tasks, order, [1, 2, 0]);
  }

  /** For those three tasks, [1, 2, 0] lists every task once, in rank order. */
  lemma ThreeOneTwoFacts<T>(tasks: seq<Task<T>>)
    requires |tasks| == 3 && tasks[0].rank == 3 && tasks[1].rank == 1 && tasks[2].rank == 2
    ensures DistinctRanks(tasks)
    ensures Below([1, 2, 0], |tasks|) && IsPermutation(tasks, [1, 2, 0]) && ByRank(tasks, [1, 2, 0])
  {
    assert Iota(3) == [0, 1, 2];
  }
}
