# TPL tips and tricks, modelled in Dafny

The repository is a set of task combinators for the .NET Task Parallel
Library. Most of them route task outcomes through one deterministic
piece: a single-assignment completion source, that is, a
`TaskCompletionSource` filled by `TaskCompletionSourceEx.FromTask`, which
maps a finished task's status to an outcome. `ForEachAsyncWithExceptions`
is the exception: it collects the bodies' failures in a queue and throws
one AggregateException of its own. This project models the mapping and
each combinator. Each combinator becomes a sequential state machine once
the order in which tasks finish, or are reported by `Task.WhenAny`, is
given as an input.

- `Tasks` (tasks.dfy) holds the shared values:
  - task statuses (`TaskState`): a faulted task always holds at least one
    inner exception;
  - exceptions (`Exn`);
  - outcomes;
  - the completion-source cell `Cell<T> = Option<Outcome<T>>`;
  - `Handle`, the `tcs.Task` view of a cell;
  - `ReadResult` and `Await`, reading a finished task through `.Result` and
    `await`;
  - `Task`, a task together with its rank: its position in the order in
    which `Task.WhenAny` reports the tasks. Ranks are distinct.
- `CompletionSource` (completion_source.dfy) models the three `FromTask`
  overloads on top of `TrySet`, where the first write wins.
- `WorkList` (work_list.dfy) models `Task.WhenAny` as "the remaining task
  with the smallest rank" and `List.Remove` on lists of task indices. It
  also holds the permutation bookkeeping both removal loops share.
- `ByCompletion` (by_completion.dfy) models:
  - `TaskEx.FromTask(result, taskSelector)`;
  - both `OrderByCompletion` overloads. Each is driven by a consumer that
    awaits every yielded handle before asking for the next one.
- `Drain` (drain.dfy) models the two consumer loops of the sample:
  - the manual `WhenAny`/`Remove` drain (`ManualProcessByCompletion`);
  - the source-order loop (`ProcessOneByOneNaive`).
- `ForEach` (for_each.dfy) models:
  - `ForEachAsync`: the slot claimed through a shared counter;
  - `ForEachAsyncWithExceptions`: failures collected and aggregated.

  In both, the order in which items finish is a list of source indices.
- `Timeout` (timeout.dfy) models both `WithTimeout` overloads and
  `WithTimeoutNaive`:
  - a guard is the pair (handle, observed), driven by an ordered trace of
    `TaskDone(state)` and `DelayFired` events;
  - `observed` records whether a continuation has read the task's outcome.

## Model

| member | source | states |
|---|---|---|
| Tasks.Handle | src/TplTipsAndTricks/ProcessTasksByCompletion/TaskEx.cs:16-24 | The task of a completion source is pending exactly while the source is empty. A source set to cancelled gives a cancelled task, and a result gives a successful task with that value. An exception gives a faulted task whose aggregate holds exactly that one exception. |
| CompletionSource.TrySet | src/TplTipsAndTricks/ProcessTasksByCompletion/TaskCompletionSourceEx.cs:24-32 | A write fills an empty source with the written outcome. It leaves a source that already holds an outcome unchanged. |
| CompletionSource.FirstWriterWins | src/TplTipsAndTricks/ProcessTasksByCompletion/TaskCompletionSourceEx.cs:24-32 | After any sequence of racing writes, a set source keeps its outcome. An empty source ends with the first write, or stays empty if there are no writes. |
| CompletionSource.TargetException | src/TplTipsAndTricks/ProcessTasksByCompletion/TaskCompletionSourceEx.cs:21-23 | An aggregate holding exactly one inner exception is unwrapped to that exception. Otherwise the whole aggregate is used. |
| CompletionSource.OutcomeOf | src/TplTipsAndTricks/ProcessTasksByCompletion/TaskCompletionSourceEx.cs:19-41 | There is an outcome exactly when the task is in a final status. |
| CompletionSource.FromTaskWith | src/TplTipsAndTricks/ProcessTasksByCompletion/TaskCompletionSourceEx.cs:15-42 | A faulted task fails the source with its single inner exception, or else with the whole aggregate. A cancelled task cancels the source. A successful task resolves it with `resultSelector(result)`. A non-final status throws InvalidOperationException naming the status and leaves the source untouched. A source already set is never changed. |
| CompletionSource.FromTask | src/TplTipsAndTricks/ProcessTasksByCompletion/TaskCompletionSourceEx.cs:10-13 | The one-argument overload is the general mapping with the task's own result as selector, so a successful task resolves the source with its own value. |
| CompletionSource.FromTaskUntyped | src/TplTipsAndTricks/ProcessTasksByCompletion/TaskCompletionSourceEx.cs:44-71 | The non-generic overload maps faults, cancellation and non-final statuses like the generic one. It resolves with null on success. |
| CompletionSource.UntypedIsConstantSelector | src/TplTipsAndTricks/ProcessTasksByCompletion/TaskCompletionSourceEx.cs:44-71 | The non-generic overload is the generic mapping with a selector that always answers null. |
| CompletionSource.AtMostOneChange | src/TplTipsAndTricks/ProcessTasksByCompletion/TaskCompletionSourceEx.cs:19-41 | One call either leaves the source as it was or fills a source that was empty, without throwing. |
| CompletionSource.SelectorOnlyOnSuccess | src/TplTipsAndTricks/ProcessTasksByCompletion/TaskCompletionSourceEx.cs:30-33 | For any status other than success, the result does not depend on the selector. |
| CompletionSource.RebroadcastRoundTrip | src/TplTipsAndTricks/ProcessTasksByCompletion/TaskCompletionSourceEx.cs:19-33 | Mapping the task of a set source onto a fresh source copies the outcome exactly. An exception comes back unwrapped, not wrapped in a second aggregate. |
| CompletionSource.RebroadcastComposes | src/TplTipsAndTricks/ProcessTasksByCompletion/TaskCompletionSourceEx.cs:10-42 | Rebroadcasting the result of a mapping with the identity overload changes nothing. |
| WorkList.WhenAny | src/TplTipsAndTricks/ProcessTasksByCompletion/TaskEx.cs:42-44 | The winner is a member of the work list whose rank is no larger than any other member's. |
| WorkList.WhenAnyStrict | src/TplTipsAndTricks/ProcessTasksByCompletion/TaskEx.cs:42-44 | With distinct ranks, the winner is ranked strictly before every other remaining task. |
| WorkList.Remove | src/TplTipsAndTricks/ProcessTasksByCompletion/TaskEx.cs:45 | Removing a present task shortens the list by one and removes exactly one occurrence. Removing an absent one changes nothing. |
| WorkList.RemoveMembers | src/TplTipsAndTricks/ProcessTasksByCompletion/TaskEx.cs:45 | After removal from a duplicate-free list, the members are the old members except the removed one. |
| WorkList.RemoveDistinct | src/TplTipsAndTricks/ProcessTasksByCompletion/TaskEx.cs:45 | Removal keeps a list free of duplicates. |
| WorkList.PickPermutation | src/TplTipsAndTricks/ProcessTasksByCompletion/TaskEx.cs:75-85 | Listing values in the order of a permutation of their indices gives a permutation of the values. |
| WorkList.ProgressStart | src/TplTipsAndTricks/ProcessTasksByCompletion/TaskEx.cs:68 | The loop starts with every task in the work list and none taken. |
| WorkList.ProgressStep | src/TplTipsAndTricks/ProcessTasksByCompletion/TaskEx.cs:37-48 | One iteration moves exactly the winner from the work list to the end of the taken list. The taken tasks are still in increasing rank order, all ranked before any task still in the list. Together the two lists still hold every task exactly once. |
| ByCompletion.FromResult | src/TplTipsAndTricks/ProcessTasksByCompletion/TaskEx.cs:11-25 | The handle finishes together with the selected task and is pending while it runs. On success it carries `result`, not the task's value. It is cancelled or faulted exactly when the task is. A single inner exception passes through unchanged, and an aggregate of two or more becomes the handle's one exception, whole. |
| ByCompletion.OrderByCompletionWith | src/TplTipsAndTricks/ProcessTasksByCompletion/TaskEx.cs:37-51 | There are exactly n handles. The k-th handle carries the selected outcome of the k-th task WhenAny reports, and ranks increase along the output. Every task is reported exactly once. The handles are a permutation of the per-task outcomes, and every handle is settled. |
| ByCompletion.NextCompletion | src/TplTipsAndTricks/ProcessTasksByCompletion/TaskEx.cs:39-48 | One iteration settles a fresh source with the outcome of the race's winner and removes exactly that task from the list. The taken tasks stay in rank order, ahead of the rest. |
| ByCompletion.OrderByCompletion | src/TplTipsAndTricks/ProcessTasksByCompletion/TaskEx.cs:63-87 | The k-th handle carries the exact outcome of the k-th task WhenAny reports, including its value on success. The handles are a permutation of the tasks' outcomes. |
| ByCompletion.OrderByCompletionOf | src/TplTipsAndTricks/ProcessTasksByCompletion/TaskEx.cs:27-52 | The k-th handle belongs to the element whose wrapped task WhenAny reports k-th. It succeeds with that element when its task succeeds, and otherwise carries the task's failure or cancellation. |
| ByCompletion.WrapAll | src/TplTipsAndTricks/ProcessTasksByCompletion/TaskEx.cs:33-35 | Before the loop, one wrapped task exists per element, built from the element paired with its selected task. |
| ByCompletion.WrapAllRanks | src/TplTipsAndTricks/ProcessTasksByCompletion/TaskEx.cs:33-35 | Wrapped tasks finish exactly when their selected tasks do. |
| ByCompletion.PairRoundTrip | src/TplTipsAndTricks/ProcessTasksByCompletion/TaskEx.cs:47 | Unwrapping the element from a wrapped pair gives the outcome of the element's own task, with the element as the result. |
| ByCompletion.CompletionOrderUnique | src/TplTipsAndTricks/ProcessTasksByCompletion/TaskEx.cs:54-62 | Two orders that both list every task once and follow the ranks are equal, so the output order is fixed by the ranks. |
| ByCompletion.ThreeOneTwo | src/TplTipsAndTricks/ProcessTasksByCompletion/TaskEx.cs:54-62 | Tasks taking 3, 1 and 2 seconds come out as the second, the third, then the first. |
| Tasks.ReadResult | src/TplTipsAndTricks/ProcessTasksByCompletion/Sample.cs:102 | `.Result` returns the value of a successful task. It throws an aggregate of the inner exceptions for a faulted task, and an aggregate of TaskCanceledException for a cancelled one. |
| Tasks.Await | src/TplTipsAndTricks/ProcessTasksByCompletion/Sample.cs:172 | `await` returns the value of a successful task. It rethrows the first inner exception of a faulted task, and TaskCanceledException for a cancelled one. |
| Drain.ManualProcessByCompletion | src/TplTipsAndTricks/ProcessTasksByCompletion/Sample.cs:88-105 | Each iteration removes exactly the winner. Values reach the callback in the order WhenAny reports the tasks, each task at most once. The loop drains the list and handles all n tasks exactly when every task succeeds. Otherwise it stops at the first failed winner with that winner's exception, leaving the rest unprocessed. |
| Drain.Race | src/TplTipsAndTricks/ProcessTasksByCompletion/Sample.cs:98-104 | One iteration moves the winner from the list to the taken tasks, and the list shrinks by exactly one. The winner's value reaches the callback, or its read throws and ends the loop with that exception. |
| Drain.DrainedAllSucceed | src/TplTipsAndTricks/ProcessTasksByCompletion/Sample.cs:96-104 | When the list drains with every read succeeding, every task ran to completion. |
| Drain.FailureIsEarliest | src/TplTipsAndTricks/ProcessTasksByCompletion/Sample.cs:98-102 | Every task ranked before the aborting winner, that is, reported by an earlier race, succeeded. |
| Drain.ProcessOneByOneNaive | src/TplTipsAndTricks/ProcessTasksByCompletion/Sample.cs:170-175 | Values reach the callback in source order. The loop runs to the end exactly when every await succeeds. Otherwise it stops at the first task, in source order, whose await throws, with that exception. |
| Drain.NaiveIgnoresCompletionOrder | src/TplTipsAndTricks/ProcessTasksByCompletion/Sample.cs:170-175 | Reassigning the completion ranks changes nothing the naive loop does. |
| ForEach.Start | src/TplTipsAndTricks/ForEachAsync/TaskEx.cs:23-31 | Before any item finishes, the counter is -1 and there are n empty sources, one per source item. |
| ForEach.Claim | src/TplTipsAndTricks/ForEachAsync/TaskEx.cs:52-53 | A finished item increments the counter and fills the slot it names, which was empty, with the item's outcome. No other slot changes, and exactly the slots up to the counter are set. |
| ForEach.ForEachAsync | src/TplTipsAndTricks/ForEachAsync/TaskEx.cs:15-59 | There are n slots. Slot j holds the outcome of the j-th item to finish, failures included, not of the j-th source item. Slots after the finished count are empty, and once all n items finish every slot is set. |
| ForEach.ErrorsEmpty | src/TplTipsAndTricks/ForEachAsync/TaskEx.cs:89-98 | No exception is collected exactly when every awaited body succeeded. |
| ForEach.ErrorsPermutation | src/TplTipsAndTricks/ForEachAsync/TaskEx.cs:83-101 | The collected exceptions do not depend on the order in which items finish, up to reordering. |
| ForEach.Enqueue | src/TplTipsAndTricks/ForEachAsync/TaskEx.cs:97 | The first failure creates the queue holding it, and later failures are appended. |
| ForEach.CollectExceptions | src/TplTipsAndTricks/ForEachAsync/TaskEx.cs:83-101 | After the workers finish, the queue exists exactly when some body failed. It then holds every failure, in the order the items finished. |
| ForEach.ForEachAsyncWithExceptions | src/TplTipsAndTricks/ForEachAsync/TaskEx.cs:79-107 | The call succeeds exactly when every body succeeds. Otherwise it fails with one AggregateException holding exactly the bodies' exceptions, in the order the items finished, which is a permutation of the source-order failures. |
| Timeout.Step | src/TplTipsAndTricks/WithTimeout/TaskEx.cs:13-21 | Either continuation leaves the guard set. A set guard is never changed. The task's continuation reads the task and, on an empty guard, applies the FromTask mapping. The delay's continuation cancels an empty guard without reading the task. |
| Timeout.WithTimeout | src/TplTipsAndTricks/WithTimeout/TaskEx.cs:9-24 | With no event yet, the handle is empty and the task unread. If the task finishes first, the handle gets the task's own outcome through FromTask. If the delay fires first, the handle is cancelled. The task's outcome is read exactly when the task has finished, whichever event won. |
| Timeout.WithTimeoutUntyped | src/TplTipsAndTricks/WithTimeout/TaskEx.cs:26-41 | As for the generic overload, but a task finishing first fills the handle through the non-generic FromTask, so success resolves it with null. |
| Timeout.SettledHandleStays | src/TplTipsAndTricks/WithTimeout/TaskEx.cs:13-21 | Once the handle is set, no later event changes it: the second event to arrive loses. |
| Timeout.TaskWinsRace | src/TplTipsAndTricks/WithTimeout/TaskEx.cs:13-17 | If the task finishes before the delay fires, the handle carries the task's outcome through the FromTask mapping. |
| Timeout.TimeoutWinsRace | src/TplTipsAndTricks/WithTimeout/TaskEx.cs:19-21 | If the delay fires first, the handle is cancelled, whatever the task does later. |
| Timeout.AlwaysObserved | src/TplTipsAndTricks/WithTimeout/TaskEx.cs:13-17 | The task's outcome is read exactly when the task has finished, whether or not the timeout won. |
| Timeout.UntypedTaskWinsWithNull | src/TplTipsAndTricks/WithTimeout/TaskEx.cs:26-41 | The non-generic guard resolves with null when the task succeeds first. |
| Timeout.FailingTaskAfterTimeout | src/TplTipsAndTricks/WithTimeout/Sample.cs:55-73 | Take a task that fails after the 100 ms timeout has fired. Awaiting its guard throws TaskCanceledException, and the failure is still read. |
| Timeout.Winner | src/TplTipsAndTricks/WithTimeout/TaskEx.cs:53 | WhenAny reports the guarded task exactly when it finishes before the delay. |
| Timeout.NaiveContinuation | src/TplTipsAndTricks/WithTimeout/TaskEx.cs:54-64 | When the compared object is not the task, the guard is cancelled and the task unread. When it is the task and the task has finished, the task is read. |
| Timeout.WithTimeoutNaive | src/TplTipsAndTricks/WithTimeout/TaskEx.cs:49-67 | As written, the first event cancels the guard, and the task is never read, whichever event comes first. |
| Timeout.NaiveCancelsEarlySuccess | src/TplTipsAndTricks/WithTimeout/TaskEx.cs:56 | A task that succeeds before the timeout still yields a cancelled naive guard, while WithTimeout resolves. |
| Timeout.WithTimeoutNaiveCorrected | src/TplTipsAndTricks/WithTimeout/TaskEx.cs:53-64 | Comparing the winner: a task finishing first is mapped with FromTask and read. A delay firing first cancels and leaves the task unread. |
| Timeout.NaiveCorrectedTaskWins | src/TplTipsAndTricks/WithTimeout/TaskEx.cs:56-59 | With the corrected comparison, a task finishing first gives the same handle as WithTimeout. |
| Timeout.NaiveCorrectedLosesLateFailure | src/TplTipsAndTricks/WithTimeout/TaskEx.cs:43-48 | Even corrected, a task failing after the timeout is never read by the naive guard, while WithTimeout reads it. |

## Left out

- Threads, the thread pool, `Task.Run`, `Partitioner` chunking, the `degreeOfParallelism` argument and its validation, and `Interlocked` atomicity are not modelled. The scheduler is an input instead: ranks for the task lists, and a list of finished items for ForEachAsync. That each item goes to exactly one worker is a precondition.
- Continuations are assumed to run in the order their tasks finished. In particular, the wrapped tasks of the element overload finish in the order of their selected tasks.
- Ranks are the order in which `Task.WhenAny` reports the tasks, not their finishing times. The two agree only when no two remaining tasks have both already finished as a race begins. A consumer that is slow between `await` and the next `MoveNext`, or a slow `ProcessWeather` in the sample's drain, can let several tasks finish before the next race. `WhenAny` then reports the one earliest in its list, and the ranks must follow that choice. So "the k-th task WhenAny reports" is promised, not "the k-th task to finish" as the doc comment at src/TplTipsAndTricks/ProcessTasksByCompletion/TaskEx.cs:54-62 says.
- Ties in `Task.WhenAny` are excluded: ranks are distinct.
- Tasks that never finish are excluded. The task lists and selectors are assumed to reach a final status.
- Consumers that ask the iterator for the next handle before awaiting the current one are not modelled. In that case the iterator can yield extra handles. One loop iteration is modelled instead: it creates a fresh empty source, lets the race settle it, and yields it. So the yielded handle being pending at the moment of `yield return` is not visible in the model.
- The unsynchronised `List.Remove` racing the enumerator in `OrderByCompletion` is not modelled.
- Toub's plain `ForEachAsync` (src/TplTipsAndTricks/ForEachAsync/TaskEx.cs:64-74) is left out. It is only a `Task.WhenAll` over partitions.
- Selectors or bodies that throw synchronously are left out. Every selector and body returns a task.
- Timing is left out: `Task.Delay`, `TimeSpan` and `Thread.Sleep`. The race is the order of events in the trace.
- The garbage-collector-driven `UnobservedTaskException` mechanism is left out. "Observed" is a boolean recording whether a continuation read the task's outcome.
- That the timeout guard never alters the underlying task is structural rather than proved. The model has no operation on the guarded task at all.
- That `FromTask(result, taskSelector)` calls its selector exactly once is likewise structural: the function applies it once.
- `Contract.Assert(false, …)` before the InvalidOperationException is not modelled. Under runtime contract checking it fails before the throw.
- The Rx samples, the weather service, console output and the test fixtures are left out. The callback of the sample loops is the list of values it receives.
- ForEach.ForEachAsync: requires that no more items have finished than the source holds. That follows from each item going to exactly one worker.

## Findings

| source | as written | input that shows it | evidently intended | confidence | as-written member | corrected member |
|---|---|---|---|---|---|---|
| src/TplTipsAndTricks/WithTimeout/TaskEx.cs:56 | `t == task` compares the task returned by `Task.WhenAny` with the guarded task, so the comparison never holds | a task that succeeds before the timeout: the naive guard is cancelled anyway (Timeout.NaiveCancelsEarlySuccess) | compare the winner, `t.Result == task`, so that a task finishing first is passed through `FromTask` | high, not executed | Timeout.WithTimeoutNaive | Timeout.WithTimeoutNaiveCorrected |
