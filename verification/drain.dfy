/** The two consumer loops of ProcessTasksByCompletion/Sample.cs: the manual
    `WhenAny`/`Remove` drain that handles results in completion order, and
    the naive loop that awaits the tasks in source order. The callback
    (`ProcessWeather`) is modelled by the list of values it is called with. */
module Drain {
  import opened Tasks
  import opened WorkList

  /** How a consumer loop ended: every task handled, or an exception. */
  datatype End = Drained | Threw(error: Exn)

  /** Sample.ManualProcessByCompletion: race the remaining tasks, remove the
      winner, read its result and hand it to the callback, until the list is
      empty or a read throws. `taken` lists the removed tasks in the order
      they were removed; `remaining` is the list when the loop stopped. */
  method ManualProcessByCompletion<T>(tasks: seq<Task<T>>)
    returns (processed: seq<T>, taken: seq<nat>, remaining: seq<nat>, end: End)
    requires DistinctRanks(tasks) && AllTerminal(tasks)
    ensures Progress(tasks, taken, remaining)
    ensures |processed| <= |taken|
    ensures forall k :: 0 <= k < |processed| ==> tasks[taken[k]].state == RanToCompletion(processed[k])
    ensures end.Drained? ==> remaining == [] && |processed| == |taken| == |tasks|
    ensures end.Threw? ==> |taken| == |processed| + 1
    ensures end.Threw? ==> ReadResult(tasks[taken[|processed|]].state) == Throws(end.error)
    ensures end.Drained? <==> forall i :: 0 <= i < |tasks| ==> tasks[i].state.RanToCompletion?
  {
    var work := Iota(|tasks|);
    processed, taken, end := [], [], Drained;
    ProgressStart(tasks);
    while |work| != 0 && end.Drained?
      invariant Progress(tasks, taken, work)
      invariant |processed| + (if end.Threw? then 1 else 0) == |taken|
      invariant forall k :: 0 <= k < |processed| ==> tasks[taken[k]].state == RanToCompletion(processed[k])
      invariant end.Threw? ==> ReadResult(tasks[taken[|processed|]].state) == Throws(end.error)
      decreases |work|
    {
      processed, taken, work, end := Race(tasks, processed, taken, work);
    }
    remaining := work;
    if end.Drained? {
      DrainedAllSucceed(tasks, taken, processed);
    } else {
      assert !tasks[taken[|processed|]].state.RanToCompletion?;
    }
  }

  /** One iteration of the drain: the winner of the race moves from the work
      list to the taken list, and its value reaches the callback unless
      reading it throws. */
  method Race<T>(tasks: seq<Task<T>>, processed: seq<T>, taken: seq<nat>, work: seq<nat>)
    returns (processed': seq<T>, taken': seq<nat>, work': seq<nat>, end: End)
    requires DistinctRanks(tasks) && AllTerminal(tasks)
    requires Progress(tasks, taken, work) && |work| > 0 && |processed| == |taken|
    requires forall k :: 0 <= k < |processed| ==> tasks[taken[k]].state == RanToCompletion(processed[k])
    ensures Progress(tasks, taken', work') && |work'| == |work| - 1 && taken' == taken + [work[WhenAny(tasks, work)]]
    ensures |processed'| + (if end.Threw? then 1 else 0) == |taken'|
    ensures forall k :: 0 <= k < |processed'| ==> tasks[taken'[k]].state == RanToCompletion(processed'[k])
    ensures end.Threw? ==> ReadResult(tasks[taken'[|processed'|]].state) == Throws(end.error)
  {
    var completed := work[WhenAny(tasks, work)];
    ProgressStep(tasks, taken, work);
    work' := Remove(work, completed);
    taken' := taken + [completed];
    end := Drained;
    match ReadResult(tasks[completed].state)
    case Throws(e) =>
      processed' := processed;
      end := Threw(e);
    case Value(v) =>
      processed' := processed + [v];
  }

  /** When every task was taken and read successfully, every task ran to
      completion. */
  lemma DrainedAllSucceed<T>(tasks: seq<Task<T>>, taken: seq<nat>, processed: seq<T>)
    requires Progress(tasks, taken, [])
    requires |processed| == |taken|
    requires forall k :: 0 <= k < |processed| ==> tasks[taken[k]].state == RanToCompletion(processed[k])
    ensures forall i :: 0 <= i < |tasks| ==> tasks[i].state.RanToCompletion?
  {
    forall i | 0 <= i < |tasks|
      ensures tasks[i].state.RanToCompletion?
    {
      assert Iota(|tasks|)[i] == i;
      assert i in multiset(Iota(|tasks|));
      assert multiset(taken) == multiset(Iota(|tasks|));
      assert i in taken;
      var k :| 0 <= k < |taken| && taken[k] == i;
    }
  }

  /** The task whose read aborts the drain is the first task in rank order
      that did not run to completion: every task ranked before it succeeded. */
  lemma FailureIsEarliest<T>(tasks: seq<Task<T>>, taken: seq<nat>, remaining: seq<nat>, processed: seq<T>)
    requires Progress(tasks, taken, remaining)
    requires |taken| == |processed| + 1
    requires forall k :: 0 <= k < |processed| ==> tasks[taken[k]].state == RanToCompletion(processed[k])
    ensures forall i :: 0 <= i < |tasks| && tasks[i].rank < tasks[taken[|processed|]].rank ==>
              tasks[i].state.RanToCompletion?
  {
    var failed := taken[|processed|];
    forall i | 0 <= i < |tasks| && tasks[i].rank < tasks[failed].rank
      ensures tasks[i].state.RanToCompletion?
    {
      assert Iota(|tasks|)[i] == i;
      assert i in multiset(taken) + multiset(remaining);
      assert i !in remaining by {
        forall w | 0 <= w < |remaining| ensures remaining[w] != i {
          assert tasks[failed].rank < tasks[remaining[w]].rank;
        }
      }
      assert i in taken;
      var k :| 0 <= k < |taken| && taken[k] == i;
      assert taken[k] != failed;
    }
  }

  /** The outcome of the naive loop: the values handed to the callback and
      how the loop ended. */
  datatype Run<T> = Run(processed: seq<T>, end: End)

  /** Sample.ProcessOneByOneNaive: await the tasks one by one in source
      order; the first await that throws ends the loop. */
  function ProcessOneByOneNaive<T>(tasks: seq<Task<T>>): (r: Run<T>)
    requires AllTerminal(tasks)
    ensures |r.processed| <= |tasks|
    ensures forall k :: 0 <= k < |r.processed| ==> tasks[k].state == RanToCompletion(r.processed[k])
    ensures r.end.Drained? <==> |r.processed| == |tasks|
    ensures r.end.Threw? ==> Await(tasks[|r.processed|].state) == Throws(r.end.error)
    decreases |tasks|
  {
    if tasks == [] then Run([], Drained)
    else
      match Await(tasks[0].state)
      case Throws(e) => Run([], Threw(e))
      case Value(v) =>
        var rest := ProcessOneByOneNaive(tasks[1..]);
        Run([v] + rest.processed, rest.end)
  }

  /** The same tasks reported by WhenAny in another order: new ranks. */
  function Rerank<T>(tasks: seq<Task<T>>, ranks: seq<nat>): (r: seq<Task<T>>)
    requires |ranks| == |tasks|
    ensures |r| == |tasks|
    ensures forall i :: 0 <= i < |tasks| ==> r[i] == Task(ranks[i], tasks[i].state)
  {
    seq(|tasks|, i requires 0 <= i < |tasks| => Task(ranks[i], tasks[i].state))
  }

  /** The naive loop handles results in source order whatever the
      completion order. */
  lemma {:induction false} NaiveIgnoresCompletionOrder<T>(tasks: seq<Task<T>>, ranks: seq<nat>)
    requires AllTerminal(tasks) && |ranks| == |tasks|
    ensures AllTerminal(Rerank(tasks, ranks))
    ensures ProcessOneByOneNaive(Rerank(tasks, ranks)) == ProcessOneByOneNaive(tasks)
    decreases |tasks|
  {
    var rt := Rerank(tasks, ranks);
    if tasks != [] {
      assert rt[1..] == Rerank(tasks[1..], ranks[1..]);
      NaiveIgnoresCompletionOrder(tasks[1..], ranks[1..]);
    }
  }
}
