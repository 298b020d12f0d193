/** ForEachAsync/TaskEx.cs: bounded-parallelism fan-out. The partitioner and
    the workers are replaced by the order in which items finish, given as a
    list of source indices; each item is handed to exactly one worker, so no
    index occurs twice. */
module ForEach {
  import opened Tasks
  import opened CompletionSource
  import opened WorkList

  /** The state shared by the workers of one ForEachAsync call: the counter
      bumped by Interlocked.Increment and the n completion sources. */
  datatype Slots<V> = Slots(counter: int, cells: seq<Cell<V>>)

  /** Exactly the slots up to the counter have been set. */
  ghost predicate Valid<V>(s: Slots<V>) {
    && -1 <= s.counter < |s.cells|
    && forall j :: 0 <= j < |s.cells| ==> (s.cells[j].Some? <==> j <= s.counter)
  }

  /** Before any item finishes: the counter is -1 and n empty sources exist. */
  function Start<V>(n: nat): (s: Slots<V>)
    ensures Valid(s) && s.counter == -1 && |s.cells| == n
  {
    Slots(-1, seq(n, _ => None))
  }

  /** A worker whose item finished: Interlocked.Increment claims the next
      slot and FromTask fills it with the item's outcome. */
  function Claim<V>(s: Slots<V>, finished: TaskState<V>): (r: Slots<V>)
    requires Valid(s) && s.counter + 1 < |s.cells| && finished.IsTerminal()
    ensures Valid(r) && |r.cells| == |s.cells|
    ensures r.counter == s.counter + 1
    ensures s.cells[r.counter].None?
    ensures r.cells[r.counter] == FromTask(None, finished).cell
    ensures forall j :: 0 <= j < |s.cells| && j != r.counter ==> r.cells[j] == s.cells[j]
  {
    var finishedTaskIndex := s.counter + 1;
    var transfer := FromTask(s.cells[finishedTaskIndex], finished);
    Slots(finishedTaskIndex, s.cells[finishedTaskIndex := transfer.cell])
  }

  /** `source.ForEachAsync(selector, degreeOfParallelism)` after the items
      listed in `completions` have finished, in that order: slot j holds the
      outcome of the j-th item to finish, failures included, and the slots
      after the last finished item are still empty. */
  method ForEachAsync<I, V>(source: seq<I>, selector: I -> TaskState<V>, completions: seq<nat>)
    returns (slots: seq<Cell<V>>)
    requires Distinct(completions) && Below(completions, |source|) && |completions| <= |source|
    requires forall i :: 0 <= i < |source| ==> selector(source[i]).IsTerminal()
    ensures |slots| == |source|
    ensures forall j :: 0 <= j < |completions| ==> slots[j] == FromTask(None, selector(source[completions[j]])).cell
    ensures forall j :: |completions| <= j < |slots| ==> slots[j].None?
    ensures |completions| == |source| ==> forall j :: 0 <= j < |slots| ==> slots[j].Some?
  {
    var tasks := source;
    var run: Slots<V> := Start(|tasks|);
    for k := 0 to |completions|
      invariant Valid(run) && |run.cells| == |tasks|
      invariant run.counter == k - 1
      invariant forall j :: 0 <= j < k ==> run.cells[j] == FromTask(None, selector(tasks[completions[j]])).cell
    {
      var task := selector(tasks[completions[k]]);
      run := Claim(run, task);
    }
    slots := run.cells;
  }

  /** The exceptions among a list of awaited results, in list order. */
  function Errors<T>(results: seq<Read<T>>): (es: seq<Exn>)
    ensures |es| <= |results|
    decreases |results|
  {
    if results == [] then []
    else (if results[0].Throws? then [results[0].error] else []) + Errors(results[1..])
  }

  /** No exception is collected exactly when every result is a value. */
  lemma {:induction false} ErrorsEmpty<T>(results: seq<Read<T>>)
    ensures Errors(results) == [] <==> forall k :: 0 <= k < |results| ==> results[k].Value?
    decreases |results|
  {
    if results != [] {
      ErrorsEmpty(results[1..]);
      assert forall k :: 1 <= k < |results| ==> results[k] == results[1..][k - 1];
    }
  }

  /** Collecting from two runs one after the other. */
  lemma {:induction false} ErrorsAppend<T>(a: seq<Read<T>>, b: seq<Read<T>>)
    ensures Errors(a + b) == Errors(a) + Errors(b)
    decreases |a|
  {
    if a == [] {
      assert a + b == b;
    } else {
      var ab := a + b;
      assert ab[0] == a[0];
      assert ab[1..] == a[1..] + b;
      ErrorsAppend(a[1..], b);
      var h := if a[0].Throws? then [a[0].error] else [];
      assert Errors(ab) == h + Errors(ab[1..]);
      assert Errors(a) == h + Errors(a[1..]);
      assert h + (Errors(a[1..]) + Errors(b)) == (h + Errors(a[1..])) + Errors(b);
    }
  }

  /** Whatever the order the items finish in, the same exceptions are
      collected. */
  lemma {:induction false} ErrorsPermutation<T>(a: seq<Read<T>>, b: seq<Read<T>>)
    requires multiset(a) == multiset(b)
    ensures multiset(Errors(a)) == multiset(Errors(b))
    decreases |a|
  {
    if a == [] {
      assert |multiset(b)| == 0;
    } else {
      assert a[0] in multiset(b);
      var p :| 0 <= p < |b| && b[p] == a[0];
      var b' := b[..p] + b[p+1..];
      SameTails(a, b, p);
      ErrorsPermutation(a[1..], b');
      ErrorsStep(a, b, p);
    }
  }

  /** Induction step of ErrorsPermutation: put back the item taken from the
      front of one list and from position p of the other. */
  lemma ErrorsStep<T>(a: seq<Read<T>>, b: seq<Read<T>>, p: nat)
    requires |a| > 0 && p < |b| && b[p] == a[0]
    requires multiset(Errors(a[1..])) == multiset(Errors(b[..p] + b[p+1..]))
    ensures multiset(Errors(a)) == multiset(Errors(b))
  {
    ErrorsHead(a);
    ErrorsAround(b, p);
  }

  /** The exceptions of a non-empty list are those of its head and those of
      its tail. */
  lemma ErrorsHead<T>(a: seq<Read<T>>)
    requires |a| > 0
    ensures multiset(Errors(a)) == multiset(Errors([a[0]])) + multiset(Errors(a[1..]))
  {
    assert [a[0]][1..] == [];
  }

  /** The exceptions of a list are those of its p-th result and those of the
      rest. */
  lemma ErrorsAround<T>(b: seq<Read<T>>, p: nat)
    requires p < |b|
    ensures multiset(Errors(b)) == multiset(Errors([b[p]])) + multiset(Errors(b[..p] + b[p+1..]))
  {
    SplitAt(b, p);
    ErrorsSplit(b[..p], [b[p]], b[p+1..]);
  }

  /** Moving the middle part of a list to the front keeps its exceptions. */
  lemma ErrorsSplit<T>(l: seq<Read<T>>, x: seq<Read<T>>, r: seq<Read<T>>)
    ensures multiset(Errors((l + x) + r)) == multiset(Errors(x)) + multiset(Errors(l + r))
  {
    ErrorsAppend(l + x, r);
    ErrorsAppend(l, x);
    ErrorsAppend(l, r);
  }

  /** What awaiting the body's task gives for each source item. */
  function Awaited<T, R>(source: seq<T>, body: T -> TaskState<R>): (rs: seq<Read<R>>)
    requires forall i :: 0 <= i < |source| ==> body(source[i]).IsTerminal()
    ensures |rs| == |source|
    ensures forall i :: 0 <= i < |source| ==> rs[i] == Await(body(source[i]))
  {
    seq(|source|, i requires 0 <= i < |source| && body(source[i]).IsTerminal() => Await(body(source[i])))
  }

  /** `LazyInitializer.EnsureInitialized(ref exceptions).Enqueue(e)`: the
      queue is created by the first failure. */
  function Enqueue(exceptions: Option<seq<Exn>>, e: Exn): (q: Option<seq<Exn>>)
    ensures q.Some?
    ensures exceptions.None? ==> q.value == [e]
    ensures exceptions.Some? ==> q.value == exceptions.value + [e]
  {
    match exceptions
    case None => Some([e])
    case Some(queue) => Some(queue + [e])
  }

  /** The worker loops of ForEachAsyncWithExceptions, items finishing in
      the order `completions` gives: every failure is caught and queued, and
      the queue exists exactly when some body failed. */
  method CollectExceptions<T, R>(source: seq<T>, body: T -> TaskState<R>, completions: seq<nat>)
    returns (exceptions: Option<seq<Exn>>)
    requires Below(completions, |source|)
    requires forall i :: 0 <= i < |source| ==> body(source[i]).IsTerminal()
    ensures exceptions.None? <==> Errors(Pick(Awaited(source, body), completions)) == []
    ensures exceptions.Some? ==> exceptions.value == Errors(Pick(Awaited(source, body), completions))
  {
    ghost var awaited := Awaited(source, body);
    exceptions := None;
    for k := 0 to |completions|
      invariant exceptions.None? <==> Errors(Pick(awaited, completions[..k])) == []
      invariant exceptions.Some? ==> exceptions.value == Errors(Pick(awaited, completions[..k]))
    {
      assert Pick(awaited, completions[..k + 1]) == Pick(awaited, completions[..k]) + [awaited[completions[k]]];
      ErrorsAppend(Pick(awaited, completions[..k]), [awaited[completions[k]]]);
      match Await(body(source[completions[k]]))
      case Throws(e) =>
        exceptions := Enqueue(exceptions, e);
      case Value(_) =>
    }
    assert completions[..|completions|] == completions;
  }

  /** `source.ForEachAsyncWithExceptions(dop, body)`, with every item
      finishing in the order `completions` gives: each failing body is caught
      and recorded, and the returned task fails with an AggregateException of
      exactly those exceptions when there was at least one. */
  method ForEachAsyncWithExceptions<T, R>(source: seq<T>, body: T -> TaskState<R>, completions: seq<nat>)
    returns (result: TaskState<()>)
    requires multiset(completions) == multiset(Iota(|source|))
    requires forall i :: 0 <= i < |source| ==> body(source[i]).IsTerminal()
    ensures result.RanToCompletion? || result.Faulted?
    ensures result.RanToCompletion? <==> forall i :: 0 <= i < |source| ==> body(source[i]).RanToCompletion?
    ensures result.Faulted? ==> result.rest == [] && result.first.Aggregate?
    ensures result.Faulted? ==>
              (Below(completions, |source|) && result.first.inner == Errors(Pick(Awaited(source, body), completions)))
    ensures result.Faulted? ==> multiset(result.first.inner) == multiset(Errors(Awaited(source, body)))
  {
    ghost var awaited := Awaited(source, body);
    PickPermutation(awaited, completions);
    var exceptions := CollectExceptions(source, body, completions);
    ErrorsPermutation(Pick(awaited, completions), awaited);
    ErrorsEmpty(awaited);
    if exceptions.Some? {
      result := Faulted(Aggregate(exceptions.value), []);
    } else {
      result := RanToCompletion(());
    }
  }
}
