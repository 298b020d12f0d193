/** The shrinking work list shared by OrderByCompletion and the manual drain
    loop: `Task.WhenAny` over the remaining tasks and `List.Remove` of the
    winner. A work list holds indices into the task sequence. */
module WorkList {
  import opened Tasks

  /** Every index of the list is below n. */
  ghost predicate Below(idxs: seq<nat>, n: nat) {
    forall i :: 0 <= i < |idxs| ==> idxs[i] < n
  }

  /** No task appears twice in the work list. */
  ghost predicate Distinct(work: seq<nat>) {
    forall a, b :: 0 <= a < b < |work| ==> work[a] != work[b]
  }

  /** `Task.WhenAny(tasks)`: the position of the remaining task with the
      smallest rank, the one WhenAny reports. On equal ranks the earlier list
      position is reported. */
  function WhenAny<T>(tasks: seq<Task<T>>, work: seq<nat>): (p: nat)
    requires |work| > 0 && Below(work, |tasks|)
    ensures p < |work|
    ensures forall q :: 0 <= q < |work| ==> tasks[work[p]].rank <= tasks[work[q]].rank
    decreases |work|
  {
    if |work| == 1 then 0
    else
      var p := WhenAny(tasks, work[1..]);
      if tasks[work[0]].rank <= tasks[work[1 + p]].rank then 0 else 1 + p
  }

  /** With distinct ranks and a duplicate-free list, the winner is ranked
      strictly before every other remaining task. */
  lemma WhenAnyStrict<T>(tasks: seq<Task<T>>, work: seq<nat>)
    requires |work| > 0 && Below(work, |tasks|) && Distinct(work) && DistinctRanks(tasks)
    ensures var p := WhenAny(tasks, work);
            forall q :: 0 <= q < |work| && q != p ==> tasks[work[p]].rank < tasks[work[q]].rank
  {
    var p := WhenAny(tasks, work);
    forall q | 0 <= q < |work| && q != p
      ensures tasks[work[p]].rank < tasks[work[q]].rank
    {
      if p < q {
        assert work[p] != work[q];
      } else {
        assert work[q] != work[p];
      }
    }
  }

  /** Dropping position p of a list takes one copy of its element out of the
      list's multiset. */
  lemma MultisetRemoveAt<X>(s: seq<X>, p: nat)
    requires p < |s|
    ensures multiset(s[..p] + s[p+1..]) == multiset(s) - multiset{s[p]}
    ensures multiset(s) == multiset(s[..p] + s[p+1..]) + multiset{s[p]}
  {
    assert s == s[..p] + [s[p]] + s[p+1..];
  }

  /** A list is its part before p, its p-th element and its part after p. */
  lemma SplitAt<X>(s: seq<X>, p: nat)
    requires p < |s|
    ensures s == (s[..p] + [s[p]]) + s[p+1..]
  {
  }

  /** The elements of xs at the positions idxs, in the order of idxs. */
  function Pick<X>(xs: seq<X>, idxs: seq<nat>): (r: seq<X>)
    requires Below(idxs, |xs|)
    ensures |r| == |idxs|
    ensures forall k :: 0 <= k < |idxs| ==> r[k] == xs[idxs[k]]
  {
    seq(|idxs|, k requires 0 <= k < |idxs| => xs[idxs[k]])
  }

  /** Picking one more position appends its element. */
  lemma PickAppend<X>(xs: seq<X>, idxs: seq<nat>, i: nat)
    requires Below(idxs, |xs|) && i < |xs|
    ensures Below(idxs + [i], |xs|)
    ensures Pick(xs, idxs + [i]) == Pick(xs, idxs) + [xs[i]]
  {
    assert forall k :: 0 <= k < |idxs| ==> (idxs + [i])[k] == idxs[k];
  }

  /** Picking every position once, in any order, is a permutation of xs. */
  lemma {:induction false} PickPermutation<X>(xs: seq<X>, idxs: seq<nat>)
    requires multiset(idxs) == multiset(Iota(|xs|))
    ensures Below(idxs, |xs|)
    ensures multiset(Pick(xs, idxs)) == multiset(xs)
  {
    assert Below(idxs, |xs|) by {
      forall i | 0 <= i < |idxs| ensures idxs[i] < |xs| {
        assert idxs[i] in multiset(Iota(|xs|));
      }
    }
    PickSame(xs, idxs, Iota(|xs|));
    assert Pick(xs, Iota(|xs|)) == xs;
  }

  /** Two index lists with the same multiset pick the same multiset. */
  lemma {:induction false} PickSame<X>(xs: seq<X>, a: seq<nat>, b: seq<nat>)
    requires Below(a, |xs|)
    requires Below(b, |xs|)
    requires multiset(a) == multiset(b)
    ensures multiset(Pick(xs, a)) == multiset(Pick(xs, b))
    decreases |a|
  {
    if a == [] {
      assert |multiset(b)| == 0;
    } else {
      assert a[0] in multiset(b);
      var p :| 0 <= p < |b| && b[p] == a[0];
      var b' := b[..p] + b[p+1..];
      PickSameTails(xs, a, b, p);
      PickSame(xs, a[1..], b');
      PickSameStep(xs, a, b, p);
    }
  }

  /** The lists left after taking the head of a and its twin at p in b
      still have the same multiset. */
  lemma PickSameTails<X>(xs: seq<X>, a: seq<nat>, b: seq<nat>, p: nat)
    requires Below(b, |xs|)
    requires multiset(a) == multiset(b)
    requires |a| > 0 && p < |b| && b[p] == a[0]
    ensures Below(b[..p] + b[p+1..], |xs|)
    ensures multiset(a[1..]) == multiset(b[..p] + b[p+1..])
  {
    BelowRemoveAt(b, p, |xs|);
    SameTails(a, b, p);
  }

  /** Taking the head of a and an equal element of b from two lists with the
      same multiset leaves lists with the same multiset. */
  lemma SameTails<X>(a: seq<X>, b: seq<X>, p: nat)
    requires multiset(a) == multiset(b)
    requires |a| > 0 && p < |b| && b[p] == a[0]
    ensures multiset(a[1..]) == multiset(b[..p] + b[p+1..])
  {
    assert a == [a[0]] + a[1..];
    assert multiset(a) == multiset(a[1..]) + multiset{a[0]};
    MultisetRemoveAt(b, p);
  }

  /** Dropping one index keeps the others in range. */
  lemma BelowRemoveAt(b: seq<nat>, p: nat, n: nat)
    requires Below(b, n) && p < |b|
    ensures Below(b[..p] + b[p+1..], n)
  {
    var b' := b[..p] + b[p+1..];
    forall i | 0 <= i < |b'|
      ensures b'[i] < n
    {
      if i < p {
        assert b'[i] == b[i];
      } else {
        assert b'[i] == b[i + 1];
      }
    }
  }

  /** Induction step of PickSame. */
  lemma PickSameStep<X>(xs: seq<X>, a: seq<nat>, b: seq<nat>, p: nat)
    requires Below(a, |xs|)
    requires Below(b, |xs|)
    requires |a| > 0 && p < |b| && b[p] == a[0]
    requires Below(b[..p] + b[p+1..], |xs|)
    requires multiset(Pick(xs, a[1..])) == multiset(Pick(xs, b[..p] + b[p+1..]))
    ensures multiset(Pick(xs, a)) == multiset(Pick(xs, b))
  {
    var b' := b[..p] + b[p+1..];
    var pa := Pick(xs, a);
    var pb := Pick(xs, b);
    assert pa == [xs[a[0]]] + Pick(xs, a[1..]);
    assert Pick(xs, b') == pb[..p] + pb[p+1..];
    MultisetRemoveAt(pb, p);
  }

  /** `List.Remove(x)`: drop the first occurrence of x, if any. */
  function Remove(s: seq<nat>, x: nat): (r: seq<nat>)
    ensures x in s ==> |r| == |s| - 1
    ensures x !in s ==> r == s
    ensures multiset(r) == multiset(s) - multiset{x}
    decreases |s|
  {
    if s == [] then []
    else
      assert s == [s[0]] + s[1..];
      if s[0] == x then s[1..] else [s[0]] + Remove(s[1..], x)
  }

  /** The tail of a duplicate-free list is duplicate-free and does not
      contain the head. */
  lemma DistinctTail(s: seq<nat>)
    requires |s| > 0 && Distinct(s)
    ensures Distinct(s[1..]) && s[0] !in s[1..]
  {
    var t := s[1..];
    forall a, b | 0 <= a < b < |t| ensures t[a] != t[b] {
      assert s[a+1] != s[b+1];
    }
    forall j | 0 <= j < |t| ensures t[j] != s[0] {
      assert s[0] != s[j+1];
    }
  }

  /** What is left after removing a task is every other task of the list. */
  lemma {:induction false} RemoveMembers(s: seq<nat>, x: nat)
    requires Distinct(s)
    ensures forall y :: y in Remove(s, x) <==> y in s && y != x
    decreases |s|
  {
    if s != [] {
      DistinctTail(s);
      if s[0] != x {
        RemoveMembers(s[1..], x);
      }
    }
  }

  /** Prepending a new value keeps a list duplicate-free. */
  lemma ConsDistinct(h: nat, t: seq<nat>)
    requires Distinct(t) && h !in t
    ensures Distinct([h] + t)
  {
    var r := [h] + t;
    forall a, b | 0 <= a < b < |r| ensures r[a] != r[b] {
      assert r[b] == t[b-1];
      if a > 0 {
        assert r[a] == t[a-1];
      }
    }
  }

  /** Removing a task keeps a duplicate-free list duplicate-free. */
  lemma {:induction false} RemoveDistinct(s: seq<nat>, x: nat)
    requires Distinct(s)
    ensures Distinct(Remove(s, x))
    decreases |s|
  {
    if s != [] {
      DistinctTail(s);
      if s[0] != x {
        RemoveDistinct(s[1..], x);
        RemoveMembers(s[1..], x);
        ConsDistinct(s[0], Remove(s[1..], x));
      }
    }
  }

  /** Every task already taken is ranked strictly before every task still in
      the work list. */
  ghost predicate Before<T>(tasks: seq<Task<T>>, taken: seq<nat>, work: seq<nat>)
    requires Below(taken, |tasks|) && Below(work, |tasks|)
  {
    forall k, w :: 0 <= k < |taken| && 0 <= w < |work| ==> tasks[taken[k]].rank < tasks[work[w]].rank
  }

  /** The ranks along `taken` strictly increase. */
  ghost predicate ByRank<T>(tasks: seq<Task<T>>, taken: seq<nat>)
    requires Below(taken, |tasks|)
  {
    forall k, k' :: 0 <= k < k' < |taken| ==> tasks[taken[k]].rank < tasks[taken[k']].rank
  }

  /** The state of a drain over `tasks`: the tasks taken so far, in the
      order they were taken, and the work list still to race. Together they
      hold every task once; the taken ones are ranked first, in order. */
  ghost predicate Progress<T>(tasks: seq<Task<T>>, taken: seq<nat>, work: seq<nat>) {
    && Below(taken, |tasks|) && Below(work, |tasks|) && Distinct(work)
    && |taken| + |work| == |tasks|
    && multiset(taken) + multiset(work) == multiset(Iota(|tasks|))
    && ByRank(tasks, taken)
    && Before(tasks, taken, work)
  }

  /** Before the first race nothing is taken and the work list is every task. */
  lemma ProgressStart<T>(tasks: seq<Task<T>>)
    ensures Progress(tasks, [], Iota(|tasks|))
  {
    var work := Iota(|tasks|);
    assert Distinct(work);
  }

  /** The winner of a race is ranked strictly before every other task of the
      work list. */
  ghost predicate Earliest<T>(tasks: seq<Task<T>>, work: seq<nat>, finished: nat)
    requires Below(work, |tasks|) && finished < |tasks|
  {
    forall q :: 0 <= q < |work| && work[q] != finished ==> tasks[finished].rank < tasks[work[q]].rank
  }

  /** The race of a work list is won by a task of the list ranked
      before all the others. */
  lemma WinnerEarliest<T>(tasks: seq<Task<T>>, work: seq<nat>)
    requires DistinctRanks(tasks) && |work| > 0 && Below(work, |tasks|) && Distinct(work)
    ensures var finished := work[WhenAny(tasks, work)];
            finished in work && Earliest(tasks, work, finished)
  {
    WhenAnyStrict(tasks, work);
    var p := WhenAny(tasks, work);
    forall q | 0 <= q < |work| && work[q] != work[p]
      ensures tasks[work[p]].rank < tasks[work[q]].rank
    {
      assert q != p;
    }
  }

  /** Removing a task from a duplicate-free list of tasks leaves a
      duplicate-free list of the other tasks. */
  lemma RemoveKeeps<T>(tasks: seq<Task<T>>, work: seq<nat>, x: nat)
    requires Below(work, |tasks|) && Distinct(work)
    ensures Below(Remove(work, x), |tasks|) && Distinct(Remove(work, x))
    ensures forall y :: y in Remove(work, x) <==> y in work && y != x
  {
    RemoveMembers(work, x);
    RemoveDistinct(work, x);
    var work' := Remove(work, x);
    forall i | 0 <= i < |work'|
      ensures work'[i] < |tasks|
    {
      assert work'[i] in work;
    }
  }

  /** Appending the winner keeps the taken tasks ahead of the rest. */
  lemma StepBefore<T>(tasks: seq<Task<T>>, taken: seq<nat>, work: seq<nat>, finished: nat, work': seq<nat>)
    requires Below(taken, |tasks|) && Below(work, |tasks|) && Below(work', |tasks|)
    requires finished in work && Earliest(tasks, work, finished)
    requires forall y :: y in work' ==> y in work && y != finished
    requires Before(tasks, taken, work)
    ensures Below(taken + [finished], |tasks|)
    ensures Before(tasks, taken + [finished], work')
  {
    var taken' := taken + [finished];
    forall k, w | 0 <= k < |taken'| && 0 <= w < |work'|
      ensures tasks[taken'[k]].rank < tasks[work'[w]].rank
    {
      assert work'[w] in work;
      var q :| 0 <= q < |work| && work[q] == work'[w];
      if k < |taken| {
        assert tasks[taken[k]].rank < tasks[work[q]].rank;
      }
    }
  }

  /** Appending a task ranked after all the taken ones keeps the
      ranks increasing. */
  lemma StepByRank<T>(tasks: seq<Task<T>>, taken: seq<nat>, finished: nat)
    requires Below(taken, |tasks|) && finished < |tasks| && ByRank(tasks, taken)
    requires forall k :: 0 <= k < |taken| ==> tasks[taken[k]].rank < tasks[finished].rank
    ensures Below(taken + [finished], |tasks|) && ByRank(tasks, taken + [finished])
  {
    var taken' := taken + [finished];
    forall k, k' | 0 <= k < k' < |taken'|
      ensures tasks[taken'[k]].rank < tasks[taken'[k']].rank
    {
      if k' == |taken| {
        assert taken'[k'] == finished;
      }
    }
  }

  /** One race: taking the winner and removing it from the work list keeps
      the drain's state consistent. */
  lemma ProgressStep<T>(tasks: seq<Task<T>>, taken: seq<nat>, work: seq<nat>)
    requires DistinctRanks(tasks)
    requires Progress(tasks, taken, work) && |work| > 0
    ensures var finished := work[WhenAny(tasks, work)];
            Progress(tasks, taken + [finished], Remove(work, finished))
  {
    var finished := work[WhenAny(tasks, work)];
    WinnerEarliest(tasks, work);
    RemoveKeeps(tasks, work, finished);
    var work' := Remove(work, finished);
    StepBefore(tasks, taken, work, finished, work');
    assert forall k :: 0 <= k < |taken| ==> tasks[taken[k]].rank < tasks[finished].rank by {
      var p :| 0 <= p < |work| && work[p] == finished;
      assert forall k :: 0 <= k < |taken| ==> tasks[taken[k]].rank < tasks[work[p]].rank;
    }
    StepByRank(tasks, taken, finished);
    MoveOne(taken, work, finished);
  }

  /** Moving a task from the work list to the taken list keeps the tasks
      the two lists hold together. */
  lemma MoveOne(taken: seq<nat>, work: seq<nat>, x: nat)
    requires x in work
    ensures multiset(taken + [x]) + multiset(Remove(work, x)) == multiset(taken) + multiset(work)
  {
    assert multiset(taken + [x]) == multiset(taken) + multiset{x};
  }
}
