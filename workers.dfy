/** The worker pool of compute/workers.rs: its FIFO job queue with the shutdown
    flag, the index tagging of a batch, the unordered result stream and the
    stage that puts completions back into submission order.

    Threads, the condition variable and the mpsc channels are not modelled:
    the queue is driven by sequential calls, and the order in which the
    workers complete their tasks is an input (the arrival sequence). */
module Workers {
  import opened Wrappers

  /** WorkerPool::new starts this many worker threads. */
  function ThreadCount(threads: nat): (n: nat)
    ensures n >= 1
    ensures threads >= 1 ==> n == threads
    ensures threads == 0 ==> n == 1
  {
    if threads >= 1 then threads else 1
  }

  //
  // The job queue (Inner and its State)
  //

  /** What a worker gets back from `next_job`: a job, None once the pool is
      shut down and drained, or a wait on the condition variable. */
  datatype Poll<J> = Ready(job: J) | Closed | Blocked

  /** The mutex-protected state of `Inner`: the queue and the shutdown flag.
      Nothing in the pool sets the flag; the methods handle both values. */
  class Inner<J> {
    var queue: seq<J>
    var shutdown: bool

    constructor ()
      ensures queue == [] && !shutdown
    {
      queue := [];
      shutdown := false;
    }

    /** `Inner::push`: appends the job, unless the pool is shut down. */
    method Push(job: J)
      modifies this
      ensures shutdown == old(shutdown)
      ensures queue == if old(shutdown) then old(queue) else old(queue) + [job]
    {
      if shutdown {
        return;
      }
      queue := queue + [job];
    }

    /** One pass of the loop in `Inner::next_job`: the front job if there is
        one; otherwise None when shut down, and otherwise the worker would
        wait (the state is left as it is). */
    method NextJob() returns (p: Poll<J>)
      modifies this
      ensures shutdown == old(shutdown)
      ensures old(queue) != [] ==> p == Ready(old(queue)[0]) && queue == old(queue)[1..]
      ensures old(queue) == [] ==> queue == [] && p == (if shutdown then Closed else Blocked)
    {
      if queue != [] {
        p := Ready(queue[0]);
        queue := queue[1..];
        return;
      }
      if shutdown {
        return Closed;
      }
      return Blocked;
    }

    /** `worker_loop` for a single worker and no concurrent pushes: it runs
        the queued jobs in FIFO order until `next_job` would block or end. */
    method WorkerLoop() returns (ran: seq<J>, last: Poll<J>)
      modifies this
      ensures ran == old(queue) && queue == [] && shutdown == old(shutdown)
      ensures last == if shutdown then Closed else Blocked
    {
      ran := [];
      last := NextJob();
      while last.Ready?
        invariant shutdown == old(shutdown)
        invariant last.Ready? ==> old(queue) == ran + [last.job] + queue
        invariant !last.Ready? ==> old(queue) == ran && queue == []
        invariant !last.Ready? ==> last == if shutdown then Closed else Blocked
        decreases |queue|, if last.Ready? then 1 else 0
      {
        ran := ran + [last.job];
        last := NextJob();
      }
    }
  }

  //
  // Tagging a batch (run_indexed_channel) and the unordered stream (run_channel)
  //

  /** Each task of a batch paired with its zero-based submission index. */
  function Tagged<T>(tasks: seq<T>): (t: seq<(nat, T)>)
    ensures |t| == |tasks|
    ensures forall k :: 0 <= k < |t| ==> t[k] == (k, tasks[k])
  {
    seq(|tasks|, k requires 0 <= k < |tasks| => (k, tasks[k]))
  }

  /** The enqueue loop of `run_indexed_channel`: task k of the batch is
      queued as a job that will send its result tagged with index k. */
  method EnqueueIndexed<T>(inner: Inner<(nat, T)>, tasks: seq<T>)
    modifies inner
    ensures inner.shutdown == old(inner.shutdown)
    ensures inner.queue == if old(inner.shutdown) then old(inner.queue)
                           else old(inner.queue) + Tagged(tasks)
  {
    for idx := 0 to |tasks|
      invariant inner.shutdown == old(inner.shutdown)
      invariant inner.queue == if inner.shutdown then old(inner.queue)
                               else old(inner.queue) + Tagged(tasks[..idx])
    {
      assert Tagged(tasks[..idx + 1]) == Tagged(tasks[..idx]) + [(idx, tasks[idx])];
      inner.Push((idx, tasks[idx]));
    }
    assert tasks[..|tasks|] == tasks;
  }

  /** A batch submitted to a fresh pool is handed to a worker in submission
      order, each task with its own index. */
  method RunBatchOnOneWorker<T>(tasks: seq<T>) returns (ran: seq<(nat, T)>)
    ensures ran == Tagged(tasks)
  {
    var inner := new Inner<(nat, T)>();
    EnqueueIndexed(inner, tasks);
    var last;
    ran, last := inner.WorkerLoop();
  }

  /** One pool reused for several batches, one after the other: each batch
      is queued on the same queue and run by the worker in submission
      order, and after each batch the worker waits for more work instead
      of ending, so the next batch finds the pool as the first did. */
  method RunBatchesOnOneWorker<T>(inner: Inner<(nat, T)>, batches: seq<seq<T>>)
    returns (rounds: seq<seq<(nat, T)>>)
    requires inner.queue == [] && !inner.shutdown
    modifies inner
    ensures |rounds| == |batches|
    ensures forall r :: 0 <= r < |batches| ==> rounds[r] == Tagged(batches[r])
    ensures inner.queue == [] && !inner.shutdown
  {
    rounds := [];
    for r := 0 to |batches|
      invariant inner.queue == [] && !inner.shutdown
      invariant |rounds| == r && forall q :: 0 <= q < r ==> rounds[q] == Tagged(batches[q])
    {
      EnqueueIndexed(inner, batches[r]);
      var ran, last := inner.WorkerLoop();
      assert last == Blocked;
      rounds := rounds + [ran];
    }
  }

  /** `run_channel`: the completion stream with the indices dropped. */
  function Results<R>(arrivals: seq<(nat, R)>): (rs: seq<R>)
    ensures |rs| == |arrivals|
    ensures forall j :: 0 <= j < |rs| ==> rs[j] == arrivals[j].1
  {
    seq(|arrivals|, j requires 0 <= j < |arrivals| => arrivals[j].1)
  }

  lemma ResultsConcat<R>(u: seq<(nat, R)>, v: seq<(nat, R)>)
    ensures Results(u + v) == Results(u) + Results(v)
  {
  }

  /** Taking one element out of both sides of a permutation. */
  lemma RemoveMatching<T>(a: seq<T>, b: seq<T>, i: nat)
    requires multiset(a) == multiset(b) && a != [] && i < |b| && b[i] == a[0]
    ensures multiset(a[1..]) == multiset(b[..i] + b[i + 1..])
  {
    var x := a[0];
    assert a == [x] + a[1..];
    assert b == b[..i] + [x] + b[i + 1..];
    calc {
      multiset(a[1..]);
      multiset(a) - multiset{x};
      multiset(b) - multiset{x};
      multiset(b[..i]) + multiset(b[i + 1..]);
      multiset(b[..i] + b[i + 1..]);
    }
  }

  lemma {:induction false} ResultsPermute<R>(a: seq<(nat, R)>, b: seq<(nat, R)>)
    requires multiset(a) == multiset(b)
    ensures multiset(Results(a)) == multiset(Results(b))
    decreases |a|
  {
    if a == [] {
      assert |b| == |multiset(b)| == 0;
    } else {
      var x := a[0];
      assert x in multiset(b);
      var i :| 0 <= i < |b| && b[i] == x;
      var front, back := b[..i], b[i + 1..];
      RemoveMatching(a, b, i);
      ResultsPermute(a[1..], front + back);
      assert a == [x] + a[1..];
      assert b == front + [x] + back;
      ResultsConcat([x], a[1..]);
      ResultsConcat(front + [x], back);
      ResultsConcat(front, [x]);
      ResultsConcat(front, back);
    }
  }

  /** Whatever the completion order, `run_channel` yields exactly the tasks'
      results, each once. */
  lemma RunChannelPermutes<R>(results: seq<R>, arrivals: seq<(nat, R)>)
    requires multiset(arrivals) == multiset(Tagged(results))
    ensures multiset(Results(arrivals)) == multiset(results)
  {
    ResultsPermute(arrivals, Tagged(results));
    assert Results(Tagged(results)) == results;
  }

  //
  // The reorder stage of run_ordered_channel, one event per arrival
  //

  /** The reorder thread's state: `next_expected`, the BTreeMap buffer, what
      it has sent on the ordered channel, and whether it has returned
      because a send failed. */
  datatype Reorder<R> = Reorder(next: nat, buffer: map<nat, R>, out: seq<R>, stopped: bool)

  function Initial<R>(): Reorder<R> {
    Reorder(0, map[], [], false)
  }

  /** The ordered receiver takes the send of result number k (from 0): the
      consumer drops it after `dropAt` results, and every later send fails. */
  predicate Accepts(dropAt: Option<nat>, k: nat) {
    dropAt.None? || k < dropAt.value
  }

  /** The inner `while let Some(result) = buffer.remove(&next_expected)`. */
  function Drain<R>(s: Reorder<R>, dropAt: Option<nat>): Reorder<R>
    decreases |s.buffer.Keys|
  {
    if s.stopped || s.next !in s.buffer then s
    else
      var rest := s.buffer - {s.next};
      assert rest.Keys == s.buffer.Keys - {s.next};
      if !Accepts(dropAt, s.next) then s.(buffer := rest, stopped := true)
      else Drain(Reorder(s.next + 1, rest, s.out + [s.buffer[s.next]], false), dropAt)
  }

  /** One arrival `(idx, result)`: insert it into the buffer, then drain. */
  function Arrive<R>(s: Reorder<R>, a: (nat, R), dropAt: Option<nat>): Reorder<R> {
    if s.stopped then s else Drain(s.(buffer := s.buffer[a.0 := a.1]), dropAt)
  }

  /** The reorder thread after consuming the given arrivals in order. */
  function Run<R>(arrivals: seq<(nat, R)>, dropAt: Option<nat>): Reorder<R>
    decreases |arrivals|
  {
    if arrivals == [] then Initial()
    else Arrive(Run(arrivals[..|arrivals| - 1], dropAt), arrivals[|arrivals| - 1], dropAt)
  }

  /** The reorder thread spawned by `run_ordered_channel`, over the sequence
      in which the tagged results arrive on the unordered channel. */
  method ReorderStage<R>(arrivals: seq<(nat, R)>, dropAt: Option<nat>) returns (out: seq<R>)
    ensures out == Run(arrivals, dropAt).out
  {
    var next: nat := 0;
    var buffer: map<nat, R> := map[];
    out := [];
    for i := 0 to |arrivals|
      invariant Run(arrivals[..i], dropAt) == Reorder(next, buffer, out, false)
    {
      RunStep(arrivals, i, dropAt);
      var stopped;
      next, buffer, out, stopped := DrainBuffer(next, buffer[arrivals[i].0 := arrivals[i].1], out, dropAt);
      if stopped {
        StoppedStays(arrivals, i + 1, dropAt);
        return;
      }
    }
    assert arrivals[..|arrivals|] == arrivals;
  }

  /** The inner `while let` loop: send the buffered results from `next` on
      until one is missing or a send fails. */
  method DrainBuffer<R>(next0: nat, buffer0: map<nat, R>, out0: seq<R>, dropAt: Option<nat>)
    returns (next: nat, buffer: map<nat, R>, out: seq<R>, stopped: bool)
    ensures Reorder(next, buffer, out, stopped) == Drain(Reorder(next0, buffer0, out0, false), dropAt)
  {
    next, buffer, out := next0, buffer0, out0;
    while next in buffer
      invariant Drain(Reorder(next, buffer, out, false), dropAt) == Drain(Reorder(next0, buffer0, out0, false), dropAt)
      decreases |buffer.Keys|
    {
      var r := buffer[next];
      assert (buffer - {next}).Keys == buffer.Keys - {next};
      buffer := buffer - {next};
      if !Accepts(dropAt, next) {
        return next, buffer, out, true;
      }
      out := out + [r];
      next := next + 1;
    }
    stopped := false;
  }

  lemma RunStep<R>(arrivals: seq<(nat, R)>, i: nat, dropAt: Option<nat>)
    requires i < |arrivals|
    ensures Run(arrivals[..i + 1], dropAt) == Arrive(Run(arrivals[..i], dropAt), arrivals[i], dropAt)
  {
    assert arrivals[..i + 1][..i] == arrivals[..i];
  }

  //
  // Properties of the reorder stage
  //

  /** The indices that have arrived. */
  function Indices<R>(arrivals: seq<(nat, R)>): set<nat> {
    set j | 0 <= j < |arrivals| :: arrivals[j].0
  }

  lemma IndicesSnoc<R>(p: seq<(nat, R)>, a: (nat, R))
    ensures Indices(p + [a]) == Indices(p) + {a.0}
  {
    var q := p + [a];
    forall k | k in Indices(q) ensures k in Indices(p) + {a.0} {
      var j :| 0 <= j < |q| && q[j].0 == k;
      if j < |p| { assert p[j].0 == k; }
    }
    forall k | k in Indices(p) + {a.0} ensures k in Indices(q) {
      if k == a.0 {
        assert q[|p|].0 == k;
      } else {
        var j :| 0 <= j < |p| && p[j].0 == k;
        assert q[j].0 == k;
      }
    }
  }

  /** What one drain does: it sends the run of consecutive keys from `next`,
      removes exactly those keys, and stops only on a refused send. */
  lemma DrainFacts<R>(s: Reorder<R>, dropAt: Option<nat>)
    ensures var t := Drain(s, dropAt);
      && t.next >= s.next
      && |t.out| == |s.out| + (t.next - s.next)
      && (forall k :: s.next <= k < t.next ==> k in s.buffer)
      && (forall k :: k in t.buffer ==> k in s.buffer && t.buffer[k] == s.buffer[k])
      && (!s.stopped ==> forall k :: k in t.buffer ==> !(s.next <= k <= t.next))
      && (!t.stopped ==> !s.stopped && t.next !in t.buffer)
      && (!t.stopped ==> forall k :: k in s.buffer && !(s.next <= k < t.next) ==> k in t.buffer)
      && (s.stopped ==> t == s)
      && (dropAt.None? && !s.stopped ==> !t.stopped)
      && (dropAt.Some? && s.next <= dropAt.value ==> t.next <= dropAt.value)
  {
    DrainProgress(s, dropAt);
    DrainRemoves(s, dropAt);
  }

  /** A drain sends one result per key it passes, all of them buffered,
      and never past the consumer's drop. */
  lemma {:induction false} DrainProgress<R>(s: Reorder<R>, dropAt: Option<nat>)
    ensures var t := Drain(s, dropAt);
      && t.next >= s.next
      && |t.out| == |s.out| + (t.next - s.next)
      && (forall k :: s.next <= k < t.next ==> k in s.buffer)
      && (s.stopped ==> t == s)
      && (dropAt.None? && !s.stopped ==> !t.stopped)
      && (dropAt.Some? && s.next <= dropAt.value ==> t.next <= dropAt.value)
    decreases |s.buffer.Keys|
  {
    if !s.stopped && s.next in s.buffer {
      var rest := s.buffer - {s.next};
      assert rest.Keys == s.buffer.Keys - {s.next};
      if Accepts(dropAt, s.next) {
        var u := Reorder(s.next + 1, rest, s.out + [s.buffer[s.next]], false);
        DrainProgress(u, dropAt);
        var t := Drain(u, dropAt);
        assert Drain(s, dropAt) == t;
        forall k | s.next <= k < t.next ensures k in s.buffer {
          if k > s.next { assert k in rest; }
        }
      }
    }
  }

  /** A drain removes exactly the keys it passes (and the refused one) and
      leaves every other entry as it was. */
  lemma {:induction false} DrainRemoves<R>(s: Reorder<R>, dropAt: Option<nat>)
    ensures var t := Drain(s, dropAt);
      && t.next >= s.next
      && (forall k :: k in t.buffer ==> k in s.buffer && t.buffer[k] == s.buffer[k])
      && (!s.stopped ==> forall k :: k in t.buffer ==> !(s.next <= k <= t.next))
      && (!t.stopped ==> !s.stopped && t.next !in t.buffer)
      && (!t.stopped ==> forall k :: k in s.buffer && !(s.next <= k < t.next) ==> k in t.buffer)
    decreases |s.buffer.Keys|
  {
    if !s.stopped && s.next in s.buffer {
      var rest := s.buffer - {s.next};
      assert rest.Keys == s.buffer.Keys - {s.next};
      if Accepts(dropAt, s.next) {
        var u := Reorder(s.next + 1, rest, s.out + [s.buffer[s.next]], false);
        DrainRemoves(u, dropAt);
        assert Drain(s, dropAt) == Drain(u, dropAt);
      }
    }
  }

  /** Every arrival carries the result of the task its index names. */
  ghost predicate Consistent<R>(arrivals: seq<(nat, R)>, results: seq<R>) {
    forall j :: 0 <= j < |arrivals| ==>
      arrivals[j].0 < |results| && arrivals[j].1 == results[arrivals[j].0]
  }

  /** The stage's state agrees with the batch's results. */
  ghost predicate Agrees<R>(s: Reorder<R>, results: seq<R>) {
    && s.next <= |results|
    && s.out == results[..s.next]
    && forall k :: k in s.buffer ==> k < |results| && s.buffer[k] == results[k]
  }

  lemma {:induction false} DrainAgrees<R>(s: Reorder<R>, dropAt: Option<nat>, results: seq<R>)
    requires Agrees(s, results)
    ensures Agrees(Drain(s, dropAt), results)
    decreases |s.buffer.Keys|
  {
    if s.stopped || s.next !in s.buffer {
    } else {
      var rest := s.buffer - {s.next};
      assert rest.Keys == s.buffer.Keys - {s.next};
      if Accepts(dropAt, s.next) {
        var u := Reorder(s.next + 1, rest, s.out + [s.buffer[s.next]], false);
        assert results[..s.next + 1] == results[..s.next] + [results[s.next]];
        DrainAgrees(u, dropAt, results);
      }
    }
  }

  /** The invariant of the reorder loop, for any arrival sequence. */
  lemma {:induction false} RunFacts<R>(arrivals: seq<(nat, R)>, dropAt: Option<nat>)
    ensures var t := Run(arrivals, dropAt);
      && |t.out| == t.next
      && (forall k :: 0 <= k < t.next ==> k in Indices(arrivals))
      && (forall k :: k in t.buffer ==> k in Indices(arrivals))
      && (!t.stopped ==> t.next !in t.buffer)
      && (!t.stopped ==> forall k :: k in Indices(arrivals) && k >= t.next ==> k in t.buffer)
      && (dropAt.Some? ==> t.next <= dropAt.value)
      && (dropAt.None? ==> !t.stopped)
    decreases |arrivals|
  {
    if arrivals != [] {
      var p, a := arrivals[..|arrivals| - 1], arrivals[|arrivals| - 1];
      assert arrivals == p + [a];
      RunFacts(p, dropAt);
      IndicesSnoc(p, a);
      var s := Run(p, dropAt);
      if !s.stopped {
        var u := s.(buffer := s.buffer[a.0 := a.1]);
        DrainFacts(u, dropAt);
        var t := Drain(u, dropAt);
        assert Run(arrivals, dropAt) == t;
        forall k | 0 <= k < t.next ensures k in Indices(arrivals) {
          if k >= s.next {
            assert k in u.buffer;
          }
        }
      }
    }
  }

  lemma {:induction false} RunAgrees<R>(arrivals: seq<(nat, R)>, dropAt: Option<nat>, results: seq<R>)
    requires Consistent(arrivals, results)
    ensures Agrees(Run(arrivals, dropAt), results)
    decreases |arrivals|
  {
    if arrivals != [] {
      var p, a := arrivals[..|arrivals| - 1], arrivals[|arrivals| - 1];
      assert Consistent(p, results) by {
        forall j | 0 <= j < |p| ensures p[j].0 < |results| && p[j].1 == results[p[j].0] {
          assert p[j] == arrivals[j];
        }
      }
      RunAgrees(p, dropAt, results);
      var s := Run(p, dropAt);
      if !s.stopped {
        DrainAgrees(s.(buffer := s.buffer[a.0 := a.1]), dropAt, results);
      }
    }
  }

  /** The stage sends results in index order 0, 1, 2, ... with no gap:
      what it has sent is always a prefix of the batch's results. */
  lemma EmitsInIndexOrder<R>(arrivals: seq<(nat, R)>, dropAt: Option<nat>, results: seq<R>)
    requires Consistent(arrivals, results)
    ensures var out := Run(arrivals, dropAt).out;
      |out| <= |results| && out == results[..|out|]
  {
    RunAgrees(arrivals, dropAt, results);
    RunFacts(arrivals, dropAt);
  }

  /** A result whose index never arrives holds back every later one. */
  lemma StopsAtGap<R>(arrivals: seq<(nat, R)>, dropAt: Option<nat>, k: nat)
    requires k !in Indices(arrivals)
    ensures |Run(arrivals, dropAt).out| <= k
  {
    RunFacts(arrivals, dropAt);
  }

  /** Once a send has failed the stage has returned: later arrivals change
      nothing, and it never sends more than the receiver accepted. */
  lemma {:induction false} StoppedStays<R>(arrivals: seq<(nat, R)>, j: nat, dropAt: Option<nat>)
    requires j <= |arrivals| && Run(arrivals[..j], dropAt).stopped
    ensures Run(arrivals, dropAt) == Run(arrivals[..j], dropAt)
    decreases |arrivals|
  {
    if j < |arrivals| {
      var p := arrivals[..|arrivals| - 1];
      assert p[..j] == arrivals[..j];
      StoppedStays(p, j, dropAt);
    } else {
      assert arrivals[..j] == arrivals;
    }
  }

  lemma SendsAtMostAccepted<R>(arrivals: seq<(nat, R)>, m: nat)
    ensures |Run(arrivals, Some(m)).out| <= m
  {
    RunFacts(arrivals, Some(m));
  }

  /** No two arrivals carry the same index. */
  ghost predicate DistinctIndices<R>(arrivals: seq<(nat, R)>) {
    forall i, j :: 0 <= i < j < |arrivals| ==> arrivals[i].0 != arrivals[j].0
  }

  /** With distinct indices the buffer never keeps a key at or below
      `next_expected` after a drain. */
  lemma {:induction false} NoStaleKeys<R>(arrivals: seq<(nat, R)>, dropAt: Option<nat>)
    requires DistinctIndices(arrivals)
    ensures var t := Run(arrivals, dropAt);
      !t.stopped ==> forall k :: k in t.buffer ==> k > t.next
    decreases |arrivals|
  {
    if arrivals != [] {
      var p, a := arrivals[..|arrivals| - 1], arrivals[|arrivals| - 1];
      assert arrivals == p + [a];
      assert DistinctIndices(p) by {
        forall i, j | 0 <= i < j < |p| ensures p[i].0 != p[j].0 {
          assert p[i] == arrivals[i] && p[j] == arrivals[j];
        }
      }
      NoStaleKeys(p, dropAt);
      RunFacts(p, dropAt);
      var s := Run(p, dropAt);
      if !s.stopped {
        forall i | 0 <= i < |p| ensures p[i].0 != a.0 {
          assert p[i] == arrivals[i];
        }
        assert a.0 !in Indices(p);
        var u := s.(buffer := s.buffer[a.0 := a.1]);
        DrainFacts(u, dropAt);
      }
    }
  }

  lemma {:induction false} CountAtMostOne<T>(s: seq<T>, x: T)
    requires forall i, j :: 0 <= i < |s| && 0 <= j < |s| && s[i] == x && s[j] == x ==> i == j
    ensures multiset(s)[x] <= 1
    decreases |s|
  {
    if s != [] {
      var p := s[..|s| - 1];
      assert s == p + [s[|s| - 1]];
      CountAtMostOne(p, x);
      if s[|s| - 1] == x {
        assert x !in p;
      }
    }
  }

  lemma CountAtLeastTwo<T>(s: seq<T>, i: nat, j: nat)
    requires i < j < |s| && s[i] == s[j]
    ensures multiset(s)[s[i]] >= 2
  {
    assert s == s[..j] + s[j..];
    assert s[i] in s[..j];
    assert s[j..][0] == s[j];
  }

  /** Arrivals that are a permutation of a tagged batch have distinct indices. */
  lemma PermutationIsDistinct<R>(results: seq<R>, arrivals: seq<(nat, R)>)
    requires multiset(arrivals) == multiset(Tagged(results))
    ensures DistinctIndices(arrivals)
  {
    var t := Tagged(results);
    forall i, j | 0 <= i < j < |arrivals| ensures arrivals[i].0 != arrivals[j].0 {
      if arrivals[i].0 == arrivals[j].0 {
        assert arrivals[i] in multiset(t) && arrivals[j] in multiset(t);
        assert arrivals[i] == arrivals[j];
        CountAtLeastTwo(arrivals, i, j);
        CountAtMostOne(t, arrivals[i]);
      }
    }
  }

  /** `run_ordered_channel`: whatever order the workers complete the batch
      in, the ordered channel carries exactly the tasks' results in
      submission order (with no gaps, no repeats and no stale buffer keys). */
  lemma OrderedChannel<R>(results: seq<R>, arrivals: seq<(nat, R)>)
    requires multiset(arrivals) == multiset(Tagged(results))
    ensures Run(arrivals, None).out == results
    ensures Run(arrivals, None).buffer == map[]
  {
    var t := Tagged(results);
    assert Consistent(arrivals, results) by {
      forall j | 0 <= j < |arrivals|
        ensures arrivals[j].0 < |results| && arrivals[j].1 == results[arrivals[j].0]
      {
        assert arrivals[j] in multiset(t);
      }
    }
    forall k | 0 <= k < |results| ensures k in Indices(arrivals) {
      assert t[k] in multiset(arrivals);
      var j :| 0 <= j < |arrivals| && arrivals[j] == t[k];
      assert arrivals[j].0 == k;
    }
    RunAgrees(arrivals, None, results);
    RunFacts(arrivals, None);
    PermutationIsDistinct(results, arrivals);
    NoStaleKeys(arrivals, None);
    var s := Run(arrivals, None);
    assert s.next == |results|;
    assert s.buffer.Keys == {};
  }

  /** The first unit test: delays 30, 5 and 15 complete as 5, 15, 30. */
  lemma SubmissionOrderExample()
    ensures Run([(1, 5), (2, 15), (0, 30)], None).out == [30, 5, 15]
  {
    var a := [(1, 5), (2, 15), (0, 30)];
    assert Tagged([30, 5, 15]) == [(0, 30), (1, 5), (2, 15)];
    assert multiset(a) == multiset(Tagged([30, 5, 15]));
    OrderedChannel([30, 5, 15], a);
  }
}
