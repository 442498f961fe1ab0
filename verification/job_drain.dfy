/**
  Queue draining for the `JobRunner` of pcef/core/system.py: `n` plain
  submissions whose jobs each run to completion start and finish exactly
  those `n` jobs, in submission order, and leave the runner empty and idle.
 */
module JobDrain {
  import opened JobThreads
  import opened JobRunner

  /** `n` calls `startJob(body, False, *args, **kwargs)`. */
  function Submits(body: Slot, params: Params, n: nat): (es: seq<Event>)
    ensures |es| == n
  {
    seq(n, i requires 0 <= i < n => Submit(body, false, params))
  }

  /** Jobs `from`, `from + 1`, ... each returning from its `run`, in order. */
  function Completions(from: nat, n: nat): (es: seq<Event>)
    ensures |es| == n
  {
    seq(n, i requires 0 <= i < n => ThreadEnds(from + i))
  }

  /** Every job's thread has the same callable body. */
  ghost predicate BodiesAre(s: Runner, body: Slot)
  {
    forall j :: j in s.threads ==> s.threads[j].executeOnRun == body
  }

  /** Running two event sequences one after the other is running their
      concatenation. */
  lemma {:induction false} TraceAppend(s: Runner, a: seq<Event>, b: seq<Event>)
    requires Trace(s, a) && Trace(Final(s, a), b)
    ensures Trace(s, a + b) && Final(s, a + b) == Final(Final(s, a), b)
    decreases |a|
  {
    if |a| == 0 {
      assert a + b == b;
    } else {
      assert (a + b)[0] == a[0];
      assert (a + b)[1..] == a[1..] + b;
      TraceAppend(Step(s, a[0]), a[1..], b);
    }
  }

  /** A single enabled event is a trace ending in its step. */
  lemma TraceOne(s: Runner, e: Event)
    requires Enabled(s, e)
    ensures Trace(s, [e]) && Final(s, [e]) == Step(s, e)
  {
    assert [e][1..] == [];
  }

  /** The state `n` plain submissions lead to from a new runner. */
  ghost predicate Submitted(f: Runner, body: Slot, n: nat)
  {
    && Inv(f) && CleanInv(f) && BodiesAre(f, body)
    && f.queue == Iota(n) && f.next == n && f.pending == []
    && (n > 0 ==> f.queue[0] in f.live)
  }

  /** One more plain submission extends that state by job `n`. */
  lemma SubmitNext(s: Runner, body: Slot, params: Params, n: nat)
    requires Submitted(s, body, n)
    ensures Submitted(StartJob(s, body, false, params), body, n + 1)
  {
    StartJobInv(s, body, false, params);
    StartJobClean(s, body, false, params);
    var r := StartJob(s, body, false, params);
    if !s.running {
      IdleStartRunsSubmittedBody(s, body, false, params);
    }
    assert r.queue == Iota(n) + [n];
    assert r.queue == Iota(n + 1);
  }

  /** After `n` plain submissions to a new runner: the queue holds jobs
      `0 .. n-1` in order, and only job 0 has been started. */
  lemma {:induction false} SubmitAll(body: Slot, params: Params, n: nat)
    ensures Trace(Init(), Submits(body, params, n))
    ensures Submitted(Final(Init(), Submits(body, params, n)), body, n)
    decreases n
  {
    InitInv();
    if n > 0 {
      var es := Submits(body, params, n - 1);
      var e := Submit(body, false, params);
      SubmitAll(body, params, n - 1);
      var s := Final(Init(), es);
      TraceOne(s, e);
      TraceAppend(Init(), es, [e]);
      assert es + [e] == Submits(body, params, n);
      SubmitNext(s, body, params, n - 1);
    }
  }

  /** From a clean state whose head is live and whose jobs all have a
      callable body, letting the jobs return one by one, head first, pops
      every job and leaves the runner idle. */
  lemma {:induction false} DrainAll(s: Runner, body: Slot, m: nat)
    requires Inv(s) && CleanInv(s) && BodiesAre(s, body) && body.Callable?
    requires |s.queue| == m && (m > 0 ==> s.queue[0] in s.live)
    ensures Trace(s, Completions(Popped(s), m))
    ensures var f := Final(s, Completions(Popped(s), m));
            && Inv(f) && CleanInv(f)
            && f.queue == [] && !f.running && f.next == s.next && f.pending == s.pending
    decreases m
  {
    if m > 0 {
      var h := s.queue[0];
      var e := ThreadEnds(h);
      assert h == Popped(s);
      assert ThreadOf(s, h).executeOnRun == body;
      StepThreadEnds(s, h);
      StepInv(s, e);
      StepClean(s, e);
      var r := Step(s, e);
      assert r == FinishJob(s, h);
      assert Popped(r) == Popped(s) + 1;
      if m > 1 {
        assert r.queue[0] == h + 1;
      }
      DrainAll(r, body, m - 1);
      var es := Completions(Popped(s), m);
      assert es[0] == e;
      assert es[1..] == Completions(Popped(r), m - 1);
    }
  }

  /** Queue draining: `n` plain submissions followed by the natural
      completion of each job, in order, start exactly jobs `0 .. n-1` and
      run `executeNext` once for each of them, in that order, and leave the
      queue empty and the runner idle. */
  lemma QueueDraining(body: Slot, params: Params, n: nat)
    requires body.Callable?
    ensures Trace(Init(), Submits(body, params, n) + Completions(0, n))
    ensures var f := Final(Init(), Submits(body, params, n) + Completions(0, n));
            && f.queue == [] && !f.running
            && f.started == Iota(n) && f.finished == Iota(n)
  {
    SubmitAll(body, params, n);
    var s := Final(Init(), Submits(body, params, n));
    assert Popped(s) == 0;
    DrainAll(s, body, n);
    TraceAppend(Init(), Submits(body, params, n), Completions(0, n));
  }
}
