/**
  `JobRunner` from pcef/core/system.py as an abstract state machine.

  The runner owns a FIFO queue of jobs and a `running` flag.  Jobs are
  identified by their submission index.  Threads, `QThread.start`,
  `terminate` and the event posted by `stopJob` become explicit pieces of
  state, and the environment drives the machine with three kinds of event:
  a live thread's `run` coming to its end, the delivery of the oldest
  posted stop (`Invoker.event` calling the bound `stopRun`), and the
  caller's own `startJob` / `stopJob` calls.
 */
module JobRunner {
  import opened JobThreads

  /** The whole observable state of one runner.
      - `queue`: ids of submitted jobs not yet popped, oldest first;
      - `running`: the `__jobRunning` flag;
      - `threads`: the thread object created for each job id;
      - `live`: ids whose thread was started and has neither returned nor
        been terminated;
      - `started`: every id whose thread was started, in start order;
      - `finished`: the id of the thread on whose behalf `executeNext` ran,
        once per call, in call order;
      - `pending`: posted but undelivered stops, each naming the job whose
        `stopRun` it will call;
      - `next`: the id the next submitted job receives. */
  datatype Runner = Runner(
    queue: seq<nat>,
    running: bool,
    threads: map<nat, Thread>,
    live: set<nat>,
    started: seq<nat>,
    finished: seq<nat>,
    pending: seq<nat>,
    next: nat)

  /** A runner with nothing submitted. */
  function Init(): Runner
  {
    Runner([], false, map[], {}, [], [], [], 0)
  }

  /** The thread object of job `j`. */
  function ThreadOf(s: Runner, j: nat): Thread
  {
    if j in s.threads then s.threads[j] else NewThread()
  }

  /** `QThread.start()` on job `j`'s thread. */
  function Start(s: Runner, j: nat): Runner
  {
    s.(started := s.started + [j], live := s.live + {j})
  }

  /** `executeNext`: clears `running`, pops the head if there is one, and
      starts the new head if one remains. */
  function ExecuteNext(s: Runner): (r: Runner)
    ensures |s.queue| == 0 ==> r == s.(running := false)
    ensures |s.queue| > 0 ==> r.queue == s.queue[1..]
    ensures r.running <==> |r.queue| > 0
    ensures |r.queue| > 0 ==> r.started == s.started + [r.queue[0]] && r.live == s.live + {r.queue[0]}
    ensures |r.queue| == 0 ==> r.started == s.started && r.live == s.live
    ensures r.threads == s.threads && r.finished == s.finished
    ensures r.pending == s.pending && r.next == s.next
  {
    var s1 := s.(running := false);
    var s2 := if |s1.queue| > 0 then s1.(queue := s1.queue[1..]) else s1;
    if |s2.queue| > 0 then Start(s2, s2.queue[0]).(running := true) else s2
  }

  /** `stopJob`: posts a stop bound to the head's `stopRun`; nothing on an
      empty queue. */
  function StopJob(s: Runner): (r: Runner)
    ensures |s.queue| == 0 ==> r == s
    ensures |s.queue| > 0 ==> r == s.(pending := s.pending + [s.queue[0]])
  {
    if |s.queue| > 0 then s.(pending := s.pending + [s.queue[0]]) else s
  }

  /** The thread `startJob` builds for a body and its arguments. */
  function Configure(t: Thread, body: Slot, params: Params): (r: Thread)
    ensures r.executeOnRun == body && r.executeOnFinish == Callable(ExecuteNextHook)
    ensures r.params == params
  {
    SetParameters(SetMethods(t, body, Callable(ExecuteNextHook)), params)
  }

  /** `startJob(callable, force, *args, **kwargs)`: appends a new job at the
      tail, posts a stop for the head when `force` is set, and, when the
      runner is idle, reconfigures the head with this body and these
      arguments and starts it. */
  function StartJob(s: Runner, body: Slot, force: bool, params: Params): (r: Runner)
    ensures r.queue == s.queue + [s.next]
    ensures r.next == s.next + 1
    ensures r.running
    ensures force && |s.queue| > 0 ==> r.pending == s.pending + [s.queue[0]]
    ensures force && |s.queue| == 0 ==> r.pending == s.pending + [s.next]
    ensures !force ==> r.pending == s.pending
    ensures s.running ==> r.started == s.started && r.live == s.live
    ensures !s.running ==> r.started == s.started + [r.queue[0]] && r.live == s.live + {r.queue[0]}
    ensures r.finished == s.finished
    ensures s.next in r.threads && r.threads[s.next] == Configure(NewThread(), body, params)
    ensures r.threads.Keys == s.threads.Keys + {s.next} + (if s.running then {} else {r.queue[0]})
    ensures forall j :: j in r.threads ==> r.threads[j].executeOnFinish == Callable(ExecuteNextHook)
                                           || (j in s.threads && r.threads[j] == s.threads[j])
  {
    var id := s.next;
    var s1 := s.(queue := s.queue + [id], threads := s.threads[id := Configure(NewThread(), body, params)], next := id + 1);
    var s2 := if force then StopJob(s1) else s1;
    if !s2.running then
      var h := s2.queue[0];
      assert h == id ==> ThreadOf(s2, h) == Configure(NewThread(), body, params);
      assert Configure(Configure(NewThread(), body, params), body, params) == Configure(NewThread(), body, params);
      var s3 := s2.(threads := s2.threads[h := Configure(ThreadOf(s2, h), body, params)]);
      Start(s3, h).(running := true)
    else s2
  }

  /** The effect on the runner of one action performed by job `j`'s thread.
      The body's own effects are not the runner's; the runner's finish
      hook is `executeNext`; a terminated or raising thread is no longer
      live. */
  function Perform(s: Runner, j: nat, a: Action): Runner
  {
    match a
    case CallBody(_, _) => s
    case CallFinish(ExecuteNextHook) => ExecuteNext(s).(finished := s.finished + [j])
    case CallFinish(Function(_)) => s
    case Terminate => s.(live := s.live - {j})
    case Raise => s.(live := s.live - {j})
  }

  function PerformAll(s: Runner, j: nat, acts: seq<Action>): Runner
    decreases |acts|
  {
    if |acts| == 0 then s else PerformAll(Perform(s, j, acts[0]), j, acts[1..])
  }

  lemma PerformOne(s: Runner, j: nat, a: Action)
    ensures PerformAll(s, j, [a]) == Perform(s, j, a)
  {
    assert [a][1..] == [];
  }

  lemma PerformTwo(s: Runner, j: nat, a: Action, b: Action)
    ensures PerformAll(s, j, [a, b]) == Perform(Perform(s, j, a), j, b)
  {
    assert [a, b][1..] == [b];
    PerformOne(Perform(s, j, a), j, b);
  }

  /** Events from the caller and from the environment. */
  datatype Event =
    | Submit(body: Slot, force: bool, params: Params)   // startJob
    | RequestStop                                       // stopJob
    | ThreadEnds(job: nat)                              // the job's run() returns or raises
    | DeliverStop                                       // the oldest posted stop is dispatched
    | DropStop(index: nat)                              // a replaced stop is discarded undelivered

  /** Which events can happen.  Every post of a stop replaces
      `caller.invoker`, so an earlier stop still waiting for delivery may
      be discarded with its old receiver: any stop but the newest may be
      dropped. */
  predicate Enabled(s: Runner, e: Event)
  {
    match e
    case ThreadEnds(j) => j in s.live
    case DeliverStop => |s.pending| > 0
    case DropStop(i) => i + 1 < |s.pending|
    case _ => true
  }

  /** The thread `run` of job `j` neither posts nor consumes stops. */
  lemma PerformRun(s: Runner, j: nat, t: Thread)
    ensures PerformAll(s, j, Run(t)).pending == s.pending
    ensures PerformAll(s, j, Run(t)).next == s.next
  {
    match t.executeOnRun
    case Callable(f) =>
      if t.executeOnFinish.Callable? {
        assert Run(t) == [CallBody(f, t.params), CallFinish(t.executeOnFinish.fn)];
        PerformTwo(s, j, CallBody(f, t.params), CallFinish(t.executeOnFinish.fn));
      } else {
        assert Run(t) == [CallBody(f, t.params)];
        PerformOne(s, j, CallBody(f, t.params));
      }
    case _ =>
      assert Run(t) == [Raise];
      PerformOne(s, j, Raise);
  }

  /** `stopRun` on job `j`'s thread ends that thread and neither posts nor
      consumes stops. */
  lemma PerformStopRun(s: Runner, j: nat, t: Thread)
    ensures j !in PerformAll(s, j, StopRun(t)).live
    ensures PerformAll(s, j, StopRun(t)).pending == s.pending
    ensures PerformAll(s, j, StopRun(t)).next == s.next
  {
    if t.executeOnFinish.Callable? {
      assert StopRun(t) == [CallFinish(t.executeOnFinish.fn), Terminate];
      PerformTwo(s, j, CallFinish(t.executeOnFinish.fn), Terminate);
    } else {
      assert StopRun(t) == [Terminate];
      PerformOne(s, j, Terminate);
    }
  }

  /** One event.  A thread reaching the end of `run` is no longer live; the
      delivery of the oldest stop consumes it and ends its target's thread
      through `stopRun`; dropping a replaced stop removes it and changes
      nothing else.  None of these posts a stop or submits a job. */
  function Step(s: Runner, e: Event): (r: Runner)
    requires Enabled(s, e)
    ensures e.ThreadEnds? ==> e.job !in r.live && r.pending == s.pending && r.next == s.next
    ensures e.DeliverStop? ==> s.pending[0] !in r.live && r.pending == s.pending[1..] && r.next == s.next
    ensures e.DropStop? ==>
              && |r.pending| == |s.pending| - 1
              && r.pending == s.pending[..e.index] + s.pending[e.index + 1..]
              && r.(pending := s.pending) == s
  {
    match e
    case Submit(body, force, params) => StartJob(s, body, force, params)
    case RequestStop => StopJob(s)
    case ThreadEnds(j) =>
      PerformRun(s, j, ThreadOf(s, j));
      var after := PerformAll(s, j, Run(ThreadOf(s, j)));
      after.(live := after.live - {j})
    case DeliverStop =>
      var j := s.pending[0];
      PerformStopRun(s.(pending := s.pending[1..]), j, ThreadOf(s, j));
      PerformAll(s.(pending := s.pending[1..]), j, StopRun(ThreadOf(s, j)))
    case DropStop(i) =>
      s.(pending := s.pending[..i] + s.pending[i + 1..])
  }

  /** A stop about to be delivered whose target is no longer the head of
      the queue: the job it was posted for has already been popped. */
  predicate StaleStop(s: Runner)
  {
    |s.pending| > 0 && (|s.queue| == 0 || s.pending[0] != s.queue[0])
  }

  /** The ids `0 .. n-1` in order: the submission order of the first `n` jobs. */
  function Iota(n: nat): (r: seq<nat>)
    ensures |r| == n
    ensures forall i :: 0 <= i < n ==> r[i] == i
  {
    seq(n, i requires 0 <= i < n => i)
  }

  /** Number of jobs popped from the queue so far. */
  function Popped(s: Runner): nat
  {
    if |s.queue| <= s.next then s.next - |s.queue| else 0
  }

  /** What holds in every reachable state, whatever the environment does. */
  ghost predicate Inv(s: Runner)
  {
    && (s.running <==> |s.queue| > 0)
    && |s.queue| <= s.next
    && (forall i :: 0 <= i < |s.queue| ==> s.queue[i] == Popped(s) + i)
    && s.started == Iota(Popped(s) + (if s.running then 1 else 0))
    && (forall j: nat :: j in s.threads <==> j < s.next)
    && (forall j :: j in s.threads ==> s.threads[j].executeOnFinish == Callable(ExecuteNextHook))
    && (forall j :: j in s.live ==> j < s.next)
    && (forall i :: 0 <= i < |s.pending| ==> s.pending[i] < s.next)
  }

  /** What holds in addition while no stale stop has been delivered: at most
      one thread is live and it is the head's, and every pop happened on
      behalf of the job popped, in submission order. */
  ghost predicate CleanInv(s: Runner)
  {
    && (forall j :: j in s.live ==> |s.queue| > 0 && j == s.queue[0])
    && s.finished == Iota(Popped(s))
  }

  lemma InitInv()
    ensures Inv(Init()) && CleanInv(Init())
  {
  }

  lemma StartJobInv(s: Runner, body: Slot, force: bool, params: Params)
    requires Inv(s)
    ensures Inv(StartJob(s, body, force, params))
  {
    var r := StartJob(s, body, force, params);
    assert Popped(r) == Popped(s);
    assert forall i :: 0 <= i < |r.queue| ==> r.queue[i] == Popped(r) + i by {
      forall i | 0 <= i < |r.queue|
        ensures r.queue[i] == Popped(r) + i
      {
        if i < |s.queue| {
          assert r.queue[i] == s.queue[i];
        }
      }
    }
    if !s.running {
      assert Popped(s) == s.next;
      assert r.started == Iota(Popped(s)) + [s.next];
      assert r.started == Iota(Popped(r) + 1);
    }
  }

  lemma StartJobClean(s: Runner, body: Slot, force: bool, params: Params)
    requires Inv(s) && CleanInv(s)
    ensures CleanInv(StartJob(s, body, force, params))
  {
    var r := StartJob(s, body, force, params);
    assert Popped(r) == Popped(s);
    if s.running {
      assert r.queue[0] == s.queue[0];
    } else {
      assert s.live == {};
    }
  }

  lemma StopJobInv(s: Runner)
    requires Inv(s)
    ensures Inv(StopJob(s))
    ensures CleanInv(s) ==> CleanInv(StopJob(s))
  {
  }

  /** Job `j`'s finish hook runs `executeNext` and then its thread ends:
      what both a natural return and a delivered stop do. */
  function FinishJob(s: Runner, j: nat): Runner
  {
    var r := ExecuteNext(s);
    r.(finished := s.finished + [j], live := r.live - {j})
  }

  lemma StepThreadEnds(s: Runner, j: nat)
    requires Inv(s) && j in s.live
    ensures ThreadOf(s, j).executeOnRun.Callable? ==> Step(s, ThreadEnds(j)) == FinishJob(s, j)
    ensures !ThreadOf(s, j).executeOnRun.Callable? ==> Step(s, ThreadEnds(j)) == s.(live := s.live - {j})
  {
    var t := ThreadOf(s, j);
    assert t.executeOnFinish == Callable(ExecuteNextHook);
    if t.executeOnRun.Callable? {
      assert Run(t) == [CallBody(t.executeOnRun.fn, t.params), CallFinish(ExecuteNextHook)];
      PerformTwo(s, j, CallBody(t.executeOnRun.fn, t.params), CallFinish(ExecuteNextHook));
    } else {
      assert Run(t) == [Raise];
      PerformOne(s, j, Raise);
    }
  }

  lemma StepDeliverStop(s: Runner)
    requires Inv(s) && |s.pending| > 0
    ensures Step(s, DeliverStop) == FinishJob(s.(pending := s.pending[1..]), s.pending[0])
  {
    var j := s.pending[0];
    var t := ThreadOf(s, j);
    assert t.executeOnFinish == Callable(ExecuteNextHook);
    assert StopRun(t) == [CallFinish(ExecuteNextHook), Terminate];
    PerformTwo(s.(pending := s.pending[1..]), j, CallFinish(ExecuteNextHook), Terminate);
  }

  /** Inside one stop delivery the runner passes through a state with two
      live job threads: `stopRun` calls `onFinish`, which is `executeNext`,
      so the next head is started before `terminate` ends the target.  The
      event boundaries on either side have at most one. */
  lemma StopRunOverlap(s: Runner)
    requires Inv(s) && |s.queue| >= 2
    requires |s.pending| > 0 && s.pending[0] == s.queue[0] && s.queue[0] in s.live
    ensures var mid := Perform(s.(pending := s.pending[1..]), s.queue[0], CallFinish(ExecuteNextHook));
            && s.queue[0] in mid.live && s.queue[1] in mid.live && s.queue[0] != s.queue[1]
            && Step(s, DeliverStop) == Perform(mid, s.queue[0], Terminate)
            && s.queue[0] !in Step(s, DeliverStop).live
  {
    var j := s.queue[0];
    var t := ThreadOf(s, j);
    assert t.executeOnFinish == Callable(ExecuteNextHook);
    assert StopRun(t) == [CallFinish(ExecuteNextHook), Terminate];
    PerformTwo(s.(pending := s.pending[1..]), j, CallFinish(ExecuteNextHook), Terminate);
  }

  lemma FinishJobInv(s: Runner, j: nat)
    requires Inv(s)
    ensures Inv(FinishJob(s, j))
  {
    var r := ExecuteNext(s);
    if |s.queue| > 0 {
      assert Popped(r) == Popped(s) + 1;
      if |r.queue| > 0 {
        assert r.queue[0] == Popped(r);
        assert r.started == Iota(Popped(r)) + [Popped(r)];
        assert r.started == Iota(Popped(r) + 1);
      } else {
        assert r.started == Iota(Popped(r));
      }
    }
  }

  /** Finishing the head keeps the clean invariant. */
  lemma FinishHeadClean(s: Runner)
    requires Inv(s) && CleanInv(s) && |s.queue| > 0
    ensures CleanInv(FinishJob(s, s.queue[0]))
  {
    var j := s.queue[0];
    var r := ExecuteNext(s);
    assert Popped(r) == Popped(s) + 1;
    assert j == Popped(s);
    assert s.finished + [j] == Iota(Popped(r));
  }

  lemma StepInv(s: Runner, e: Event)
    requires Inv(s) && Enabled(s, e)
    ensures Inv(Step(s, e))
  {
    match e
    case Submit(body, force, params) => StartJobInv(s, body, force, params);
    case RequestStop => StopJobInv(s);
    case ThreadEnds(j) =>
      StepThreadEnds(s, j);
      FinishJobInv(s, j);
    case DeliverStop =>
      StepDeliverStop(s);
      FinishJobInv(s.(pending := s.pending[1..]), s.pending[0]);
    case DropStop(i) =>
      DropStopInv(s, i);
  }

  /** Dropping a stop keeps every remaining stop aimed at a submitted job. */
  lemma DropStopInv(s: Runner, i: nat)
    requires Inv(s) && i + 1 < |s.pending|
    ensures Inv(Step(s, DropStop(i)))
  {
    var r := Step(s, DropStop(i));
    forall k | 0 <= k < |r.pending|
      ensures r.pending[k] < r.next
    {
      if k < i {
        assert r.pending[k] == s.pending[k];
      } else {
        assert r.pending[k] == s.pending[k + 1];
      }
    }
  }

  /** Every step other than the delivery of a stale stop keeps the clean
      invariant. */
  lemma StepClean(s: Runner, e: Event)
    requires Inv(s) && CleanInv(s) && Enabled(s, e)
    requires !(e.DeliverStop? && StaleStop(s))
    ensures CleanInv(Step(s, e))
  {
    match e
    case Submit(body, force, params) => StartJobClean(s, body, force, params);
    case RequestStop => StopJobInv(s);
    case ThreadEnds(j) =>
      StepThreadEnds(s, j);
      if ThreadOf(s, j).executeOnRun.Callable? {
        FinishHeadClean(s);
      }
    case DeliverStop =>
      StepDeliverStop(s);
      FinishHeadClean(s.(pending := s.pending[1..]));
    case DropStop(i) =>
  }

  /** A sequence of events each of which is enabled when it happens. */
  ghost predicate Trace(s: Runner, es: seq<Event>)
    decreases |es|
  {
    |es| == 0 || (Enabled(s, es[0]) && Trace(Step(s, es[0]), es[1..]))
  }

  function Final(s: Runner, es: seq<Event>): Runner
    requires Trace(s, es)
    decreases |es|
  {
    if |es| == 0 then s else Final(Step(s, es[0]), es[1..])
  }

  /** No stale stop is delivered along the trace. */
  ghost predicate Clean(s: Runner, es: seq<Event>)
    requires Trace(s, es)
    decreases |es|
  {
    |es| == 0 || (!(es[0].DeliverStop? && StaleStop(s)) && Clean(Step(s, es[0]), es[1..]))
  }

  lemma {:induction false} TraceInv(s: Runner, es: seq<Event>)
    requires Inv(s) && Trace(s, es)
    ensures Inv(Final(s, es))
    ensures CleanInv(s) && Clean(s, es) ==> CleanInv(Final(s, es))
    decreases |es|
  {
    if |es| > 0 {
      StepInv(s, es[0]);
      if CleanInv(s) && Clean(s, es) {
        StepClean(s, es[0]);
      }
      TraceInv(Step(s, es[0]), es[1..]);
    }
  }

  /** In every state reachable from an empty runner, `running` holds exactly
      when the queue is non-empty, and the jobs started so far are the
      first ones submitted, in submission order: nothing is started out of
      FIFO order, whatever the environment does. */
  lemma FifoStarts(es: seq<Event>)
    requires Trace(Init(), es)
    ensures Final(Init(), es).running <==> |Final(Init(), es).queue| > 0
    ensures |Final(Init(), es).started| <= Final(Init(), es).next
    ensures forall i :: 0 <= i < |Final(Init(), es).started| ==> Final(Init(), es).started[i] == i
  {
    InitInv();
    TraceInv(Init(), es);
  }

  /** Along a trace without stale stop deliveries at most one thread is live,
      it belongs to the head of the queue, and `executeNext` has run once
      per popped job, on that job's behalf, in submission order. */
  lemma CleanAtMostOne(es: seq<Event>)
    requires Trace(Init(), es) && Clean(Init(), es)
    ensures |Final(Init(), es).live| <= 1
    ensures forall j :: j in Final(Init(), es).live ==> |Final(Init(), es).queue| > 0 && j == Final(Init(), es).queue[0]
    ensures Final(Init(), es).finished == Iota(Popped(Final(Init(), es)))
  {
    InitInv();
    TraceInv(Init(), es);
    var f := Final(Init(), es);
    if |f.live| > 0 {
      assert f.live <= {f.queue[0]};
      SubsetSingleton(f.live, f.queue[0]);
    }
  }

  lemma SubsetSingleton(a: set<nat>, x: nat)
    requires a <= {x}
    ensures |a| <= 1
  {
    if a != {} {
      assert a == {x};
    }
  }

  /** `stopJob` on an empty queue changes nothing; otherwise it posts one
      stop, aimed at the head, and changes nothing else. */
  lemma StopJobTargetsHead(s: Runner)
    ensures |s.queue| == 0 ==> StopJob(s) == s
    ensures |s.queue| > 0 ==> |StopJob(s).pending| == |s.pending| + 1
    ensures |s.queue| > 0 ==> StopJob(s).pending[|s.pending|] == s.queue[0]
    ensures StopJob(s).queue == s.queue && StopJob(s).running == s.running && StopJob(s).live == s.live
  {
  }

  /** On an idle runner a forced submission posts its stop for the job it
      has just submitted, which is also the job it starts; `force` never
      moves the new job ahead of older queued ones. */
  lemma ForceOnIdleTargetsNewJob(s: Runner, body: Slot, params: Params)
    requires Inv(s) && !s.running
    ensures StartJob(s, body, true, params).pending == s.pending + [s.next]
    ensures StartJob(s, body, true, params).started == s.started + [s.next]
    ensures StartJob(s, body, true, params).queue == [s.next]
  {
  }

  /** On a busy runner a forced submission stops the running head, not the
      new job, and the new job waits behind every older queued job. */
  lemma ForceOnBusyTargetsHead(s: Runner, body: Slot, params: Params)
    requires Inv(s) && s.running
    ensures StartJob(s, body, true, params).pending == s.pending + [s.queue[0]]
    ensures StartJob(s, body, true, params).queue == s.queue + [s.next]
    ensures s.queue[0] != s.next
    ensures StartJob(s, body, true, params).started == s.started
  {
  }

  /** When the runner is idle the reconfiguration of the head in `startJob`
      touches only the job just submitted, so the started thread runs
      exactly the submitted body with the submitted arguments. */
  lemma IdleStartRunsSubmittedBody(s: Runner, body: Slot, force: bool, params: Params)
    requires Inv(s) && !s.running
    ensures StartJob(s, body, force, params).queue[0] == s.next
    ensures ThreadOf(StartJob(s, body, force, params), s.next).executeOnRun == body
    ensures ThreadOf(StartJob(s, body, force, params), s.next).params == params
    ensures forall j :: j in s.threads ==> StartJob(s, body, force, params).threads[j] == s.threads[j]
  {
    var r := StartJob(s, body, force, params);
    assert s.next !in s.threads;
  }

  /** The events of the stale-stop scenario: jobs 0 and 1 are submitted,
      the caller asks to stop job 0, job 0 finishes on its own, job 2 is
      submitted, and only then is the stop delivered. */
  function HazardEvents(b: Slot, p: Params): seq<Event>
  {
    [Submit(b, false, p), Submit(b, false, p), RequestStop, ThreadEnds(0),
     Submit(b, false, p), DeliverStop]
  }

  /** States `ss[0..]` visited by the events `es`, one step each. */
  ghost predicate Visits(ss: seq<Runner>, es: seq<Event>)
  {
    && |ss| == |es| + 1
    && forall i :: 0 <= i < |es| ==> Enabled(ss[i], es[i]) && ss[i + 1] == Step(ss[i], es[i])
  }

  lemma {:induction false} VisitsTrace(ss: seq<Runner>, es: seq<Event>)
    requires Visits(ss, es)
    ensures Trace(ss[0], es) && Final(ss[0], es) == ss[|es|]
    decreases |es|
  {
    if |es| > 0 {
      assert Visits(ss[1..], es[1..]) by {
        forall i | 0 <= i < |es[1..]|
          ensures Enabled(ss[1..][i], es[1..][i]) && ss[1..][i + 1] == Step(ss[1..][i], es[1..][i])
        {
          assert ss[1..][i] == ss[i + 1] && es[1..][i] == es[i + 1];
        }
      }
      VisitsTrace(ss[1..], es[1..]);
    }
  }

  /** The first half of the scenario: after job 0 has finished on its own,
      its stop is still pending while job 1 is the running head. */
  lemma HazardFirstHalf(b: Slot, p: Params) returns (s3: Runner, s4: Runner)
    requires b.Callable?
    ensures Inv(s4)
    ensures s3 == StopJob(StartJob(StartJob(Init(), b, false, p), b, false, p))
    ensures 0 in s3.live && s4 == Step(s3, ThreadEnds(0))
    ensures s4.queue == [1] && s4.live == {1} && s4.finished == [0] && s4.pending == [0] && s4.next == 2
  {
    InitInv();
    var s1 := StartJob(Init(), b, false, p);
    StartJobInv(Init(), b, false, p);
    var s2 := StartJob(s1, b, false, p);
    StartJobInv(s1, b, false, p);
    StopJobInv(s2);
    s3 := Step(s2, RequestStop);
    assert s3.queue == [0, 1] && s3.live == {0} && s3.pending == [0];
    assert ThreadOf(s3, 0).executeOnRun == b;
    StepThreadEnds(s3, 0);
    s4 := Step(s3, ThreadEnds(0));
    StepInv(s3, ThreadEnds(0));
  }

  /** The second half of the scenario: job 2 is submitted and the stale
      stop for job 0 is delivered. */
  lemma HazardSecondHalf(s4: Runner, b: Slot, p: Params) returns (s5: Runner, s6: Runner)
    requires Inv(s4)
    requires s4.queue == [1] && s4.live == {1} && s4.finished == [0] && s4.pending == [0] && s4.next == 2
    ensures s5 == StartJob(s4, b, false, p)
    ensures |s5.pending| > 0 && s6 == Step(s5, DeliverStop)
    ensures s6.live == {1, 2} && s6.queue == [2] && s6.finished == [0, 0]
  {
    s5 := StartJob(s4, b, false, p);
    StartJobInv(s4, b, false, p);
    assert s5.queue == [1, 2] && s5.live == {1} && s5.pending == [0];
    StepDeliverStop(s5);
    s6 := Step(s5, DeliverStop);
  }

  /** The stale-stop hazard: the stop posted for job 0 is delivered after
      job 0 has already finished.  It calls job 0's `stopRun`, whose finish
      hook pops the queue once more: job 1 is dropped from the queue while
      its thread still runs, job 2 is started beside it, and `executeNext`
      has run twice on behalf of job 0. */
  lemma StaleStopHazard(b: Slot, p: Params)
    requires b.Callable?
    ensures Trace(Init(), HazardEvents(b, p))
    ensures var f := Final(Init(), HazardEvents(b, p));
      f.live == {1, 2} && f.queue == [2] && f.finished == [0, 0]
  {
    var s3, s4 := HazardFirstHalf(b, p);
    var s5, s6 := HazardSecondHalf(s4, b, p);
    var s0 := Init();
    var s1 := StartJob(s0, b, false, p);
    var s2 := StartJob(s1, b, false, p);
    var ss := [s0, s1, s2, s3, s4, s5, s6];
    var es := HazardEvents(b, p);
    assert Visits(ss, es) by {
      forall i | 0 <= i < |es|
        ensures Enabled(ss[i], es[i]) && ss[i + 1] == Step(ss[i], es[i])
      {
        if i == 0 {
          assert ss[1] == Step(s0, Submit(b, false, p));
        } else if i == 1 {
          assert ss[2] == Step(s1, Submit(b, false, p));
        } else if i == 2 {
          assert ss[3] == Step(s2, RequestStop);
        } else if i == 3 {
          assert ss[4] == Step(s3, ThreadEnds(0));
        } else if i == 4 {
          assert ss[5] == Step(s4, Submit(b, false, p));
        } else {
          assert ss[6] == Step(s5, DeliverStop);
        }
      }
    }
    VisitsTrace(ss, es);
  }

  /** No event of `es` delivers a stale stop in the state it meets. */
  ghost predicate NoStaleDelivery(ss: seq<Runner>, es: seq<Event>)
    requires |ss| == |es| + 1
  {
    forall i :: 0 <= i < |es| ==> !(es[i].DeliverStop? && StaleStop(ss[i]))
  }

  lemma {:induction false} VisitsClean(ss: seq<Runner>, es: seq<Event>)
    requires Visits(ss, es) && NoStaleDelivery(ss, es)
    ensures Trace(ss[0], es) && Clean(ss[0], es)
    decreases |es|
  {
    VisitsTrace(ss, es);
    if |es| > 0 {
      assert Visits(ss[1..], es[1..]) by {
        forall i | 0 <= i < |es[1..]|
          ensures Enabled(ss[1..][i], es[1..][i]) && ss[1..][i + 1] == Step(ss[1..][i], es[1..][i])
        {
          assert ss[1..][i] == ss[i + 1] && es[1..][i] == es[i + 1];
        }
      }
      assert NoStaleDelivery(ss[1..], es[1..]) by {
        forall i | 0 <= i < |es[1..]|
          ensures !(es[1..][i].DeliverStop? && StaleStop(ss[1..][i]))
        {
          assert ss[1..][i] == ss[i + 1] && es[1..][i] == es[i + 1];
        }
      }
      VisitsClean(ss[1..], es[1..]);
    }
  }

  /** The events of the replaced-stop scenario: jobs 0 and 1 are submitted,
      the caller asks to stop job 0, job 0 finishes on its own, the caller
      asks to stop job 1, the first stop is discarded with its replaced
      receiver, and only the stop for job 1 is delivered. */
  function ReplacedStopEvents(b: Slot, p: Params): seq<Event>
  {
    [Submit(b, false, p), Submit(b, false, p), RequestStop, ThreadEnds(0),
     RequestStop, DropStop(0), DeliverStop]
  }

  /** A visited run extended by one enabled step in front is still
      visited. */
  lemma VisitsPrepend(s: Runner, e: Event, ss: seq<Runner>, es: seq<Event>)
    requires Visits(ss, es) && Enabled(s, e) && ss[0] == Step(s, e)
    ensures Visits([s] + ss, [e] + es)
  {
    var ss', es' := [s] + ss, [e] + es;
    forall i | 0 <= i < |es'|
      ensures Enabled(ss'[i], es'[i]) && ss'[i + 1] == Step(ss'[i], es'[i])
    {
      if i > 0 {
        assert ss'[i] == ss[i - 1] && ss'[i + 1] == ss[i] && es'[i] == es[i - 1];
      }
    }
  }

  /** A visited run without stale deliveries extended by one enabled step
      in front, itself not a stale delivery, keeps both properties. */
  lemma VisitsCons(s: Runner, e: Event, ss: seq<Runner>, es: seq<Event>)
    requires Visits(ss, es) && NoStaleDelivery(ss, es)
    requires Enabled(s, e) && ss[0] == Step(s, e) && !(e.DeliverStop? && StaleStop(s))
    ensures Visits([s] + ss, [e] + es) && NoStaleDelivery([s] + ss, [e] + es)
  {
    VisitsPrepend(s, e, ss, es);
    var ss', es' := [s] + ss, [e] + es;
    forall i | 0 <= i < |es'|
      ensures !(es'[i].DeliverStop? && StaleStop(ss'[i]))
    {
      if i > 0 {
        assert ss'[i] == ss[i - 1] && es'[i] == es[i - 1];
      }
    }
  }

  /** Dropping the first step of a visited run leaves a visited run. */
  lemma VisitsTail(ss: seq<Runner>, es: seq<Event>)
    requires Visits(ss, es) && |es| > 0
    ensures Visits(ss[1..], es[1..])
  {
    forall i | 0 <= i < |es[1..]|
      ensures Enabled(ss[1..][i], es[1..][i]) && ss[1..][i + 1] == Step(ss[1..][i], es[1..][i])
    {
      assert ss[1..][i] == ss[i + 1] && es[1..][i] == es[i + 1];
    }
  }

  /** A visited run in which some delivery meets a stale stop is a trace
      that is not clean. */
  lemma {:induction false} VisitsStale(ss: seq<Runner>, es: seq<Event>, i: nat)
    requires Visits(ss, es) && i < |es| && es[i].DeliverStop? && StaleStop(ss[i])
    ensures Trace(ss[0], es) && !Clean(ss[0], es)
    decreases i
  {
    VisitsTrace(ss, es);
    if i > 0 {
      VisitsTail(ss, es);
      assert ss[1..][i - 1] == ss[i] && es[1..][i - 1] == es[i];
      VisitsStale(ss[1..], es[1..], i - 1);
    }
  }

  /** Every job has run and ended, and no stop is left waiting. */
  predicate Drained(r: Runner)
  {
    r.live == {} && r.queue == [] && !r.running && r.pending == []
  }

  /** The replaced-stop scenario ends with the delivery of job 1's stop to
      the live head, which is not stale: nothing is live afterwards and the
      queue is empty. */
  lemma ReplacedDelivery(s6: Runner) returns (ts: seq<Runner>)
    requires Inv(s6)
    requires s6.queue == [1] && s6.live == {1} && s6.finished == [0] && s6.pending == [1]
    ensures Visits(ts, [DeliverStop]) && NoStaleDelivery(ts, [DeliverStop]) && ts[0] == s6
    ensures Drained(ts[1]) && ts[1].finished == [0, 1]
  {
    StepDeliverStop(s6);
    var s7 := Step(s6, DeliverStop);
    var e := ExecuteNext(s6.(pending := []));
    assert e.queue == [] && e.live == {1};
    VisitsCons(s6, DeliverStop, [s7], []);
    ts := [s6, s7];
  }

  /** Before the delivery the stale stop for job 0 is discarded. */
  lemma ReplacedDrop(s5: Runner) returns (ts: seq<Runner>)
    requires Inv(s5)
    requires s5.queue == [1] && s5.live == {1} && s5.finished == [0] && s5.pending == [0, 1]
    ensures Visits(ts, [DropStop(0), DeliverStop]) && NoStaleDelivery(ts, [DropStop(0), DeliverStop])
    ensures ts[0] == s5 && Drained(ts[2]) && ts[2].finished == [0, 1]
  {
    DropStopInv(s5, 0);
    var s6 := Step(s5, DropStop(0));
    assert s6.pending == s5.pending[1..];
    var rest := ReplacedDelivery(s6);
    VisitsCons(s5, DropStop(0), rest, [DeliverStop]);
    ts := [s5] + rest;
  }

  /** The second half of the replaced-stop scenario: with job 0 ended on
      its own and its stop still waiting, the caller asks to stop job 1. */
  lemma ReplacedSecondHalf(s4: Runner) returns (ts: seq<Runner>)
    requires Inv(s4)
    requires s4.queue == [1] && s4.live == {1} && s4.finished == [0] && s4.pending == [0]
    ensures Visits(ts, [RequestStop, DropStop(0), DeliverStop])
    ensures NoStaleDelivery(ts, [RequestStop, DropStop(0), DeliverStop])
    ensures ts[0] == s4 && Drained(ts[3]) && ts[3].finished == [0, 1]
  {
    StopJobInv(s4);
    var s5 := Step(s4, RequestStop);
    var rest := ReplacedDrop(s5);
    VisitsCons(s4, RequestStop, rest, [DropStop(0), DeliverStop]);
    ts := [s4] + rest;
  }

  /** The replaced-stop scenario from the first stop request on: job 0
      ends, job 1 is asked to stop, the stale stop is dropped and job 1's
      stop is delivered. */
  lemma ReplacedStopTail(b: Slot, p: Params) returns (ts: seq<Runner>)
    requires b.Callable?
    ensures Visits(ts, [ThreadEnds(0), RequestStop, DropStop(0), DeliverStop])
    ensures NoStaleDelivery(ts, [ThreadEnds(0), RequestStop, DropStop(0), DeliverStop])
    ensures ts[0] == StopJob(StartJob(StartJob(Init(), b, false, p), b, false, p))
    ensures Drained(ts[4]) && ts[4].finished == [0, 1]
  {
    var s3, s4 := HazardFirstHalf(b, p);
    var rest := ReplacedSecondHalf(s4);
    VisitsCons(s3, ThreadEnds(0), rest, [RequestStop, DropStop(0), DeliverStop]);
    ts := [s3] + rest;
  }

  /** The states the replaced-stop scenario passes through, one per event
      boundary; no delivery in it meets a stale stop. */
  lemma ReplacedStopStates(b: Slot, p: Params) returns (ss: seq<Runner>)
    requires b.Callable?
    ensures Visits(ss, ReplacedStopEvents(b, p)) && ss[0] == Init()
    ensures NoStaleDelivery(ss, ReplacedStopEvents(b, p))
    ensures Drained(ss[7]) && ss[7].finished == [0, 1]
  {
    var ts := ReplacedStopTail(b, p);
    var tail := [ThreadEnds(0), RequestStop, DropStop(0), DeliverStop];
    var s0 := Init();
    var s1 := StartJob(s0, b, false, p);
    var s2 := StartJob(s1, b, false, p);
    VisitsCons(s2, RequestStop, ts, tail);
    VisitsCons(s1, Submit(b, false, p), [s2] + ts, [RequestStop] + tail);
    VisitsCons(s0, Submit(b, false, p), [s1] + ([s2] + ts), [Submit(b, false, p)] + ([RequestStop] + tail));
    ss := [s0] + ([s1] + ([s2] + ts));
    assert ss[7] == ts[4];
    assert [Submit(b, false, p)] + ([Submit(b, false, p)] + ([RequestStop] + tail)) == ReplacedStopEvents(b, p);
  }

  /** When the earlier stop is discarded, the run is clean: the delivered
      stop ends the live head, `executeNext` runs once for each job, and the
      runner ends empty and idle with no thread live. */
  lemma ReplacedStopDropped(b: Slot, p: Params)
    requires b.Callable?
    ensures Trace(Init(), ReplacedStopEvents(b, p)) && Clean(Init(), ReplacedStopEvents(b, p))
    ensures var f := Final(Init(), ReplacedStopEvents(b, p));
      f.live == {} && f.queue == [] && !f.running && f.finished == [0, 1] && f.pending == []
  {
    var ss := ReplacedStopStates(b, p);
    var es := ReplacedStopEvents(b, p);
    VisitsClean(ss, es);
    VisitsTrace(ss, es);
  }

  /** The events of the forced-stop scenario: a forced submission on an
      idle runner, its job returning before the stop is delivered, a plain
      submission, and then the delivery. */
  function ForcedStaleEvents(b: Slot, p: Params): seq<Event>
  {
    [Submit(b, true, p), ThreadEnds(0), Submit(b, false, p), DeliverStop]
  }

  /** The stop for job 0 is delivered while job 1 is the head. */
  lemma ForcedStaleDelivery(s2: Runner) returns (ts: seq<Runner>)
    requires Inv(s2)
    requires s2.queue == [1] && s2.live == {1} && s2.finished == [0] && s2.pending == [0]
    ensures Visits(ts, [DeliverStop]) && ts[0] == s2 && StaleStop(s2)
    ensures ts[1].queue == [] && !ts[1].running && ts[1].live == {1}
    ensures ts[1].finished == [0, 0] && ts[1].pending == []
  {
    StepDeliverStop(s2);
    var s3 := Step(s2, DeliverStop);
    var e := ExecuteNext(s2.(pending := []));
    assert e.queue == [] && e.live == {1};
    VisitsPrepend(s2, DeliverStop, [s3], []);
    ts := [s2, s3];
  }

  /** After job 0 has returned, a plain submission starts job 1 while the
      stop for job 0 is still waiting. */
  lemma ForcedResubmit(s1: Runner, b: Slot, p: Params) returns (ts: seq<Runner>)
    requires Inv(s1)
    requires s1.queue == [] && !s1.running && s1.live == {} && s1.finished == [0]
    requires s1.pending == [0] && s1.next == 1
    ensures Visits(ts, [Submit(b, false, p), DeliverStop]) && ts[0] == s1 && StaleStop(ts[1])
    ensures ts[2].queue == [] && !ts[2].running && ts[2].live == {1}
    ensures ts[2].finished == [0, 0] && ts[2].pending == []
  {
    StartJobInv(s1, b, false, p);
    var s2 := StartJob(s1, b, false, p);
    assert s2.queue == [1] && s2.live == {1} && s2.pending == [0];
    var rest := ForcedStaleDelivery(s2);
    VisitsPrepend(s1, Submit(b, false, p), rest, [DeliverStop]);
    ts := [s1] + rest;
  }

  /** The forced job returns before its stop is delivered. */
  lemma ForcedJobReturns(b: Slot, p: Params) returns (ts: seq<Runner>)
    requires b.Callable?
    ensures Visits(ts, [ThreadEnds(0), Submit(b, false, p), DeliverStop])
    ensures ts[0] == StartJob(Init(), b, true, p) && StaleStop(ts[2])
    ensures ts[3].queue == [] && !ts[3].running && ts[3].live == {1}
    ensures ts[3].finished == [0, 0] && ts[3].pending == []
  {
    InitInv();
    StartJobInv(Init(), b, true, p);
    var s1 := StartJob(Init(), b, true, p);
    assert s1.queue == [0] && s1.live == {0} && s1.pending == [0];
    assert ThreadOf(s1, 0).executeOnRun == b;
    StepThreadEnds(s1, 0);
    StepInv(s1, ThreadEnds(0));
    var rest := ForcedResubmit(Step(s1, ThreadEnds(0)), b, p);
    VisitsPrepend(s1, ThreadEnds(0), rest, [Submit(b, false, p), DeliverStop]);
    ts := [s1] + rest;
  }

  /** A forced submission on an idle runner stops its own job only if the
      stop arrives while that job runs: here the job returns first, so the
      stop goes stale, pops job 1 while job 1's thread still runs, and
      `executeNext` runs twice on behalf of job 0. */
  lemma ForcedStopGoesStale(b: Slot, p: Params)
    requires b.Callable?
    ensures Trace(Init(), ForcedStaleEvents(b, p)) && !Clean(Init(), ForcedStaleEvents(b, p))
    ensures var f := Final(Init(), ForcedStaleEvents(b, p));
      f.queue == [] && !f.running && f.live == {1} && f.finished == [0, 0] && f.pending == []
  {
    var ts := ForcedJobReturns(b, p);
    VisitsPrepend(Init(), Submit(b, true, p), ts, [ThreadEnds(0), Submit(b, false, p), DeliverStop]);
    var ss := [Init()] + ts;
    var es := ForcedStaleEvents(b, p);
    assert ss[3] == ts[2] && ss[4] == ts[3];
    VisitsTrace(ss, es);
    VisitsStale(ss, es, 3);
  }

  /** A job whose body is not callable raises in its thread without calling
      `executeNext`: the runner stays `running` with that job at the head,
      and no later submission starts anything until a stop for it arrives. */
  lemma NonCallableBodyStalls(s: Runner, body: Slot, p: Params, later: Slot, q: Params)
    requires Inv(s) && !s.running && !body.Callable?
    ensures s.next in StartJob(s, body, false, p).live
    ensures
      var r1 := Step(StartJob(s, body, false, p), ThreadEnds(s.next));
      && r1.running && r1.queue == [s.next] && s.next !in r1.live
      && StartJob(r1, later, false, q).started == r1.started
  {
    var r0 := StartJob(s, body, false, p);
    StartJobInv(s, body, false, p);
    assert ThreadOf(r0, s.next).executeOnRun == body;
    StepThreadEnds(r0, s.next);
  }
}
