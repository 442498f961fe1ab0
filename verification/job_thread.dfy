/**
  `JobThread` from pcef/core/system.py: a thread object that carries a body
  callback, a finish callback and the arguments for the body.  What the
  thread does is modelled as the sequence of actions it performs, so the
  order "body, then finish" and "finish, then terminate" is visible.
 */
module JobThreads {

  /** A callable the source can install.  `ExecuteNextHook` is the runner's
      bound method `executeNext`, the only finish hook the runner ever sets;
      `Function(id)` is any other caller-supplied callable. */
  datatype Callback = Function(id: nat) | ExecuteNextHook

  /** The state of an attribute that should hold a callback.  The source
      guards every call with "the attribute exists, is truthy and has
      `__call__`"; each way of failing that guard is one constructor. */
  datatype Slot = Unset | Falsy | NotCallable | Callable(fn: Callback)

  /** Positional and keyword arguments, opaque to the thread. */
  datatype Params = Params(args: seq<int>, kwargs: map<string, int>)

  datatype Thread = Thread(executeOnRun: Slot, executeOnFinish: Slot, params: Params)

  /** What a thread does, in order. */
  datatype Action =
    | CallBody(fn: Callback, params: Params)   // executeOnRun(*args, **kwargs)
    | CallFinish(fn: Callback)                 // executeOnFinish()
    | Terminate                                // QThread.terminate()
    | Raise                                    // Exception("Executing not callable statement")

  /** A fresh thread: no callbacks set, empty arguments. */
  function NewThread(): (t: Thread)
    ensures !t.executeOnRun.Callable? && !t.executeOnFinish.Callable?
    ensures t.params.args == [] && t.params.kwargs == map[]
  {
    Thread(Unset, Unset, Params([], map[]))
  }

  /** `setMethods`: installs both callbacks and keeps the arguments. */
  function SetMethods(t: Thread, onRun: Slot, onFinish: Slot): (r: Thread)
    ensures r.executeOnRun == onRun && r.executeOnFinish == onFinish
    ensures r.params == t.params
  {
    t.(executeOnRun := onRun, executeOnFinish := onFinish)
  }

  /** `setParameters`: replaces the arguments and keeps the callbacks. */
  function SetParameters(t: Thread, p: Params): (r: Thread)
    ensures r.params == p
    ensures r.executeOnRun == t.executeOnRun && r.executeOnFinish == t.executeOnFinish
  {
    t.(params := p)
  }

  /** `onFinish`: calls the finish hook when it is set and callable, and
      does nothing otherwise. */
  function OnFinish(t: Thread): (r: seq<Action>)
    ensures |r| <= 1
    ensures |r| == 1 <==> t.executeOnFinish.Callable?
    ensures forall a :: a in r ==> a.CallFinish?
  {
    match t.executeOnFinish
    case Callable(f) => [CallFinish(f)]
    case _ => []
  }

  /** `run`: calls the body with the stored arguments and then `onFinish`,
      or raises when no callable body is set. */
  function Run(t: Thread): (r: seq<Action>)
    ensures |r| >= 1
    ensures r[0] == Raise <==> !t.executeOnRun.Callable?
    ensures t.executeOnRun.Callable? ==> r[0] == CallBody(t.executeOnRun.fn, t.params) && r[1..] == OnFinish(t)
    ensures Terminate !in r
  {
    match t.executeOnRun
    case Callable(f) => [CallBody(f, t.params)] + OnFinish(t)
    case _ => [Raise]
  }

  /** `stopRun`: calls `onFinish`, then terminates the thread. */
  function StopRun(t: Thread): (r: seq<Action>)
    ensures |r| >= 1 && r[|r| - 1] == Terminate
    ensures r[..|r| - 1] == OnFinish(t)
  {
    OnFinish(t) + [Terminate]
  }

  /** Number of finish-hook calls in a sequence of actions. */
  function FinishCalls(acts: seq<Action>): nat
  {
    if |acts| == 0 then 0
    else (if acts[0].CallFinish? then 1 else 0) + FinishCalls(acts[1..])
  }

  lemma {:induction false} FinishCallsAppend(a: seq<Action>, b: seq<Action>)
    ensures FinishCalls(a + b) == FinishCalls(a) + FinishCalls(b)
    decreases |a|
  {
    if |a| == 0 {
      assert a + b == b;
    } else {
      assert (a + b)[0] == a[0];
      assert (a + b)[1..] == a[1..] + b;
      FinishCallsAppend(a[1..], b);
    }
  }

  /** `onFinish` calls the hook at most once, and exactly once precisely when
      the hook is set and callable. */
  lemma OnFinishAtMostOnce(t: Thread)
    ensures FinishCalls(OnFinish(t)) <= 1
    ensures FinishCalls(OnFinish(t)) == 1 <==> t.executeOnFinish.Callable?
    ensures forall i :: 0 <= i < |OnFinish(t)| ==> OnFinish(t)[i] == CallFinish(t.executeOnFinish.fn)
  {
  }

  /** `run` raises exactly when no callable body is set, and then does
      nothing else: it neither calls the body nor the finish hook. */
  lemma RunRaisesIffNoBody(t: Thread)
    ensures Raise in Run(t) <==> !t.executeOnRun.Callable?
    ensures !t.executeOnRun.Callable? ==> Run(t) == [Raise]
  {
  }

  /** With a callable body, `run` calls the body first, with the stored
      arguments, and afterwards the finish hook exactly once when it is
      callable; the thread is never terminated by its own run. */
  lemma RunBodyThenFinish(t: Thread)
    requires t.executeOnRun.Callable?
    ensures Run(t)[0] == CallBody(t.executeOnRun.fn, t.params)
    ensures FinishCalls(Run(t)) == (if t.executeOnFinish.Callable? then 1 else 0)
    ensures t.executeOnFinish.Callable? ==> Run(t) == [CallBody(t.executeOnRun.fn, t.params), CallFinish(t.executeOnFinish.fn)]
    ensures Terminate !in Run(t) && Raise !in Run(t)
  {
    FinishCallsAppend([CallBody(t.executeOnRun.fn, t.params)], OnFinish(t));
  }

  /** `stopRun` ends with the termination, which it performs once, and any
      finish-hook call comes before it. */
  lemma StopRunFinishesFirst(t: Thread)
    ensures |StopRun(t)| >= 1 && StopRun(t)[|StopRun(t)| - 1] == Terminate
    ensures forall i :: 0 <= i < |StopRun(t)| - 1 ==> StopRun(t)[i] == CallFinish(t.executeOnFinish.fn)
    ensures FinishCalls(StopRun(t)) == (if t.executeOnFinish.Callable? then 1 else 0)
    ensures Raise !in StopRun(t)
  {
    FinishCallsAppend(OnFinish(t), [Terminate]);
  }
}
