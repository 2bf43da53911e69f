/**
  A model of `call_llm_with_retries`: call a language-model client through the
  first of four method names it exposes, retrying the whole list of names a
  bounded number of times with a linear back-off between passes.

  The Python reflection is made explicit:
  - `getattr(llm, name, None)` followed by `callable(...)` becomes a look-up in
    `Llm.attrs` (a missing key is a missing attribute);
  - calling the method becomes the oracle `Llm.behave`, which says whether that
    call raises or returns, and what;
  - Python truthiness of a response becomes the parameter `isEmpty`;
  - `time.sleep` and `logger.debug` become entries appended to a trace.
*/
module LlmUtils {
  import opened Wrappers

  /** The attribute names probed on the client, `DunderCall` standing for `__call__`. */
  datatype MethodName = Generate | Chat | DunderCall | Request

  /** The fixed probing order of one attempt. */
  const MethodOrder: seq<MethodName> := [Generate, Chat, DunderCall, Request]

  /** Position of a name in the probing order. */
  function Rank(m: MethodName): (k: nat)
    ensures k < |MethodOrder| && MethodOrder[k] == m
    ensures forall j :: 0 <= j < |MethodOrder| && MethodOrder[j] == m ==> j == k
  {
    match m
    case Generate => 0
    case Chat => 1
    case DunderCall => 2
    case Request => 3
  }

  /** What `getattr` finds under a name that is present: something callable or not. */
  datatype Attribute = Uncallable | Callable

  /** What one call of a client method does: raise an exception or return a response. */
  datatype Outcome<R, E> = Raise(err: E) | Return(resp: R)

  /** One call made: the attempt it belongs to, the method used, and the arguments passed. */
  datatype Invocation<A> = Invocation(attempt: int, name: MethodName, args: A)

  /** The client object: its attributes, and how each call of one of its methods turns out. */
  datatype Llm<!A, R, E> = Llm(attrs: map<MethodName, Attribute>, behave: Invocation<A> -> Outcome<R, E>)

  /** `callable(getattr(llm, m, None))`. */
  predicate IsCallable<A, R, E>(llm: Llm<A, R, E>, m: MethodName)
  {
    m in llm.attrs && llm.attrs[m] == Callable
  }

  /** The two debug lines: a method raised (no attempt number), or returned an empty response. */
  datatype LogEntry<E> = Raised(name: MethodName, err: E) | ReturnedEmpty(name: MethodName, attempt: int)

  /**
    How the call ends: a truthy response; the `RuntimeError` raised after the last
    attempt, carrying the retry count and the last exception (if any); or the
    `ValueError` that `time.sleep` raises for a negative duration.
  */
  datatype Result<R, E> =
    | Success(resp: R)
    | Exhausted(retries: int, lastErr: Option<E>)
    | SleepRejected(seconds: real)

  /** A whole run: its result and, in order, the calls made, the sleeps taken and the lines logged. */
  datatype Run<A, R, E> = Run(result: Result<R, E>, calls: seq<Invocation<A>>, sleeps: seq<real>, logs: seq<LogEntry<E>>)

  /** One pass over (part of) the method names: the truthy response found, if any, and what the pass did. */
  datatype Pass<A, R, E> = Pass(found: Option<R>, lastErr: Option<E>, calls: seq<Invocation<A>>, logs: seq<LogEntry<E>>)

  /** `p` preceded by the calls and log lines of the part of the pass already done. */
  function PassAfter<A, R, E>(calls: seq<Invocation<A>>, logs: seq<LogEntry<E>>, p: Pass<A, R, E>): Pass<A, R, E>
  {
    Pass(p.found, p.lastErr, calls + p.calls, logs + p.logs)
  }

  /** `r` preceded by the calls, sleeps and log lines of the attempts already done. */
  function RunAfter<A, R, E>(calls: seq<Invocation<A>>, sleeps: seq<real>, logs: seq<LogEntry<E>>,
                             r: Run<A, R, E>): Run<A, R, E>
  {
    Run(r.result, calls + r.calls, sleeps + r.sleeps, logs + r.logs)
  }

  /** What one call contributes to a pass: a truthy response, or a failure with the error to keep and the line logged. */
  datatype CallResult<R, E> = Answered(resp: R) | Failed(lastErr: Option<E>, log: LogEntry<E>)

  /**
    The body of the inner loop for a callable method: an exception is kept and logged,
    a falsy response is logged and leaves the kept exception alone, and a truthy
    response is the answer.
  */
  function TryCall<A, R, E>(llm: Llm<A, R, E>, isEmpty: R -> bool, c: Invocation<A>, lastErr: Option<E>): CallResult<R, E>
  {
    match llm.behave(c)
    case Raise(e) => Failed(Some(e), Raised(c.name, e))
    case Return(resp) => if isEmpty(resp) then Failed(lastErr, ReturnedEmpty(c.name, c.attempt)) else Answered(resp)
  }

  /**
    The inner loop over the names still to probe: skip names that are not callable,
    go on after a failed call, stop at the first truthy response.
  */
  function TryMethods<A, R, E>(llm: Llm<A, R, E>, isEmpty: R -> bool, args: A, attempt: int,
                               names: seq<MethodName>, lastErr: Option<E>): Pass<A, R, E>
    decreases |names|
  {
    if names == [] then Pass(None, lastErr, [], [])
    else
      var name := names[0];
      if !IsCallable(llm, name) then TryMethods(llm, isEmpty, args, attempt, names[1..], lastErr)
      else
        var c := Invocation(attempt, name, args);
        match TryCall(llm, isEmpty, c, lastErr)
        case Answered(resp) => Pass(Some(resp), lastErr, [c], [])
        case Failed(kept, log) => PassAfter([c], [log], TryMethods(llm, isEmpty, args, attempt, names[1..], kept))
  }

  /**
    The outer loop from `attempt` on: a pass over all names; a truthy response ends
    the run; otherwise sleep `backoff * attempt` (a negative duration makes the sleep
    raise) and go on; past `retries`, fail with the last exception.
  */
  function Attempts<A, R, E>(llm: Llm<A, R, E>, isEmpty: R -> bool, args: A, retries: int,
                             backoff: real, attempt: int, lastErr: Option<E>): Run<A, R, E>
    decreases retries - attempt
  {
    if attempt > retries then Run(Exhausted(retries, lastErr), [], [], [])
    else
      var pass := TryMethods(llm, isEmpty, args, attempt, MethodOrder, lastErr);
      if pass.found.Some? then Run(Success(pass.found.value), pass.calls, [], pass.logs)
      else
        var pause := backoff * attempt as real;
        if pause < 0.0 then Run(SleepRejected(pause), pass.calls, [], pass.logs)
        else
          var rest := Attempts(llm, isEmpty, args, retries, backoff, attempt + 1, pass.lastErr);
          RunAfter(pass.calls, [pause], pass.logs, rest)
  }

  /** The whole call: attempts `1..retries`, no exception seen yet. */
  function CallWithRetries<A, R, E>(llm: Llm<A, R, E>, isEmpty: R -> bool, args: A,
                                    retries: int, backoff: real): Run<A, R, E>
  {
    Attempts(llm, isEmpty, args, retries, backoff, 1, None)
  }

  lemma PassAfterTwice<A, R, E>(c1: seq<Invocation<A>>, l1: seq<LogEntry<E>>,
                                c2: seq<Invocation<A>>, l2: seq<LogEntry<E>>, p: Pass<A, R, E>)
    ensures PassAfter(c1, l1, PassAfter(c2, l2, p)) == PassAfter(c1 + c2, l1 + l2, p)
  {
    assert c1 + (c2 + p.calls) == (c1 + c2) + p.calls;
    assert l1 + (l2 + p.logs) == (l1 + l2) + p.logs;
  }

  lemma RunAfterTwice<A, R, E>(c1: seq<Invocation<A>>, s1: seq<real>, l1: seq<LogEntry<E>>,
                               c2: seq<Invocation<A>>, s2: seq<real>, l2: seq<LogEntry<E>>, r: Run<A, R, E>)
    ensures RunAfter(c1, s1, l1, RunAfter(c2, s2, l2, r)) == RunAfter(c1 + c2, s1 + s2, l1 + l2, r)
  {
    assert c1 + (c2 + r.calls) == (c1 + c2) + r.calls;
    assert s1 + (s2 + r.sleeps) == (s1 + s2) + r.sleeps;
    assert l1 + (l2 + r.logs) == (l1 + l2) + r.logs;
  }

  /** The defaults of the keyword parameters. */
  const DefaultRetries: int := 3
  const DefaultBackoff: real := 1.5

  /**
    The inner `for method in (...)` loop of one attempt: the truthy response found, if
    any, the exception kept, and the lines logged, in order; the calls made are a
    ghost trace.
  */
  method TryEachMethod<A, R, E>(llm: Llm<A, R, E>, isEmpty: R -> bool, args: A, attempt: int, lastErr: Option<E>)
    returns (found: Option<R>, kept: Option<E>, logs: seq<LogEntry<E>>, ghost calls: seq<Invocation<A>>)
    ensures var pass := TryMethods(llm, isEmpty, args, attempt, MethodOrder, lastErr);
            found == pass.found && kept == pass.lastErr && logs == pass.logs
    ensures calls == TryMethods(llm, isEmpty, args, attempt, MethodOrder, lastErr).calls
  {
    kept, logs, calls := lastErr, [], [];
    for i := 0 to |MethodOrder|
      invariant TryMethods(llm, isEmpty, args, attempt, MethodOrder, lastErr)
        == PassAfter(calls, logs, TryMethods(llm, isEmpty, args, attempt, MethodOrder[i..], kept))
    {
      var name := MethodOrder[i];
      assert MethodOrder[i..] == [name] + MethodOrder[i + 1..];
      if !IsCallable(llm, name) {
        assert TryMethods(llm, isEmpty, args, attempt, MethodOrder[i..], kept)
            == TryMethods(llm, isEmpty, args, attempt, MethodOrder[i + 1..], kept);
      } else {
        var c := Invocation(attempt, name, args);
        var outcome := llm.behave(c);
        match outcome
        case Raise(e) =>
          PassAfterTwice(calls, logs, [c], [Raised(name, e)],
                         TryMethods(llm, isEmpty, args, attempt, MethodOrder[i + 1..], Some(e)));
          kept := Some(e);
          calls, logs := calls + [c], logs + [Raised(name, e)];
        case Return(resp) =>
          if !isEmpty(resp) {
            calls := calls + [c];
            found := Some(resp);
            return;
          }
          PassAfterTwice(calls, logs, [c], [ReturnedEmpty(name, attempt)],
                         TryMethods(llm, isEmpty, args, attempt, MethodOrder[i + 1..], kept));
          calls, logs := calls + [c], logs + [ReturnedEmpty(name, attempt)];
      }
    }
    found := None;
  }

  /**
    `call_llm_with_retries(llm, *args, retries=retries, backoff=backoff, **kwargs)`,
    with `args` standing for the positional and keyword arguments together. The
    result, the sleeps and the log lines are real outputs; the calls made are a
    ghost trace.
  */
  method CallLlmWithRetries<A, R, E>(llm: Llm<A, R, E>, isEmpty: R -> bool, args: A,
                                     retries: int := DefaultRetries, backoff: real := DefaultBackoff)
    returns (result: Result<R, E>, sleeps: seq<real>, logs: seq<LogEntry<E>>, ghost calls: seq<Invocation<A>>)
    ensures var run := CallWithRetries(llm, isEmpty, args, retries, backoff);
            result == run.result && sleeps == run.sleeps && logs == run.logs
    ensures calls == CallWithRetries(llm, isEmpty, args, retries, backoff).calls
  {
    var lastErr: Option<E> := None;
    sleeps, logs, calls := [], [], [];
    var attempt := 1;
    while attempt <= retries
      invariant 1 <= attempt
      invariant CallWithRetries(llm, isEmpty, args, retries, backoff)
        == RunAfter(calls, sleeps, logs, Attempts(llm, isEmpty, args, retries, backoff, attempt, lastErr))
      decreases retries - attempt
    {
      var found, kept, passLogs, passCalls := TryEachMethod(llm, isEmpty, args, attempt, lastErr);
      if found.Some? {
        calls, logs := calls + passCalls, logs + passLogs;
        result := Success(found.value);
        return;
      }
      var pause := backoff * attempt as real;
      if pause < 0.0 {
        calls, logs := calls + passCalls, logs + passLogs;
        result := SleepRejected(pause);
        return;
      }
      RunAfterTwice(calls, sleeps, logs, passCalls, [pause], passLogs,
                    Attempts(llm, isEmpty, args, retries, backoff, attempt + 1, kept));
      calls, logs, sleeps := calls + passCalls, logs + passLogs, sleeps + [pause];
      lastErr := kept;
      attempt := attempt + 1;
    }
    result := Exhausted(retries, lastErr);
  }
}
