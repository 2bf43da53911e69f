# call_llm_with_retries, modelled and verified in Dafny

The repository defines one helper with real control flow,
`call_llm_with_retries(llm, *args, retries=3, backoff=1.5, **kwargs)` in
`agents/llm_utils.py`. None of the agent files calls it; they hand their model calls
to crewai. For each attempt `1..retries` it probes the client for the
methods `generate`, `chat`, `__call__` and `request`, in that order. It skips a name
that is missing or not callable. It calls each remaining method with the caller's
arguments. An exception is remembered as the last error and the next method is
tried. A falsy response is logged and the next method is tried. The first truthy
response is returned at once. After an attempt without a truthy response the
function sleeps `backoff * attempt` seconds. When the attempts are used up it raises
`RuntimeError`, naming the retry count and the last exception.

The project has three files:

- `wrappers.dfy`: the `Option` type used for Python's `None`-or-value variables.
- `llm_utils.dfy` (module `LlmUtils`): the client, call outcomes, log lines and
  results as datatypes. `TryMethods`, `Attempts` and `CallWithRetries` are a
  recursive specification that follows the two loops of the function line by line.
  The methods `TryEachMethod` (the inner loop) and `CallLlmWithRetries` (the whole
  function) are written with loops and proved equal to that specification.
- `llm_utils_properties.dfy` (module `LlmUtilsProperties`): an independent
  description. The `Schedule` lists every call the function could make, attempt by
  attempt and, within an attempt, the callable methods in probing order. Lemmas
  prove that, with a non-negative back-off, a run makes exactly the calls of the
  schedule up to the first one that answers. A negative back-off ends the run after
  its first attempt. They also prove what it returns, what it sleeps and what it logs, and the
  properties below.

The Python reflection and side effects are explicit:

- `getattr(llm, name, None)` followed by `callable(...)` is a look-up in `Llm.attrs`.
  A missing key is a missing attribute; `Uncallable` is an attribute that cannot be called.
- Calling a method is the oracle `Llm.behave`. It maps an `Invocation(attempt, name,
  args)` to `Raise(err)` or `Return(resp)`. Within one run each attempt calls each
  name at most once, so a deterministic client whose calls keep state is one such
  function, as long as its attributes stay fixed (see "## Left out").
- The truthiness of a response is the parameter `isEmpty`.
- `time.sleep` and `logger.debug` append to the `sleeps` and `logs` outputs. The
  calls made form a ghost trace.
- `args` stands for the positional and keyword arguments together.
- `time.sleep` raises `ValueError` for a negative duration. The model has a result
  for this, `SleepRejected`.

Some behaviour of the code that a reader might not expect, all of it modelled:

- The function raises `RuntimeError` when the attempts are used up.
- It does not check `retries >= 1`. With `retries < 1` no method is called and the
  error is raised at once.
- It sleeps after the final attempt too, right before raising.
- The "raised" debug line carries no attempt number; only the "returned empty" line has one.

## Model

| member | source | states |
|---|---|---|
| LlmUtils.Rank | agents/llm_utils.py:10 | each method name has exactly one position in the fixed probing order `generate`, `chat`, `__call__`, `request` |
| LlmUtils.TryEachMethod | agents/llm_utils.py:10-22 | the inner loop returns the first truthy response (if any), the last exception kept and the lines logged, exactly as the recursive pass `TryMethods` over the probing order |
| LlmUtils.CallLlmWithRetries | agents/llm_utils.py:7-24 | the nested loops produce the result, sleeps, log lines and calls of the recursive specification `CallWithRetries` |
| LlmUtilsProperties.CallableIsFilter | agents/llm_utils.py:10-13 | the names an attempt calls are exactly the callable ones among those probed, in probing order |
| LlmUtilsProperties.CallableMethodsInOrder | agents/llm_utils.py:10-13 | an attempt calls a method if and only if it is callable, and at most once, in probing order |
| LlmUtilsProperties.TryMethodsFails | agents/llm_utils.py:14-22 | step lemma, one unfolding of the pass: a callable method that raises or returns a falsy response logs one line and the pass goes on to the next name, keeping the exception only if one was raised |
| LlmUtilsProperties.PassExhausted | agents/llm_utils.py:10-22 | a pass in which nothing answers calls every callable method once in order, logs one line per call, and leaves the error of the last call that raised |
| LlmUtilsProperties.PassAnswered | agents/llm_utils.py:14-21 | a pass returns the response of its first answering call and makes no later call in that attempt |
| LlmUtilsProperties.PassCallsForwardArgs | agents/llm_utils.py:15 | every call of a pass passes the caller's arguments unchanged to a callable method of the current attempt |
| LlmUtilsProperties.CallsForwardArgs | agents/llm_utils.py:7-15 | every call of a run passes the caller's arguments unchanged to a callable method, in an attempt of `1..retries` |
| LlmUtilsProperties.ScheduleWithin | agents/llm_utils.py:9-15 | every scheduled call is to a callable method with the caller's arguments, in an attempt of the range |
| LlmUtilsProperties.ScheduleComplete | agents/llm_utils.py:9-15 | every call to a callable method with the caller's arguments in an attempt of the range is scheduled |
| LlmUtilsProperties.ScheduleOrdered | agents/llm_utils.py:9-10 | the schedule is ordered by attempt and, within an attempt, by probing order, so no call repeats |
| LlmUtilsProperties.ScheduleLength | agents/llm_utils.py:9-10 | the schedule holds one call per callable method per attempt |
| LlmUtilsProperties.LastRaisedNone | agents/llm_utils.py:8-19 | when no call raised, the error reported is the initial `None` |
| LlmUtilsProperties.LastRaisedIsMostRecent | agents/llm_utils.py:16-22 | the error reported is that of the most recent call that raised; later falsy responses do not replace it |
| LlmUtilsProperties.BackoffsAreMultiples | agents/llm_utils.py:23 | the sleeps after attempts `first..last` are one per attempt, the `k`-th lasting `backoff * (first + k)` |
| LlmUtilsProperties.AttemptsStep | agents/llm_utils.py:9-23 | step lemma, one unfolding of the run: an attempt without an answer, with a non-negative back-off, is followed by one sleep of `backoff * attempt` and the next attempt |
| LlmUtilsProperties.AttemptsExhausted | agents/llm_utils.py:9-24 | when no scheduled call answers, the run makes every scheduled call, sleeps after every attempt and fails with `retries` and the last raised error |
| LlmUtilsProperties.AttemptsAnswered | agents/llm_utils.py:9-23 | when the `i`-th scheduled call is the first to answer, the run returns its response, has made exactly the calls up to it, and slept only after earlier attempts |
| LlmUtilsProperties.CallWithRetriesMatchesSchedule | agents/llm_utils.py:7-24 | the whole function equals the schedule description: exhaustion with every call made, or the first answering call's response with no later call and no sleep after it |
| LlmUtilsProperties.SucceedsIffSomeCallAnswers | agents/llm_utils.py:20-24 | with a non-negative back-off the function returns a response if and only if some scheduled call answers, and that response is truthy |
| LlmUtilsProperties.ExhaustionCallsEachMethodOncePerAttempt | agents/llm_utils.py:9-15 | on exhaustion there were `retries × callable methods` calls, every callable method once per attempt, in order, with the caller's arguments |
| LlmUtilsProperties.ExhaustionSleepsAfterEveryAttempt | agents/llm_utils.py:9-24 | on exhaustion the sleeps were `backoff*1, ..., backoff*retries`, the last attempt included, and the error names `retries` |
| LlmUtilsProperties.ExhaustionReportsLastRaisedError | agents/llm_utils.py:16-24 | the error carried on exhaustion is `None` if no call raised, and otherwise that of the most recent call that raised |
| LlmUtilsProperties.NoAttemptsWhenRetriesBelowOne | agents/llm_utils.py:9-24 | with `retries < 1` nothing is called, slept or logged and the function fails at once with last error `None` |
| LlmUtilsProperties.NegativeBackoffEndsAfterFirstAttempt | agents/llm_utils.py:23 | with a negative back-off the first sleep raises, so the call ends after the first attempt: with the first answering call's response, the calls up to it and the failure lines before it, or with the rejected sleep after calling every callable method once and logging each failure |
| LlmUtilsProperties.DefaultsSleepThreeTimes | agents/llm_utils.py:7-23 | with the default parameters and no answer, the function sleeps 1.5, 3.0 and 4.5 seconds and fails naming 3 attempts |

## Left out

- The three agent files (`agents/technical_triage_agent.py`, `agents/clinical_trial_matching_agent.py`, `agents/inventory_optimization_agent.py`): they only configure crewai `Agent`, `Task` and `Crew` objects and hand control to the library's `kickoff()`, which is not part of this model.
- Environment and credential loading (`load_dotenv`, `os.getenv`, the API-key check): process I/O.
- Real time and real logging: a sleep is its duration appended to a trace, and a debug line is a `LogEntry` holding the method name, the error or the attempt number, not the formatted text.
- The text of the `RuntimeError` message: the model keeps the retry count and the last exception it is built from.
- Floating-point behaviour of `backoff`: it is a `real`, so rounding, infinities and NaN are not modelled.
- Exceptions that do not derive from `Exception` (such as `KeyboardInterrupt`) propagate out of the Python function; the model has no such outcome.
- Exceptions raised by the reflection itself (a property getter run by `getattr`, or a response whose `__bool__` raises) propagate in Python; the model's look-up and `isEmpty` cannot fail.
- A `retries` that is not an integer makes `range` raise `TypeError`; the model takes an `int`.
- CallLlmWithRetries: the log lines of one attempt are appended after its pass over the method names, not one by one as they happen. The order of the lines is the same.
- CallWithRetriesMatchesSchedule, SucceedsIffSomeCallAnswers, ExhaustionCallsEachMethodOncePerAttempt, ExhaustionSleepsAfterEveryAttempt and ExhaustionReportsLastRaisedError require a non-negative back-off, because a negative one ends the call at the first sleep. That case is stated by NegativeBackoffEndsAfterFirstAttempt.
- `Llm.attrs` is read once for the whole run. The Python function re-reads each attribute with `getattr` and `callable` on every attempt, so a client whose attributes change during a run is not modelled. For such a client the per-attempt call counts of ScheduleLength and ExhaustionCallsEachMethodOncePerAttempt need not hold.
