/**
  An independent description of what `call_llm_with_retries` does, and the proofs
  that the loop-shaped specification in `LlmUtils` agrees with it.

  The description: list every call the function could make, attempt by attempt and,
  within an attempt, the callable methods in probing order (the `Schedule`). The
  function makes the calls of that list up to and including the first one that
  returns a truthy response. If there is one, that response is the result; if there
  is none, it fails with the error of the last call that raised. Every attempt that
  ends without a truthy response is followed by a sleep of `backoff * attempt`.
*/
module LlmUtilsProperties {
  import opened Wrappers
  import opened LlmUtils

  /** The callable names among `names`, in the same order. */
  function CallableNames<A, R, E>(llm: Llm<A, R, E>, names: seq<MethodName>): seq<MethodName>
    decreases |names|
  {
    if names == [] then []
    else if IsCallable(llm, names[0]) then [names[0]] + CallableNames(llm, names[1..])
    else CallableNames(llm, names[1..])
  }

  /** `CallableNames` keeps exactly the callable names of `names`, and keeps their order. */
  lemma {:induction false} CallableIsFilter<A, R, E>(llm: Llm<A, R, E>, names: seq<MethodName>)
    ensures forall m :: m in CallableNames(llm, names) <==> IsCallable(llm, m) && m in names
    ensures StrictlyRanked(names) ==> StrictlyRanked(CallableNames(llm, names))
    decreases |names|
  {
    if names != [] {
      var tail := names[1..];
      CallableIsFilter(llm, tail);
      assert names == [names[0]] + tail;
      if StrictlyRanked(names) {
        assert StrictlyRanked(tail) by {
          forall i, j | 0 <= i < j < |tail| ensures Rank(tail[i]) < Rank(tail[j]) {
            assert tail[i] == names[i + 1] && tail[j] == names[j + 1];
          }
        }
        if IsCallable(llm, names[0]) {
          var kept := CallableNames(llm, tail);
          forall k | 0 <= k < |kept| ensures Rank(names[0]) < Rank(kept[k]) {
            assert kept[k] in tail;
            var j :| 0 <= j < |tail| && tail[j] == kept[k];
            assert names[j + 1] == kept[k];
          }
          RankedCons(names[0], kept);
        }
      }
    }
  }

  lemma RankedCons(m: MethodName, names: seq<MethodName>)
    requires StrictlyRanked(names) && forall k :: 0 <= k < |names| ==> Rank(m) < Rank(names[k])
    ensures StrictlyRanked([m] + names)
  {
    var all := [m] + names;
    forall i, j | 0 <= i < j < |all| ensures Rank(all[i]) < Rank(all[j]) {
      assert all[j] == names[j - 1];
      if 0 < i {
        assert all[i] == names[i - 1];
      }
    }
  }

  /** The names are in probing order, each at most once. */
  predicate StrictlyRanked(names: seq<MethodName>)
  {
    forall i, j :: 0 <= i < j < |names| ==> Rank(names[i]) < Rank(names[j])
  }

  /** `c` comes before `d` in the order the calls are tried: by attempt, then by probing order. */
  predicate TriedBefore<A>(c: Invocation<A>, d: Invocation<A>)
  {
    c.attempt < d.attempt || (c.attempt == d.attempt && Rank(c.name) < Rank(d.name))
  }

  /** The calls are listed in the order they are tried, so none appears twice. */
  predicate InTryOrder<A>(cs: seq<Invocation<A>>)
  {
    forall i, j :: 0 <= i < j < |cs| ==> TriedBefore(cs[i], cs[j])
  }

  /** The methods one attempt calls when none of them answers. */
  function CallableMethods<A, R, E>(llm: Llm<A, R, E>): seq<MethodName>
  {
    CallableNames(llm, MethodOrder)
  }

  /** An attempt calls each callable method, and only those, once, in probing order. */
  lemma CallableMethodsInOrder<A, R, E>(llm: Llm<A, R, E>)
    ensures forall m :: m in CallableMethods(llm) <==> IsCallable(llm, m)
    ensures StrictlyRanked(CallableMethods(llm))
  {
    CallableIsFilter(llm, MethodOrder);
    forall m ensures m in MethodOrder {
      assert MethodOrder[Rank(m)] == m;
    }
  }

  /** The calls of one attempt through `names`, in that order. */
  function AttemptCalls<A>(args: A, attempt: int, names: seq<MethodName>): seq<Invocation<A>>
  {
    seq(|names|, j requires 0 <= j < |names| => Invocation(attempt, names[j], args))
  }

  /** Every call attempts `attempt..retries` could make, in the order they would be made. */
  function Schedule<A, R, E>(llm: Llm<A, R, E>, args: A, attempt: int, retries: int): seq<Invocation<A>>
    decreases retries - attempt
  {
    if attempt > retries then []
    else AttemptCalls(args, attempt, CallableMethods(llm)) + Schedule(llm, args, attempt + 1, retries)
  }

  /** Every call in `cs` uses a callable method, passes `args`, and belongs to an attempt in `lo..hi`. */
  ghost predicate CallsWithin<A, R, E>(llm: Llm<A, R, E>, args: A, lo: int, hi: int, cs: seq<Invocation<A>>)
  {
    forall k :: 0 <= k < |cs| ==> lo <= cs[k].attempt <= hi && IsCallable(llm, cs[k].name) && cs[k].args == args
  }

  /** The call returns a truthy response. */
  predicate Answers<A, R, E>(llm: Llm<A, R, E>, isEmpty: R -> bool, c: Invocation<A>)
  {
    llm.behave(c).Return? && !isEmpty(llm.behave(c).resp)
  }

  /** None of the calls returns a truthy response. */
  predicate NoAnswer<A, R, E>(llm: Llm<A, R, E>, isEmpty: R -> bool, cs: seq<Invocation<A>>)
  {
    forall i :: 0 <= i < |cs| ==> !Answers(llm, isEmpty, cs[i])
  }

  /** The call raises. */
  predicate Raises<A, R, E>(llm: Llm<A, R, E>, c: Invocation<A>)
  {
    llm.behave(c).Raise?
  }

  /** The error of the last call in `cs` that raised; `init` if none did. */
  function LastRaised<A, R, E>(llm: Llm<A, R, E>, cs: seq<Invocation<A>>, init: Option<E>): Option<E>
  {
    if cs == [] then init
    else match llm.behave(cs[|cs| - 1])
      case Raise(e) => Some(e)
      case Return(_) => LastRaised(llm, cs[..|cs| - 1], init)
  }

  /** The debug line logged for a call that did not answer. */
  function LogFor<A, R, E>(llm: Llm<A, R, E>, c: Invocation<A>): LogEntry<E>
  {
    match llm.behave(c)
    case Raise(e) => Raised(c.name, e)
    case Return(_) => ReturnedEmpty(c.name, c.attempt)
  }

  /** The debug lines logged for a run of calls none of which answered. */
  function FailureLogs<A, R, E>(llm: Llm<A, R, E>, cs: seq<Invocation<A>>): seq<LogEntry<E>>
  {
    seq(|cs|, i requires 0 <= i < |cs| => LogFor(llm, cs[i]))
  }

  /** The sleeps after attempts `first..last`, in order: `backoff * first, ..., backoff * last`. */
  function Backoffs(backoff: real, first: int, last: int): seq<real>
    decreases last - first
  {
    if last < first then [] else [backoff * first as real] + Backoffs(backoff, first + 1, last)
  }

  // ---------------------------------------------------------------------------
  // Sequence helpers

  lemma LastRaisedAppend<A, R, E>(llm: Llm<A, R, E>, a: seq<Invocation<A>>, b: seq<Invocation<A>>, init: Option<E>)
    ensures LastRaised(llm, a + b, init) == LastRaised(llm, b, LastRaised(llm, a, init))
    decreases |b|
  {
    if b != [] {
      assert (a + b)[..|a + b| - 1] == a + b[..|b| - 1];
      LastRaisedAppend(llm, a, b[..|b| - 1], init);
    } else {
      assert a + b == a;
    }
  }

  /** `LastRaised` is `init` when no call raised. */
  lemma {:induction false} LastRaisedNone<A, R, E>(llm: Llm<A, R, E>, cs: seq<Invocation<A>>, init: Option<E>)
    requires forall i :: 0 <= i < |cs| ==> !Raises(llm, cs[i])
    ensures LastRaised(llm, cs, init) == init
    decreases |cs|
  {
    if cs != [] {
      assert !Raises(llm, cs[|cs| - 1]);
      LastRaisedNone(llm, cs[..|cs| - 1], init);
    }
  }

  /** `LastRaised` is the error of the raising call `cs[i]` when no later call raised. */
  lemma {:induction false} LastRaisedIsMostRecent<A, R, E>(llm: Llm<A, R, E>, cs: seq<Invocation<A>>,
                                                           init: Option<E>, i: nat)
    requires i < |cs| && Raises(llm, cs[i])
    requires forall j :: i < j < |cs| ==> !Raises(llm, cs[j])
    ensures LastRaised(llm, cs, init) == Some(llm.behave(cs[i]).err)
    decreases |cs|
  {
    var n := |cs| - 1;
    if i < n {
      assert !Raises(llm, cs[n]);
      var front := cs[..n];
      assert front[i] == cs[i];
      assert forall j :: i < j < |front| ==> front[j] == cs[j];
      LastRaisedIsMostRecent(llm, front, init, i);
    }
  }

  lemma PrefixOfCons<T>(c: T, rest: seq<T>, n: nat)
    requires 0 < n <= |rest| + 1
    ensures ([c] + rest)[..n] == [c] + rest[..n - 1]
  {
    assert ([c] + rest)[..n][1..] == rest[..n - 1];
  }

  lemma NoAnswerAppend<A, R, E>(llm: Llm<A, R, E>, isEmpty: R -> bool, a: seq<Invocation<A>>, b: seq<Invocation<A>>)
    ensures NoAnswer(llm, isEmpty, a + b) <==> NoAnswer(llm, isEmpty, a) && NoAnswer(llm, isEmpty, b)
  {
    if NoAnswer(llm, isEmpty, a + b) {
      forall k | 0 <= k < |a| ensures !Answers(llm, isEmpty, a[k]) { assert a[k] == (a + b)[k]; }
      forall k | 0 <= k < |b| ensures !Answers(llm, isEmpty, b[k]) { assert b[k] == (a + b)[|a| + k]; }
    }
  }

  lemma FailureLogsAppend<A, R, E>(llm: Llm<A, R, E>, a: seq<Invocation<A>>, b: seq<Invocation<A>>)
    ensures FailureLogs(llm, a + b) == FailureLogs(llm, a) + FailureLogs(llm, b)
  {
  }

  /** The `k`-th sleep after attempts `first..last` is `backoff * (first + k)`, one per attempt. */
  lemma {:induction false} BackoffsAreMultiples(backoff: real, first: int, last: int)
    ensures |Backoffs(backoff, first, last)| == if last < first then 0 else last - first + 1
    ensures forall k :: 0 <= k < |Backoffs(backoff, first, last)|
                        ==> Backoffs(backoff, first, last)[k] == backoff * (first + k) as real
    decreases last - first
  {
    if first <= last {
      var all, rest := Backoffs(backoff, first, last), Backoffs(backoff, first + 1, last);
      BackoffsAreMultiples(backoff, first + 1, last);
      forall k | 0 <= k < |all| ensures all[k] == backoff * (first + k) as real {
        if 0 < k {
          assert all[k] == rest[k - 1];
          assert first + 1 + (k - 1) == first + k;
        }
      }
    }
  }

  lemma {:induction false} FirstAnswerExists<A, R, E>(llm: Llm<A, R, E>, isEmpty: R -> bool, cs: seq<Invocation<A>>)
    requires !NoAnswer(llm, isEmpty, cs)
    ensures exists i :: 0 <= i < |cs| && Answers(llm, isEmpty, cs[i]) && NoAnswer(llm, isEmpty, cs[..i])
  {
    if Answers(llm, isEmpty, cs[0]) {
      assert NoAnswer(llm, isEmpty, cs[..0]);
    } else {
      assert !NoAnswer(llm, isEmpty, cs[1..]);
      FirstAnswerExists(llm, isEmpty, cs[1..]);
      var i :| 0 <= i < |cs[1..]| && Answers(llm, isEmpty, cs[1..][i]) && NoAnswer(llm, isEmpty, cs[1..][..i]);
      assert cs[..i + 1] == [cs[0]] + cs[1..][..i];
      assert Answers(llm, isEmpty, cs[i + 1]) && NoAnswer(llm, isEmpty, cs[..i + 1]);
    }
  }

  // ---------------------------------------------------------------------------
  // One attempt

  /** The calls the inner loop over `names` would make if none answered. */
  lemma CallableStep<A, R, E>(llm: Llm<A, R, E>, args: A, attempt: int, names: seq<MethodName>)
    requires names != []
    ensures var cs := AttemptCalls(args, attempt, CallableNames(llm, names));
            var rest := AttemptCalls(args, attempt, CallableNames(llm, names[1..]));
            cs == if IsCallable(llm, names[0])
                  then [Invocation(attempt, names[0], args)] + rest
                  else rest
  {
  }

  /** A callable method that does not answer: its call and log line come first, then the rest of the pass. */
  lemma TryMethodsFails<A, R, E>(llm: Llm<A, R, E>, isEmpty: R -> bool, args: A, attempt: int,
                                 names: seq<MethodName>, lastErr: Option<E>)
    requires names != [] && IsCallable(llm, names[0])
    requires !Answers(llm, isEmpty, Invocation(attempt, names[0], args))
    ensures var c := Invocation(attempt, names[0], args);
            TryMethods(llm, isEmpty, args, attempt, names, lastErr)
              == PassAfter([c], [LogFor(llm, c)],
                           TryMethods(llm, isEmpty, args, attempt, names[1..], LastRaised(llm, [c], lastErr)))
  {
    var c := Invocation(attempt, names[0], args);
    assert [c][..0] == [];
  }

  /**
    A pass in which no call answers calls every callable method once, in probing
    order, logs each failure, and leaves the error of the last call that raised.
  */
  lemma {:induction false} PassExhausted<A, R, E>(llm: Llm<A, R, E>, isEmpty: R -> bool, args: A, attempt: int,
                                                  names: seq<MethodName>, lastErr: Option<E>)
    requires NoAnswer(llm, isEmpty, AttemptCalls(args, attempt, CallableNames(llm, names)))
    ensures var cs := AttemptCalls(args, attempt, CallableNames(llm, names));
            TryMethods(llm, isEmpty, args, attempt, names, lastErr)
              == Pass(None, LastRaised(llm, cs, lastErr), cs, FailureLogs(llm, cs))
    decreases |names|, 1
  {
    if names != [] {
      CallableStep(llm, args, attempt, names);
      if IsCallable(llm, names[0]) {
        PassExhaustedAtCallable(llm, isEmpty, args, attempt, names, lastErr);
      } else {
        PassExhausted(llm, isEmpty, args, attempt, names[1..], lastErr);
      }
    }
  }

  /** `PassExhausted` when the first name left is callable. */
  lemma {:induction false} PassExhaustedAtCallable<A, R, E>(llm: Llm<A, R, E>, isEmpty: R -> bool, args: A,
                                                            attempt: int, names: seq<MethodName>, lastErr: Option<E>)
    requires names != [] && IsCallable(llm, names[0])
    requires NoAnswer(llm, isEmpty, AttemptCalls(args, attempt, CallableNames(llm, names)))
    ensures var cs := AttemptCalls(args, attempt, CallableNames(llm, names));
            TryMethods(llm, isEmpty, args, attempt, names, lastErr)
              == Pass(None, LastRaised(llm, cs, lastErr), cs, FailureLogs(llm, cs))
    decreases |names|, 0
  {
    var cs := AttemptCalls(args, attempt, CallableNames(llm, names));
    var rest := AttemptCalls(args, attempt, CallableNames(llm, names[1..]));
    var c := Invocation(attempt, names[0], args);
    CallableStep(llm, args, attempt, names);
    assert cs == [c] + rest;
    NoAnswerAppend(llm, isEmpty, [c], rest);
    assert !Answers(llm, isEmpty, [c][0]);
    TryMethodsFails(llm, isEmpty, args, attempt, names, lastErr);
    PassExhausted(llm, isEmpty, args, attempt, names[1..], LastRaised(llm, [c], lastErr));
    LastRaisedAppend(llm, [c], rest, lastErr);
    FailureLogsAppend(llm, [c], rest);
  }

  /**
    A pass stops at its first answering call: it returns that call's response, has
    made the calls up to and including it, and has logged the failures before it.
  */
  lemma {:induction false} PassAnswered<A, R, E>(llm: Llm<A, R, E>, isEmpty: R -> bool, args: A, attempt: int,
                                                 names: seq<MethodName>, lastErr: Option<E>, i: nat)
    requires var cs := AttemptCalls(args, attempt, CallableNames(llm, names));
             i < |cs| && Answers(llm, isEmpty, cs[i]) && NoAnswer(llm, isEmpty, cs[..i])
    ensures var cs := AttemptCalls(args, attempt, CallableNames(llm, names));
            var p := TryMethods(llm, isEmpty, args, attempt, names, lastErr);
            p.found == Some(llm.behave(cs[i]).resp) && p.calls == cs[..i + 1] && p.logs == FailureLogs(llm, cs[..i])
    decreases |names|, 1
  {
    var cs := AttemptCalls(args, attempt, CallableNames(llm, names));
    CallableStep(llm, args, attempt, names);
    if !IsCallable(llm, names[0]) {
      PassAnswered(llm, isEmpty, args, attempt, names[1..], lastErr, i);
    } else if i == 0 {
      assert cs[0] == Invocation(attempt, names[0], args);
    } else {
      PassAnsweredLater(llm, isEmpty, args, attempt, names, lastErr, i);
    }
  }

  /** `PassAnswered` when the first name left is callable and its call does not answer. */
  lemma {:induction false} PassAnsweredLater<A, R, E>(llm: Llm<A, R, E>, isEmpty: R -> bool, args: A, attempt: int,
                                                      names: seq<MethodName>, lastErr: Option<E>, i: nat)
    requires names != [] && IsCallable(llm, names[0]) && 0 < i
    requires var cs := AttemptCalls(args, attempt, CallableNames(llm, names));
             i < |cs| && Answers(llm, isEmpty, cs[i]) && NoAnswer(llm, isEmpty, cs[..i])
    ensures var cs := AttemptCalls(args, attempt, CallableNames(llm, names));
            var p := TryMethods(llm, isEmpty, args, attempt, names, lastErr);
            p.found == Some(llm.behave(cs[i]).resp) && p.calls == cs[..i + 1] && p.logs == FailureLogs(llm, cs[..i])
    decreases |names|, 0
  {
    var cs := AttemptCalls(args, attempt, CallableNames(llm, names));
    var rest := AttemptCalls(args, attempt, CallableNames(llm, names[1..]));
    var c := Invocation(attempt, names[0], args);
    CallableStep(llm, args, attempt, names);
    assert cs == [c] + rest;
    PrefixOfCons(c, rest, i);
    PrefixOfCons(c, rest, i + 1);
    assert rest[i - 1] == cs[i];
    NoAnswerAppend(llm, isEmpty, [c], rest[..i - 1]);
    assert !Answers(llm, isEmpty, [c][0]);
    TryMethodsFails(llm, isEmpty, args, attempt, names, lastErr);
    PassAnswered(llm, isEmpty, args, attempt, names[1..], LastRaised(llm, [c], lastErr), i - 1);
    FailureLogsAppend(llm, [c], rest[..i - 1]);
  }

  // ---------------------------------------------------------------------------
  // The schedule of all attempts

  /** Every scheduled call passes the caller's arguments to a callable method, in an attempt of `attempt..retries`. */
  lemma {:induction false} ScheduleWithin<A, R, E>(llm: Llm<A, R, E>, args: A, attempt: int, retries: int)
    ensures CallsWithin(llm, args, attempt, retries, Schedule(llm, args, attempt, retries))
    decreases retries - attempt
  {
    if attempt <= retries {
      ScheduleWithin(llm, args, attempt + 1, retries);
      CallableMethodsInOrder(llm);
      var names := CallableMethods(llm);
      var p := AttemptCalls(args, attempt, names);
      var rest := Schedule(llm, args, attempt + 1, retries);
      var s := p + rest;
      assert CallsWithin(llm, args, attempt + 1, retries, rest);
      forall k | 0 <= k < |s|
        ensures attempt <= s[k].attempt <= retries && IsCallable(llm, s[k].name) && s[k].args == args
      {
        if k < |p| {
          assert s[k] == p[k] == Invocation(attempt, names[k], args);
          assert names[k] in names;
        } else {
          assert s[k] == rest[k - |p|];
        }
      }
    }
  }

  /** Every call with the caller's arguments to a callable method in an attempt of `attempt..retries` is scheduled. */
  lemma {:induction false} ScheduleComplete<A, R, E>(llm: Llm<A, R, E>, args: A, attempt: int, retries: int)
    ensures forall c: Invocation<A> :: attempt <= c.attempt <= retries && IsCallable(llm, c.name) && c.args == args
              ==> c in Schedule(llm, args, attempt, retries)
    decreases retries - attempt
  {
    if attempt <= retries {
      ScheduleComplete(llm, args, attempt + 1, retries);
      CallableMethodsInOrder(llm);
      var names := CallableMethods(llm);
      var p := AttemptCalls(args, attempt, names);
      var rest := Schedule(llm, args, attempt + 1, retries);
      var s := p + rest;
      forall c: Invocation<A> | attempt <= c.attempt <= retries && IsCallable(llm, c.name) && c.args == args
        ensures c in s
      {
        if c.attempt == attempt {
          var j :| 0 <= j < |names| && names[j] == c.name;
          assert s[j] == p[j] == c;
        } else {
          assert c in rest;
          var k :| 0 <= k < |rest| && rest[k] == c;
          assert s[|p| + k] == c;
        }
      }
    }
  }

  /** The calls of the schedule from `attempt` on belong to attempt `attempt` or later. */
  lemma ScheduleStartsAt<A, R, E>(llm: Llm<A, R, E>, args: A, attempt: int, retries: int, k: nat)
    requires k < |Schedule(llm, args, attempt, retries)|
    ensures attempt <= Schedule(llm, args, attempt, retries)[k].attempt
  {
    ScheduleWithin(llm, args, attempt, retries);
    assert CallsWithin(llm, args, attempt, retries, Schedule(llm, args, attempt, retries));
  }

  /**
    The schedule is ordered by attempt, and within an attempt by probing order, so
    no call appears twice.
  */
  lemma {:induction false} ScheduleOrdered<A, R, E>(llm: Llm<A, R, E>, args: A, attempt: int, retries: int)
    ensures InTryOrder(Schedule(llm, args, attempt, retries))
    decreases retries - attempt
  {
    if attempt <= retries {
      ScheduleOrdered(llm, args, attempt + 1, retries);
      ScheduleWithin(llm, args, attempt + 1, retries);
      CallableMethodsInOrder(llm);
      var names := CallableMethods(llm);
      var p := AttemptCalls(args, attempt, names);
      var rest := Schedule(llm, args, attempt + 1, retries);
      var s := p + rest;
      assert StrictlyRanked(names);
      assert InTryOrder(rest) && CallsWithin(llm, args, attempt + 1, retries, rest);
      forall i, j | 0 <= i < j < |s|
        ensures TriedBefore(s[i], s[j])
      {
        if j < |p| {
          assert s[i] == p[i] && s[j] == p[j];
          assert p[i].name == names[i] && p[j].name == names[j];
        } else if i < |p| {
          assert s[i] == p[i] && p[i].attempt == attempt;
          assert s[j] == rest[j - |p|];
        } else {
          assert s[i] == rest[i - |p|] && s[j] == rest[j - |p|];
        }
      }
      assert InTryOrder(s);
    }
  }

  /** Each attempt makes one call per callable method, so `retries` attempts make `retries` times as many. */
  lemma {:induction false} ScheduleLength<A, R, E>(llm: Llm<A, R, E>, args: A, attempt: int, retries: int)
    ensures |Schedule(llm, args, attempt, retries)|
              == (if retries < attempt then 0 else retries - attempt + 1) * |CallableMethods(llm)|
    decreases retries - attempt
  {
    if attempt <= retries {
      ScheduleLength(llm, args, attempt + 1, retries);
      var n := |CallableMethods(llm)|;
      assert (retries - attempt + 1) * n == n + (retries - attempt) * n;
    }
  }

  // ---------------------------------------------------------------------------
  // The loop-shaped specification against the schedule

  /** An attempt without an answer and with a non-negative back-off sleeps and goes on. */
  lemma AttemptsStep<A, R, E>(llm: Llm<A, R, E>, isEmpty: R -> bool, args: A, retries: int,
                              backoff: real, attempt: int, lastErr: Option<E>)
    requires 1 <= attempt <= retries && 0.0 <= backoff
    requires TryMethods(llm, isEmpty, args, attempt, MethodOrder, lastErr).found.None?
    ensures var pass := TryMethods(llm, isEmpty, args, attempt, MethodOrder, lastErr);
            Attempts(llm, isEmpty, args, retries, backoff, attempt, lastErr)
              == RunAfter(pass.calls, [backoff * attempt as real], pass.logs,
                          Attempts(llm, isEmpty, args, retries, backoff, attempt + 1, pass.lastErr))
  {
    assert 0.0 <= backoff * attempt as real by {
      assert 1.0 <= attempt as real;
    }
  }

  /**
    When no call of the schedule answers and `backoff` is not negative, the run makes
    every scheduled call, sleeps `backoff * k` after each attempt `k`, and fails with
    the retry count and the error of the last call that raised.
  */
  lemma {:induction false} AttemptsExhausted<A, R, E>(llm: Llm<A, R, E>, isEmpty: R -> bool, args: A, retries: int,
                                                      backoff: real, attempt: int, lastErr: Option<E>)
    requires 1 <= attempt && 0.0 <= backoff
    requires NoAnswer(llm, isEmpty, Schedule(llm, args, attempt, retries))
    ensures var s := Schedule(llm, args, attempt, retries);
            Attempts(llm, isEmpty, args, retries, backoff, attempt, lastErr)
              == Run(Exhausted(retries, LastRaised(llm, s, lastErr)), s, Backoffs(backoff, attempt, retries),
                     FailureLogs(llm, s))
    decreases retries - attempt
  {
    if attempt <= retries {
      var p := AttemptCalls(args, attempt, CallableMethods(llm));
      var rest := Schedule(llm, args, attempt + 1, retries);
      assert p + rest == Schedule(llm, args, attempt, retries);
      NoAnswerAppend(llm, isEmpty, p, rest);
      var kept := LastRaised(llm, p, lastErr);
      AttemptsExhausted(llm, isEmpty, args, retries, backoff, attempt + 1, kept);
      var later := Attempts(llm, isEmpty, args, retries, backoff, attempt + 1, kept);
      JoinExhaustedRun(llm, retries, backoff, attempt, p, rest, lastErr, later);
      PassExhausted(llm, isEmpty, args, attempt, MethodOrder, lastErr);
      AttemptsStep(llm, isEmpty, args, retries, backoff, attempt, lastErr);
    }
  }

  /** The sleep and calls of an unanswered attempt, followed by a later exhausted run. */
  lemma JoinExhaustedRun<A, R, E>(llm: Llm<A, R, E>, retries: int, backoff: real, attempt: int,
                                  p: seq<Invocation<A>>, rest: seq<Invocation<A>>, lastErr: Option<E>,
                                  later: Run<A, R, E>)
    requires attempt <= retries
    requires later == Run(Exhausted(retries, LastRaised(llm, rest, LastRaised(llm, p, lastErr))), rest,
                          Backoffs(backoff, attempt + 1, retries), FailureLogs(llm, rest))
    ensures RunAfter(p, [backoff * attempt as real], FailureLogs(llm, p), later)
              == Run(Exhausted(retries, LastRaised(llm, p + rest, lastErr)), p + rest,
                     Backoffs(backoff, attempt, retries), FailureLogs(llm, p + rest))
  {
    LastRaisedAppend(llm, p, rest, lastErr);
    FailureLogsAppend(llm, p, rest);
  }

  /** `cs[i]` is the first call in `cs` that answers. */
  predicate FirstAnswerAt<A, R, E>(llm: Llm<A, R, E>, isEmpty: R -> bool, cs: seq<Invocation<A>>, i: nat)
  {
    i < |cs| && Answers(llm, isEmpty, cs[i]) && NoAnswer(llm, isEmpty, cs[..i])
  }

  lemma FirstAnswerInTail<A, R, E>(llm: Llm<A, R, E>, isEmpty: R -> bool, p: seq<Invocation<A>>,
                                   rest: seq<Invocation<A>>, i: nat)
    requires |p| <= i && FirstAnswerAt(llm, isEmpty, p + rest, i)
    ensures NoAnswer(llm, isEmpty, p) && FirstAnswerAt(llm, isEmpty, rest, i - |p|)
    ensures (p + rest)[..i] == p + rest[..i - |p|] && (p + rest)[..i + 1] == p + rest[..i - |p| + 1]
  {
    var s := p + rest;
    forall k | 0 <= k < |p| ensures !Answers(llm, isEmpty, p[k]) { assert p[k] == s[..i][k]; }
    var j := i - |p|;
    assert rest[j] == s[i];
    forall k | 0 <= k < j ensures !Answers(llm, isEmpty, rest[..j][k]) { assert rest[..j][k] == s[..i][|p| + k]; }
    assert s[..i] == p + rest[..j];
    assert s[..i + 1] == p + rest[..j + 1];
  }

  /**
    When the `i`-th call of the schedule is the first that answers and `backoff` is not
    negative, the run returns its response, has made the calls up to it and no
    later one, and has slept only after the attempts before the answering one.
  */
  lemma {:induction false} AttemptsAnswered<A, R, E>(llm: Llm<A, R, E>, isEmpty: R -> bool, args: A, retries: int,
                                                     backoff: real, attempt: int, lastErr: Option<E>,
                                                     s: seq<Invocation<A>>, i: nat)
    requires 1 <= attempt && 0.0 <= backoff
    requires s == Schedule(llm, args, attempt, retries) && FirstAnswerAt(llm, isEmpty, s, i)
    ensures Attempts(llm, isEmpty, args, retries, backoff, attempt, lastErr)
              == Run(Success(llm.behave(s[i]).resp), s[..i + 1], Backoffs(backoff, attempt, s[i].attempt - 1),
                     FailureLogs(llm, s[..i]))
    decreases retries - attempt, 1
  {
    var p := AttemptCalls(args, attempt, CallableMethods(llm));
    assert s == p + Schedule(llm, args, attempt + 1, retries);
    if i < |p| {
      assert p[i] == s[i] && p[..i] == s[..i] && p[..i + 1] == s[..i + 1];
      PassAnswered(llm, isEmpty, args, attempt, MethodOrder, lastErr, i);
      assert attempt <= retries && p[i].attempt == attempt;
      assert TryMethods(llm, isEmpty, args, attempt, MethodOrder, lastErr).found.Some?;
    } else {
      AttemptsAnsweredLater(llm, isEmpty, args, retries, backoff, attempt, lastErr, s, i);
    }
  }

  /** `AttemptsAnswered` when the answering call belongs to a later attempt. */
  lemma {:induction false} AttemptsAnsweredLater<A, R, E>(llm: Llm<A, R, E>, isEmpty: R -> bool, args: A,
                                                          retries: int, backoff: real, attempt: int,
                                                          lastErr: Option<E>, s: seq<Invocation<A>>, i: nat)
    requires 1 <= attempt && 0.0 <= backoff
    requires |AttemptCalls(args, attempt, CallableMethods(llm))| <= i
    requires s == Schedule(llm, args, attempt, retries) && FirstAnswerAt(llm, isEmpty, s, i)
    ensures Attempts(llm, isEmpty, args, retries, backoff, attempt, lastErr)
              == Run(Success(llm.behave(s[i]).resp), s[..i + 1], Backoffs(backoff, attempt, s[i].attempt - 1),
                     FailureLogs(llm, s[..i]))
    decreases retries - attempt, 0
  {
    var p := AttemptCalls(args, attempt, CallableMethods(llm));
    var rest := Schedule(llm, args, attempt + 1, retries);
    assert s == p + rest;
    var j := i - |p|;
    FirstAnswerInTail(llm, isEmpty, p, rest, i);
    var kept := LastRaised(llm, p, lastErr);
    AttemptsAnswered(llm, isEmpty, args, retries, backoff, attempt + 1, kept, rest, j);
    var later := Attempts(llm, isEmpty, args, retries, backoff, attempt + 1, kept);
    ScheduleStartsAt(llm, args, attempt + 1, retries, j);
    JoinAnsweredRun(llm, backoff, attempt, p, rest, j, llm.behave(rest[j]).resp, later);
    PassExhausted(llm, isEmpty, args, attempt, MethodOrder, lastErr);
    AttemptsStep(llm, isEmpty, args, retries, backoff, attempt, lastErr);
    assert s[i] == rest[j];
  }

  /** The sleep and calls of an unanswered attempt, followed by a later answered run. */
  lemma JoinAnsweredRun<A, R, E>(llm: Llm<A, R, E>, backoff: real, attempt: int, p: seq<Invocation<A>>,
                                 rest: seq<Invocation<A>>, j: nat, resp: R, later: Run<A, R, E>)
    requires j < |rest| && attempt + 1 <= rest[j].attempt
    requires later == Run(Success(resp), rest[..j + 1], Backoffs(backoff, attempt + 1, rest[j].attempt - 1),
                          FailureLogs(llm, rest[..j]))
    ensures RunAfter(p, [backoff * attempt as real], FailureLogs(llm, p), later)
              == Run(Success(resp), p + rest[..j + 1], Backoffs(backoff, attempt, rest[j].attempt - 1),
                     FailureLogs(llm, p + rest[..j]))
  {
    FailureLogsAppend(llm, p, rest[..j]);
  }

  // ---------------------------------------------------------------------------
  // The properties of `call_llm_with_retries`

  /**
    With a non-negative back-off: if no scheduled call answers, all of them are made and
    the call fails with `retries` and the last raised error, after sleeping
    `backoff * 1, ..., backoff * retries`; otherwise the first answering call's response
    is returned, no later call is made, and a sleep follows each earlier attempt only.
  */
  lemma CallWithRetriesMatchesSchedule<A, R, E>(llm: Llm<A, R, E>, isEmpty: R -> bool, args: A,
                                                retries: int, backoff: real)
    requires 0.0 <= backoff
    ensures var s := Schedule(llm, args, 1, retries);
            var run := CallWithRetries(llm, isEmpty, args, retries, backoff);
            (NoAnswer(llm, isEmpty, s) ==>
               run == Run(Exhausted(retries, LastRaised(llm, s, None)), s, Backoffs(backoff, 1, retries),
                          FailureLogs(llm, s)))
            && (!NoAnswer(llm, isEmpty, s) ==>
               exists i :: 0 <= i < |s| && Answers(llm, isEmpty, s[i]) && NoAnswer(llm, isEmpty, s[..i])
                 && run == Run(Success(llm.behave(s[i]).resp), s[..i + 1], Backoffs(backoff, 1, s[i].attempt - 1),
                               FailureLogs(llm, s[..i])))
  {
    var s := Schedule(llm, args, 1, retries);
    if NoAnswer(llm, isEmpty, s) {
      AttemptsExhausted(llm, isEmpty, args, retries, backoff, 1, None);
    } else {
      FirstAnswerExists(llm, isEmpty, s);
      var i :| 0 <= i < |s| && Answers(llm, isEmpty, s[i]) && NoAnswer(llm, isEmpty, s[..i]);
      assert FirstAnswerAt(llm, isEmpty, s, i);
      AttemptsAnswered(llm, isEmpty, args, retries, backoff, 1, None, s, i);
    }
  }

  /** With a non-negative back-off the call succeeds exactly when some scheduled call answers. */
  lemma SucceedsIffSomeCallAnswers<A, R, E>(llm: Llm<A, R, E>, isEmpty: R -> bool, args: A,
                                            retries: int, backoff: real)
    requires 0.0 <= backoff
    ensures CallWithRetries(llm, isEmpty, args, retries, backoff).result.Success?
        <==> exists c :: c in Schedule(llm, args, 1, retries) && Answers(llm, isEmpty, c)
    ensures CallWithRetries(llm, isEmpty, args, retries, backoff).result.Success? ==>
              !isEmpty(CallWithRetries(llm, isEmpty, args, retries, backoff).result.resp)
  {
    CallWithRetriesMatchesSchedule(llm, isEmpty, args, retries, backoff);
    var s := Schedule(llm, args, 1, retries);
    if !NoAnswer(llm, isEmpty, s) {
      var i :| 0 <= i < |s| && Answers(llm, isEmpty, s[i]);
      assert s[i] in s;
    }
  }

  /**
    On exhaustion every callable method has been called exactly once per attempt:
    `retries * |callable methods|` calls in all, each with the caller's arguments.
  */
  lemma ExhaustionCallsEachMethodOncePerAttempt<A, R, E>(llm: Llm<A, R, E>, isEmpty: R -> bool, args: A,
                                                         retries: int, backoff: real)
    requires 0.0 <= backoff
    requires CallWithRetries(llm, isEmpty, args, retries, backoff).result.Exhausted?
    ensures var calls := CallWithRetries(llm, isEmpty, args, retries, backoff).calls;
            |calls| == (if retries < 1 then 0 else retries) * |CallableMethods(llm)|
            && CallsWithin(llm, args, 1, retries, calls)
            && (forall c: Invocation<A> :: 1 <= c.attempt <= retries && IsCallable(llm, c.name) && c.args == args
                  ==> c in calls)
            && InTryOrder(calls)
  {
    CallWithRetriesMatchesSchedule(llm, isEmpty, args, retries, backoff);
    ScheduleLength(llm, args, 1, retries);
    ScheduleWithin(llm, args, 1, retries);
    ScheduleComplete(llm, args, 1, retries);
    ScheduleOrdered(llm, args, 1, retries);
  }

  /**
    On exhaustion exactly one sleep followed each attempt, the last one included: the
    `k`-th sleep (from 0) lasted `backoff * (k + 1)`, and the error names `retries`.
  */
  lemma ExhaustionSleepsAfterEveryAttempt<A, R, E>(llm: Llm<A, R, E>, isEmpty: R -> bool, args: A,
                                                   retries: int, backoff: real)
    requires 0.0 <= backoff
    requires CallWithRetries(llm, isEmpty, args, retries, backoff).result.Exhausted?
    ensures var run := CallWithRetries(llm, isEmpty, args, retries, backoff);
            |run.sleeps| == (if retries < 1 then 0 else retries)
            && (forall k :: 0 <= k < |run.sleeps| ==> run.sleeps[k] == backoff * (k + 1) as real)
            && run.result.retries == retries
  {
    CallWithRetriesMatchesSchedule(llm, isEmpty, args, retries, backoff);
    BackoffsAreMultiples(backoff, 1, retries);
  }

  /**
    The error carried by the final `RuntimeError` is that of the most recent call that
    raised: an empty response never replaces it, and it is `None` when no call raised.
  */
  lemma ExhaustionReportsLastRaisedError<A, R, E>(llm: Llm<A, R, E>, isEmpty: R -> bool, args: A,
                                                  retries: int, backoff: real, i: nat)
    requires 0.0 <= backoff
    requires CallWithRetries(llm, isEmpty, args, retries, backoff).result.Exhausted?
    ensures var run := CallWithRetries(llm, isEmpty, args, retries, backoff);
            (forall k :: 0 <= k < |run.calls| ==> !Raises(llm, run.calls[k])) ==> run.result.lastErr == None
    ensures var run := CallWithRetries(llm, isEmpty, args, retries, backoff);
            (i < |run.calls| && Raises(llm, run.calls[i])
             && (forall j :: i < j < |run.calls| ==> !Raises(llm, run.calls[j])))
            ==> run.result.lastErr == Some(llm.behave(run.calls[i]).err)
  {
    CallWithRetriesMatchesSchedule(llm, isEmpty, args, retries, backoff);
    var s := Schedule(llm, args, 1, retries);
    if forall k :: 0 <= k < |s| ==> !Raises(llm, s[k]) {
      LastRaisedNone(llm, s, None);
    }
    if i < |s| && Raises(llm, s[i]) && (forall j :: i < j < |s| ==> !Raises(llm, s[j])) {
      LastRaisedIsMostRecent(llm, s, None, i);
    }
  }

  /** With `retries < 1` no method is called, nothing is slept, and the last error is `None`. */
  lemma NoAttemptsWhenRetriesBelowOne<A, R, E>(llm: Llm<A, R, E>, isEmpty: R -> bool, args: A,
                                               retries: int, backoff: real)
    requires retries < 1
    ensures CallWithRetries(llm, isEmpty, args, retries, backoff) == Run(Exhausted(retries, None), [], [], [])
  {
  }

  /**
    A negative back-off makes the first sleep raise: the call then ends after the
    first attempt, which either answered or is followed by the rejected sleep.
  */
  lemma NegativeBackoffEndsAfterFirstAttempt<A, R, E>(llm: Llm<A, R, E>, isEmpty: R -> bool, args: A,
                                                      retries: int, backoff: real)
    requires backoff < 0.0 && 1 <= retries
    ensures var p := AttemptCalls(args, 1, CallableMethods(llm));
            var run := CallWithRetries(llm, isEmpty, args, retries, backoff);
            run.sleeps == []
            && (NoAnswer(llm, isEmpty, p) <==> run.result == SleepRejected(backoff))
            && (NoAnswer(llm, isEmpty, p) ==> run.calls == p && run.logs == FailureLogs(llm, p))
    ensures var p := AttemptCalls(args, 1, CallableMethods(llm));
            var run := CallWithRetries(llm, isEmpty, args, retries, backoff);
            !NoAnswer(llm, isEmpty, p) ==>
              exists i: nat :: FirstAnswerAt(llm, isEmpty, p, i) && run.result == Success(llm.behave(p[i]).resp)
                               && run.calls == p[..i + 1] && run.logs == FailureLogs(llm, p[..i])
  {
    var p := AttemptCalls(args, 1, CallableMethods(llm));
    if NoAnswer(llm, isEmpty, p) {
      PassExhausted(llm, isEmpty, args, 1, MethodOrder, None);
    } else {
      FirstAnswerExists(llm, isEmpty, p);
      var i :| 0 <= i < |p| && Answers(llm, isEmpty, p[i]) && NoAnswer(llm, isEmpty, p[..i]);
      PassAnswered(llm, isEmpty, args, 1, MethodOrder, None, i);
      assert FirstAnswerAt(llm, isEmpty, p, i);
    }
  }

  /** Every call made, whatever the outcome, passes the caller's arguments unchanged to a callable method. */
  lemma {:induction false} PassCallsForwardArgs<A, R, E>(llm: Llm<A, R, E>, isEmpty: R -> bool, args: A,
                                                         attempt: int, names: seq<MethodName>, lastErr: Option<E>)
    ensures forall c :: c in TryMethods(llm, isEmpty, args, attempt, names, lastErr).calls
              ==> c == Invocation(attempt, c.name, args) && IsCallable(llm, c.name)
    decreases |names|
  {
    if names != [] {
      PassCallsForwardArgs(llm, isEmpty, args, attempt, names[1..], lastErr);
      var c := Invocation(attempt, names[0], args);
      if IsCallable(llm, names[0]) && llm.behave(c).Raise? {
        PassCallsForwardArgs(llm, isEmpty, args, attempt, names[1..], Some(llm.behave(c).err));
      }
    }
  }

  lemma {:induction false} CallsForwardArgs<A, R, E>(llm: Llm<A, R, E>, isEmpty: R -> bool, args: A, retries: int,
                                                     backoff: real, attempt: int, lastErr: Option<E>)
    ensures forall c :: c in Attempts(llm, isEmpty, args, retries, backoff, attempt, lastErr).calls
              ==> c.args == args && IsCallable(llm, c.name) && attempt <= c.attempt <= retries
    decreases retries - attempt
  {
    if attempt <= retries {
      PassCallsForwardArgs(llm, isEmpty, args, attempt, MethodOrder, lastErr);
      var pass := TryMethods(llm, isEmpty, args, attempt, MethodOrder, lastErr);
      CallsForwardArgs(llm, isEmpty, args, retries, backoff, attempt + 1, pass.lastErr);
    }
  }

  /** With the default parameters and no answer, the sleeps are 1.5, 3.0 and 4.5 seconds. */
  lemma DefaultsSleepThreeTimes<A, R, E>(llm: Llm<A, R, E>, isEmpty: R -> bool, args: A)
    requires NoAnswer(llm, isEmpty, Schedule(llm, args, 1, DefaultRetries))
    ensures var run := CallWithRetries(llm, isEmpty, args, DefaultRetries, DefaultBackoff);
            run.sleeps == [1.5, 3.0, 4.5] && run.result.Exhausted? && run.result.retries == 3
  {
    AttemptsExhausted(llm, isEmpty, args, DefaultRetries, DefaultBackoff, 1, None);
  }
}
