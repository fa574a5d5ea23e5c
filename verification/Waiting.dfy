/**
  The waiting loops of the Python SDK: the approval wrapper with its growing
  poll interval and wall-clock deadline, and the retry decorator.
 */
module Waiting {
  import opened Options
  import opened Wrappers

  function Power(b: real, n: nat): real {
    if n == 0 then 1.0 else b * Power(b, n - 1)
  }

  function Min(x: real, y: real): real {
    if x <= y then x else y
  }

  /** The length of sleep `i`, as the loop computes it: multiply, then cap. */
  function Interval(first: real, backoff: real, max: real, i: nat): real {
    if i == 0 then first else Grown(Interval(first, backoff, max, i - 1), backoff, max)
  }

  function Grown(interval: real, backoff: real, max: real): real {
    Min(interval * backoff, max)
  }

  /** The documented schedule: the power, capped. */
  function Capped(first: real, backoff: real, max: real, i: nat): real {
    Min(Scaled(first, Power(backoff, i)), max)
  }

  function Scaled(x: real, p: real): real {
    x * p
  }

  /** The loop keeps the documented schedule exactly when the first interval is not above the cap. */
  lemma ScheduleIffCapped(first: real, backoff: real, max: real)
    requires first >= 0.0 && backoff >= 0.0
    ensures (forall i: nat :: Interval(first, backoff, max, i) == Capped(first, backoff, max, i)) <==> first <= max
  {
    if first <= max {
      forall i: nat
        ensures Interval(first, backoff, max, i) == Capped(first, backoff, max, i)
      {
        CappedAt(first, backoff, max, i);
      }
    } else {
      assert Scaled(first, Power(backoff, 0)) == first;
      assert Interval(first, backoff, max, 0) != Capped(first, backoff, max, 0);
    }
  }

  lemma {:induction false} CappedAt(first: real, backoff: real, max: real, i: nat)
    requires 0.0 <= first <= max && backoff >= 0.0
    ensures Interval(first, backoff, max, i) == Capped(first, backoff, max, i)
  {
    hide Power, Min, Grown, Scaled;
    PowerSteps(backoff, i);
    if i == 0 {
      assert Interval(first, backoff, max, 0) == first;
      ScaledFacts(first, backoff, 1.0);
      SmallerIsMin(first, max);
    } else {
      CappedAt(first, backoff, max, i - 1);
      var p := Power(backoff, i - 1);
      OnlyGrowthExceeds(first, backoff, max, i - 1);
      CapThenGrow(Scaled(first, p), backoff, max);
      ScaledFacts(first, backoff, p);
    }
  }

  lemma ScaledFacts(x: real, b: real, p: real)
    ensures Scaled(x, 1.0) == x
    ensures Scaled(x, Scaled(b, p)) == Scaled(Scaled(x, p), b)
  {
  }

  lemma PowerSteps(b: real, n: nat)
    ensures n == 0 ==> Power(b, n) == 1.0
    ensures n > 0 ==> Power(b, n) == Scaled(b, Power(b, n - 1))
  {
  }

  lemma SmallerIsMin(x: real, y: real)
    requires x <= y
    ensures Min(x, y) == x
  {
  }

  /** Capping before the next multiplication makes no difference to capping after it. */
  lemma CapThenGrow(x: real, backoff: real, max: real)
    requires max >= 0.0 && (x > max ==> backoff >= 1.0)
    ensures Grown(Min(x, max), backoff, max) == Min(Scaled(x, backoff), max)
  {
    if x > max {
      Product(max, backoff);
      Product(x, backoff);
    }
  }

  lemma OnlyGrowthExceeds(first: real, backoff: real, max: real, n: nat)
    requires 0.0 <= first <= max && backoff >= 0.0
    ensures Scaled(first, Power(backoff, n)) > max ==> backoff >= 1.0
  {
    if backoff < 1.0 {
      PowerAtMostOne(backoff, n);
      AtMost(first, Power(backoff, n));
    }
  }

  lemma AtMost(x: real, p: real)
    requires x >= 0.0 && p <= 1.0
    ensures x * p <= x
  {
    assert x - x * p == x * (1.0 - p);
  }

  lemma {:induction false} PowerAtMostOne(b: real, n: nat)
    requires 0.0 <= b <= 1.0
    ensures 0.0 <= Power(b, n) <= 1.0
  {
    if n > 0 {
      PowerAtMostOne(b, n - 1);
      UnitProduct(b, Power(b, n - 1));
    }
  }

  lemma UnitProduct(b: real, p: real)
    requires 0.0 <= b <= 1.0 && 0.0 <= p <= 1.0
    ensures 0.0 <= b * p <= 1.0
  {
    AtMost(p, b);
    assert p * b == b * p;
  }

  lemma Product(x: real, b: real)
    requires x >= 0.0 && b >= 1.0
    ensures x * b >= x
  {
    assert x * b - x == x * (b - 1.0);
  }

  /** A schedule that does not shrink never sleeps for less than the smaller of first interval and cap. */
  lemma {:induction false} IntervalAtLeast(first: real, backoff: real, max: real, i: nat)
    requires first > 0.0 && max > 0.0 && backoff >= 1.0
    ensures Interval(first, backoff, max, i) >= Min(first, max)
  {
    if i > 0 {
      IntervalAtLeast(first, backoff, max, i - 1);
      Product(Interval(first, backoff, max, i - 1), backoff);
    }
  }

  // ---------------------------------------------------------------- the Python wrapper

  /**
    Readings of a monotonic clock: `clock(0)` sets the deadline, `clock(n + 1)` is
    taken before poll `n`, and a sleep takes at least as long as asked.
   */
  ghost predicate Ticks(clock: nat -> real, first: real, backoff: real, max: real) {
    clock(1) >= clock(0) && forall n: nat :: Slept(clock, first, backoff, max, n)
  }

  ghost predicate Slept(clock: nat -> real, first: real, backoff: real, max: real, n: nat) {
    clock(n + 2) >= clock(n + 1) && clock(n + 2) >= clock(n + 1) + Interval(first, backoff, max, n)
  }

  /** Sleep `n` was begun before the deadline. */
  ghost predicate InTime(clock: nat -> real, timeout: real, n: nat) {
    clock(n + 1) < clock(0) + timeout
  }

  /** What a run of the wrapper amounts to in polls and sleeps. */
  ghost predicate Waited(env: Env, clock: nat -> real, first: real, backoff: real, max: real, timeout: real,
                         trace: seq<Event>, outcome: Outcome, sleeps: seq<real>) {
    && |sleeps| < |trace| && trace[0] == Authorized(env.auth)
    && (forall i :: 0 < i < |trace| ==> (trace[i].Polled? <==> i <= |sleeps|))
    && (forall i :: 0 < i <= |sleeps| ==> trace[i] == Polled(env.polls(i - 1)))
    && (forall i :: 0 <= i < |sleeps| ==> sleeps[i] == Interval(first, backoff, max, i) >= 0.0)
    && (outcome == Refused(BadSleep) ==> Interval(first, backoff, max, |sleeps|) < 0.0)
    && (outcome == Refused(TimedOut) ==> clock(|sleeps| + 1) >= clock(0) + timeout)
    && (forall i :: 0 <= i < |sleeps| ==> InTime(clock, timeout, i))
  }

  /** The answer settles nothing: there was none, or a live request nobody has decided. */
  predicate LeavesOpen(answer: PollAnswer) {
    answer.PollError? || (!answer.expired && answer.status !in {"APPROVED", "REJECTED", "EDITED"})
  }

  /** Poll `i` is made: sleeping was possible and in time so far, and every poll before left the matter open. */
  ghost predicate Reached(env: Env, clock: nat -> real, first: real, backoff: real, max: real, timeout: real, i: nat) {
    && (forall j: nat :: j <= i ==> InTime(clock, timeout, j) && Interval(first, backoff, max, j) >= 0.0)
    && (forall j: nat :: j < i ==> LeavesOpen(env.polls(j)))
  }

  /** These two answers, for this action and while the request lives, are why the tool runs on `path`. */
  ghost predicate Settles(poll: PollAnswer, consumed: ConsumeAnswer, expected: string, id: string, path: Path) {
    && poll.Status? && !poll.expired && poll.actionHash == expected
    && match path
       case ByApproval(of) => of == id && poll.status == "APPROVED" && consumed == Consumed(expected)
       case ByEdit(of, parameters) => of == id && poll.status == "EDITED" && poll.edited == Some(parameters)
       case _ => false
  }

  /** The answers of the gateway and the readings of the clock on which the tool runs, path by path. */
  ghost predicate Cleared(env: Env, expected: string, clock: nat -> real, first: real, backoff: real, max: real,
                          timeout: real, path: Path) {
    && env.auth.Decision?
    && match path
       case ByAllow => env.auth.decision == "allow"
       case ByRedact(fields) => env.auth.decision == "redact" && fields == env.auth.redacted
       case _ =>
         && env.auth.decision == "require_approval" && env.auth.approval.Some?
         && var approval := env.auth.approval.value;
            && approval.actionHash == expected && expected != "" && !approval.expired
            && exists i: nat :: Reached(env, clock, first, backoff, max, timeout, i)
                                && Settles(env.polls(i), env.consumes(i), expected, approval.id, path)
  }

  /**
    protect_tool, whatever the gateway answers, however slow it is and whatever the
    schedule: the run is one the wrapper machine allows, each sleep is that of the
    schedule, a poll follows each sleep, and none is begun after the deadline. The tool
    runs exactly on the answers that clear it: an outright allow or redact, or an
    unexpired approval bound to this action whose first decisive poll before the
    deadline is an approval consumed for this action, or an edit of it with parameters.
    All that is asked of the clock is that the deadline comes.
   */
  method PyProtect(env: Env, expected: string, clock: nat -> real,
                   first: real, backoff: real, max: real, timeout: real, ghost end: nat)
    returns (trace: seq<Event>, outcome: Outcome, sleeps: seq<real>)
    requires Ticks(clock, first, backoff, max) && clock(end + 1) >= clock(0) + timeout
    ensures After(Python, expected, Start, trace) == Done(outcome)
    ensures Waited(env, clock, first, backoff, max, timeout, trace, outcome, sleeps)
    ensures forall path :: outcome == Ran(path) <==> Cleared(env, expected, clock, first, backoff, max, timeout, path)
    ensures RanTool in trace <==> outcome.Ran?
  {
    hide After, Interval, Reached, Settles;
    sleeps := [];
    trace := [Authorized(env.auth)];
    PyAfterOne(expected, env.auth);
    if env.auth.AuthError? {
      return trace, Refused(Unreachable), sleeps;
    }
    if env.auth.decision == "allow" {
      AfterAppend(Python, expected, Start, trace, RanTool);
      return trace + [RanTool], Ran(ByAllow), sleeps;
    }
    if env.auth.decision == "deny" {
      return trace, Refused(Denied), sleeps;
    }
    if env.auth.decision == "redact" {
      AfterAppend(Python, expected, Start, trace, RanTool);
      return trace + [RanTool], Ran(ByRedact(env.auth.redacted)), sleeps;
    }
    if env.auth.decision != "require_approval" {
      return trace, Refused(UnknownDecision), sleeps;
    }
    if env.auth.approval.None? {
      return trace, Refused(NoApproval), sleeps;
    }
    var approval := env.auth.approval.value;
    if approval.actionHash == "" || approval.actionHash != expected {
      return trace, Refused(WrongHashAuthorize), sleeps;
    }
    if approval.expired {
      return trace, Refused(Expired), sleeps;
    }
    trace, outcome, sleeps := PyPoll(env, expected, approval.id, clock, first, backoff, max, timeout, end);
  }

  lemma PyAfterOne(expected: string, answer: AuthAnswer)
    ensures After(Python, expected, Start, [Authorized(answer)]) == AfterAuthorize(Python, expected, answer)
  {
    assert [Authorized(answer)] == [] + [Authorized(answer)];
    AfterAppend(Python, expected, Start, [], Authorized(answer));
  }

  method PyPoll(env: Env, expected: string, id: string, clock: nat -> real,
                first: real, backoff: real, max: real, timeout: real, ghost end: nat)
    returns (trace: seq<Event>, outcome: Outcome, sleeps: seq<real>)
    requires Ticks(clock, first, backoff, max) && clock(end + 1) >= clock(0) + timeout
    requires AfterAuthorize(Python, expected, env.auth) == Polling(id)
    requires expected != "" && env.auth.Decision? && env.auth.decision == "require_approval"
    requires env.auth.approval == Some(Approval(id, expected, false))
    ensures After(Python, expected, Start, trace) == Done(outcome)
    ensures Waited(env, clock, first, backoff, max, timeout, trace, outcome, sleeps)
    ensures forall path :: outcome == Ran(path) <==> Cleared(env, expected, clock, first, backoff, max, timeout, path)
    ensures RanTool in trace <==> outcome.Ran?
  {
    hide After, AfterAuthorize, AfterPoll, Ticks, Interval, Grown, Settles, Reached, LeavesOpen, Cleared;
    IntervalFirst(first, backoff, max);
    trace, sleeps := [Authorized(env.auth)], [];
    PyAfterOne(expected, env.auth);
    var deadline := clock(0) + timeout;
    var n, interval := 0, first;
    while clock(n + 1) < deadline
      invariant n == |sleeps| && |trace| == n + 1 && trace[0] == Authorized(env.auth) && n <= end
      invariant interval == Interval(first, backoff, max, n)
      invariant forall i :: 0 <= i < n ==> sleeps[i] == Interval(first, backoff, max, i) >= 0.0
      invariant forall i :: 0 <= i < n ==> InTime(clock, timeout, i)
      invariant forall i :: 0 < i <= n ==> trace[i] == Polled(env.polls(i - 1))
      invariant After(Python, expected, Start, trace) == Polling(id)
      invariant RanTool !in trace
      invariant forall i: nat :: i < n ==> LeavesOpen(env.polls(i))
      decreases end - n
    {
      if interval < 0.0 {
        NeverCleared(env, expected, id, clock, first, backoff, max, timeout, n);
        AfterAppend(Python, expected, Start, trace, SleepRaised);
        return trace + [SleepRaised], Refused(BadSleep), sleeps;
      }
      StillTime(clock, first, backoff, max, n, end, deadline);
      assert InTime(clock, timeout, n);
      IntervalNext(first, backoff, max, n);
      sleeps := sleeps + [interval];
      interval := Grown(interval, backoff, max);
      AfterAppend(Python, expected, Start, trace, Polled(env.polls(n)));
      trace := trace + [Polled(env.polls(n))];
      n := n + 1;
      var more, result := PyAct(env.polls(n - 1), env.consumes(n - 1), expected, id, trace);
      if result.Some? {
        NowReached(env, clock, first, backoff, max, timeout, n - 1);
        ClearedAt(env, expected, id, clock, first, backoff, max, timeout, n - 1);
        return trace + more, result.value, sleeps;
      }
    }
    NeverCleared(env, expected, id, clock, first, backoff, max, timeout, n);
    AfterAppend(Python, expected, Start, trace, GaveUp);
    return trace + [GaveUp], Refused(TimedOut), sleeps;
  }

  lemma NowReached(env: Env, clock: nat -> real, first: real, backoff: real, max: real, timeout: real, n: nat)
    requires forall j: nat :: j <= n ==> InTime(clock, timeout, j) && Interval(first, backoff, max, j) >= 0.0
    requires forall j: nat :: j < n ==> LeavesOpen(env.polls(j))
    ensures Reached(env, clock, first, backoff, max, timeout, n)
  {
  }

  /** Offered for this action, a request clears the tool by the poll that settles it and by no other. */
  lemma ClearedAt(env: Env, expected: string, id: string, clock: nat -> real, first: real, backoff: real, max: real,
                  timeout: real, n: nat)
    requires expected != "" && env.auth.Decision? && env.auth.decision == "require_approval"
    requires env.auth.approval == Some(Approval(id, expected, false))
    requires Reached(env, clock, first, backoff, max, timeout, n) && !LeavesOpen(env.polls(n))
    ensures forall path :: Cleared(env, expected, clock, first, backoff, max, timeout, path) <==>
                           Settles(env.polls(n), env.consumes(n), expected, id, path)
  {
    hide Interval, InTime;
    forall i: nat, path | Reached(env, clock, first, backoff, max, timeout, i)
                          && Settles(env.polls(i), env.consumes(i), expected, id, path)
      ensures i == n
    {
      assert !LeavesOpen(env.polls(i));
    }
  }

  /** And by none at all when polling ends unsettled. */
  lemma NeverCleared(env: Env, expected: string, id: string, clock: nat -> real, first: real, backoff: real, max: real,
                     timeout: real, n: nat)
    requires env.auth.Decision? && env.auth.decision == "require_approval"
    requires env.auth.approval == Some(Approval(id, expected, false))
    requires forall j: nat :: j < n ==> LeavesOpen(env.polls(j))
    requires !InTime(clock, timeout, n) || Interval(first, backoff, max, n) < 0.0
    ensures forall path :: !Cleared(env, expected, clock, first, backoff, max, timeout, path)
  {
    hide Interval, InTime;
    forall i: nat, path | Reached(env, clock, first, backoff, max, timeout, i)
      ensures !Settles(env.polls(i), env.consumes(i), expected, id, path)
    {
      assert i < n;
      assert LeavesOpen(env.polls(i));
    }
  }

  lemma IntervalFirst(first: real, backoff: real, max: real)
    ensures Interval(first, backoff, max, 0) == first
  {
  }

  lemma IntervalNext(first: real, backoff: real, max: real, n: nat)
    ensures Interval(first, backoff, max, n + 1) == Grown(Interval(first, backoff, max, n), backoff, max)
  {
  }

  /** One poll answer acted upon: the run ends, or there is nothing to do but poll again. */
  method PyAct(poll: PollAnswer, consumed: ConsumeAnswer, expected: string, id: string, ghost trace: seq<Event>)
    returns (more: seq<Event>, result: Option<Outcome>)
    requires After(Python, expected, Start, trace) == AfterPoll(Python, expected, id, poll) && expected != ""
    ensures result.None? <==> LeavesOpen(poll)
    ensures forall path :: result == Some(Ran(path)) <==> Settles(poll, consumed, expected, id, path)
    ensures RanTool in more <==> result.Some? && result.value.Ran?
    ensures result.None? ==> more == [] && AfterPoll(Python, expected, id, poll) == Polling(id)
    ensures result.Some? ==> After(Python, expected, Start, trace + more) == Done(result.value)
    ensures result.Some? ==> result.value != Refused(TimedOut) && result.value != Refused(BadSleep)
    ensures forall e :: e in more ==> !e.Polled?
  {
    hide After;
    more := [];
    assert trace + more == trace;
    if poll.PollError? {
      return more, None;
    }
    if poll.expired {
      return more, Some(Refused(Expired));
    }
    if poll.status == "APPROVED" {
      if poll.actionHash == "" || poll.actionHash != expected {
        return more, Some(Refused(WrongHashPoll));
      }
      more := [ConsumeReturned(consumed)];
      AfterAppend(Python, expected, Start, trace, ConsumeReturned(consumed));
      if consumed.ConsumeError? {
        return more, Some(Refused(NotConsumed));
      }
      if consumed.actionHash == "" || consumed.actionHash != expected {
        return more, Some(Refused(WrongHashConsume));
      }
      AfterAppend(Python, expected, Start, trace + more, RanTool);
      assert trace + more + [RanTool] == trace + (more + [RanTool]);
      return more + [RanTool], Some(Ran(ByApproval(id)));
    } else if poll.status == "REJECTED" {
      return more, Some(Refused(Rejected));
    } else if poll.status == "EDITED" {
      if poll.actionHash == "" || poll.actionHash != expected {
        return more, Some(Refused(WrongHashPoll));
      }
      if poll.edited.None? {
        return more, Some(Refused(NoEdit));
      }
      AfterAppend(Python, expected, Start, trace, RanTool);
      return [RanTool], Some(Ran(ByEdit(id, poll.edited.value)));
    }
    return more, None;
  }

  /** A clock that has not reached the deadline has not come to the reading that does. */
  lemma {:induction false} StillTime(clock: nat -> real, first: real, backoff: real, max: real, n: nat, end: nat,
                                     deadline: real)
    requires Ticks(clock, first, backoff, max) && clock(end + 1) >= deadline && clock(n + 1) < deadline
    ensures n < end
    decreases n
  {
    if end <= n { Later(clock, first, backoff, max, end, n); }
  }

  lemma {:induction false} Later(clock: nat -> real, first: real, backoff: real, max: real, m: nat, n: nat)
    requires Ticks(clock, first, backoff, max) && m <= n
    ensures clock(m + 1) <= clock(n + 1)
    decreases n - m
  {
    hide Interval;
    if m < n {
      Later(clock, first, backoff, max, m, n - 1);
      assert Slept(clock, first, backoff, max, n - 1);
    }
  }

  /**
    With a positive first interval and cap and a schedule that does not shrink, the
    number of polls is below timeout over the smaller of the two, plus one. This is
    also when the deadline is sure to come.
   */
  lemma PollsBounded(env: Env, clock: nat -> real, first: real, backoff: real, max: real, timeout: real,
                     trace: seq<Event>, outcome: Outcome, sleeps: seq<real>)
    requires Ticks(clock, first, backoff, max) && first > 0.0 && max > 0.0 && backoff >= 1.0
    requires Waited(env, clock, first, backoff, max, timeout, trace, outcome, sleeps)
    ensures |sleeps| > 0 ==> (|sleeps| - 1) as real < timeout / Min(first, max)
    ensures outcome != Refused(BadSleep)
  {
    hide Interval;
    IntervalAtLeast(first, backoff, max, |sleeps|);
    if |sleeps| > 0 {
      var n := |sleeps| - 1;
      Elapsed(clock, first, backoff, max, n);
      assert InTime(clock, timeout, n);
      Below(n, Min(first, max), timeout);
    }
  }

  lemma {:induction false} Elapsed(clock: nat -> real, first: real, backoff: real, max: real, n: nat)
    requires Ticks(clock, first, backoff, max) && first > 0.0 && max > 0.0 && backoff >= 1.0
    ensures clock(n + 1) >= clock(0) + Times(n, Min(first, max))
  {
    hide Interval;
    var d := Min(first, max);
    if n > 0 {
      Elapsed(clock, first, backoff, max, n - 1);
      IntervalAtLeast(first, backoff, max, n - 1);
      assert Slept(clock, first, backoff, max, n - 1);
      TimesNext(n - 1, d);
    } else {
      TimesNone(d);
    }
  }

  lemma DeadlineComes(clock: nat -> real, first: real, backoff: real, max: real, timeout: real) returns (end: nat)
    requires Ticks(clock, first, backoff, max) && first > 0.0 && max > 0.0 && backoff >= 1.0
    ensures clock(end + 1) >= clock(0) + timeout
  {
    hide Interval, Ticks;
    var d := Min(first, max);
    end := if timeout <= 0.0 then 0 else (timeout / d).Floor + 1;
    Elapsed(clock, first, backoff, max, end);
    if timeout > 0.0 {
      var q := timeout / d;
      assert q * d == timeout;
      assert end as real >= q;
      assert (end as real - q) * d >= 0.0;
    } else {
      TimesNone(d);
    }
  }

  /** The least time `n` sleeps take. */
  ghost function Times(n: nat, first: real): real {
    n as real * first
  }

  lemma TimesNone(first: real)
    ensures Times(0, first) == 0.0
  {
  }

  lemma TimesNext(n: nat, first: real)
    ensures Times(n + 1, first) == Times(n, first) + first
  {
    assert (n + 1) as real == n as real + 1.0;
  }

  lemma Below(n: nat, first: real, timeout: real)
    requires first > 0.0 && Times(n, first) < timeout
    ensures n as real < timeout / first
  {
    var q := timeout / first;
    assert q * first == timeout;
    assert (q - n as real) * first > 0.0;
  }

  // ---------------------------------------------------------------- retrying

  datatype Attempt = Response(status: int) | NetworkError | OtherError

  /** BadDelay: a negative sleep raises, and the call with it. */
  datatype CallResult = Returned(status: int) | Raised(error: Attempt) | BadDelay | NoResult

  predicate Retryable(a: Attempt) {
    a.NetworkError? || (a.Response? && a.status in {500, 502, 503, 504})
  }

  /** The failures that may pass: no answer, or one of the four statuses of a server in trouble. */
  const TRANSIENT := {NetworkError, Response(500), Response(502), Response(503), Response(504)}

  function ResultOf(a: Attempt): CallResult {
    if a.Response? then Returned(a.status) else Raised(a)
  }

  /**
    The decorated call is tried until an attempt is not a transient failure, at most
    maxRetries + 1 times, and its result is that of the last attempt. It ends without
    one exactly when maxRetries is negative, and in the first sleep exactly when
    there is one and the backoff factor is negative.
   */
  method RetryOn5xx(attempt: nat -> Attempt, maxRetries: int, backoffFactor: real)
    returns (result: CallResult, calls: nat, slept: real)
    ensures result == NoResult <==> maxRetries < 0
    ensures result == BadDelay <==> backoffFactor < 0.0 && maxRetries > 0 && attempt(0) in TRANSIENT
    ensures result == BadDelay ==> calls == 1 && slept == 0.0
    ensures maxRetries >= 0 ==> 1 <= calls <= maxRetries + 1
    ensures forall i :: 0 <= i < calls - 1 ==> attempt(i) in TRANSIENT
    ensures maxRetries >= 0 && result != BadDelay ==>
              && result == ResultOf(attempt(calls - 1))
              && (attempt(calls - 1) !in TRANSIENT || calls == maxRetries + 1)
              && slept == Scaled(backoffFactor, Power(2.0, calls - 1) - 1.0)
  {
    hide Scaled;
    var delay := backoffFactor;
    calls, slept := 0, 0.0;
    NoSleepYet(backoffFactor);
    while calls < maxRetries + 1
      invariant calls <= maxRetries + 1 || (calls == 0 && maxRetries < 0)
      invariant delay == Scaled(backoffFactor, Power(2.0, calls))
      invariant slept == Scaled(backoffFactor, Power(2.0, calls) - 1.0)
      invariant forall i :: 0 <= i < calls ==> Retryable(attempt(i))
      invariant calls > 0 ==> calls <= maxRetries && backoffFactor >= 0.0
      invariant calls == 0 ==> delay == backoffFactor && slept == 0.0
    {
      var a := attempt(calls);
      calls := calls + 1;
      if Retryable(a) && calls - 1 < maxRetries {
        NextSleep(backoffFactor, calls - 1);
        if delay < 0.0 {
          return BadDelay, calls, slept;
        }
        slept := slept + delay;
        delay := delay * 2.0;
        continue;
      }
      return ResultOf(a), calls, slept;
    }
    result := NoResult;
  }

  lemma NoSleepYet(factor: real)
    ensures Scaled(factor, Power(2.0, 0)) == factor && Scaled(factor, Power(2.0, 0) - 1.0) == 0.0
  {
  }

  /** The next delay is twice the last, and the delays so far add up. */
  lemma NextSleep(factor: real, n: nat)
    ensures Scaled(factor, Power(2.0, n)) * 2.0 == Scaled(factor, Power(2.0, n + 1))
    ensures Scaled(factor, Power(2.0, n) - 1.0) + Scaled(factor, Power(2.0, n))
         == Scaled(factor, Power(2.0, n + 1) - 1.0)
    ensures factor >= 0.0 ==> Scaled(factor, Power(2.0, n)) >= 0.0
  {
    PowerOfTwo(n);
    var p := Power(2.0, n);
    assert Power(2.0, n + 1) == 2.0 * p;
    assert factor * (2.0 * p) == factor * p * 2.0;
    assert factor * (p - 1.0) == factor * p - factor && factor * (2.0 * p - 1.0) == factor * p * 2.0 - factor;
  }

  lemma {:induction false} PowerOfTwo(n: nat)
    ensures Power(2.0, n) >= 1.0
  {
    if n > 0 { PowerOfTwo(n - 1); }
  }
}
