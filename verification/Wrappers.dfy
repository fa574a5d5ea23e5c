/**
  The fail-closed tool wrappers of the SDKs, run against an arbitrary
  environment: whatever the gateway answers, and whether or not it answers.

  `Next` is the one machine all wrappers follow; the Go and TypeScript wrappers
  are methods proved to take exactly its steps.
 */
module Wrappers {
  import opened Canon
  import opened Options

  /** Go and TypeScript share one protocol; Python adds redaction, edits and expiry times. */
  datatype Sdk = GoOrTs | Python

  // ---------------------------------------------------------------- what the gateway may answer

  datatype Approval = Approval(id: string, actionHash: string, expired: bool)

  /** `redacted` names the arguments to strip, should the decision be to redact. */
  datatype AuthAnswer = AuthError | Decision(decision: string, approval: Option<Approval>, redacted: set<string>)

  /** `expired` is the Python wrapper's reading of the expiry time; `edited` the parameters an edit came with. */
  datatype PollAnswer =
    | PollError
    | Status(status: string, actionHash: string, expired: bool, edited: Option<map<string, Value>>)

  datatype ConsumeAnswer = ConsumeError | Consumed(actionHash: string)

  // ---------------------------------------------------------------- what a wrapper does

  /** Why the tool may run; redaction and edits change its arguments. */
  datatype Path =
    | ByAllow
    | ByRedact(fields: set<string>)
    | ByApproval(id: string)
    | ByEdit(id: string, parameters: map<string, Value>)

  datatype Refusal =
    | Unreachable | Denied | UnknownDecision | NoApproval
    | WrongHashAuthorize | WrongHashPoll | WrongHashConsume
    | Rejected | Expired | NoEdit | NotConsumed | TimedOut | BadSleep

  datatype Outcome = Ran(path: Path) | Refused(why: Refusal)

  datatype Phase =
    | Start
    | Polling(id: string)
    | Consuming(id: string)
    | Ready(path: Path)
    | Done(outcome: Outcome)
    | Stuck  // the wrapper does nothing of the kind here

  datatype Event =
    | Authorized(auth: AuthAnswer)
    | Polled(poll: PollAnswer)
    | ConsumeReturned(consumed: ConsumeAnswer)
    | GaveUp
    | SleepRaised  // Python does not sleep for a negative time
    | RanTool

  /** assertHash: an absent hash never matches. */
  predicate HashOk(got: string, expected: string) {
    got != "" && got == expected
  }

  function AfterAuthorize(sdk: Sdk, expected: string, answer: AuthAnswer): Phase {
    match answer
    case AuthError => Done(Refused(Unreachable))
    case Decision(decision, approval, redacted) =>
      if decision == "allow" then Ready(ByAllow)
      else if decision == "deny" then Done(Refused(Denied))
      else if decision == "redact" && sdk.Python? then Ready(ByRedact(redacted))
      else if decision != "require_approval" then Done(Refused(UnknownDecision))
      else if approval.None? then Done(Refused(NoApproval))
      else if !HashOk(approval.value.actionHash, expected) then Done(Refused(WrongHashAuthorize))
      else if sdk.Python? && approval.value.expired then Done(Refused(Expired))
      else Polling(approval.value.id)
  }

  function AfterPoll(sdk: Sdk, expected: string, id: string, answer: PollAnswer): Phase {
    match answer
    case PollError => Polling(id)
    case Status(status, actionHash, expired, edited) =>
      if sdk.Python? && expired then Done(Refused(Expired))
      else if status == "APPROVED" then
        if HashOk(actionHash, expected) then Consuming(id) else Done(Refused(WrongHashPoll))
      else if status == "REJECTED" then Done(Refused(Rejected))
      else if status == "EXPIRED" && sdk.GoOrTs? then Done(Refused(Expired))
      else if status == "EDITED" && sdk.Python? then
        if !HashOk(actionHash, expected) then Done(Refused(WrongHashPoll))
        else if edited.None? then Done(Refused(NoEdit))
        else Ready(ByEdit(id, edited.value))
      else Polling(id)
  }

  function AfterConsume(expected: string, id: string, answer: ConsumeAnswer): Phase {
    match answer
    case ConsumeError => Done(Refused(NotConsumed))
    case Consumed(actionHash) =>
      if HashOk(actionHash, expected) then Ready(ByApproval(id)) else Done(Refused(WrongHashConsume))
  }

  /** One step of a wrapper whose action hashes to `expected`. */
  function Next(sdk: Sdk, expected: string, phase: Phase, event: Event): Phase {
    match (phase, event)
    case (Start, Authorized(a)) => AfterAuthorize(sdk, expected, a)
    case (Polling(id), Polled(p)) => AfterPoll(sdk, expected, id, p)
    case (Polling(id), GaveUp) => Done(Refused(TimedOut))
    case (Polling(id), SleepRaised) => if sdk.Python? then Done(Refused(BadSleep)) else Stuck
    case (Consuming(id), ConsumeReturned(c)) => AfterConsume(expected, id, c)
    case (Ready(path), RanTool) => Done(Ran(path))
    case _ => Stuck
  }

  function After(sdk: Sdk, expected: string, phase: Phase, trace: seq<Event>): Phase
    decreases |trace|
  {
    if trace == [] then phase else After(sdk, expected, Next(sdk, expected, phase, trace[0]), trace[1..])
  }

  lemma {:induction false} AfterAppend(sdk: Sdk, expected: string, phase: Phase, trace: seq<Event>, event: Event)
    ensures After(sdk, expected, phase, trace + [event])
         == Next(sdk, expected, After(sdk, expected, phase, trace), event)
    decreases |trace|
  {
    if trace != [] {
      assert (trace + [event])[1..] == trace[1..] + [event];
      AfterAppend(sdk, expected, Next(sdk, expected, phase, trace[0]), trace[1..], event);
    }
  }

  // ---------------------------------------------------------------- the Go and TypeScript wrappers

  /** Everything the environment will answer: one authorize, and per poll a status and a consume. */
  datatype Env = Env(auth: AuthAnswer, polls: nat -> PollAnswer, consumes: nat -> ConsumeAnswer)

  const DEFAULT_MAX_POLLS := 150

  /** protect.go: a limit of zero or less means the default. */
  function GoLimit(maxPolls: int): nat {
    if maxPolls <= 0 then DEFAULT_MAX_POLLS else maxPolls
  }

  /** protect.ts: the default applies only to an absent limit; a limit of zero or less allows no poll. */
  function TsLimit(maxPolls: Option<int>): nat {
    if maxPolls.None? then DEFAULT_MAX_POLLS else if maxPolls.value < 0 then 0 else maxPolls.value
  }

  /** The run of a wrapper with a poll limit. */
  function Session(env: Env, expected: string, limit: nat): seq<Event> {
    [Authorized(env.auth)] +
    match AfterAuthorize(GoOrTs, expected, env.auth)
    case Ready(_) => [RanTool]
    case Polling(id) => PollsFrom(env, expected, limit, id, 0)
    case _ => []
  }

  function PollsFrom(env: Env, expected: string, limit: nat, id: string, i: nat): seq<Event>
    decreases limit - i
  {
    if i >= limit then [GaveUp]
    else
      [Polled(env.polls(i))] +
      match AfterPoll(GoOrTs, expected, id, env.polls(i))
      case Polling(_) => PollsFrom(env, expected, limit, id, i + 1)
      case Consuming(_) =>
        if AfterConsume(expected, id, env.consumes(i)).Ready? then [ConsumeReturned(env.consumes(i)), RanTool]
        else [ConsumeReturned(env.consumes(i))]
      case _ => []
  }

  /** ProtectWithOptions of the Go SDK: authorize and branch on the decision, recording what is done. */
  method GoProtect(env: Env, expected: string, maxPolls: int) returns (trace: seq<Event>, outcome: Outcome)
    ensures trace == Session(env, expected, GoLimit(maxPolls))
    ensures After(GoOrTs, expected, Start, trace) == Done(outcome)
  {
    var limit := maxPolls;
    if limit <= 0 {
      limit := DEFAULT_MAX_POLLS;
    }
    trace := [Authorized(env.auth)];
    AfterOne(expected, env.auth);
    if env.auth.AuthError? {
      return trace, Refused(Unreachable);
    }
    if env.auth.decision == "allow" {
      AfterAppend(GoOrTs, expected, Start, trace, RanTool);
      return trace + [RanTool], Ran(ByAllow);
    }
    if env.auth.decision == "deny" {
      return trace, Refused(Denied);
    }
    if env.auth.decision != "require_approval" {
      return trace, Refused(UnknownDecision);
    }
    trace, outcome := GoHandleApproval(env, expected, limit, trace);
  }

  lemma AfterOne(expected: string, answer: AuthAnswer)
    ensures After(GoOrTs, expected, Start, [Authorized(answer)]) == AfterAuthorize(GoOrTs, expected, answer)
  {
    assert [Authorized(answer)] == [] + [Authorized(answer)];
    AfterAppend(GoOrTs, expected, Start, [], Authorized(answer));
  }

  /** What is left of a run once approval was asked for. */
  function ApprovalRun(env: Env, expected: string, limit: nat): seq<Event> {
    match AfterAuthorize(GoOrTs, expected, env.auth)
    case Polling(id) => PollsFrom(env, expected, limit, id, 0)
    case _ => []
  }

  /** handleApproval: poll up to the limit, check the hash at every step, consume once, then run. */
  method GoHandleApproval(env: Env, expected: string, limit: nat, start: seq<Event>)
    returns (trace: seq<Event>, outcome: Outcome)
    requires env.auth.Decision? && env.auth.decision == "require_approval"
    requires After(GoOrTs, expected, Start, start) == AfterAuthorize(GoOrTs, expected, env.auth)
    ensures trace == start + ApprovalRun(env, expected, limit)
    ensures After(GoOrTs, expected, Start, trace) == Done(outcome)
  {
    hide After;
    trace := start;
    if env.auth.approval.None? {
      return trace, Refused(NoApproval);
    }
    var id, bound := env.auth.approval.value.id, env.auth.approval.value.actionHash;
    if bound == "" || bound != expected {
      return trace, Refused(WrongHashAuthorize);
    }
    for i := 0 to limit
      invariant trace + PollsFrom(env, expected, limit, id, i) == start + PollsFrom(env, expected, limit, id, 0)
      invariant After(GoOrTs, expected, Start, trace) == Polling(id)
    {
      var poll := env.polls(i);
      AfterAppend(GoOrTs, expected, Start, trace, Polled(poll));
      trace := trace + [Polled(poll)];
      if poll.PollError? {
        continue;
      }
      if poll.status == "APPROVED" {
        if poll.actionHash == "" || poll.actionHash != expected {
          return trace, Refused(WrongHashPoll);
        }
        var consumed := env.consumes(i);
        AfterAppend(GoOrTs, expected, Start, trace, ConsumeReturned(consumed));
        trace := trace + [ConsumeReturned(consumed)];
        if consumed.ConsumeError? {
          return trace, Refused(NotConsumed);
        }
        if consumed.actionHash == "" || consumed.actionHash != expected {
          return trace, Refused(WrongHashConsume);
        }
        AfterAppend(GoOrTs, expected, Start, trace, RanTool);
        return trace + [RanTool], Ran(ByApproval(id));
      } else if poll.status == "REJECTED" {
        return trace, Refused(Rejected);
      } else if poll.status == "EXPIRED" {
        return trace, Refused(Expired);
      }
    }
    AfterAppend(GoOrTs, expected, Start, trace, GaveUp);
    return trace + [GaveUp], Refused(TimedOut);
  }

  /** protect of the TypeScript SDK: the limit is taken as given, and only an absent one is replaced. */
  method TsProtect(env: Env, expected: string, maxPolls: Option<int>) returns (trace: seq<Event>, outcome: Outcome)
    ensures trace == Session(env, expected, TsLimit(maxPolls))
    ensures After(GoOrTs, expected, Start, trace) == Done(outcome)
  {
    var limit := match maxPolls case Some(n) => n case None => DEFAULT_MAX_POLLS;
    trace := [Authorized(env.auth)];
    AfterOne(expected, env.auth);
    match env.auth
    case AuthError =>
      return trace, Refused(Unreachable);
    case Decision(decision, approval, _) =>
      if decision == "allow" {
        AfterAppend(GoOrTs, expected, Start, trace, RanTool);
        return trace + [RanTool], Ran(ByAllow);
      } else if decision == "deny" {
        return trace, Refused(Denied);
      } else if decision == "require_approval" {
        trace, outcome := TsHandleApproval(env, expected, limit, approval, trace);
      } else {
        return trace, Refused(UnknownDecision);
      }
  }

  /** handleApproval of the TypeScript SDK: the approval must be there and bound to this action. */
  method TsHandleApproval(env: Env, expected: string, maxPolls: int, approval: Option<Approval>, start: seq<Event>)
    returns (trace: seq<Event>, outcome: Outcome)
    requires env.auth.Decision? && env.auth.decision == "require_approval" && env.auth.approval == approval
    requires After(GoOrTs, expected, Start, start) == AfterAuthorize(GoOrTs, expected, env.auth)
    ensures trace == start + ApprovalRun(env, expected, TsLimit(Some(maxPolls)))
    ensures After(GoOrTs, expected, Start, trace) == Done(outcome)
  {
    hide After;
    trace := start;
    if approval.None? {
      return trace, Refused(NoApproval);
    }
    if !HashOk(approval.value.actionHash, expected) {
      return trace, Refused(WrongHashAuthorize);
    }
    trace, outcome := TsPoll(env, expected, maxPolls, approval.value.id, trace);
  }

  /** Its polling loop; the counter runs up to the limit as it is, negative or not. */
  method TsPoll(env: Env, expected: string, maxPolls: int, id: string, start: seq<Event>)
    returns (trace: seq<Event>, outcome: Outcome)
    requires After(GoOrTs, expected, Start, start) == Polling(id)
    ensures trace == start + PollsFrom(env, expected, TsLimit(Some(maxPolls)), id, 0)
    ensures After(GoOrTs, expected, Start, trace) == Done(outcome)
  {
    hide After, AfterConsume;
    trace := start;
    ghost var limit := TsLimit(Some(maxPolls));
    var i := 0;
    while i < maxPolls
      invariant i <= limit
      invariant trace + PollsFrom(env, expected, limit, id, i) == start + PollsFrom(env, expected, limit, id, 0)
      invariant After(GoOrTs, expected, Start, trace) == Polling(id)
    {
      var status := env.polls(i);
      AfterAppend(GoOrTs, expected, Start, trace, Polled(status));
      trace := trace + [Polled(status)];
      if status.Status? {
        if status.status == "APPROVED" {
          if !HashOk(status.actionHash, expected) {
            return trace, Refused(WrongHashPoll);
          }
          trace, outcome := TsConsume(env.consumes(i), expected, id, trace);
          return;
        }
        if status.status == "REJECTED" {
          return trace, Refused(Rejected);
        }
        if status.status == "EXPIRED" {
          return trace, Refused(Expired);
        }
      }
      i := i + 1;
    }
    AfterAppend(GoOrTs, expected, Start, trace, GaveUp);
    return trace + [GaveUp], Refused(TimedOut);
  }

  /** The APPROVED case: consume, check the hash that comes back, run. */
  method TsConsume(consumed: ConsumeAnswer, expected: string, id: string, start: seq<Event>)
    returns (trace: seq<Event>, outcome: Outcome)
    requires After(GoOrTs, expected, Start, start) == Consuming(id)
    ensures trace == start + if AfterConsume(expected, id, consumed).Ready? then [ConsumeReturned(consumed), RanTool]
                             else [ConsumeReturned(consumed)]
    ensures After(GoOrTs, expected, Start, trace) == Done(outcome)
  {
    hide After;
    trace := start + [ConsumeReturned(consumed)];
    AfterAppend(GoOrTs, expected, Start, start, ConsumeReturned(consumed));
    match consumed
    case ConsumeError =>
      return trace, Refused(NotConsumed);
    case Consumed(actionHash) =>
      if !HashOk(actionHash, expected) {
        return trace, Refused(WrongHashConsume);
      }
      AfterAppend(GoOrTs, expected, Start, trace, RanTool);
      return trace + [RanTool], Ran(ByApproval(id));
  }

  /** With one positive limit the two SDKs do the same, event by event, and end alike. */
  method BothSdks(env: Env, expected: string, maxPolls: int)
    returns (go: seq<Event>, ts: seq<Event>, goOutcome: Outcome, tsOutcome: Outcome)
    ensures maxPolls > 0 ==> go == ts && goOutcome == tsOutcome
    ensures go == Session(env, expected, GoLimit(maxPolls)) && ts == Session(env, expected, TsLimit(Some(maxPolls)))
  {
    go, goOutcome := GoProtect(env, expected, maxPolls);
    ts, tsOutcome := TsProtect(env, expected, Some(maxPolls));
  }

  /** The two SDKs behave alike in every environment exactly when the limit given to both is positive. */
  lemma SdksAgreeIffPositive(expected: string, maxPolls: int)
    requires expected != ""
    ensures (forall env :: Session(env, expected, GoLimit(maxPolls)) == Session(env, expected, TsLimit(Some(maxPolls))))
       <==> maxPolls > 0
  {
    hide Session;
    if maxPolls <= 0 {
      var auth := Decision("require_approval", Some(Approval("id", expected, false)), {});
      var env := Env(auth, _ => PollError, _ => ConsumeError);
      UnansweredSession(env, expected, GoLimit(maxPolls));
      UnansweredSession(env, expected, TsLimit(Some(maxPolls)));
    }
  }

  lemma UnansweredSession(env: Env, expected: string, limit: nat)
    requires expected != "" && env.auth == Decision("require_approval", Some(Approval("id", expected, false)), {})
    requires env.polls(0) == PollError
    ensures |Session(env, expected, limit)| > 1
    ensures Session(env, expected, limit)[1] == if limit == 0 then GaveUp else Polled(PollError)
  {
    assert AfterAuthorize(GoOrTs, expected, env.auth) == Polling("id");
  }

  // ---------------------------------------------------------------- exactly when the tool runs

  /** Poll `i` approves this very action and every poll before it left the matter open. */
  ghost predicate ApprovedAt(env: Env, expected: string, i: nat) {
    && env.polls(i).Status? && env.polls(i).status == "APPROVED" && env.polls(i).actionHash == expected
    && forall j: nat :: j < i ==> StillOpen(env.polls(j))
  }

  predicate StillOpen(answer: PollAnswer) {
    answer.PollError? || answer.status !in {"APPROVED", "REJECTED", "EXPIRED"}
  }

  /**
    The tool runs exactly when the gateway allowed the call outright, or bound an
    approval to this action's hash, reported it approved with that hash within
    the limit, and handed out its single use with that hash.
   */
  lemma RunsExactlyWhen(env: Env, expected: string, limit: nat)
    ensures RanTool in Session(env, expected, limit) <==>
            && env.auth.Decision?
            && (|| env.auth.decision == "allow"
                || (&& env.auth.decision == "require_approval" && expected != ""
                    && env.auth.approval.Some? && env.auth.approval.value.actionHash == expected
                    && exists i: nat :: i < limit && ApprovedAt(env, expected, i)
                                        && env.consumes(i) == Consumed(expected)))
  {
    var s := Session(env, expected, limit);
    var phase := AfterAuthorize(GoOrTs, expected, env.auth);
    if phase.Polling? {
      assert s == [Authorized(env.auth)] + PollsFrom(env, expected, limit, phase.id, 0);
      PollsRunWhen(env, expected, limit, phase.id, 0);
    } else if phase.Ready? {
      assert s[1] == RanTool;
    }
  }

  lemma {:induction false} PollsRunWhen(env: Env, expected: string, limit: nat, id: string, i: nat)
    requires expected != "" && forall j: nat :: j < i ==> StillOpen(env.polls(j))
    ensures RanTool in PollsFrom(env, expected, limit, id, i) <==>
            exists k: nat :: i <= k < limit && ApprovedAt(env, expected, k) && env.consumes(k) == Consumed(expected)
    decreases limit - i
  {
    hide AfterPoll, ApprovedAt, StillOpen, PollsFrom;
    PollDecides(env, expected, id, i);
    RunsOnPoll(env, expected, limit, id, i);
    if i < limit && AfterPoll(GoOrTs, expected, id, env.polls(i)).Polling? {
      PollsRunWhen(env, expected, limit, id, i + 1);
    }
  }

  /** What poll `i` has to do with the tool running. */
  lemma RunsOnPoll(env: Env, expected: string, limit: nat, id: string, i: nat)
    requires expected != ""
    ensures RanTool in PollsFrom(env, expected, limit, id, i) <==>
            && i < limit
            && match AfterPoll(GoOrTs, expected, id, env.polls(i))
               case Polling(_) => RanTool in PollsFrom(env, expected, limit, id, i + 1)
               case Consuming(_) => env.consumes(i) == Consumed(expected)
               case _ => false
  {
    hide AfterPoll;
    if i < limit {
      var s := PollsFrom(env, expected, limit, id, i);
      match AfterPoll(GoOrTs, expected, id, env.polls(i))
      case Polling(_) => assert s == [Polled(env.polls(i))] + PollsFrom(env, expected, limit, id, i + 1);
      case Consuming(_) => assert env.consumes(i) == Consumed(expected) ==> s[2] == RanTool;
      case _ =>
    }
  }

  /** The poll that ends the polling is the one whose answer counts. */
  lemma PollDecides(env: Env, expected: string, id: string, i: nat)
    requires expected != "" && forall j: nat :: j < i ==> StillOpen(env.polls(j))
    ensures var phase := AfterPoll(GoOrTs, expected, id, env.polls(i));
            && (phase.Polling? || phase.Consuming? || phase.Done?)
            && (phase.Polling? <==> StillOpen(env.polls(i)))
            && (phase.Consuming? <==> ApprovedAt(env, expected, i))
    ensures StillOpen(env.polls(i)) ==> !ApprovedAt(env, expected, i)
    ensures !StillOpen(env.polls(i)) ==> forall k: nat :: k > i ==> !ApprovedAt(env, expected, k)
  {
  }

  // ---------------------------------------------------------------- the shape of every run

  /** The phase a trace has reached before its event `i`. */
  function PhaseAt(sdk: Sdk, expected: string, trace: seq<Event>, i: nat): Phase
    requires i <= |trace|
  {
    After(sdk, expected, Start, trace[..i])
  }

  lemma PhaseStep(sdk: Sdk, expected: string, trace: seq<Event>, i: nat)
    requires i < |trace|
    ensures PhaseAt(sdk, expected, trace, i + 1) == Next(sdk, expected, PhaseAt(sdk, expected, trace, i), trace[i])
  {
    assert trace[..i + 1] == trace[..i] + [trace[i]];
    AfterAppend(sdk, expected, Start, trace[..i], trace[i]);
  }

  /** What must have happened for a wrapper to be in a phase. */
  ghost predicate Earned(sdk: Sdk, expected: string, trace: seq<Event>, i: nat)
    requires i <= |trace|
  {
    match PhaseAt(sdk, expected, trace, i)
    case Start => i == 0
    case Polling(id) => PolledFor(expected, trace, i, id)
    case Consuming(id) => ApprovedFor(expected, trace, i, id)
    case Ready(path) => EarnedPath(sdk, expected, trace, i, path)
    case _ => true
  }

  /** What must have happened before event `i` for the tool to run on `path`. */
  ghost predicate EarnedPath(sdk: Sdk, expected: string, trace: seq<Event>, i: nat, path: Path) {
    match path
    case ByAllow => i == 1 <= |trace| && Decided(trace[0], "allow")
    case ByRedact(fields) =>
      sdk.Python? && i == 1 <= |trace| && Decided(trace[0], "redact") && trace[0].auth.redacted == fields
    case ByApproval(id) => ConsumedFor(expected, trace, i, id)
    case ByEdit(id, parameters) => sdk.Python? && EditedFor(expected, trace, i, id, parameters)
  }

  /** The gateway answered the authorize call, with this decision. */
  predicate Decided(event: Event, decision: string) {
    event.Authorized? && event.auth.Decision? && event.auth.decision == decision
  }

  /** An approval bound to this action, then nothing but polls. */
  ghost predicate PolledFor(expected: string, trace: seq<Event>, i: nat, id: string) {
    && 1 <= i <= |trace| && expected != ""
    && Decided(trace[0], "require_approval")
    && trace[0].auth.approval.Some? && trace[0].auth.approval.value.id == id
    && trace[0].auth.approval.value.actionHash == expected
    && forall j :: 1 <= j < i ==> trace[j].Polled?
  }

  ghost predicate ApprovedFor(expected: string, trace: seq<Event>, i: nat, id: string) {
    && 2 <= i <= |trace| && PolledFor(expected, trace, i, id)
    && trace[i - 1].poll.Status? && trace[i - 1].poll.status == "APPROVED" && trace[i - 1].poll.actionHash == expected
  }

  ghost predicate ConsumedFor(expected: string, trace: seq<Event>, i: nat, id: string) {
    && 3 <= i <= |trace| && ApprovedFor(expected, trace, i - 1, id)
    && trace[i - 1] == ConsumeReturned(Consumed(expected))
  }

  ghost predicate EditedFor(expected: string, trace: seq<Event>, i: nat, id: string, parameters: map<string, Value>) {
    && 2 <= i <= |trace| && PolledFor(expected, trace, i, id)
    && trace[i - 1].poll == Status("EDITED", expected, false, Some(parameters))
  }

  lemma {:induction false} AlwaysEarned(sdk: Sdk, expected: string, trace: seq<Event>, i: nat)
    requires i <= |trace|
    ensures Earned(sdk, expected, trace, i)
  {
    if i > 0 {
      AlwaysEarned(sdk, expected, trace, i - 1);
      PhaseStep(sdk, expected, trace, i - 1);
    }
  }

  /** Once a wrapper has finished nothing further happens. */
  lemma {:induction false} DoneIsLast(sdk: Sdk, expected: string, trace: seq<Event>, i: nat)
    requires i < |trace| && PhaseAt(sdk, expected, trace, i).Done?
    ensures After(sdk, expected, Start, trace) == Stuck
  {
    PhaseStep(sdk, expected, trace, i);
    StuckStays(sdk, expected, trace, i + 1);
  }

  lemma {:induction false} StuckStays(sdk: Sdk, expected: string, trace: seq<Event>, i: nat)
    requires i <= |trace| && PhaseAt(sdk, expected, trace, i) == Stuck
    ensures After(sdk, expected, Start, trace) == Stuck
    decreases |trace| - i
  {
    if i < |trace| {
      PhaseStep(sdk, expected, trace, i);
      StuckStays(sdk, expected, trace, i + 1);
    } else {
      assert trace[..i] == trace;
    }
  }

  /**
    In every run of every wrapper, in every environment, the tool runs at most
    once, as the last event; and it runs only on the decision to allow or to redact
    those very fields, right after the three hash checks and the successful consume,
    or right after a poll that brought this action's hash and those edited parameters.
   */
  lemma ToolRunsLastAndChecked(sdk: Sdk, expected: string, trace: seq<Event>, i: nat)
    requires After(sdk, expected, Start, trace) != Stuck
    requires i < |trace| && trace[i].RanTool?
    ensures i == |trace| - 1
    ensures After(sdk, expected, Start, trace).Done? && After(sdk, expected, Start, trace).outcome.Ran?
    ensures EarnedPath(sdk, expected, trace, i, After(sdk, expected, Start, trace).outcome.path)
  {
    PhaseStep(sdk, expected, trace, i);
    AlwaysEarned(sdk, expected, trace, i);
    var phase := PhaseAt(sdk, expected, trace, i + 1);
    if phase == Stuck { StuckStays(sdk, expected, trace, i + 1); }
    if i + 1 < |trace| { DoneIsLast(sdk, expected, trace, i + 1); }
    assert trace[..i + 1] == trace;
  }

  /** The event that is a reason to refuse with `why`. */
  ghost predicate Warrants(sdk: Sdk, expected: string, event: Event, why: Refusal) {
    match why
    case Unreachable => event == Authorized(AuthError)
    case Denied => Decided(event, "deny")
    case UnknownDecision =>
      && event.Authorized? && event.auth.Decision?
      && event.auth.decision !in {"allow", "deny", "require_approval"}
      && (sdk.Python? ==> event.auth.decision != "redact")
    case NoApproval => Decided(event, "require_approval") && event.auth.approval.None?
    case WrongHashAuthorize =>
      && Decided(event, "require_approval") && event.auth.approval.Some?
      && Mismatch(event.auth.approval.value.actionHash, expected)
    case WrongHashPoll =>
      && event.Polled? && event.poll.Status? && event.poll.status in {"APPROVED", "EDITED"}
      && Mismatch(event.poll.actionHash, expected)
    case WrongHashConsume =>
      event.ConsumeReturned? && event.consumed.Consumed? && Mismatch(event.consumed.actionHash, expected)
    case Rejected => event.Polled? && event.poll.Status? && event.poll.status == "REJECTED"
    case Expired =>
      if sdk.Python? then
        || (Decided(event, "require_approval") && event.auth.approval.Some? && event.auth.approval.value.expired)
        || (event.Polled? && event.poll.Status? && event.poll.expired)
      else event.Polled? && event.poll.Status? && event.poll.status == "EXPIRED"
    case NoEdit => event.Polled? && event.poll == Status("EDITED", expected, false, None)
    case NotConsumed => event == ConsumeReturned(ConsumeError)
    case TimedOut => event.GaveUp?
    case BadSleep => event.SleepRaised?
  }

  /** A hash that is missing, or is not the one expected. */
  predicate Mismatch(got: string, expected: string) {
    got == "" || got != expected
  }

  /** Every refusal names the reason that its last event is. */
  lemma RefusedForItsReason(sdk: Sdk, expected: string, trace: seq<Event>)
    requires After(sdk, expected, Start, trace).Done? && After(sdk, expected, Start, trace).outcome.Refused?
    ensures trace != []
    ensures Warrants(sdk, expected, trace[|trace| - 1], After(sdk, expected, Start, trace).outcome.why)
  {
    hide After;
    StartsAtStart(sdk, expected);
    var n := |trace| - 1;
    AfterAppend(sdk, expected, Start, trace[..n], trace[n]);
    assert trace == trace[..n] + [trace[n]];
  }

  lemma StartsAtStart(sdk: Sdk, expected: string)
    ensures After(sdk, expected, Start, []) == Start
  {
  }

  /** A wrapper consumes at most once. */
  lemma ConsumesOnce(sdk: Sdk, expected: string, trace: seq<Event>, i: nat, j: nat)
    requires After(sdk, expected, Start, trace) != Stuck
    requires i < |trace| && trace[i].ConsumeReturned? && j < |trace| && trace[j].ConsumeReturned?
    ensures i == j
  {
    if i < j { ConsumeThenConsume(sdk, expected, trace, i, j); }
    if j < i { ConsumeThenConsume(sdk, expected, trace, j, i); }
  }

  lemma ConsumeThenConsume(sdk: Sdk, expected: string, trace: seq<Event>, i: nat, j: nat)
    requires i < j < |trace| && trace[i].ConsumeReturned? && trace[j].ConsumeReturned?
    ensures After(sdk, expected, Start, trace) == Stuck
  {
    PhaseStep(sdk, expected, trace, j);
    AlwaysEarned(sdk, expected, trace, j);
    assert !PhaseAt(sdk, expected, trace, j).Consuming?;
    StuckStays(sdk, expected, trace, j + 1);
  }

  /** A Go or TypeScript run polls at most `limit` times, and gives up only after all of them. */
  lemma PollsWithinLimit(env: Env, expected: string, limit: nat, i: nat)
    requires i < |Session(env, expected, limit)|
    ensures var e := Session(env, expected, limit)[i];
            (e.Polled? ==> 1 <= i <= limit && e.poll == env.polls(i - 1)) && (e.GaveUp? ==> i == limit + 1)
  {
    var phase := AfterAuthorize(GoOrTs, expected, env.auth);
    if phase.Polling? && i > 0 {
      PollsFromLimit(env, expected, limit, phase.id, 0, i - 1);
    }
  }

  lemma {:induction false} PollsFromLimit(env: Env, expected: string, limit: nat, id: string, n: nat, i: nat)
    requires n <= limit && i < |PollsFrom(env, expected, limit, id, n)|
    ensures var e := PollsFrom(env, expected, limit, id, n)[i];
            (e.Polled? ==> n + i < limit && e.poll == env.polls(n + i)) && (e.GaveUp? ==> n + i == limit)
    decreases limit - n
  {
    if n < limit && i > 0 && AfterPoll(GoOrTs, expected, id, env.polls(n)).Polling? {
      PollsFromLimit(env, expected, limit, id, n + 1, i - 1);
    }
  }
}
