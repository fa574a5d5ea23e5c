/**
  Runs of the deployment in which the calls see what the gateway says: authorize
  answers name approvals the gateway created, with the hash it recorded, and poll
  answers were read from the table, now or earlier.
 */
module HonestRuns {
  import opened Options
  import opened Digests
  import opened Actions
  import W = Wrappers
  import P = Protocol
  import S = ApprovalStore
  import R = Records
  import D = Deployment

  /** The approval an authorize answer names was created for a recorded call, and has the hash on record. */
  ghost predicate Offered(s: D.State, approval: W.Approval) {
    D.Recorded(s, approval.id) == Some(approval.actionHash)
  }

  /** The answer to a poll, from the row: an edit leaves the status as it is. */
  predicate Reads(row: S.Row, poll: W.PollAnswer) {
    && poll.Status? && poll.actionHash == row.Hash()
    && match row.status
       case Created => poll.status == "created" || poll.status == "EXPIRED"
       case Approved => poll.status == "APPROVED"
       case Rejected => poll.status == "REJECTED"
  }

  /** The answer was read from the table, now or at some time before. */
  ghost predicate ReadFrom(ops: seq<S.Op>, id: string, poll: W.PollAnswer) {
    exists n: nat :: n <= |ops| && id in S.After(ops[..n]).rows && Reads(S.After(ops[..n]).rows[id], poll)
  }

  /** What a call observes is what the gateway says. */
  ghost predicate Served(s: D.State, l: D.Label) {
    l.Client? && l.step.Observe? && l.step.call in s.clients.calls ==>
      var event, phase := l.step.event, s.clients.calls[l.step.call].phase;
      && (event.Authorized? && event.auth.Decision? && event.auth.approval.Some?
          ==> Offered(s, event.auth.approval.value))
      && (event.Polled? && event.poll.Status? && phase.Polling? ==> ReadFrom(s.ops, phase.id, event.poll))
  }

  ghost predicate Honest(h: Hash, run: seq<D.Label>) {
    run == [] || (Honest(h, run[..|run| - 1]) && Served(D.After(h, run[..|run| - 1]), run[|run| - 1]))
  }

  /** The approval a call is waiting for, consuming, or running on. */
  function WaitsFor(phase: W.Phase): Option<string> {
    match phase
    case Polling(id) => Some(id)
    case Consuming(id) => Some(id)
    case Ready(ByApproval(id)) => Some(id)
    case Done(Ran(ByApproval(id))) => Some(id)
    case _ => None
  }

  /** A call waits only for an approval created for its own hash, and never runs on an edit. */
  ghost predicate CallsHonest(h: Hash, s: D.State) {
    forall c :: c in s.clients.calls ==> CallHonest(h, s, c)
  }

  ghost predicate CallHonest(h: Hash, s: D.State, c: nat)
    requires c in s.clients.calls
  {
    var call := s.clients.calls[c];
    && (WaitsFor(call.phase).Some? ==> D.Recorded(s, WaitsFor(call.phase).value) == Some(P.Expected(h, call)))
    && (P.PathOf(call.phase).Some? ==> !P.PathOf(call.phase).value.ByEdit?)
  }

  lemma {:induction false} HonestCalls(h: Hash, run: seq<D.Label>)
    requires Honest(h, run)
    ensures CallsHonest(h, D.After(h, run))
  {
    hide D.Apply, CallHonest, P.Apply;
    if run != [] {
      var s, l := D.After(h, run[..|run| - 1]), run[|run| - 1];
      HonestCalls(h, run[..|run| - 1]);
      D.AlwaysHeldReal(h, run[..|run| - 1]);
      forall c | c in D.Apply(h, s, l).clients.calls
        ensures CallHonest(h, D.Apply(h, s, l), c)
      {
        HonestStep(h, s, l, c);
      }
    }
  }

  lemma HonestStep(h: Hash, s: D.State, l: D.Label, c: nat)
    requires CallsHonest(h, s) && D.HeldReal(s) && Served(s, l) && c in D.Apply(h, s, l).clients.calls
    ensures CallHonest(h, D.Apply(h, s, l), c)
  {
    hide D.HeldReal, D.Recorded, ReadFrom, ActionHash, P.Apply, D.Apply, W.Next;
    var t := D.Apply(h, s, l);
    if l.Client? && D.ClientSide(l.step) {
      ClientOnly(h, s, l.step);
      SameRecords(s, t);
      CallMoves(h, s.clients, l.step, c);
      assert c in s.clients.calls ==> CallHonest(h, s, c);
      if c in s.clients.calls && l.step.Observe? && l.step.call == c {
        ObservedHonestly(h, s, l.step.event, c);
      }
    } else {
      CallsUntouched(h, s, l);
      assert CallHonest(h, s, c);
      if WaitsFor(s.clients.calls[c].phase).Some? {
        StaysRecorded(h, s, l, WaitsFor(s.clients.calls[c].phase).value);
      }
    }
  }

  lemma ClientOnly(h: Hash, s: D.State, step: P.Label)
    requires D.ClientSide(step)
    ensures D.Apply(h, s, D.Client(step)) == s.(clients := P.Apply(h, s.clients, step))
  {
    hide P.Apply;
  }

  lemma SameRecords(s: D.State, t: D.State)
    requires s.receipts == t.receipts && s.held == t.held
    ensures forall id :: D.Recorded(t, id) == D.Recorded(s, id)
  {
  }

  lemma CallsUntouched(h: Hash, s: D.State, l: D.Label)
    requires !(l.Client? && D.ClientSide(l.step))
    ensures D.Apply(h, s, l).clients.calls == s.clients.calls
  {
    hide P.Apply, S.After, S.Succeeds, R.Appended, D.ReadBack;
  }

  lemma StaysRecorded(h: Hash, s: D.State, l: D.Label, id: string)
    requires D.HeldReal(s) && D.Recorded(s, id).Some?
    ensures D.Recorded(D.Apply(h, s, l), id) == D.Recorded(s, id)
  {
    hide D.Apply, D.HeldReal, D.HeldIs;
    D.StaysHeld(h, s, l, id);
  }

  /** How one step of the clients can change a call: by an event it observes, or by a reply to its consume. */
  lemma CallMoves(h: Hash, s: P.State, step: P.Label, c: nat)
    requires D.ClientSide(step) && c in P.Apply(h, s, step).calls
    ensures var call := P.Apply(h, s, step).calls[c];
            if c !in s.calls then call.phase == W.Start
            else
              && call.action == s.calls[c].action
              && (|| call.phase == s.calls[c].phase
                  || (&& WaitsFor(call.phase) == WaitsFor(s.calls[c].phase)
                      && P.PathOf(call.phase) == P.PathOf(s.calls[c].phase))
                  || (step.DeliverReply? && MovedByReply(s.calls[c].phase, call.phase))
                  || (&& step.Observe? && step.call == c
                      && call.phase == W.Next(s.calls[c].sdk, P.Expected(h, s.calls[c]), s.calls[c].phase, step.event)
                      && call.phase != W.Stuck))
  {
    hide W.Next, ActionHash, P.Performed, P.PathOf;
  }

  predicate MovedByReply(before: W.Phase, after: W.Phase) {
    && before.Consuming?
    && (after == W.Ready(W.ByApproval(before.id)) || (after.Done? && after.outcome.Refused?))
  }

  /** An observed answer of the gateway keeps a call honest. */
  lemma ObservedHonestly(h: Hash, s: D.State, event: W.Event, c: nat)
    requires c in s.clients.calls && CallHonest(h, s, c) && Served(s, D.Client(P.Observe(c, event)))
    ensures var call := s.clients.calls[c];
            var phase := W.Next(call.sdk, P.Expected(h, call), call.phase, event);
            && (WaitsFor(phase).Some? ==> D.Recorded(s, WaitsFor(phase).value) == Some(P.Expected(h, call)))
            && (P.PathOf(phase).Some? ==> !P.PathOf(phase).value.ByEdit?)
  {
    hide D.Recorded, ActionHash, S.After;
    var call := s.clients.calls[c];
    if call.phase.Polling? && event.Polled? && event.poll.Status? {
      NeverEdited(s.ops, call.phase.id, event.poll);
    }
  }

  /** The table never says EDITED. */
  lemma NeverEdited(ops: seq<S.Op>, id: string, poll: W.PollAnswer)
    requires poll.Status? && ReadFrom(ops, id, poll)
    ensures poll.status != "EDITED"
  {
    hide S.After;
  }

  // ---------------------------------------------------------------- what honest runs guarantee

  /** An execution on an approval is of the very call the approval was created for and the chain records. */
  lemma RanAsRecorded(h: Hash, run: seq<D.Label>, i: nat) returns (m: nat)
    requires Honest(h, run)
    requires i < |D.After(h, run).clients.executions| && D.After(h, run).clients.executions[i].path.ByApproval?
    ensures var s, e := D.After(h, run), D.After(h, run).clients.executions[i];
            && D.Recorded(s, e.path.id) == Some(ActionHash(h, e.action))
            && S.InsertedAt(s.ops, m, e.path.id, ActionHash(h, e.action))
  {
    hide D.After, ActionHash, S.InsertedAt;
    var s := D.After(h, run);
    var e := s.clients.executions[i];
    D.AlwaysKept(h, run);
    D.AlwaysHeldReal(h, run);
    HonestCalls(h, run);
    assert CallHonest(h, s, e.call);
    assert D.HeldIs(s, e.path.id);
    P.CarriesOutUnchanged(s.clients.calls[e.call].action, s.clients.calls[e.call].keywords, e.path, e.action);
    m :| S.InsertedAt(s.ops, m, e.path.id, ActionHash(h, e.action));
  }

  /** No execution rests on an edit, so an approval is single-use on every path and in every SDK. */
  lemma SingleUse(h: Hash, run: seq<D.Label>)
    requires Honest(h, run)
    ensures P.SingleUse(D.After(h, run).clients)
    ensures forall i :: 0 <= i < |D.After(h, run).clients.executions| ==>
                          !D.After(h, run).clients.executions[i].path.ByEdit?
  {
    hide D.After, ActionHash;
    var executions := D.After(h, run).clients.executions;
    D.AlwaysKept(h, run);
    HonestCalls(h, run);
    forall i | 0 <= i < |executions|
      ensures !executions[i].path.ByEdit?
    {
      assert CallHonest(h, D.After(h, run), executions[i].call);
    }
    forall i, j | 0 <= i < |executions| && 0 <= j < |executions| && P.SameApproval(executions[i], executions[j])
      ensures i == j
    {
      D.OneRunPerApproval(h, run, i, j);
    }
  }

  /** In this run something ran on approval `id`, which was created for `asked` and approved bearing `approved`. */
  ghost predicate RanOn(h: Hash, run: seq<D.Label>, id: string, asked: string, approved: string) {
    && (exists m: nat :: S.InsertedAt(D.After(h, run).ops, m, id, asked))
    && (exists m: nat :: S.ApprovedAt(D.After(h, run).ops, m, id, approved))
    && (exists e :: e in D.After(h, run).clients.executions && e.path == W.ByApproval(id))
  }

  /**
    An approval can be run on if and only if the approver left the call's hash as it
    was: after an edit to anything else, no call in any SDK gets past its checks.
   */
  lemma RunsIffNotEdited(h: Hash, a: Action, id: string, approved: string)
    requires ActionHash(h, a) != ""
    ensures (exists run :: Honest(h, run) && RanOn(h, run, id, ActionHash(h, a), approved))
       <==> approved == ActionHash(h, a)
  {
    hide D.After, ActionHash, S.InsertedAt, S.ApprovedAt, Honest;
    var asked := ActionHash(h, a);
    forall run | Honest(h, run) && RanOn(h, run, id, asked, approved)
      ensures approved == asked
    {
      RanOnUnedited(h, run, id, asked, approved);
    }
    if approved == asked {
      var run := ApprovedRunPossible(h, W.Python, a, id);
    }
  }

  lemma RanOnUnedited(h: Hash, run: seq<D.Label>, id: string, asked: string, approved: string)
    requires Honest(h, run) && RanOn(h, run, id, asked, approved)
    ensures approved == asked
  {
    hide D.After, ActionHash, S.InsertedAt, S.ApprovedAt, S.ConsumedAt, Honest;
    var s := D.After(h, run);
    var e :| e in s.clients.executions && e.path == W.ByApproval(id);
    var i :| 0 <= i < |s.clients.executions| && s.clients.executions[i] == e;
    var inserted := RanAsRecorded(h, run, i);
    var m, n := D.ApprovedRunWasApproved(h, run, i);
    var m': nat :| S.InsertedAt(s.ops, m', id, asked);
    var n': nat :| S.ApprovedAt(s.ops, n', id, approved);
    S.InsertedOnce(s.ops, inserted, ActionHash(h, e.action), m', asked, id);
    S.ApprovedAtOnce(s.ops, m, ActionHash(h, e.action), n', approved, id);
  }

  // ---------------------------------------------------------------- a run that is possible

  lemma Extended(h: Hash, run: seq<D.Label>, l: D.Label)
    requires Honest(h, run) && Served(D.After(h, run), l)
    ensures Honest(h, run + [l]) && D.After(h, run + [l]) == D.Apply(h, D.After(h, run), l)
  {
    hide D.Apply, Served;
    assert (run + [l])[..|run|] == run;
  }

  /** Every call can be recorded, held, approved as it is, consumed and run, in every SDK. */
  lemma ApprovedRunPossible(h: Hash, sdk: W.Sdk, a: Action, id: string) returns (run: seq<D.Label>)
    requires ActionHash(h, a) != ""
    ensures Honest(h, run) && RanOn(h, run, id, ActionHash(h, a), ActionHash(h, a))
    ensures D.After(h, run).clients.executions == [P.Execution(0, W.ByApproval(id), a)]
  {
    hide D.After, ActionHash, Honest, S.InsertedAt, S.ApprovedAt;
    run := HeldAndApproved(h, ActionHash(h, a), id);
    var ops := D.After(h, run).ops;
    run := AskAndPoll(h, sdk, a, id, run);
    run := ConsumeAndRun(h, run, id, ActionHash(h, a));
    assert D.After(h, run).clients.executions[0].path == W.ByApproval(id);
    var op := D.After(h, run).ops[|ops|];
    S.InsertedInLongerRun(ops, op, 0, id, ActionHash(h, a));
    ApprovedInLongerRun(ops, op, 1, id, ActionHash(h, a));
  }

  lemma ApprovedInLongerRun(ops: seq<S.Op>, op: S.Op, m: nat, id: string, hash: string)
    requires S.ApprovedAt(ops, m, id, hash)
    ensures S.ApprovedAt(ops + [op], m, id, hash)
  {
    hide S.After;
    assert (ops + [op])[..m] == ops[..m];
  }

  lemma HeldAndApproved(h: Hash, hash: string, id: string) returns (run: seq<D.Label>)
    ensures Honest(h, run)
    ensures var s := D.After(h, run);
            && s.clients == P.After(h, "", []) && |s.ops| == 2 && D.Recorded(s, id) == Some(hash)
            && S.After(s.ops).rows == map[id := S.Row(S.Approved, hash, None, None, false)]
            && S.InsertedAt(s.ops, 0, id, hash) && S.ApprovedAt(s.ops, 1, id, hash)
  {
    hide D.After, Honest, P.Apply, S.After, S.InsertedAt, S.ApprovedAt, R.RecordHash, R.AsReceipts;
    var record := Held(hash);
    Beginning(h);
    var l1, l2, l3 := D.Append(record), D.Hold(0, id, None), D.Table(S.Decide(id, true, 0));
    Extended(h, [], l1);
    NoneUsed();
    Extended(h, [] + [l1], l2);
    Extended(h, [] + [l1] + [l2], l3);
    run := [] + [l1] + [l2] + [l3];
    assert D.After(h, run).ops == [S.Insert(id, hash, None), S.Decide(id, true, 0)];
    ApprovedRow(id, hash);
  }

  /** A receipt of a decision to hold a call. */
  function Held(hash: string): R.Record {
    R.Record(
      R.Columns("", "", None, None, None, None, None, None, None, "", "require_approval", None, Some(hash), ""),
      "", "", None, "", None, None, None)
  }

  lemma Beginning(h: Hash)
    ensures Honest(h, []) && D.After(h, []) == D.State(P.After(h, "", []), [], map[], [], map[])
  {
  }

  lemma NoneUsed()
    ensures S.After([]) == S.Table(map[], {})
  {
  }

  lemma ApprovedRow(id: string, hash: string)
    ensures var ops := [S.Insert(id, hash, None), S.Decide(id, true, 0)];
            && S.After(ops).rows == map[id := S.Row(S.Approved, hash, None, None, false)]
            && S.InsertedAt(ops, 0, id, hash) && S.ApprovedAt(ops, 1, id, hash)
  {
    var ops := [S.Insert(id, hash, None), S.Decide(id, true, 0)];
    assert ops[..0] == [] && ops[..1] == [ops[0]] && [ops[0]][..0] == [];
    assert S.After(ops[..1]) == S.Apply(S.After([]), ops[0]);
    assert S.After(ops[..1]).rows[id].Hash() == hash;
  }

  lemma AskAndPoll(h: Hash, sdk: W.Sdk, a: Action, id: string, before: seq<D.Label>) returns (run: seq<D.Label>)
    requires ActionHash(h, a) != "" && Honest(h, before)
    requires var s := D.After(h, before);
             && s.clients == P.After(h, "", []) && D.Recorded(s, id) == Some(ActionHash(h, a))
             && id in S.After(s.ops).rows && S.After(s.ops).rows[id].status == S.Approved
             && S.After(s.ops).rows[id].Hash() == ActionHash(h, a)
    ensures Honest(h, run)
    ensures var s := D.After(h, run);
            && s.ops == D.After(h, before).ops && s.clients.executions == []
            && s.clients.calls == map[0 := P.Call(sdk, a, {}, W.Consuming(id), 0)]
  {
    hide D.After, ActionHash, Honest, S.After;
    var s := D.After(h, before);
    run := Asked(h, sdk, a, id, before);
    var poll := W.Status("APPROVED", ActionHash(h, a), false, None);
    assert s.ops[..|s.ops|] == s.ops;
    assert ReadFrom(s.ops, id, poll);
    Extended(h, run, D.Client(P.Observe(0, W.Polled(poll))));
    run := run + [D.Client(P.Observe(0, W.Polled(poll)))];
  }

  lemma Asked(h: Hash, sdk: W.Sdk, a: Action, id: string, before: seq<D.Label>) returns (run: seq<D.Label>)
    requires ActionHash(h, a) != "" && Honest(h, before)
    requires var s := D.After(h, before); s.clients == P.After(h, "", []) && D.Recorded(s, id) == Some(ActionHash(h, a))
    ensures Honest(h, run)
    ensures var s := D.After(h, run);
            && s.ops == D.After(h, before).ops && s.clients.executions == []
            && s.clients.calls == map[0 := P.Call(sdk, a, {}, W.Polling(id), 0)]
  {
    hide D.After, ActionHash, Honest, D.Recorded;
    var approval := W.Approval(id, ActionHash(h, a), false);
    var l1 := D.Client(P.NewCall(0, sdk, a, {}));
    var l2 := D.Client(P.Observe(0, W.Authorized(W.Decision("require_approval", Some(approval), {}))));
    P.NothingYet(h, "");
    Extended(h, before, l1);
    SameRecords(D.After(h, before), D.After(h, before + [l1]));
    Extended(h, before + [l1], l2);
    run := before + [l1] + [l2];
  }

  lemma ConsumeAndRun(h: Hash, before: seq<D.Label>, id: string, hash: string) returns (run: seq<D.Label>)
    requires Honest(h, before)
    requires var s := D.After(h, before);
             && 0 in s.clients.calls && s.clients.calls[0].phase == W.Consuming(id) && s.clients.calls[0].attempt == 0
             && id in S.After(s.ops).rows && S.After(s.ops).rows[id] == S.Row(S.Approved, hash, None, None, false)
             && hash == P.Expected(h, s.clients.calls[0]) != ""
    ensures Honest(h, run)
    ensures var s, t := D.After(h, before), D.After(h, run);
            && t.clients.executions
               == s.clients.executions + [P.Execution(0, W.ByApproval(id), s.clients.calls[0].action)]
            && |t.ops| == |s.ops| + 1 && t.ops == s.ops + [t.ops[|s.ops|]]
  {
    hide D.After, ActionHash, S.After, Honest, D.Apply;
    var s := D.After(h, before);
    var request := P.Request(0, 1, id, hash);
    run := Granted(h, before, id, hash);
    var l4, l5 := D.Client(P.DeliverReply(P.Reply(request, W.Consumed(hash)))), D.Client(P.Observe(0, W.RanTool));
    Extended(h, run, l4);
    Extended(h, run + [l4], l5);
    DeliveredAndRun(h, D.After(h, run), id, hash);
    run := run + [l4] + [l5];
  }

  lemma Granted(h: Hash, before: seq<D.Label>, id: string, hash: string) returns (run: seq<D.Label>)
    requires Honest(h, before)
    requires var s := D.After(h, before);
             && 0 in s.clients.calls && s.clients.calls[0].phase == W.Consuming(id) && s.clients.calls[0].attempt == 0
             && id in S.After(s.ops).rows && S.After(s.ops).rows[id] == S.Row(S.Approved, hash, None, None, false)
             && hash == P.Expected(h, s.clients.calls[0]) != ""
    ensures Honest(h, run)
    ensures var s, t := D.After(h, before), D.After(h, run);
            && P.Reply(P.Request(0, 1, id, hash), W.Consumed(hash)) in t.clients.replies
            && t.clients.executions == s.clients.executions
            && t.clients.calls == s.clients.calls[0 := s.clients.calls[0].(attempt := 1)]
            && |t.ops| == |s.ops| + 1 && t.ops == s.ops + [t.ops[|s.ops|]]
  {
    hide D.After, ActionHash, S.After, Honest;
    var s := D.After(h, before);
    var request := P.Request(0, 1, id, hash);
    var l1, l2, l3 := D.Client(P.SendConsume(0)), D.Consume(request, 0), D.Answer(request);
    Extended(h, before, l1);
    Extended(h, before + [l1], l2);
    StillReads(s.ops, S.Consume(id, Some(hash), 0));
    Extended(h, before + [l1] + [l2], l3);
    run := before + [l1] + [l2] + [l3];
  }

  lemma DeliveredAndRun(h: Hash, s: D.State, id: string, hash: string)
    requires 0 in s.clients.calls && s.clients.calls[0].phase == W.Consuming(id) && s.clients.calls[0].attempt == 1
    requires P.Reply(P.Request(0, 1, id, hash), W.Consumed(hash)) in s.clients.replies
    requires hash == P.Expected(h, s.clients.calls[0]) != ""
    ensures var l4 := D.Client(P.DeliverReply(P.Reply(P.Request(0, 1, id, hash), W.Consumed(hash))));
            var t := D.Apply(h, D.Apply(h, s, l4), D.Client(P.Observe(0, W.RanTool)));
            && t.clients.executions
               == s.clients.executions + [P.Execution(0, W.ByApproval(id), s.clients.calls[0].action)]
            && t.ops == s.ops
  {
    hide ActionHash;
  }

  /** Consuming a row does not change the hash read back from it. */
  lemma StillReads(ops: seq<S.Op>, op: S.Op)
    requires op.Consume?
    ensures D.ReadBack(ops + [op], op.id) == D.ReadBack(ops, op.id)
  {
    assert (ops + [op])[..|ops|] == ops;
  }
}
