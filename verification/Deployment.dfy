/**
  Any number of protected calls against the real gateway: its approvals table,
  changed at any time by anyone who may insert, edit, decide, consume or remove,
  and its chain of receipts, to which a decision to hold a call is appended before
  the approval is created.

  The calls take the same steps as in `Protocol`. A consume is answered in two
  steps: the conditional update, and later a second query for the hash, which
  finds nothing if the row has been removed in between.

  Answers to authorize and poll requests are arbitrary here; see `HonestRuns` for
  the gateway's own.
 */
module Deployment {
  import opened Options
  import opened Digests
  import opened Actions
  import opened Receipts
  import opened Verifiers
  import W = Wrappers
  import P = Protocol
  import S = ApprovalStore
  import R = Records

  /**
    `ops` is everything done to the table; `granted` says which of it let a request
    consume; `held` says which receipt records the call an approval was created for.
    The demonstration gateway's books among the clients stay empty.
   */
  datatype State = State(
    clients: P.State,
    ops: seq<S.Op>,
    granted: map<P.Request, nat>,
    receipts: seq<R.Record>,
    held: map<string, nat>)

  datatype Label =
    | Client(step: P.Label)                             // a call starts, acts, sends, or receives a reply
    | Table(op: S.Op)                                   // anyone changes the table
    | Consume(request: P.Request, now: int)             // a sent request reaches the table
    | Answer(request: P.Request)                        // a granted request is answered
    | Append(record: R.Record)                          // a decision, or anything else, is recorded
    | Hold(receipt: nat, id: string, expires: Option<int>)  // an approval is created for a recorded decision

  predicate ClientSide(step: P.Label) {
    step.NewCall? || step.Observe? || step.SendConsume? || step.DeliverReply?
  }

  /** The hash the second query finds. */
  function ReadBack(ops: seq<S.Op>, id: string): string {
    var rows := S.After(ops).rows;
    if id in rows then rows[id].Hash() else ""
  }

  function Answered(clients: P.State, request: P.Request, answer: W.ConsumeAnswer): P.State {
    clients.(replies := clients.replies + {P.Reply(request, answer)})
  }

  ghost function Apply(h: Hash, s: State, l: Label): State {
    match l
    case Client(step) => if ClientSide(step) then s.(clients := P.Apply(h, s.clients, step)) else s
    case Table(op) => s.(ops := s.ops + [op])
    case Consume(request, now) =>
      var op := S.Consume(request.id, Some(request.claim), now);
      if request !in s.clients.sent then s
      else if S.Succeeds(S.After(s.ops), op) then
        s.(ops := s.ops + [op], granted := s.granted[request := |s.ops|])
      else s.(ops := s.ops + [op], clients := Answered(s.clients, request, W.ConsumeError))
    case Answer(request) =>
      if request !in s.granted then s
      else s.(clients := Answered(s.clients, request, W.Consumed(ReadBack(s.ops, request.id))))
    case Append(record) => s.(receipts := R.Appended(h, s.receipts, record))
    case Hold(n, id, expires) =>
      if !CanHold(s, n, id) then s
      else s.(ops := s.ops + [S.Insert(id, s.receipts[n].columns.actionHash.value, expires)],
              held := s.held[id := n])
  }

  /** The receipt records a call to be held, and the approval id is new. */
  predicate CanHold(s: State, n: nat, id: string) {
    && n < |s.receipts| && s.receipts[n].columns.decision == "require_approval"
    && s.receipts[n].columns.actionHash.Some? && id !in S.After(s.ops).used
  }

  ghost function After(h: Hash, run: seq<Label>): State {
    if run == [] then State(P.After(h, "", []), [], map[], [], map[])
    else Apply(h, After(h, run[..|run| - 1]), run[|run| - 1])
  }

  // ---------------------------------------------------------------- what every run keeps

  /** A request claims the hash of the call that sent it. */
  ghost predicate RequestsOwn(h: Hash, clients: P.State) {
    forall r :: r in clients.sent ==> r.call in clients.calls && r.claim == P.Expected(h, clients.calls[r.call])
  }

  /** A grant is a successful consume of the table with the request's claim, and no two are one. */
  ghost predicate GrantsReal(s: State) {
    && (forall r :: r in s.granted ==> r in s.clients.sent && GrantIs(s, r))
    && (forall q, r :: q in s.granted && r in s.granted && s.granted[q] == s.granted[r] ==> q == r)
  }

  ghost predicate GrantIs(s: State, r: P.Request)
    requires r in s.granted
  {
    S.ConsumedAt(s.ops, s.granted[r], r.id) && s.ops[s.granted[r]].claim == Some(r.claim)
  }

  ghost predicate RepliesGranted(s: State) {
    forall r :: r in s.clients.replies && r.answer.Consumed? ==> r.request in s.granted
  }

  /** A call ready to run, or run, on an approval was granted it. */
  ghost predicate CallsGranted(s: State) {
    forall c :: c in s.clients.calls ==> CallGranted(s, c)
  }

  ghost predicate CallGranted(s: State, c: nat)
    requires c in s.clients.calls
  {
    var path := P.PathOf(s.clients.calls[c].phase);
    path.Some? && path.value.ByApproval? ==> exists r :: r in s.granted && r.call == c && r.id == path.value.id
  }

  ghost predicate Kept(h: Hash, s: State) {
    && RequestsOwn(h, s.clients) && GrantsReal(s) && RepliesGranted(s) && CallsGranted(s)
    && P.ExecutionsMatchCalls(s.clients)
  }

  lemma {:induction false} AlwaysKept(h: Hash, run: seq<Label>)
    ensures Kept(h, After(h, run))
  {
    hide Apply, P.Apply;
    if run != [] {
      AlwaysKept(h, run[..|run| - 1]);
      StepKeeps(h, After(h, run[..|run| - 1]), run[|run| - 1]);
    }
  }

  lemma StepKeeps(h: Hash, s: State, l: Label)
    requires Kept(h, s)
    ensures Kept(h, Apply(h, s, l))
  {
    hide Kept, P.Apply;
    match l
    case Client(step) => ClientKeeps(h, s, step);
    case Table(op) => TableKeeps(h, s, op);
    case Consume(request, now) => ConsumeKeeps(h, s, request, now);
    case Answer(request) => AnswerKeeps(h, s, request);
    case Append(record) => AppendKeeps(h, s, record);
    case Hold(n, id, expires) => HoldKeeps(h, s, n, id, expires);
  }

  lemma ClientKeeps(h: Hash, s: State, step: P.Label)
    requires Kept(h, s)
    ensures Kept(h, Apply(h, s, Client(step)))
  {
    hide P.Apply, GrantIs, P.ExecutionsMatchCalls, ActionHash, P.PathOf;
    if ClientSide(step) {
      var t := Apply(h, s, Client(step));
      P.MatchKept(h, s.clients, step);
      ClientFrame(h, s.clients, step);
      forall c | c in t.clients.calls
        ensures CallGranted(t, c)
      {
        var path := P.PathOf(t.clients.calls[c].phase);
        if path.Some? && path.value.ByApproval? {
          P.BecomesReady(h, s.clients, step, c);
          assert c in s.clients.calls ==> CallGranted(s, c);
        }
      }
      forall r | r in t.granted
        ensures GrantIs(t, r)
      {
        SameGrant(s, t, r);
      }
    }
  }

  /** The calls' own steps answer nothing and change no action. */
  lemma ClientFrame(h: Hash, clients: P.State, step: P.Label)
    requires RequestsOwn(h, clients) && ClientSide(step)
    ensures var after := P.Apply(h, clients, step);
            RequestsOwn(h, after) && after.replies == clients.replies && clients.sent <= after.sent
  {
    hide W.Next, W.AfterConsume, ActionHash;
  }

  lemma SameGrant(s: State, t: State, r: P.Request)
    requires r in s.granted && r in t.granted && s.granted[r] == t.granted[r] && s.ops <= t.ops && GrantIs(s, r)
    ensures GrantIs(t, r)
  {
    hide S.Succeeds, S.After;
    var n := s.granted[r];
    assert s.ops[..n] == t.ops[..n] && s.ops[n] == t.ops[n];
  }

  lemma TableKeeps(h: Hash, s: State, op: S.Op)
    requires Kept(h, s)
    ensures Kept(h, Apply(h, s, Table(op)))
  {
    hide P.Apply, GrantIs, P.ExecutionsMatchCalls, ActionHash, P.PathOf;
    var t := Apply(h, s, Table(op));
    forall r | r in t.granted
      ensures GrantIs(t, r)
    {
      SameGrant(s, t, r);
    }
    assert forall c :: c in t.clients.calls ==> CallGranted(s, c) && CallGranted(t, c);
  }

  lemma ConsumeKeeps(h: Hash, s: State, request: P.Request, now: int)
    requires Kept(h, s)
    ensures Kept(h, Apply(h, s, Consume(request, now)))
  {
    hide Kept, P.Apply, S.Succeeds, S.After;
    var op := S.Consume(request.id, Some(request.claim), now);
    if request in s.clients.sent {
      if S.Succeeds(S.After(s.ops), op) {
        GrantKeeps(h, s, request, now);
      } else {
        TableKeeps(h, s, op);
        AnsweredKeeps(h, Apply(h, s, Table(op)), request, W.ConsumeError);
      }
    }
  }

  lemma GrantKeeps(h: Hash, s: State, request: P.Request, now: int)
    requires Kept(h, s) && request in s.clients.sent
    requires S.Succeeds(S.After(s.ops), S.Consume(request.id, Some(request.claim), now))
    ensures Kept(h, Apply(h, s, Consume(request, now)))
  {
    hide P.Apply, GrantIs, P.ExecutionsMatchCalls, ActionHash, P.PathOf, S.Succeeds, S.After;
    var t := Apply(h, s, Consume(request, now));
    forall r | r in t.granted
      ensures GrantIs(t, r)
    {
      if r != request { SameGrant(s, t, r); } else { NewGrant(s, t, request, now); }
    }
    GrantsBefore(s);
    assert forall c :: c in t.clients.calls ==> CallGranted(s, c) && CallGranted(t, c);
  }

  lemma NewGrant(s: State, t: State, request: P.Request, now: int)
    requires var op := S.Consume(request.id, Some(request.claim), now);
             && S.Succeeds(S.After(s.ops), op) && t.ops == s.ops + [op]
             && request in t.granted && t.granted[request] == |s.ops|
    ensures GrantIs(t, request)
  {
    hide S.Succeeds, S.After;
    assert t.ops[..|s.ops|] == s.ops;
  }

  lemma GrantsBefore(s: State)
    requires GrantsReal(s)
    ensures forall r :: r in s.granted ==> s.granted[r] < |s.ops|
  {
    assert forall r :: r in s.granted ==> GrantIs(s, r);
  }

  /** What does not look at replies does not change with them. */
  lemma OtherClientsKept(h: Hash, before: P.State, after: P.State)
    requires after.(replies := before.replies) == before
    ensures RequestsOwn(h, before) ==> RequestsOwn(h, after)
    ensures P.ExecutionsMatchCalls(before) ==> P.ExecutionsMatchCalls(after)
  {
  }

  lemma AnswerKeeps(h: Hash, s: State, request: P.Request)
    requires Kept(h, s)
    ensures Kept(h, Apply(h, s, Answer(request)))
  {
    hide Kept, P.Apply, ReadBack;
    if request in s.granted {
      AnsweredKeeps(h, s, request, W.Consumed(ReadBack(s.ops, request.id)));
    }
  }

  lemma AnsweredKeeps(h: Hash, s: State, request: P.Request, answer: W.ConsumeAnswer)
    requires Kept(h, s) && (answer.Consumed? ==> request in s.granted)
    ensures Kept(h, s.(clients := Answered(s.clients, request, answer)))
  {
    hide P.Apply, GrantIs, P.ExecutionsMatchCalls, ActionHash, P.PathOf;
    var t := s.(clients := Answered(s.clients, request, answer));
    OtherClientsKept(h, s.clients, t.clients);
    forall r | r in t.granted
      ensures GrantIs(t, r)
    {
      SameGrant(s, t, r);
    }
    assert forall c :: c in t.clients.calls ==> CallGranted(s, c) && CallGranted(t, c);
  }

  lemma AppendKeeps(h: Hash, s: State, record: R.Record)
    requires Kept(h, s)
    ensures Kept(h, Apply(h, s, Append(record)))
  {
    hide P.Apply, GrantIs, P.ExecutionsMatchCalls, ActionHash, P.PathOf, R.Appended;
    var t := Apply(h, s, Append(record));
    forall r | r in t.granted
      ensures GrantIs(t, r)
    {
      SameGrant(s, t, r);
    }
    assert forall c :: c in t.clients.calls ==> CallGranted(s, c) && CallGranted(t, c);
  }

  lemma HoldKeeps(h: Hash, s: State, n: nat, id: string, expires: Option<int>)
    requires Kept(h, s)
    ensures Kept(h, Apply(h, s, Hold(n, id, expires)))
  {
    hide Kept, P.Apply, S.After;
    if CanHold(s, n, id) {
      var op := S.Insert(id, s.receipts[n].columns.actionHash.value, expires);
      TableKeeps(h, s, op);
      HeldIrrelevant(h, Apply(h, s, Table(op)), id, n);
    }
  }

  lemma HeldIrrelevant(h: Hash, s: State, id: string, n: nat)
    requires Kept(h, s)
    ensures Kept(h, s.(held := s.held[id := n]))
  {
    hide GrantIs, P.ExecutionsMatchCalls, ActionHash, P.PathOf;
    var t := s.(held := s.held[id := n]);
    forall r | r in t.granted
      ensures GrantIs(t, r)
    {
      SameGrant(s, t, r);
    }
    assert forall c :: c in t.clients.calls ==> CallGranted(s, c) && CallGranted(t, c);
  }

  // ---------------------------------------------------------------- the guarantees

  /** Behind an execution on an approval stands a grant to its own call, with the hash of its own action. */
  lemma ExecutionGranted(h: Hash, run: seq<Label>, i: nat) returns (r: P.Request)
    requires i < |After(h, run).clients.executions| && After(h, run).clients.executions[i].path.ByApproval?
    ensures var s, e := After(h, run), After(h, run).clients.executions[i];
            && r in s.granted && r.call == e.call && r.id == e.path.id && r.claim == ActionHash(h, e.action)
            && S.ConsumedAt(s.ops, s.granted[r], r.id) && s.ops[s.granted[r]].claim == Some(r.claim)
  {
    hide After, S.ConsumedAt, ActionHash;
    AlwaysKept(h, run);
    var s := After(h, run);
    var e := s.clients.executions[i];
    assert CallGranted(s, e.call);
    P.CarriesOutUnchanged(s.clients.calls[e.call].action, s.clients.calls[e.call].keywords, e.path, e.action);
    r :| r in s.granted && r.call == e.call && r.id == e.path.id;
    assert GrantIs(s, r);
  }

  /**
    In every interleaving, what runs on an approval bears the hash that was on
    the row, edited or not, when an approver approved it, before the consume.
   */
  lemma ApprovedRunWasApproved(h: Hash, run: seq<Label>, i: nat) returns (m: nat, n: nat)
    requires i < |After(h, run).clients.executions| && After(h, run).clients.executions[i].path.ByApproval?
    ensures var s, e := After(h, run), After(h, run).clients.executions[i];
            && m < n && S.ApprovedAt(s.ops, m, e.path.id, ActionHash(h, e.action)) && S.ConsumedAt(s.ops, n, e.path.id)
  {
    hide After, S.ConsumedAt, S.ApprovedAt, ActionHash;
    var r := ExecutionGranted(h, run, i);
    n := After(h, run).granted[r];
    m := S.ConsumedIsWhatWasApproved(After(h, run).ops, n, r.id);
  }

  /** And it runs once: over all calls, retries and lost answers, an approval id has one execution. */
  lemma OneRunPerApproval(h: Hash, run: seq<Label>, i: nat, j: nat)
    requires i < |After(h, run).clients.executions| && j < |After(h, run).clients.executions|
    requires var e, f := After(h, run).clients.executions[i], After(h, run).clients.executions[j];
             e.path.ByApproval? && e.path == f.path
    ensures i == j
  {
    hide After, S.ConsumedAt, ActionHash;
    var q := ExecutionGranted(h, run, i);
    var r := ExecutionGranted(h, run, j);
    var s := After(h, run);
    S.ConsumedOnce(s.ops, s.granted[q], s.granted[r], q.id);
    AlwaysKept(h, run);
    assert q == r;
  }

  // ---------------------------------------------------------------- every held call is on record

  /** The receipt of a held call names the hash its row was created with. */
  ghost predicate HeldReal(s: State) {
    forall id :: id in s.held ==> HeldIs(s, id)
  }

  ghost predicate HeldIs(s: State, id: string)
    requires id in s.held
  {
    && s.held[id] < |s.receipts| && s.receipts[s.held[id]].columns.decision == "require_approval"
    && s.receipts[s.held[id]].columns.actionHash.Some?
    && exists m: nat :: S.InsertedAt(s.ops, m, id, s.receipts[s.held[id]].columns.actionHash.value)
  }

  /** The hash on record for a held id. */
  function Recorded(s: State, id: string): Option<string> {
    if id in s.held && s.held[id] < |s.receipts| then s.receipts[s.held[id]].columns.actionHash else None
  }

  lemma {:induction false} AlwaysHeldReal(h: Hash, run: seq<Label>)
    ensures HeldReal(After(h, run))
  {
    hide Apply, HeldIs;
    if run != [] {
      var s, l := After(h, run[..|run| - 1]), run[|run| - 1];
      AlwaysHeldReal(h, run[..|run| - 1]);
      forall id | id in Apply(h, s, l).held
        ensures HeldIs(Apply(h, s, l), id)
      {
        StaysHeld(h, s, l, id);
      }
    }
  }

  /** One step keeps what is held, and what it adds is on record. */
  lemma StaysHeld(h: Hash, s: State, l: Label, id: string)
    requires HeldReal(s)
    ensures id in s.held ==> id in Apply(h, s, l).held && Recorded(Apply(h, s, l), id) == Recorded(s, id)
    ensures id in Apply(h, s, l).held ==> HeldIs(Apply(h, s, l), id)
  {
    hide Apply, HeldIs, S.InsertedAt;
    var t := Apply(h, s, l);
    OnlyMore(h, s, l);
    if id in s.held {
      assert HeldIs(s, id);
      OldStaysHeld(h, s, l, id);
    } else if id in t.held {
      NewIsHeld(h, s, l, id);
    }
  }

  /** A step adds at most one operation and one receipt. */
  lemma OnlyMore(h: Hash, s: State, l: Label)
    ensures var t := Apply(h, s, l);
            && s.receipts <= t.receipts && (t.ops == s.ops || exists op :: t.ops == s.ops + [op])
            && (t.held == s.held || (l.Hold? && CanHold(s, l.receipt, l.id) && t.held == s.held[l.id := l.receipt]))
  {
    hide P.Apply, S.After, S.Succeeds, R.RecordHash, Head, R.AsReceipts, ReadBack;
  }

  lemma OldStaysHeld(h: Hash, s: State, l: Label, id: string)
    requires id in s.held && HeldIs(s, id)
    ensures var t := Apply(h, s, l);
            id in t.held && HeldIs(t, id) && Recorded(t, id) == Recorded(s, id)
  {
    hide Apply, S.InsertedAt, S.After;
    var t := Apply(h, s, l);
    OnlyMore(h, s, l);
    var x := s.receipts[s.held[id]].columns.actionHash.value;
    var m: nat :| S.InsertedAt(s.ops, m, id, x);
    HeldIsNotNew(s, id, m, x);
    if t.ops != s.ops {
      var op :| t.ops == s.ops + [op];
      S.InsertedInLongerRun(s.ops, op, m, id, x);
    }
  }

  lemma NewIsHeld(h: Hash, s: State, l: Label, id: string)
    requires id !in s.held && id in Apply(h, s, l).held
    ensures HeldIs(Apply(h, s, l), id)
  {
    hide P.Apply, S.After, S.InsertedAt, R.RecordHash, Head, R.AsReceipts, ReadBack;
    NewlyInserted(s.ops, id, s.receipts[l.receipt].columns.actionHash.value, l.expires);
  }

  lemma HeldIsNotNew(s: State, id: string, m: nat, x: string)
    requires S.InsertedAt(s.ops, m, id, x)
    ensures id in S.After(s.ops).used
  {
    hide S.Succeeds;
    S.InsertedIsUsed(s.ops, m, id, x, |s.ops|);
    assert s.ops[..|s.ops|] == s.ops;
  }

  lemma NewlyInserted(ops: seq<S.Op>, id: string, hash: string, expires: Option<int>)
    requires id !in S.After(ops).used
    ensures S.InsertedAt(ops + [S.Insert(id, hash, expires)], |ops|, id, hash)
  {
    assert (ops + [S.Insert(id, hash, expires)])[..|ops|] == ops;
  }

  /** The receipts of every run form a chain that verifies. */
  lemma {:induction false} AlwaysLinked(h: Hash, run: seq<Label>)
    requires NonEmptyDigests(h)
    ensures Linked(h, R.AsReceipts(After(h, run).receipts), GENESIS)
  {
    hide Linked, R.AsReceipts, NonEmptyDigests, R.Appended, P.Apply, S.After, S.Succeeds, ReadBack;
    if run == [] {
      NoReceipts(h);
    } else {
      AlwaysLinked(h, run[..|run| - 1]);
      if run[|run| - 1].Append? {
        R.AppendKeepsLinked(h, After(h, run[..|run| - 1]).receipts, run[|run| - 1].record);
      }
    }
  }

  lemma NoReceipts(h: Hash)
    ensures Linked(h, R.AsReceipts([]), GENESIS)
  {
  }
}
