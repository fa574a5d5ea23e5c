/**
  Any number of protected calls and one gateway, interleaved in any way.

  Authorize and poll answers are arbitrary: late, stale or made up. Requests to
  consume can be retried and processed more than once, their responses can be
  lost, and other parties can authorize and consume as they please. All that is
  relied on is that the gateway handles one consume at a time and that a reply
  to a consume request comes from the gateway.
 */
module Protocol {
  import opened Options
  import opened Canon
  import opened Digests
  import opened Actions
  import opened Gateway
  import W = Wrappers

  /**
    One protected call: the wrapper it goes through, the action it asks for, which
    of its arguments were passed by keyword, and how far it has come.
   */
  datatype Call = Call(sdk: W.Sdk, action: Action, keywords: set<string>, phase: W.Phase, attempt: nat)

  datatype Request = Request(call: nat, attempt: nat, id: string, claim: string)
  datatype Reply = Reply(request: Request, answer: W.ConsumeAnswer)
  /** A tool run: `action` is what was done, with the arguments the tool was given. */
  datatype Execution = Execution(call: nat, path: W.Path, action: Action)

  datatype State = State(
    books: Books,
    calls: map<nat, Call>,
    sent: set<Request>,
    replies: set<Reply>,
    executions: seq<Execution>)

  datatype Label =
    | NewCall(call: nat, sdk: W.Sdk, action: Action, keywords: set<string>)
    | Observe(call: nat, event: W.Event)          // the call sees an answer, gives up, or runs its tool
    | SendConsume(call: nat)                      // first attempt or retry
    | GatewayConsume(request: Request)            // a sent request takes effect
    | DeliverReply(reply: Reply)                  // a reply reaches the attempt it belongs to
    | AnyoneAuthorizes(action: Action, sourceTrust: string)
    | AnyoneConsumes(id: string, claim: Option<string>)

  ghost function Expected(h: Hash, c: Call): string {
    ActionHash(h, c.action)
  }

  /** What the tool is made to do: redaction strips keyword arguments, an edit replaces those it names. */
  function Performed(call: Call, path: W.Path): Action {
    var given := call.action.parameters;
    match path
    case ByRedact(fields) =>
      call.action.(parameters := map k | k in given ::
                     if k in call.keywords && k in fields then Str("[REDACTED]") else given[k])
    case ByEdit(_, edits) =>
      call.action.(parameters := map k | k in given :: if k in edits then edits[k] else given[k])
    case _ => call.action
  }

  /** A call may act on any event but a granted consume, which only a gateway reply can bring. */
  predicate FreeEvent(e: W.Event) {
    e.ConsumeReturned? ==> e.consumed.ConsumeError?
  }

  function Executed(c: nat, call: Call, event: W.Event): seq<Execution> {
    if event.RanTool? && call.phase.Ready? then [Execution(c, call.phase.path, Performed(call, call.phase.path))]
    else []
  }

  /** The effect of a label; a label that is not possible in the state changes nothing. */
  ghost function Apply(h: Hash, s: State, l: Label): State {
    match l
    case NewCall(c, sdk, action, keywords) =>
      if c in s.calls then s else s.(calls := s.calls[c := Call(sdk, action, keywords, W.Start, 0)])
    case Observe(c, event) =>
      if c !in s.calls || !FreeEvent(event) then s
      else
        var call := s.calls[c];
        var phase := W.Next(call.sdk, Expected(h, call), call.phase, event);
        if phase.Stuck? then s
        else s.(calls := s.calls[c := call.(phase := phase)], executions := s.executions + Executed(c, call, event))
    case SendConsume(c) =>
      if c !in s.calls || !s.calls[c].phase.Consuming? then s
      else
        var call := s.calls[c].(attempt := s.calls[c].attempt + 1);
        s.(calls := s.calls[c := call],
           sent := s.sent + {Request(c, call.attempt, call.phase.id, Expected(h, call))})
    case GatewayConsume(request) =>
      if request !in s.sent then s
      else
        var (books, answer) := ConsumeOn(s.books, request.id, Some(request.claim));
        s.(books := books, replies := s.replies + {Reply(request, answer)})
    case DeliverReply(reply) =>
      var c := reply.request.call;
      if reply !in s.replies || c !in s.calls then s
      else if s.calls[c].phase != W.Consuming(reply.request.id) || s.calls[c].attempt != reply.request.attempt then s
      else
        var phase := W.AfterConsume(Expected(h, s.calls[c]), reply.request.id, reply.answer);
        s.(calls := s.calls[c := s.calls[c].(phase := phase)])
    case AnyoneAuthorizes(action, trust) => s.(books := AuthorizeOn(h, s.books, action, trust).0)
    case AnyoneConsumes(id, claim) => s.(books := ConsumeOn(s.books, id, claim).0)
  }

  /** The state after a run, which is any sequence of labels. */
  ghost function After(h: Hash, pinned: string, run: seq<Label>): State {
    if run == [] then State(Books(pinned, map[], {}), map[], {}, {}, [])
    else Apply(h, After(h, pinned, run[..|run| - 1]), run[|run| - 1])
  }

  lemma AfterSnoc(h: Hash, pinned: string, run: seq<Label>, n: nat)
    requires n < |run|
    ensures After(h, pinned, run[..n + 1]) == Apply(h, After(h, pinned, run[..n]), run[n])
  {
    assert run[..n + 1][..n] == run[..n];
  }

  // ---------------------------------------------------------------- the moment of a grant

  /** Label `n` of the run is the gateway granting approval `id` with `hash` to `call`. */
  ghost predicate GrantedAt(h: Hash, pinned: string, run: seq<Label>, n: nat, call: nat, id: string, hash: string) {
    && n < |run| && run[n].GatewayConsume?
    && run[n].request.call == call && run[n].request.id == id
    && run[n].request in After(h, pinned, run[..n]).sent
    && ConsumeOn(After(h, pinned, run[..n]).books, id, Some(run[n].request.claim)).1 == W.Consumed(hash)
  }

  ghost predicate Granted(h: Hash, pinned: string, run: seq<Label>, call: nat, id: string, hash: string) {
    exists n: nat :: GrantedAt(h, pinned, run, n, call, id, hash)
  }

  lemma GrantedInLongerRun(h: Hash, pinned: string, run: seq<Label>, l: Label, call: nat, id: string, hash: string)
    requires Granted(h, pinned, run, call, id, hash)
    ensures Granted(h, pinned, run + [l], call, id, hash)
  {
    var n: nat :| GrantedAt(h, pinned, run, n, call, id, hash);
    assert (run + [l])[..n] == run[..n];
    assert GrantedAt(h, pinned, run + [l], n, call, id, hash);
  }

  lemma ConsumedGrows(h: Hash, s: State, l: Label)
    ensures s.books.consumed <= Apply(h, s, l).books.consumed
  {
    hide ActionHash, W.Next;
  }

  /** A consumed approval stays consumed. */
  lemma {:induction false} ConsumedForever(h: Hash, pinned: string, run: seq<Label>, m: nat, n: nat)
    requires m <= n <= |run|
    ensures After(h, pinned, run[..m]).books.consumed <= After(h, pinned, run[..n]).books.consumed
    decreases n
  {
    hide Apply;
    if m < n {
      ConsumedForever(h, pinned, run, m, n - 1);
      AfterSnoc(h, pinned, run, n - 1);
      ConsumedGrows(h, After(h, pinned, run[..n - 1]), run[n - 1]);
    }
  }

  /** An approval id is granted at one moment of a run at most. */
  lemma GrantedOnce(h: Hash, pinned: string, run: seq<Label>, id: string,
                    m: nat, c: nat, x: string, n: nat, d: nat, y: string)
    requires GrantedAt(h, pinned, run, m, c, id, x) && GrantedAt(h, pinned, run, n, d, id, y)
    ensures m == n && c == d && x == y
  {
    if m < n { GrantBlocksLater(h, pinned, run, id, m, c, x, n); }
    if n < m { GrantBlocksLater(h, pinned, run, id, n, d, y, m); }
  }

  lemma GrantBlocksLater(h: Hash, pinned: string, run: seq<Label>, id: string, m: nat, c: nat, x: string, n: nat)
    requires GrantedAt(h, pinned, run, m, c, id, x) && m < n < |run|
    ensures id in After(h, pinned, run[..n]).books.consumed
  {
    AfterSnoc(h, pinned, run, m);
    ConsumedForever(h, pinned, run, m + 1, n);
  }

  // ---------------------------------------------------------------- what every run keeps

  ghost predicate RepliesGranted(h: Hash, pinned: string, run: seq<Label>) {
    forall r :: r in After(h, pinned, run).replies && r.answer.Consumed?
                ==> Granted(h, pinned, run, r.request.call, r.request.id, r.answer.actionHash)
  }

  /** The path a call is about to take or took. */
  function PathOf(phase: W.Phase): Option<W.Path> {
    if phase.Ready? then Some(phase.path)
    else if phase.Done? && phase.outcome.Ran? then Some(phase.outcome.path)
    else None
  }

  /** A call ready to run on an approval was granted it, with the hash of its own action. */
  ghost predicate CallGranted(h: Hash, pinned: string, run: seq<Label>, c: nat)
    requires c in After(h, pinned, run).calls
  {
    var call := After(h, pinned, run).calls[c];
    var path := PathOf(call.phase);
    path.Some? && path.value.ByApproval? ==> Granted(h, pinned, run, c, path.value.id, Expected(h, call))
  }

  ghost predicate CallsGranted(h: Hash, pinned: string, run: seq<Label>) {
    forall c :: c in After(h, pinned, run).calls ==> CallGranted(h, pinned, run, c)
  }

  /** What an argument the call gave as `given` is when the tool runs on `path`. */
  ghost predicate RunsWith(path: W.Path, keywords: set<string>, name: string, given: Value, used: Value) {
    match path
    case ByRedact(fields) => used == if name in keywords * fields then Str("[REDACTED]") else given
    case ByEdit(_, edits) => (name in edits ==> used == edits[name]) && (name !in edits ==> used == given)
    case _ => used == given
  }

  /** The same tool, action and resource, on exactly the arguments the call named. */
  ghost predicate CarriesOut(asked: Action, keywords: set<string>, path: W.Path, done: Action) {
    && done.tool == asked.tool && done.action == asked.action && done.resource == asked.resource
    && done.mutatesState == asked.mutatesState && done.parameters.Keys == asked.parameters.Keys
    && forall k :: k in asked.parameters ==> RunsWith(path, keywords, k, asked.parameters[k], done.parameters[k])
  }

  /** Each execution is that of a finished call, doing what its path has it do, and no call has two. */
  ghost predicate ExecutionsMatchCalls(s: State) {
    && (forall i :: 0 <= i < |s.executions| ==>
          var e := s.executions[i];
          e.call in s.calls && s.calls[e.call].phase == W.Done(W.Ran(e.path))
          && CarriesOut(s.calls[e.call].action, s.calls[e.call].keywords, e.path, e.action))
    && (forall i, j :: 0 <= i < j < |s.executions| ==> s.executions[i].call != s.executions[j].call)
  }

  lemma {:induction false} RepliesAlwaysGranted(h: Hash, pinned: string, run: seq<Label>)
    ensures RepliesGranted(h, pinned, run)
  {
    if run != [] {
      var n := |run| - 1;
      var before, l := run[..n], run[n];
      RepliesAlwaysGranted(h, pinned, before);
      assert run == before + [l];
      forall r | r in After(h, pinned, run).replies && r.answer.Consumed?
        ensures Granted(h, pinned, run, r.request.call, r.request.id, r.answer.actionHash)
      {
        if r in After(h, pinned, before).replies {
          GrantedInLongerRun(h, pinned, before, l, r.request.call, r.request.id, r.answer.actionHash);
        } else {
          assert GrantedAt(h, pinned, run, n, r.request.call, r.request.id, r.answer.actionHash);
        }
      }
    }
  }

  lemma {:induction false} CallsAlwaysGranted(h: Hash, pinned: string, run: seq<Label>)
    ensures CallsGranted(h, pinned, run)
  {
    if run != [] {
      var before, l := run[..|run| - 1], run[|run| - 1];
      assert run == before + [l];
      CallsAlwaysGranted(h, pinned, before);
      RepliesAlwaysGranted(h, pinned, before);
      forall c | c in After(h, pinned, run).calls
        ensures CallGranted(h, pinned, run, c)
      {
        CallStaysGranted(h, pinned, before, l, c);
      }
    }
  }

  /** In one step, only a granted reply makes a call ready to run on an approval. */
  lemma BecomesReady(h: Hash, s: State, l: Label, c: nat)
    requires c in Apply(h, s, l).calls
    requires var path := PathOf(Apply(h, s, l).calls[c].phase); path.Some? && path.value.ByApproval?
    ensures var call := Apply(h, s, l).calls[c];
            || (c in s.calls && PathOf(s.calls[c].phase) == PathOf(call.phase) && s.calls[c].action == call.action)
            || (&& l.DeliverReply? && l.reply in s.replies && l.reply.answer == W.Consumed(Expected(h, call))
                && l.reply.request.call == c && l.reply.request.id == PathOf(call.phase).value.id)
  {
    hide ConsumeOn, AuthorizeOn, ActionHash;
  }

  lemma CallStaysGranted(h: Hash, pinned: string, before: seq<Label>, l: Label, c: nat)
    requires CallsGranted(h, pinned, before) && RepliesGranted(h, pinned, before)
    requires c in After(h, pinned, before + [l]).calls
    ensures CallGranted(h, pinned, before + [l], c)
  {
    hide Apply, Granted, ActionHash, PathOf;
    var run := before + [l];
    AfterSnoc(h, pinned, run, |before|);
    assert run[..|before|] == before && run[..|before| + 1] == run;
    var s, t := After(h, pinned, before), After(h, pinned, run);
    var path := PathOf(t.calls[c].phase);
    if path.Some? && path.value.ByApproval? {
      BecomesReady(h, s, l, c);
      assert c in s.calls ==> CallGranted(h, pinned, before, c);
      GrantedInLongerRun(h, pinned, before, l, c, path.value.id, Expected(h, t.calls[c]));
    }
  }

  lemma PerformedCarriesOut(call: Call, path: W.Path)
    ensures CarriesOut(call.action, call.keywords, path, Performed(call, path))
  {
  }

  /** An action is its fields: on a path that changes no argument, the action asked for is the one done. */
  lemma CarriesOutUnchanged(asked: Action, keywords: set<string>, path: W.Path, done: Action)
    requires CarriesOut(asked, keywords, path, done) && (path.ByApproval? || path.ByAllow?)
    ensures done == asked
  {
    assert done.parameters == asked.parameters;
  }

  lemma MatchKept(h: Hash, s: State, l: Label)
    requires ExecutionsMatchCalls(s)
    ensures ExecutionsMatchCalls(Apply(h, s, l))
  {
    hide ActionHash, CarriesOut, Performed;
    if l.Observe? && l.call in s.calls && s.calls[l.call].phase.Ready? {
      PerformedCarriesOut(s.calls[l.call], s.calls[l.call].phase.path);
    }
  }

  lemma {:induction false} ExecutionsAlwaysMatch(h: Hash, pinned: string, run: seq<Label>)
    ensures ExecutionsMatchCalls(After(h, pinned, run))
  {
    hide Apply;
    if run != [] {
      ExecutionsAlwaysMatch(h, pinned, run[..|run| - 1]);
      MatchKept(h, After(h, pinned, run[..|run| - 1]), run[|run| - 1]);
    }
  }

  /** Every call was made by the run, and still asks for what it was made for. */
  lemma {:induction false} CallWasMade(h: Hash, pinned: string, run: seq<Label>, c: nat) returns (n: nat)
    requires c in After(h, pinned, run).calls
    ensures n < |run| && var call := After(h, pinned, run).calls[c];
                         run[n] == NewCall(c, call.sdk, call.action, call.keywords)
  {
    hide ActionHash, ConsumeOn, AuthorizeOn;
    var before := run[..|run| - 1];
    if c in After(h, pinned, before).calls {
      n := CallWasMade(h, pinned, before, c);
    } else {
      n := |run| - 1;
    }
  }

  /**
    In every run, a tool run is that of a call the run made: on the same arguments,
    with "[REDACTED]" for each keyword argument the gateway named, or with the
    approver's value for each argument the edit names, and nothing else changed.
   */
  lemma RunsWhatWasAsked(h: Hash, pinned: string, run: seq<Label>, i: nat) returns (n: nat)
    requires i < |After(h, pinned, run).executions|
    ensures var e := After(h, pinned, run).executions[i];
            && n < |run| && run[n].NewCall? && run[n].call == e.call
            && CarriesOut(run[n].action, run[n].keywords, e.path, e.action)
  {
    hide After, Apply, CarriesOut;
    ExecutionsAlwaysMatch(h, pinned, run);
    n := CallWasMade(h, pinned, run, After(h, pinned, run).executions[i].call);
  }

  /** Two actions differ at most in keyword arguments the gateway has redacted. */
  ghost predicate AlikeButFor(a: Action, b: Action, keywords: set<string>, fields: set<string>) {
    && a == b.(parameters := a.parameters) && a.parameters.Keys == b.parameters.Keys
    && forall k :: k in a.parameters && k !in keywords * fields ==> a.parameters[k] == b.parameters[k]
  }

  /** The tool learns nothing of a redacted value: calls that differ only there run alike, in whatever runs. */
  lemma RedactedRunsAlike(h: Hash, pinned: string, run: seq<Label>, i: nat,
                          h': Hash, pinned': string, run': seq<Label>, j: nat, fields: set<string>)
    requires i < |After(h, pinned, run).executions| && j < |After(h', pinned', run').executions|
    requires var e, f := After(h, pinned, run).executions[i], After(h', pinned', run').executions[j];
             && e.path == W.ByRedact(fields) && f.path == W.ByRedact(fields)
             && var c, d := After(h, pinned, run).calls, After(h', pinned', run').calls;
             && e.call in c && f.call in d && c[e.call].keywords == d[f.call].keywords
             && AlikeButFor(c[e.call].action, d[f.call].action, c[e.call].keywords, fields)
    ensures After(h, pinned, run).executions[i].action == After(h', pinned', run').executions[j].action
  {
    hide After;
    ExecutionsAlwaysMatch(h, pinned, run);
    ExecutionsAlwaysMatch(h', pinned', run');
    var e, f := After(h, pinned, run).executions[i], After(h', pinned', run').executions[j];
    assert e.action.parameters == f.action.parameters;
  }

  // ---------------------------------------------------------------- the two guarantees

  /** The run without the authorize requests of sources that are not to be trusted. */
  ghost function Trusted(run: seq<Label>): seq<Label> {
    if run == [] then []
    else
      var before, l := Trusted(run[..|run| - 1]), run[|run| - 1];
      if l.AnyoneAuthorizes? && l.sourceTrust in {"untrusted_external", "malicious_suspected"} then before
      else before + [l]
  }

  /** A source that is not to be trusted leaves no trace, however often and whenever it asks. */
  lemma {:induction false} UntrustedLeavesNoTrace(h: Hash, pinned: string, run: seq<Label>)
    ensures After(h, pinned, run) == After(h, pinned, Trusted(run))
  {
    hide ActionHash, W.Next, Performed, ConsumeOn;
    if run != [] {
      var before, l := run[..|run| - 1], run[|run| - 1];
      UntrustedLeavesNoTrace(h, pinned, before);
      assert (Trusted(before) + [l])[..|Trusted(before)|] == Trusted(before);
    }
  }

  /** The hash an approval id was last bound to is that of the last trusted authorize for it. */
  ghost function LastAuthorized(run: seq<Label>, id: string): Option<Action> {
    if run == [] then None
    else
      var l := run[|run| - 1];
      if l.AnyoneAuthorizes? && l.sourceTrust !in {"untrusted_external", "malicious_suspected"}
         && "apr_" + l.action.tool + "_" + l.action.action == id
      then Some(l.action.(mutatesState := true))
      else LastAuthorized(run[..|run| - 1], id)
  }

  lemma {:induction false} IssuedIsLastAuthorized(h: Hash, pinned: string, run: seq<Label>, id: string)
    ensures After(h, pinned, run).books.pinned == pinned
    ensures id in After(h, pinned, run).books.issued <==> LastAuthorized(run, id).Some?
    ensures LastAuthorized(run, id).Some? ==>
              After(h, pinned, run).books.issued[id] == BoundHash(h, pinned, LastAuthorized(run, id).value)
  {
    hide ActionHash;
    if run != [] {
      IssuedIsLastAuthorized(h, pinned, run[..|run| - 1], id);
    }
  }

  /** At label `n` the gateway held the hash of this execution's action for its approval, and granted it. */
  ghost predicate HeldAt(h: Hash, pinned: string, run: seq<Label>, n: nat, e: Execution)
    requires e.path.ByApproval?
  {
    && GrantedAt(h, pinned, run, n, e.call, e.path.id, ActionHash(h, e.action))
    && var books := After(h, pinned, run[..n]).books;
    && e.path.id in books.issued && e.path.id !in books.consumed
    && books.issued[e.path.id] == ActionHash(h, e.action)
  }

  /**
    A tool run on an approval runs the action whose hash the gateway held for
    that approval at the moment it was consumed, in every interleaving.
   */
  lemma ApprovedRunIsTheHeldAction(h: Hash, pinned: string, run: seq<Label>, i: nat)
    requires i < |After(h, pinned, run).executions|
    requires After(h, pinned, run).executions[i].path.ByApproval?
    ensures exists n: nat :: HeldAt(h, pinned, run, n, After(h, pinned, run).executions[i])
  {
    hide After, Apply, ActionHash;
    var e := After(h, pinned, run).executions[i];
    ExecutionsAlwaysMatch(h, pinned, run);
    CallsAlwaysGranted(h, pinned, run);
    assert CallGranted(h, pinned, run, e.call);
    var call := After(h, pinned, run).calls[e.call];
    CarriesOutUnchanged(call.action, call.keywords, e.path, e.action);
    var n: nat :| GrantedAt(h, pinned, run, n, e.call, e.path.id, ActionHash(h, e.action));
    assert HeldAt(h, pinned, run, n, e);
  }

  /** The canonical texts of an action that ran and of the actions that were authorized. */
  ghost function TextsOf(run: seq<Label>, a: Action): set<Bytes> {
    {ActionBytes(a)} + set l | l in run && l.AnyoneAuthorizes? :: ActionBytes(Frozen(l.action))
  }

  /** And that action is, field by field, the one last authorized for the approval before it was consumed. */
  lemma ApprovedRunIsTheAuthorizedAction(h: Hash, run: seq<Label>, i: nat)
    requires i < |After(h, "", run).executions|
    requires After(h, "", run).executions[i].path.ByApproval?
    requires CollisionFreeOn(h, TextsOf(run, After(h, "", run).executions[i].action))
    ensures exists n: nat :: && HeldAt(h, "", run, n, After(h, "", run).executions[i])
                             && LastAuthorized(run[..n], After(h, "", run).executions[i].path.id)
                                == Some(After(h, "", run).executions[i].action)
  {
    hide After, Apply, ConsumeOn, CollisionFreeOn, ActionBytes, LastAuthorized;
    var e := After(h, "", run).executions[i];
    ApprovedRunIsTheHeldAction(h, "", run, i);
    var n: nat :| HeldAt(h, "", run, n, e);
    IssuedIsLastAuthorized(h, "", run[..n], e.path.id);
    LastAuthorizedInRun(run, n, e.path.id);
    SameHashSameAction(h, LastAuthorized(run[..n], e.path.id).value, e.action, TextsOf(run, e.action));
  }

  lemma {:induction false} LastAuthorizedInRun(run: seq<Label>, n: nat, id: string)
    requires n <= |run| && LastAuthorized(run[..n], id).Some?
    ensures Frozen(LastAuthorized(run[..n], id).value) == LastAuthorized(run[..n], id).value
    ensures forall a :: ActionBytes(LastAuthorized(run[..n], id).value) in TextsOf(run, a)
  {
    var l := run[n - 1];
    assert run[..n][n - 1] == l && l in run;
    if l.AnyoneAuthorizes? && !Untrusted(l.sourceTrust) && ApprovalId(l.action) == id {
    } else {
      assert run[..n][..n - 1] == run[..n - 1];
      LastAuthorizedInRun(run, n - 1, id);
    }
  }

  /** At most one tool run per approval, over all calls and all retries. */
  lemma OneRunPerApproval(h: Hash, pinned: string, run: seq<Label>, i: nat, j: nat)
    requires i < |After(h, pinned, run).executions| && j < |After(h, pinned, run).executions|
    requires var e, f := After(h, pinned, run).executions[i], After(h, pinned, run).executions[j];
             e.path.ByApproval? && e.path == f.path
    ensures i == j
  {
    hide After, Apply, ConsumeOn, ActionHash;
    var e, f := After(h, pinned, run).executions[i], After(h, pinned, run).executions[j];
    ApprovedRunIsTheHeldAction(h, pinned, run, i);
    ApprovedRunIsTheHeldAction(h, pinned, run, j);
    var m: nat :| HeldAt(h, pinned, run, m, e);
    var n: nat :| HeldAt(h, pinned, run, n, f);
    GrantedOnce(h, pinned, run, e.path.id, m, e.call, ActionHash(h, e.action), n, f.call, ActionHash(h, f.action));
    ExecutionsAlwaysMatch(h, pinned, run);
  }

  // ---------------------------------------------------------------- where the guarantees end

  lemma AfterPlus(h: Hash, pinned: string, run: seq<Label>, l: Label)
    ensures After(h, pinned, run + [l]) == Apply(h, After(h, pinned, run), l)
  {
    assert (run + [l])[..|run|] == run;
  }

  // ---------------------------------------------------------------- single use on every path

  /** The approval a path rests on. */
  function ApprovalOf(path: W.Path): Option<string> {
    match path
    case ByApproval(id) => Some(id)
    case ByEdit(id, _) => Some(id)
    case _ => None
  }

  predicate SameApproval(e: Execution, f: Execution) {
    ApprovalOf(e.path).Some? && ApprovalOf(e.path) == ApprovalOf(f.path)
  }

  /** No approval id stands behind two executions, on whatever path. */
  ghost predicate SingleUse(s: State) {
    forall i, j :: 0 <= i < |s.executions| && 0 <= j < |s.executions| && i != j
                   ==> !SameApproval(s.executions[i], s.executions[j])
  }

  ghost predicate OneSdk(run: seq<Label>, sdk: W.Sdk) {
    forall l :: l in run && l.NewCall? ==> l.sdk == sdk
  }

  /**
    An approval is single-use, whatever the gateway answers, exactly for the Go and
    TypeScript wrappers: the Python wrapper also runs an edited call, which it does
    not consume the approval for.
   */
  lemma SingleUseIffNotPython(h: Hash, pinned: string, sdk: W.Sdk)
    requires forall x :: h(x) != ""
    ensures (forall run :: OneSdk(run, sdk) ==> SingleUse(After(h, pinned, run))) <==> sdk.GoOrTs?
  {
    hide After;
    if sdk.GoOrTs? {
      forall run | OneSdk(run, sdk)
        ensures SingleUse(After(h, pinned, run))
      {
        SingleUseWithoutPython(h, pinned, run);
      }
    } else {
      var run := EditedRunsUnbounded(h, pinned, Action("", "", None, true, map[]), map[], "", 2);
      var s := After(h, pinned, run);
      assert SameApproval(s.executions[0], s.executions[1]);
    }
  }

  lemma SingleUseWithoutPython(h: Hash, pinned: string, run: seq<Label>)
    requires OneSdk(run, W.GoOrTs)
    ensures SingleUse(After(h, pinned, run))
  {
    hide After;
    var s := After(h, pinned, run);
    ExecutionsAlwaysMatch(h, pinned, run);
    OnlyPythonEdits(h, pinned, run);
    forall i, j | 0 <= i < |s.executions| && 0 <= j < |s.executions| && SameApproval(s.executions[i], s.executions[j])
      ensures i == j
    {
      OneRunPerApproval(h, pinned, run, i, j);
    }
  }

  /** A call through the Go or the TypeScript wrapper never runs on an edit. */
  ghost predicate NoEdits(s: State) {
    forall c :: c in s.calls ==>
                  s.calls[c].sdk.GoOrTs? && (PathOf(s.calls[c].phase).Some? ==> !PathOf(s.calls[c].phase).value.ByEdit?)
  }

  lemma {:induction false} OnlyPythonEdits(h: Hash, pinned: string, run: seq<Label>)
    requires OneSdk(run, W.GoOrTs)
    ensures NoEdits(After(h, pinned, run))
  {
    hide Apply;
    if run != [] {
      OnlyPythonEdits(h, pinned, run[..|run| - 1]);
      NoEditStep(h, After(h, pinned, run[..|run| - 1]), run[|run| - 1]);
    }
  }

  lemma NoEditStep(h: Hash, s: State, l: Label)
    requires NoEdits(s) && (l.NewCall? ==> l.sdk.GoOrTs?)
    ensures NoEdits(Apply(h, s, l))
  {
    hide ActionHash, Performed, ConsumeOn, AuthorizeOn;
  }

  /** With the Python wrapper there is no bound at all: any number of edited runs under one id. */
  lemma {:induction false} EditedRunsUnbounded(h: Hash, pinned: string, a: Action, edits: map<string, Value>,
                                               id: string, n: nat)
    returns (run: seq<Label>)
    requires ActionHash(h, a) != ""
    ensures OneSdk(run, W.Python) && forall c :: c in After(h, pinned, run).calls ==> c < n
    ensures |After(h, pinned, run).executions| == n
    ensures forall i :: 0 <= i < n ==>
                          && After(h, pinned, run).executions[i].call == i
                          && After(h, pinned, run).executions[i].path == W.ByEdit(id, edits)
    ensures After(h, pinned, run).books.consumed == {}
  {
    hide After, ActionHash;
    NothingYet(h, pinned);
    if n == 0 {
      run := [];
    } else {
      run := EditedRunsUnbounded(h, pinned, a, edits, id, n - 1);
      run := EditedRunAgain(h, pinned, run, a, edits, id, n - 1);
    }
  }

  lemma EditedRunAgain(h: Hash, pinned: string, before: seq<Label>, a: Action, edits: map<string, Value>, id: string,
                       c: nat)
    returns (run: seq<Label>)
    requires ActionHash(h, a) != "" && c !in After(h, pinned, before).calls
    ensures OneSdk(before, W.Python) ==> OneSdk(run, W.Python)
    ensures After(h, pinned, run).calls.Keys == After(h, pinned, before).calls.Keys + {c}
    ensures |After(h, pinned, run).executions| == |After(h, pinned, before).executions| + 1
    ensures After(h, pinned, before).executions <= After(h, pinned, run).executions
    ensures var e := After(h, pinned, run).executions[|After(h, pinned, before).executions|];
            e.call == c && e.path == W.ByEdit(id, edits)
    ensures After(h, pinned, run).books == After(h, pinned, before).books
  {
    hide After, ActionHash, Performed;
    var hash := ActionHash(h, a);
    var l1 := NewCall(c, W.Python, a, {});
    var l2 := Observe(c, W.Authorized(W.Decision("require_approval", Some(W.Approval(id, hash, false)), {})));
    var l3 := Observe(c, W.Polled(W.Status("EDITED", hash, false, Some(edits))));
    var l4 := Observe(c, W.RanTool);
    AfterPlus(h, pinned, before, l1);
    AfterPlus(h, pinned, before + [l1], l2);
    AfterPlus(h, pinned, before + [l1] + [l2], l3);
    AfterPlus(h, pinned, before + [l1] + [l2] + [l3], l4);
    run := before + [l1] + [l2] + [l3] + [l4];
  }

  // ---------------------------------------------------------------- what the demonstration gateway answers

  /** Label `m` is a consume of `id`, by whomever, that the gateway granted. */
  ghost predicate TakenAt(h: Hash, pinned: string, run: seq<Label>, m: nat, id: string) {
    && m < |run|
    && var s := After(h, pinned, run[..m]);
    || (run[m].AnyoneConsumes? && run[m].id == id && ConsumeOn(s.books, id, run[m].claim).1.Consumed?)
    || (&& run[m].GatewayConsume? && run[m].request.id == id && run[m].request in s.sent
        && ConsumeOn(s.books, id, Some(run[m].request.claim)).1.Consumed?)
  }

  lemma {:induction false} ConsumedIffTaken(h: Hash, pinned: string, run: seq<Label>, id: string)
    ensures id in After(h, pinned, run).books.consumed <==> exists m: nat :: TakenAt(h, pinned, run, m, id)
  {
    hide ActionHash, W.Next, AuthorizeOn, Performed;
    if run != [] {
      var n := |run| - 1;
      ConsumedIffTaken(h, pinned, run[..n], id);
      assert forall m: nat :: m < n ==> run[..n][..m] == run[..m];
      assert forall m: nat :: m < n ==> (TakenAt(h, pinned, run, m, id) <==> TakenAt(h, pinned, run[..n], m, id));
      assert TakenAt(h, pinned, run, n, id) ==> id in After(h, pinned, run).books.consumed;
      ConsumedGrows(h, After(h, pinned, run[..n]), run[n]);
      NewlyConsumed(h, pinned, run, id);
    }
  }

  lemma NewlyConsumed(h: Hash, pinned: string, run: seq<Label>, id: string)
    requires run != []
    ensures id in After(h, pinned, run).books.consumed && id !in After(h, pinned, run[..|run| - 1]).books.consumed
            ==> TakenAt(h, pinned, run, |run| - 1, id)
  {
    hide ActionHash, W.Next, Performed;
  }

  /**
    What the gateway does, told by the history alone: a consume is granted exactly
    if the id was authorized, was never granted before to anyone, and the claim, if
    there is one, is the hash of the last trusted authorize for it.
   */
  lemma ConsumeGrantedIff(h: Hash, pinned: string, run: seq<Label>, id: string, claim: Option<string>)
    ensures var answer, last := ConsumeOn(After(h, pinned, run).books, id, claim).1, LastAuthorized(run, id);
            && (answer.Consumed? <==>
                && last.Some? && BoundHash(h, pinned, last.value) != ""
                && (claim.Some? ==> claim.value == BoundHash(h, pinned, last.value))
                && !exists m: nat :: TakenAt(h, pinned, run, m, id))
            && (answer.Consumed? ==> answer.actionHash == BoundHash(h, pinned, last.value))
  {
    hide After, BoundHash, TakenAt;
    IssuedIsLastAuthorized(h, pinned, run, id);
    ConsumedIffTaken(h, pinned, run, id);
  }

  /** And a poll says approved, with the hash of the last trusted authorize, or no hash if there was none. */
  lemma StatusIsOfLastAuthorize(h: Hash, pinned: string, run: seq<Label>, id: string)
    ensures var last := LastAuthorized(run, id);
            StatusOn(After(h, pinned, run).books, id)
            == W.Status("APPROVED", if last.Some? then BoundHash(h, pinned, last.value) else "", false, None)
  {
    hide After, BoundHash;
    IssuedIsLastAuthorized(h, pinned, run, id);
  }

  /** The approval path is not a dead end: an authorized action can run, once, on its approval. */
  lemma ApprovedRunPossible(h: Hash, sdk: W.Sdk, a: Action) returns (run: seq<Label>)
    requires ActionHash(h, a) != "" && a.mutatesState
    ensures After(h, "", run).executions == [Execution(0, W.ByApproval(ApprovalId(a)), a)]
    ensures After(h, "", run).books.consumed == {ApprovalId(a)}
  {
    hide After, ActionHash, ApprovalId;
    var hash, id := ActionHash(h, a), ApprovalId(a);
    assert Frozen(a) == a;
    var asked := [] + [AnyoneAuthorizes(a, "trusted_internal_signed")] + [NewCall(0, sdk, a, {})];
    NothingYet(h, "");
    AfterPlus(h, "", [], AnyoneAuthorizes(a, "trusted_internal_signed"));
    AfterPlus(h, "", [] + [AnyoneAuthorizes(a, "trusted_internal_signed")], NewCall(0, sdk, a, {}));
    var l1 := Observe(0, W.Authorized(W.Decision("require_approval", Some(W.Approval(id, hash, false)), {})));
    var l2 := Observe(0, W.Polled(W.Status("APPROVED", hash, false, None)));
    AfterPlus(h, "", asked, l1);
    AfterPlus(h, "", asked + [l1], l2);
    run := ConsumeAndRun(h, asked + [l1] + [l2], 0, id);
  }

  lemma NothingYet(h: Hash, pinned: string)
    ensures After(h, pinned, []) == State(Books(pinned, map[], {}), map[], {}, {}, [])
  {
  }

  lemma ConsumeAndRun(h: Hash, before: seq<Label>, c: nat, id: string) returns (run: seq<Label>)
    requires var s := After(h, "", before);
             && c in s.calls && s.calls[c].phase == W.Consuming(id) && s.calls[c].attempt == 0
             && id in s.books.issued && s.books.issued[id] == Expected(h, s.calls[c]) != "" && id !in s.books.consumed
    ensures var s, t := After(h, "", before), After(h, "", run);
            && t.executions == s.executions + [Execution(c, W.ByApproval(id), s.calls[c].action)]
            && t.books.consumed == s.books.consumed + {id}
  {
    hide After, ActionHash;
    var hash := Expected(h, After(h, "", before).calls[c]);
    var request := Request(c, 1, id, hash);
    var l1, l2, l3, l4 :=
      SendConsume(c), GatewayConsume(request), DeliverReply(Reply(request, W.Consumed(hash))), Observe(c, W.RanTool);
    AfterPlus(h, "", before, l1);
    AfterPlus(h, "", before + [l1], l2);
    AfterPlus(h, "", before + [l1] + [l2], l3);
    AfterPlus(h, "", before + [l1] + [l2] + [l3], l4);
    run := before + [l1] + [l2] + [l3] + [l4];
  }
}
