/**
  The tally behind a pull request's check run: how decisions and approval outcomes
  update it, and what it is as a function of the history of the pull request.
 */
module CheckRuns {

  const MAX_RISKY_ACTIONS: nat := 20

  /** A decision as recorded, and as kept in the list of risky actions. */
  datatype Info = Info(tool: string, action: string, decision: string, reason: string, riskScore: int)

  datatype Bucket = Allowed | Pending | Denied

  function TallyBucket(decision: string): Bucket {
    if decision == "allow" || decision == "redact" then Allowed
    else if decision == "require_approval" then Pending
    else Denied
  }

  datatype Conclusion = Success | ActionRequired | Failure

  function ComputeConclusion(denied: nat, pending: nat): Conclusion {
    if denied > 0 then Failure else if pending > 0 then ActionRequired else Success
  }

  datatype Tally = Tally(allowed: nat, denied: nat, pending: nat, risky: seq<Info>) {
    function Conclusion(): Conclusion {
      ComputeConclusion(denied, pending)
    }
  }

  const EMPTY := Tally(0, 0, 0, [])

  // ---------------------------------------------------------------- the two locked updates

  function OnDecision(t: Tally, info: Info): Tally {
    var bucket := TallyBucket(info.decision);
    var risky := if bucket != Allowed && |t.risky| < MAX_RISKY_ACTIONS then t.risky + [info] else t.risky;
    match bucket
    case Allowed => t.(allowed := t.allowed + 1, risky := risky)
    case Pending => t.(pending := t.pending + 1, risky := risky)
    case Denied => t.(denied := t.denied + 1, risky := risky)
  }

  function Label(approved: bool): string {
    if approved then "approved" else "rejected"
  }

  /** The oldest entry still awaiting approval gets the outcome as its decision. */
  function MarkOldest(risky: seq<Info>, outcome: string): seq<Info> {
    if risky == [] then []
    else if risky[0].decision == "require_approval" then [risky[0].(decision := outcome)] + risky[1..]
    else [risky[0]] + MarkOldest(risky[1..], outcome)
  }

  /** Marking the oldest entry still awaiting a decision changes that entry alone. */
  lemma {:induction false} MarkedAt(risky: seq<Info>, outcome: string, i: nat)
    requires i <= |risky| && forall j :: 0 <= j < i ==> risky[j].decision != "require_approval"
    requires i < |risky| ==> risky[i].decision == "require_approval"
    ensures MarkOldest(risky, outcome) == if i < |risky| then risky[i := risky[i].(decision := outcome)] else risky
  {
    if i > 0 { MarkedAt(risky[1..], outcome, i - 1); }
  }

  function OnResolution(t: Tally, approved: bool): Tally {
    if t.pending == 0 then t
    else
      var risky := MarkOldest(t.risky, Label(approved));
      if approved then t.(pending := t.pending - 1, allowed := t.allowed + 1, risky := risky)
      else t.(pending := t.pending - 1, denied := t.denied + 1, risky := risky)
  }

  // ---------------------------------------------------------------- the history of one pull request

  datatype Op = Decided(info: Info) | Resolved(approved: bool)

  function Fold(h: seq<Op>): Tally {
    if h == [] then EMPTY
    else
      var before, last := Fold(h[..|h| - 1]), h[|h| - 1];
      match last
      case Decided(info) => OnDecision(before, info)
      case Resolved(approved) => OnResolution(before, approved)
  }

  /** The decisions a bucket stands for; a redacted call is an allowed one, and an unknown decision a denial. */
  predicate CountsAs(decision: string, b: Bucket) {
    match b
    case Allowed => decision in {"allow", "redact"}
    case Pending => decision == "require_approval"
    case Denied => decision !in {"allow", "redact", "require_approval"}
  }

  /** The decisions of the history that were not allowed outright, oldest first. */
  function Risky(h: seq<Op>): seq<Info> {
    if h == [] then []
    else
      var before, last := Risky(h[..|h| - 1]), h[|h| - 1];
      if last.Decided? && !CountsAs(last.info.decision, Allowed) then before + [last.info] else before
  }

  /** How many decisions of the history fell into a bucket. */
  function Count(h: seq<Op>, b: Bucket): nat {
    if h == [] then 0
    else
      var last := h[|h| - 1];
      Count(h[..|h| - 1], b) + if last.Decided? && CountsAs(last.info.decision, b) then 1 else 0
  }

  /** The outcomes that took effect: a resolution counts while some decision awaits one. */
  function Effective(h: seq<Op>): (r: seq<bool>)
    ensures |r| <= Count(h, Pending)
  {
    if h == [] then []
    else
      var before, last := Effective(h[..|h| - 1]), h[|h| - 1];
      if last.Resolved? && |before| < Count(h[..|h| - 1], Pending) then before + [last.approved] else before
  }

  function CountOf(outcomes: seq<bool>, b: bool): (n: nat)
    ensures n <= |outcomes|
  {
    if outcomes == [] then 0
    else CountOf(outcomes[..|outcomes| - 1], b) + if outcomes[|outcomes| - 1] == b then 1 else 0
  }

  /** The entries with the k-th one awaiting approval carrying the k-th outcome. */
  function Relabel(entries: seq<Info>, outcomes: seq<bool>): seq<Info> {
    if entries == [] || outcomes == [] then entries
    else if entries[0].decision == "require_approval" then
      [entries[0].(decision := if outcomes[0] then "approved" else "rejected")] + Relabel(entries[1..], outcomes[1..])
    else [entries[0]] + Relabel(entries[1..], outcomes)
  }

  function First(entries: seq<Info>, n: nat): seq<Info> {
    if |entries| <= n then entries else entries[..n]
  }

  /** The tally as the history alone determines it. */
  function TallyOf(h: seq<Op>): Tally {
    Tally(
      Count(h, Allowed) + CountOf(Effective(h), true),
      Count(h, Denied) + CountOf(Effective(h), false),
      Count(h, Pending) - |Effective(h)|,
      Relabel(First(Risky(h), MAX_RISKY_ACTIONS), Effective(h)))
  }

  // ---------------------------------------------------------------- relabelling

  function Awaiting(entries: seq<Info>): nat {
    if entries == [] then 0
    else Awaiting(entries[1..]) + if entries[0].decision == "require_approval" then 1 else 0
  }

  lemma {:induction false} AwaitingPlus(entries: seq<Info>, x: Info)
    ensures Awaiting(entries + [x]) == Awaiting(entries) + if x.decision == "require_approval" then 1 else 0
  {
    if entries == [] {
      assert entries + [x] == [x];
    } else {
      assert (entries + [x])[1..] == entries[1..] + [x];
      AwaitingPlus(entries[1..], x);
    }
  }

  /** One more outcome labels the oldest entry that has none, if there is one. */
  lemma {:induction false} RelabelOneMore(entries: seq<Info>, outcomes: seq<bool>, b: bool)
    ensures MarkOldest(Relabel(entries, outcomes), Label(b)) == Relabel(entries, outcomes + [b])
  {
    if entries != [] {
      if outcomes == [] {
        MarkIsRelabel(entries, b);
        assert outcomes + [b] == [b];
      } else if entries[0].decision == "require_approval" {
        assert (outcomes + [b])[1..] == outcomes[1..] + [b];
        RelabelOneMore(entries[1..], outcomes[1..], b);
      } else {
        RelabelOneMore(entries[1..], outcomes, b);
      }
    }
  }

  lemma {:induction false} MarkIsRelabel(entries: seq<Info>, b: bool)
    ensures MarkOldest(entries, Label(b)) == Relabel(entries, [b])
  {
    if entries != [] {
      if entries[0].decision == "require_approval" {
        assert [b][1..] == [];
      } else {
        MarkIsRelabel(entries[1..], b);
      }
    }
  }

  /** A new entry stays unlabelled while the outcomes are used up by older ones. */
  lemma {:induction false} RelabelNewEntry(entries: seq<Info>, outcomes: seq<bool>, x: Info)
    requires |outcomes| <= Awaiting(entries)
    ensures Relabel(entries + [x], outcomes) == Relabel(entries, outcomes) + [x]
  {
    if outcomes != [] {
      assert (entries + [x])[1..] == entries[1..] + [x];
      if entries[0].decision == "require_approval" {
        RelabelNewEntry(entries[1..], outcomes[1..], x);
      } else {
        RelabelNewEntry(entries[1..], outcomes, x);
      }
    }
  }

  lemma {:induction false} RelabelLength(entries: seq<Info>, outcomes: seq<bool>)
    ensures |Relabel(entries, outcomes)| == |entries|
  {
    if entries != [] && outcomes != [] {
      RelabelLength(entries[1..], outcomes[1..]);
      RelabelLength(entries[1..], outcomes);
    }
  }

  /** Entry `i` is relabelled exactly if it awaits approval and an outcome is left for it, and with that outcome. */
  lemma {:induction false} RelabelAt(entries: seq<Info>, outcomes: seq<bool>, i: nat)
    requires i < |entries|
    ensures |Relabel(entries, outcomes)| == |entries|
    ensures var older := Awaiting(entries[..i]);
            Relabel(entries, outcomes)[i] ==
            if entries[i].decision == "require_approval" && older < |outcomes|
            then entries[i].(decision := if outcomes[older] then "approved" else "rejected") else entries[i]
  {
    RelabelLength(entries, outcomes);
    if outcomes != [] && i > 0 {
      assert entries[..i][1..] == entries[1..][..i - 1];
      if entries[0].decision == "require_approval" {
        RelabelAt(entries[1..], outcomes[1..], i - 1);
      } else {
        RelabelAt(entries[1..], outcomes, i - 1);
      }
    }
  }

  /** While the list is not full, it holds every decision that awaits approval. */
  lemma {:induction false} AllAwaitingKept(h: seq<Op>)
    ensures Awaiting(Risky(h)) == Count(h, Pending)
  {
    if h != [] {
      var last := h[|h| - 1];
      AllAwaitingKept(h[..|h| - 1]);
      if last.Decided? { AwaitingPlus(Risky(h[..|h| - 1]), last.info); }
    }
  }

  // ---------------------------------------------------------------- the main theorem

  /** The locked updates, in whatever order they came, leave exactly the tally of the history. */
  lemma {:induction false} FoldIsTallyOf(h: seq<Op>)
    ensures Fold(h) == TallyOf(h)
  {
    if h != [] {
      var before, last := h[..|h| - 1], h[|h| - 1];
      FoldIsTallyOf(before);
      match last
      case Decided(info) => DecisionStep(h, before, info);
      case Resolved(approved) => ResolutionStep(h, before, approved);
    }
  }

  lemma DecisionStep(h: seq<Op>, before: seq<Op>, info: Info)
    requires h != [] && before == h[..|h| - 1] && h[|h| - 1] == Decided(info)
    ensures OnDecision(TallyOf(before), info) == TallyOf(h)
  {
    hide Awaiting, Relabel, CountOf;
    var entries, outcomes := Risky(before), Effective(before);
    assert Effective(h) == outcomes;
    assert |entries| >= MAX_RISKY_ACTIONS ==> First(Risky(h), MAX_RISKY_ACTIONS) == First(entries, MAX_RISKY_ACTIONS);
    RelabelLength(First(entries, MAX_RISKY_ACTIONS), outcomes);
    if TallyBucket(info.decision) != Allowed && |entries| < MAX_RISKY_ACTIONS {
      AllAwaitingKept(before);
      RelabelNewEntry(entries, outcomes, info);
    }
  }

  lemma ResolutionStep(h: seq<Op>, before: seq<Op>, approved: bool)
    requires h != [] && before == h[..|h| - 1] && h[|h| - 1] == Resolved(approved)
    ensures OnResolution(TallyOf(before), approved) == TallyOf(h)
  {
    hide Awaiting, Relabel, MarkOldest;
    var outcomes := Effective(before);
    if |outcomes| < Count(before, Pending) {
      assert Effective(h) == outcomes + [approved];
      assert (outcomes + [approved])[..|outcomes|] == outcomes;
      RelabelOneMore(First(Risky(before), MAX_RISKY_ACTIONS), outcomes, approved);
    }
  }

  // ---------------------------------------------------------------- what follows from it

  /** Every decision is counted once, and the list keeps the first twenty that were not allowed. */
  lemma TallyConserves(h: seq<Op>)
    ensures var t := Fold(h);
            && t.allowed + t.denied + t.pending == Count(h, Allowed) + Count(h, Denied) + Count(h, Pending)
            && |t.risky| == if |Risky(h)| < MAX_RISKY_ACTIONS then |Risky(h)| else MAX_RISKY_ACTIONS
  {
    FoldIsTallyOf(h);
    RelabelLength(First(Risky(h), MAX_RISKY_ACTIONS), Effective(h));
    TrueAndFalse(Effective(h));
  }

  lemma {:induction false} TrueAndFalse(outcomes: seq<bool>)
    ensures CountOf(outcomes, true) + CountOf(outcomes, false) == |outcomes|
  {
    if outcomes != [] { TrueAndFalse(outcomes[..|outcomes| - 1]); }
  }

  /** The check fails exactly when something was denied or some approval was refused. */
  lemma ConclusionOfHistory(h: seq<Op>)
    ensures Fold(h).Conclusion() ==
            if Count(h, Denied) > 0 || false in Effective(h) then Failure
            else if |Effective(h)| < Count(h, Pending) then ActionRequired
            else Success
  {
    FoldIsTallyOf(h);
    RefusalsCounted(Effective(h));
  }

  lemma {:induction false} RefusalsCounted(outcomes: seq<bool>)
    ensures CountOf(outcomes, false) > 0 <==> false in outcomes
  {
    if outcomes != [] {
      var n := |outcomes| - 1;
      RefusalsCounted(outcomes[..n]);
      assert outcomes == outcomes[..n] + [outcomes[n]];
    }
  }

  /** A failed check never passes again. */
  lemma {:induction false} FailureAbsorbs(h: seq<Op>, more: seq<Op>)
    requires Fold(h).Conclusion() == Failure
    ensures Fold(h + more).Conclusion() == Failure
  {
    if more == [] {
      assert h + more == h;
    } else {
      var n := |more| - 1;
      FailureAbsorbs(h, more[..n]);
      assert (h + more)[..|h| + n] == h + more[..n];
    }
  }

  /**
    The stored list, entry by entry: the i-th decision that was not allowed, with the
    outcome of its approval exactly if it asked for one and fewer decisions before it
    did than there are effective outcomes.
   */
  lemma StoredEntry(h: seq<Op>, i: nat)
    requires i < |Risky(h)| && i < MAX_RISKY_ACTIONS
    ensures i < |Fold(h).risky|
    ensures var older := Awaiting(Risky(h)[..i]);
            Fold(h).risky[i] ==
            if Risky(h)[i].decision == "require_approval" && older < |Effective(h)|
            then Risky(h)[i].(decision := if Effective(h)[older] then "approved" else "rejected") else Risky(h)[i]
  {
    hide Relabel, Awaiting;
    FoldIsTallyOf(h);
    var entries := First(Risky(h), MAX_RISKY_ACTIONS);
    assert entries[..i] == Risky(h)[..i];
    RelabelAt(entries, Effective(h), i);
  }

  ghost predicate StaysTrue(c: Conclusion) {
    forall h, more :: Fold(h).Conclusion() == c ==> Fold(h + more).Conclusion() == c
  }

  /** Failure is the one conclusion that no later decision or resolution can make untrue. */
  lemma OnlyFailureStays(c: Conclusion)
    ensures StaysTrue(c) <==> c == Failure
  {
    hide Fold;
    match c
    case Failure =>
      forall h, more | Fold(h).Conclusion() == Failure
        ensures Fold(h + more).Conclusion() == Failure
      {
        FailureAbsorbs(h, more);
      }
    case Success => SuccessEnds();
    case ActionRequired => RequirementEnds();
  }

  lemma SuccessEnds()
    ensures !StaysTrue(Success)
  {
    var deny := [Decided(Info("", "", "deny", "", 0))];
    assert [] + deny == deny && deny[..0] == [];
    assert Fold(deny) == OnDecision(EMPTY, deny[0].info);
    hide Fold, OnDecision;
    assert Fold([]).Conclusion() == Success && Fold([] + deny).Conclusion() == Failure;
  }

  lemma RequirementEnds()
    ensures !StaysTrue(ActionRequired)
  {
    var ask, answer := [Decided(Info("", "", "require_approval", "", 0))], [Resolved(true)];
    FoldOfTwo(ask[0].info);
    hide Fold;
    assert Fold(ask).Conclusion() == ActionRequired && Fold(ask + answer).Conclusion() == Success;
  }

  lemma FoldOfTwo(info: Info)
    requires info.decision == "require_approval"
    ensures Fold([Decided(info)]).Conclusion() == ActionRequired
    ensures Fold([Decided(info)] + [Resolved(true)]).Conclusion() == Success
  {
    hide MarkOldest;
    var ask := [Decided(info)];
    assert ask[..0] == [] && (ask + [Resolved(true)])[..1] == ask;
    assert Fold(ask) == OnDecision(EMPTY, info);
    assert Fold(ask + [Resolved(true)]) == OnResolution(Fold(ask), true);
  }
}
