/**
  The cores together: in every run of the whole system, the action that runs on
  an approval is the action that was reviewed, it runs once, and the record of
  it cannot be changed without changing the head of the receipt chain.
 */
module Capstone {
  import opened Options
  import opened Digests
  import opened Actions
  import opened Receipts
  import opened Verifiers
  import P = Protocol
  import S = ApprovalStore
  import R = Records
  import D = Deployment
  import H = HonestRuns

  /** Execution `i` of the run was one on an approval. */
  ghost predicate RanOnApproval(h: Hash, run: seq<D.Label>, i: nat) {
    i < |D.After(h, run).clients.executions| && D.After(h, run).clients.executions[i].path.ByApproval?
  }

  /** Whenever approval `id` was approved, the row bore the hash of `reviewed`. */
  ghost predicate Reviewed(h: Hash, ops: seq<S.Op>, id: string, reviewed: Action) {
    forall m, x :: S.ApprovedAt(ops, m, id, x) ==> x == ActionHash(h, reviewed)
  }

  /**
    Whatever the gateway answers, what ran on a consumed approval is, field by field,
    what was reviewed under it, and it was the only run that consumed it.
   */
  lemma RanIsReviewedOnce(h: Hash, run: seq<D.Label>, i: nat, reviewed: Action)
    requires RanOnApproval(h, run, i)
    requires var s := D.After(h, run); Reviewed(h, s.ops, s.clients.executions[i].path.id, reviewed)
    requires CollisionFreeOn(h, {ActionBytes(D.After(h, run).clients.executions[i].action), ActionBytes(reviewed)})
    ensures var executions := D.After(h, run).clients.executions;
            && executions[i].action == reviewed
            && forall j :: 0 <= j < |executions| && executions[j].path == executions[i].path ==> j == i
  {
    hide D.After, S.ApprovedAt, S.ConsumedAt, ActionBytes;
    var executions := D.After(h, run).clients.executions;
    var a := executions[i].action;
    var m, n := D.ApprovedRunWasApproved(h, run, i);
    SameHashSameAction(h, a, reviewed, {ActionBytes(a), ActionBytes(reviewed)});
    forall j | 0 <= j < |executions| && executions[j].path == executions[i].path
      ensures j == i
    {
      D.OneRunPerApproval(h, run, i, j);
    }
  }

  /** With the gateway's own answers, nothing else ran under that approval, on whatever path. */
  lemma RanIsReviewedAlone(h: Hash, run: seq<D.Label>, i: nat, reviewed: Action)
    requires H.Honest(h, run) && RanOnApproval(h, run, i)
    requires var s := D.After(h, run); Reviewed(h, s.ops, s.clients.executions[i].path.id, reviewed)
    requires CollisionFreeOn(h, {ActionBytes(D.After(h, run).clients.executions[i].action), ActionBytes(reviewed)})
    ensures var executions := D.After(h, run).clients.executions;
            && executions[i].action == reviewed
            && forall j :: 0 <= j < |executions| && P.SameApproval(executions[i], executions[j]) ==> j == i
  {
    hide D.After, H.Honest, ActionBytes, S.ApprovedAt;
    RanIsReviewedOnce(h, run, i, reviewed);
    H.SingleUse(h, run);
  }

  /**
    Whoever holds any verified records with the head of the gateway's chain holds a
    receipt of the decision to hold the call that ran, with the hash of what ran. It
    has been there since before the approval was created.
   */
  lemma AuditorSeesWhatRan(h: Hash, run: seq<D.Label>, i: nat, audited: seq<R.Record>) returns (k: nat)
    requires NonEmptyDigests(h) && H.Honest(h, run) && RanOnApproval(h, run, i)
    requires Linked(h, R.AsReceipts(audited), GENESIS)
    requires Head(R.AsReceipts(audited), GENESIS) == Head(R.AsReceipts(D.After(h, run).receipts), GENESIS)
    requires CollisionFreeOn(h, BodyTexts(R.AsReceipts(D.After(h, run).receipts)) + BodyTexts(R.AsReceipts(audited)))
    ensures R.SameHashed(D.After(h, run).receipts, audited)
    ensures k < |audited| && audited[k].columns.decision == "require_approval"
    ensures audited[k].columns.actionHash == Some(ActionHash(h, D.After(h, run).clients.executions[i].action))
  {
    hide Linked, Head, CollisionFreeOn, BodyTexts, ActionHash, D.After, S.InsertedAt, H.Honest, R.AsReceipts,
         NonEmptyDigests;
    var s := D.After(h, run);
    D.AlwaysLinked(h, run);
    R.HeadCommitsToColumns(h, s.receipts, audited);
    D.AlwaysHeldReal(h, run);
    var m := H.RanAsRecorded(h, run, i);
    k := s.held[s.clients.executions[i].path.id];
    assert D.HeldIs(s, s.clients.executions[i].path.id);
  }

  /** Without a collision, an action with the hash in that receipt is the action that ran. */
  lemma ReceiptTellsTheAction(h: Hash, run: seq<D.Label>, i: nat, audited: seq<R.Record>, claimed: Action)
    returns (k: nat)
    requires NonEmptyDigests(h) && H.Honest(h, run) && RanOnApproval(h, run, i)
    requires Linked(h, R.AsReceipts(audited), GENESIS)
    requires Head(R.AsReceipts(audited), GENESIS) == Head(R.AsReceipts(D.After(h, run).receipts), GENESIS)
    requires CollisionFreeOn(h, BodyTexts(R.AsReceipts(D.After(h, run).receipts)) + BodyTexts(R.AsReceipts(audited)))
    requires CollisionFreeOn(h, {ActionBytes(D.After(h, run).clients.executions[i].action), ActionBytes(claimed)})
    ensures k < |audited| && audited[k].columns.actionHash.Some?
    ensures audited[k].columns.actionHash.value == ActionHash(h, claimed)
       <==> D.After(h, run).clients.executions[i].action == claimed
  {
    hide Linked, Head, BodyTexts, D.After, H.Honest, R.AsReceipts, NonEmptyDigests, ActionBytes;
    k := AuditorSeesWhatRan(h, run, i, audited);
    var a := D.After(h, run).clients.executions[i].action;
    if ActionHash(h, a) == ActionHash(h, claimed) {
      SameHashSameAction(h, a, claimed, {ActionBytes(a), ActionBytes(claimed)});
    }
  }
}
