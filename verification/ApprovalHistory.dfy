/**
  When an operation on the approvals table takes effect, told by the operations of
  the run alone: which came, in which order, with which times and hashes.
 */
module ApprovalHistory {
  import opened Options
  import opened ApprovalStore

  /** Operation `m` is the insert of `id`: there is none before it. */
  ghost predicate InsertOf(run: seq<Op>, m: nat, id: string) {
    && m < |run| && run[m].Insert? && run[m].id == id
    && forall j :: 0 <= j < m && run[j].Insert? ==> run[j].id != id
  }

  /** The row inserted by `m` has not been removed before operation `n`. */
  ghost predicate Kept(run: seq<Op>, m: nat, n: nat, id: string) {
    && InsertOf(run, m, id) && m < n <= |run|
    && forall r :: m < r < n && run[r].Remove? ==> id !in run[r].ids
  }

  /** The row inserted by `m` was given no expiry, or a later one than `now`. */
  ghost predicate Unexpired(run: seq<Op>, m: nat, now: int) {
    m < |run| && run[m].Insert? && match run[m].expires case None => true case Some(at) => at > now
  }

  /** Operation `d` decides on `id` before its expiry. */
  ghost predicate TimelyDecision(run: seq<Op>, m: nat, d: nat, id: string) {
    d < |run| && run[d].Decide? && run[d].id == id && Unexpired(run, m, run[d].now)
  }

  ghost predicate Undecided(run: seq<Op>, m: nat, n: nat, id: string) {
    forall d :: m < d < n ==> !TimelyDecision(run, m, d, id)
  }

  /** Operation `d` is the first timely decision, and it approves. */
  ghost predicate Approval(run: seq<Op>, m: nat, d: nat, id: string) {
    m < d && TimelyDecision(run, m, d, id) && Undecided(run, m, d, id) && run[d].approve
  }

  /** The hash shown to an approver just before operation `n`: of the last timely edit, or else as inserted. */
  ghost function Shown(run: seq<Op>, m: nat, n: nat, id: string): string
    requires m < n <= |run| && run[m].Insert?
    decreases n
  {
    if n == m + 1 then run[m].hash
    else if run[n - 1].Edit? && run[n - 1].id == id && Unexpired(run, m, run[n - 1].now) then run[n - 1].newHash
    else Shown(run, m, n - 1, id)
  }

  /** Operation `c` asks for the approved use in time, claiming nothing or the approved hash. */
  ghost predicate TimelyClaim(run: seq<Op>, m: nat, d: nat, c: nat, id: string) {
    && m < d < |run| && c < |run| && run[c].Consume? && run[c].id == id && Unexpired(run, m, run[c].now)
    && (run[c].claim.Some? ==> run[c].claim.value == Shown(run, m, d, id))
  }

  ghost predicate Unclaimed(run: seq<Op>, m: nat, d: nat, n: nat, id: string) {
    forall c :: d < c < n ==> !TimelyClaim(run, m, d, c, id)
  }

  // ---------------------------------------------------------------- the rows, told by the run

  /** An id is used once an insert of it came. */
  lemma {:induction false} UsedTold(run: seq<Op>, n: nat, id: string)
    requires n <= |run|
    ensures id in After(run[..n]).used <==> exists j :: 0 <= j < n && run[j].Insert? && run[j].id == id
  {
    if n > 0 {
      UsedTold(run, n - 1, id);
      AfterStep(run, n - 1);
    }
  }

  /** What the row inserted by `m` is just before operation `n`. */
  ghost predicate RowTold(run: seq<Op>, m: nat, n: nat, id: string, row: Row)
    requires m < n <= |run| && run[m].Insert?
  {
    && row.expires == run[m].expires
    && match row.status
       case Created => Undecided(run, m, n, id) && row.Hash() == Shown(run, m, n, id) && !row.consumed
       case Approved => exists d :: m < d < n && ApprovedRow(run, m, d, n, id, row)
       case Rejected =>
         exists d :: m < d < n && TimelyDecision(run, m, d, id) && Undecided(run, m, d, id) && !run[d].approve
  }

  ghost predicate ApprovedRow(run: seq<Op>, m: nat, d: nat, n: nat, id: string, row: Row)
    requires m < d < n <= |run| && run[m].Insert?
  {
    && Approval(run, m, d, id) && row.Hash() == Shown(run, m, d, id)
    && (row.consumed <==> !Unclaimed(run, m, d, n, id))
  }

  lemma {:induction false} KeptRow(run: seq<Op>, m: nat, n: nat, id: string)
    requires Kept(run, m, n, id)
    ensures id in After(run[..n]).rows && RowTold(run, m, n, id, After(run[..n]).rows[id])
    decreases n
  {
    AfterStep(run, n - 1);
    if n == m + 1 {
      UsedTold(run, m, id);
    } else {
      KeptRow(run, m, n - 1, id);
      AlwaysUsed(run[..n - 1]);
      RowStep(run, m, n - 1, id, After(run[..n - 1]));
    }
  }

  /** One more operation. */
  lemma RowStep(run: seq<Op>, m: nat, n: nat, id: string, t: Table)
    requires m < n < |run| && Kept(run, m, n + 1, id) && id in t.rows && RowsUsed(t)
    requires RowTold(run, m, n, id, t.rows[id])
    ensures id in Apply(t, run[n]).rows && RowTold(run, m, n + 1, id, Apply(t, run[n]).rows[id])
  {
    hide Shown, Undecided, Unclaimed, Unexpired;
    var row := t.rows[id];
    LiveAt(run, m, n, row);
    match row.status
    case Created => CreatedStep(run, m, n, id, t);
    case Approved =>
      var d :| m < d < n && ApprovedRow(run, m, d, n, id, row);
      UnclaimedStep(run, m, d, n, id);
      assert ApprovedRow(run, m, d, n + 1, id, Apply(t, run[n]).rows[id]);
    case Rejected =>
  }

  lemma CreatedStep(run: seq<Op>, m: nat, n: nat, id: string, t: Table)
    requires m < n < |run| && Kept(run, m, n + 1, id) && id in t.rows && RowsUsed(t)
    requires RowTold(run, m, n, id, t.rows[id]) && t.rows[id].status == Created
    ensures id in Apply(t, run[n]).rows && RowTold(run, m, n + 1, id, Apply(t, run[n]).rows[id])
  {
    hide Undecided, Unclaimed, Unexpired;
    LiveAt(run, m, n, t.rows[id]);
    UndecidedStep(run, m, n, id);
    UnclaimedStep(run, m, n, n, id);
    var row := Apply(t, run[n]).rows[id];
    if row.status == Approved { assert ApprovedRow(run, m, n, n + 1, id, row); }
  }

  lemma UndecidedStep(run: seq<Op>, m: nat, n: nat, id: string)
    requires m < n
    ensures Undecided(run, m, n + 1, id) <==> Undecided(run, m, n, id) && !TimelyDecision(run, m, n, id)
  {
  }

  lemma UnclaimedStep(run: seq<Op>, m: nat, d: nat, n: nat, id: string)
    ensures d < n ==>
            (Unclaimed(run, m, d, n + 1, id) <==> Unclaimed(run, m, d, n, id) && !TimelyClaim(run, m, d, n, id))
    ensures d == n ==> Unclaimed(run, m, d, n + 1, id)
  {
  }

  /** Whether the row has expired by the time operation `n` carries. */
  lemma LiveAt(run: seq<Op>, m: nat, n: nat, row: Row)
    requires m < n < |run| && run[m].Insert? && row.expires == run[m].expires
    ensures run[n].Edit? || run[n].Decide? || run[n].Consume? ==>
            (row.Live(run[n].now) <==> Unexpired(run, m, run[n].now))
  {
  }

  /** Every row was inserted, and not removed since. */
  lemma {:induction false} RowWasKept(run: seq<Op>, n: nat, id: string) returns (m: nat)
    requires n <= |run| && id in After(run[..n]).rows
    ensures Kept(run, m, n, id)
  {
    AfterStep(run, n - 1);
    if id in After(run[..n - 1]).rows {
      m := RowWasKept(run, n - 1, id);
    } else {
      m := n - 1;
      UsedTold(run, m, id);
    }
  }

  lemma RowIffKept(run: seq<Op>, n: nat, id: string)
    requires n <= |run|
    ensures id in After(run[..n]).rows <==> exists m :: Kept(run, m, n, id)
  {
    if id in After(run[..n]).rows {
      var m := RowWasKept(run, n, id);
    }
    if m :| Kept(run, m, n, id) { KeptRow(run, m, n, id); }
  }

  lemma InsertUnique(run: seq<Op>, m: nat, k: nat, id: string)
    requires InsertOf(run, m, id) && InsertOf(run, k, id)
    ensures m == k
  {
  }

  // ---------------------------------------------------------------- when an operation takes effect

  /** The row is there, nobody has decided on it and it has not expired. */
  ghost predicate Pending(run: seq<Op>, m: nat, n: nat, id: string, now: int) {
    Kept(run, m, n, id) && Undecided(run, m, n, id) && Unexpired(run, m, now)
  }

  /** The row is there, was approved, has not expired and is not used up; the claim, if any, is the approved hash. */
  ghost predicate Usable(run: seq<Op>, m: nat, d: nat, n: nat, id: string, claim: Option<string>, now: int) {
    && Kept(run, m, n, id) && d < n && Approval(run, m, d, id) && Unexpired(run, m, now)
    && (claim.Some? ==> claim.value == Shown(run, m, d, id))
    && Unclaimed(run, m, d, n, id)
  }

  /** An insert takes effect exactly when it is the first of its id. */
  lemma InsertSucceedsIff(run: seq<Op>, n: nat)
    requires n < |run| && run[n].Insert?
    ensures Succeeds(After(run[..n]), run[n]) <==> InsertOf(run, n, run[n].id)
  {
    UsedTold(run, n, run[n].id);
  }

  /** A decision, or an edit, takes effect exactly when the row is pending. */
  lemma DecideSucceedsIff(run: seq<Op>, n: nat)
    requires n < |run| && (run[n].Decide? || run[n].Edit?)
    ensures Succeeds(After(run[..n]), run[n]) <==> exists m :: Pending(run, m, n, run[n].id, run[n].now)
  {
    hide Undecided;
    var id, t := run[n].id, After(run[..n]);
    RowIffKept(run, n, id);
    if id in t.rows {
      var m := RowWasKept(run, n, id);
      KeptRow(run, m, n, id);
      CreatedIff(run, m, n, id, t.rows[id]);
      forall k | Pending(run, k, n, id, run[n].now)
        ensures k == m
      {
        InsertUnique(run, m, k, id);
      }
      assert Succeeds(t, run[n]) <==> Pending(run, m, n, id, run[n].now);
    }
  }

  lemma CreatedIff(run: seq<Op>, m: nat, n: nat, id: string, row: Row)
    requires Kept(run, m, n, id) && RowTold(run, m, n, id, row)
    ensures row.status == Created <==> Undecided(run, m, n, id)
  {
  }

  /**
    A consume takes effect exactly when its id was inserted and not removed since, the
    first timely decision approved it, the claim, if any, is the hash approved, the
    expiry given at the insert is absent or still to come, and no earlier consume since
    the approval met all this.
   */
  lemma ConsumeSucceedsIff(run: seq<Op>, n: nat)
    requires n < |run| && run[n].Consume?
    ensures Succeeds(After(run[..n]), run[n]) <==>
            exists m, d :: Usable(run, m, d, n, run[n].id, run[n].claim, run[n].now)
  {
    hide Undecided, Shown, Unclaimed, Unexpired;
    var id, t := run[n].id, After(run[..n]);
    RowIffKept(run, n, id);
    if id in t.rows {
      var m := RowWasKept(run, n, id);
      KeptRow(run, m, n, id);
      forall k, d | Usable(run, k, d, n, id, run[n].claim, run[n].now)
        ensures Succeeds(t, run[n])
      {
        InsertUnique(run, m, k, id);
        ApprovedRowOf(run, m, d, n, id, t.rows[id]);
        LiveIff(run, m, t.rows[id], run[n].now);
      }
      if Succeeds(t, run[n]) {
        var d :| m < d < n && ApprovedRow(run, m, d, n, id, t.rows[id]);
        LiveIff(run, m, t.rows[id], run[n].now);
        assert Usable(run, m, d, n, id, run[n].claim, run[n].now);
      }
    }
  }

  lemma LiveIff(run: seq<Op>, m: nat, row: Row, now: int)
    requires m < |run| && run[m].Insert? && row.expires == run[m].expires
    ensures row.Live(now) <==> Unexpired(run, m, now)
  {
  }

  /** The first timely decision is one operation, and the row is as it left it. */
  lemma ApprovedRowOf(run: seq<Op>, m: nat, d: nat, n: nat, id: string, row: Row)
    requires Kept(run, m, n, id) && RowTold(run, m, n, id, row) && d < n && Approval(run, m, d, id)
    ensures row.status == Approved && ApprovedRow(run, m, d, n, id, row)
  {
    hide Unexpired;
    match row.status
    case Created =>
    case Approved =>
      var e :| m < e < n && ApprovedRow(run, m, e, n, id, row);
      assert e == d;
    case Rejected =>
  }
}
