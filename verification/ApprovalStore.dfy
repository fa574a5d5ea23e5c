/**
  The approvals table behind the real gateway. Every change is one conditional
  UPDATE, so any interleaving of requests is a sequence of these operations; a
  request that comes too late changes no row.
 */
module ApprovalStore {
  import opened Options

  datatype Status = Created | Approved | Rejected

  /** A row: `effective` is the hash of the edited call, if the approver edited it. */
  datatype Row = Row(
    status: Status,
    original: string,
    effective: Option<string>,
    expires: Option<int>,
    consumed: bool)
  {
    /** COALESCE(effective_call_hash, original_call_hash). */
    function Hash(): string {
      if effective.Some? then effective.value else original
    }

    predicate Live(now: int) {
      expires.None? || expires.value > now
    }
  }

  /** The rows, and the ids ever used: a fresh approval gets a fresh id. */
  datatype Table = Table(rows: map<string, Row>, used: set<string>)

  /** Rows are removed by the clean-up of old ones and with their tenant. */
  datatype Op =
    | Insert(id: string, hash: string, expires: Option<int>)
    | Edit(id: string, newHash: string, now: int)
    | Decide(id: string, approve: bool, now: int)
    | Consume(id: string, claim: Option<string>, now: int)
    | Remove(ids: set<string>)

  /** The condition of the operation: exactly one row is affected. */
  predicate Succeeds(t: Table, op: Op) {
    match op
    case Insert(id, _, _) => id !in t.used
    case Edit(id, _, now) => id in t.rows && t.rows[id].status == Created && t.rows[id].Live(now)
    case Decide(id, _, now) => id in t.rows && t.rows[id].status == Created && t.rows[id].Live(now)
    case Consume(id, claim, now) =>
      && id in t.rows && t.rows[id].status == Approved && !t.rows[id].consumed && t.rows[id].Live(now)
      && (claim.Some? ==> claim.value == t.rows[id].Hash())
    case Remove(_) => true
  }

  function Apply(t: Table, op: Op): Table {
    if !Succeeds(t, op) then t
    else match op
      case Insert(id, hash, expires) =>
        Table(t.rows[id := Row(Created, hash, None, expires, false)], t.used + {id})
      case Edit(id, newHash, _) => t.(rows := t.rows[id := t.rows[id].(effective := Some(newHash))])
      case Decide(id, approve, _) =>
        t.(rows := t.rows[id := t.rows[id].(status := if approve then Approved else Rejected)])
      case Consume(id, _, _) => t.(rows := t.rows[id := t.rows[id].(consumed := true)])
      case Remove(ids) => t.(rows := map id | id in t.rows && id !in ids :: t.rows[id])
  }

  function After(run: seq<Op>): Table {
    if run == [] then Table(map[], {}) else Apply(After(run[..|run| - 1]), run[|run| - 1])
  }

  lemma AfterStep(run: seq<Op>, n: nat)
    requires n < |run|
    ensures After(run[..n + 1]) == Apply(After(run[..n]), run[n])
  {
    assert run[..n + 1][..n] == run[..n];
  }

  // ---------------------------------------------------------------- approved rows do not change

  ghost predicate RowsUsed(t: Table) {
    forall id :: id in t.rows ==> id in t.used
  }

  lemma {:induction false} AlwaysUsed(run: seq<Op>)
    ensures RowsUsed(After(run))
  {
    if run != [] { AlwaysUsed(run[..|run| - 1]); }
  }

  /** What later operations can do to an approved row: consume it or remove it for good. */
  ghost predicate Settled(t: Table, id: string, row: Row) {
    && id in t.used
    && (id in t.rows ==> && t.rows[id].status == Approved && t.rows[id].Hash() == row.Hash()
                         && (row.consumed ==> t.rows[id].consumed))
  }

  lemma {:induction false} ApprovedIsSettled(run: seq<Op>, m: nat, n: nat, id: string)
    requires m <= n <= |run|
    requires id in After(run[..m]).rows && After(run[..m]).rows[id].status == Approved
    ensures Settled(After(run[..n]), id, After(run[..m]).rows[id])
    decreases n
  {
    if m == n {
      AlwaysUsed(run[..m]);
    } else {
      ApprovedIsSettled(run, m, n - 1, id);
      AfterStep(run, n - 1);
    }
  }

  /** The approver's approval took effect at operation `m`, on a row bearing `hash`. */
  ghost predicate ApprovedAt(run: seq<Op>, m: nat, id: string, hash: string) {
    && m < |run| && run[m].Decide? && run[m].id == id && run[m].approve
    && Succeeds(After(run[..m]), run[m]) && After(run[..m]).rows[id].Hash() == hash
  }

  ghost predicate ConsumedAt(run: seq<Op>, n: nat, id: string) {
    n < |run| && run[n].Consume? && run[n].id == id && Succeeds(After(run[..n]), run[n])
  }

  /** An approved row was approved, by an approver who saw the hash it bears. */
  lemma {:induction false} ApprovedWasDecided(run: seq<Op>, n: nat, id: string) returns (m: nat)
    requires n <= |run| && id in After(run[..n]).rows && After(run[..n]).rows[id].status == Approved
    ensures m < n && ApprovedAt(run, m, id, After(run[..n]).rows[id].Hash())
  {
    AfterStep(run, n - 1);
    var before := After(run[..n - 1]);
    if id in before.rows && before.rows[id].status == Approved {
      m := ApprovedWasDecided(run, n - 1, id);
    } else {
      m := n - 1;
    }
  }

  // ---------------------------------------------------------------- the guarantees of the table

  /** An approval is consumed at most once, over all requests and whatever is cleaned up. */
  lemma ConsumedOnce(run: seq<Op>, m: nat, n: nat, id: string)
    requires ConsumedAt(run, m, id) && ConsumedAt(run, n, id)
    ensures m == n
  {
    if m < n { ConsumedBlocksLater(run, m, n, id); }
    if n < m { ConsumedBlocksLater(run, n, m, id); }
  }

  lemma ConsumedBlocksLater(run: seq<Op>, m: nat, n: nat, id: string)
    requires ConsumedAt(run, m, id) && m < n <= |run|
    ensures id in After(run[..n]).rows ==> After(run[..n]).rows[id].consumed
  {
    AfterStep(run, m);
    ApprovedIsSettled(run, m + 1, n, id);
  }

  /**
    What is consumed is what the approver approved: the hash the consume is checked
    against is the hash, edited or not, that the row bore when it was approved.
   */
  lemma ConsumedIsWhatWasApproved(run: seq<Op>, n: nat, id: string) returns (m: nat)
    requires ConsumedAt(run, n, id)
    ensures m < n && ApprovedAt(run, m, id, After(run[..n]).rows[id].Hash())
    ensures run[n].claim.Some? ==> ApprovedAt(run, m, id, run[n].claim.value)
    ensures var expires := After(run[..n]).rows[id].expires; expires.Some? ==> expires.value > run[n].now
  {
    m := ApprovedWasDecided(run, n, id);
  }

  /** Approval is a single event: there are not two hashes an approver approved under one id. */
  lemma ApprovedAtOnce(run: seq<Op>, m: nat, x: string, n: nat, y: string, id: string)
    requires ApprovedAt(run, m, id, x) && ApprovedAt(run, n, id, y)
    ensures m == n && x == y
  {
    if m < n { ApprovedBlocksLater(run, m, x, n, id); }
    if n < m { ApprovedBlocksLater(run, n, y, m, id); }
  }

  lemma ApprovedBlocksLater(run: seq<Op>, m: nat, x: string, n: nat, id: string)
    requires ApprovedAt(run, m, id, x) && m < n <= |run|
    ensures id in After(run[..n]).rows ==> After(run[..n]).rows[id].status == Approved
  {
    AfterStep(run, m);
    ApprovedIsSettled(run, m + 1, n, id);
  }

  /** The hash the gateway reports after a consume is read separately; it is the approved one or missing. */
  lemma ReadBackIsApproved(run: seq<Op>, n: nat, r: nat, id: string)
    requires ConsumedAt(run, n, id) && n < r <= |run|
    ensures id in After(run[..r]).rows ==> After(run[..r]).rows[id].Hash() == After(run[..n]).rows[id].Hash()
  {
    ApprovedIsSettled(run, n, r, id);
  }

  // ---------------------------------------------------------------- how rows begin

  /** The row `id` was created by operation `m`, for a call with this hash. */
  ghost predicate InsertedAt(run: seq<Op>, m: nat, id: string, hash: string) {
    m < |run| && run[m].Insert? && run[m].id == id && run[m].hash == hash && Succeeds(After(run[..m]), run[m])
  }

  lemma {:induction false} UsedForever(run: seq<Op>, m: nat, n: nat, id: string)
    requires m <= n <= |run| && id in After(run[..m]).used
    ensures id in After(run[..n]).used
    decreases n
  {
    if m < n {
      UsedForever(run, m, n - 1, id);
      AfterStep(run, n - 1);
    }
  }

  lemma InsertedIsUsed(run: seq<Op>, m: nat, id: string, hash: string, n: nat)
    requires InsertedAt(run, m, id, hash) && m < n <= |run|
    ensures id in After(run[..n]).used
  {
    AfterStep(run, m);
    UsedForever(run, m + 1, n, id);
  }

  /** An id has one row, created for one hash. */
  lemma InsertedOnce(run: seq<Op>, m: nat, x: string, n: nat, y: string, id: string)
    requires InsertedAt(run, m, id, x) && InsertedAt(run, n, id, y)
    ensures m == n && x == y
  {
    if m < n { InsertedIsUsed(run, m, id, x, n); }
    if n < m { InsertedIsUsed(run, n, id, y, m); }
  }

  lemma InsertedInLongerRun(run: seq<Op>, op: Op, m: nat, id: string, hash: string)
    requires InsertedAt(run, m, id, hash)
    ensures InsertedAt(run + [op], m, id, hash)
  {
    assert (run + [op])[..m] == run[..m];
  }
}
