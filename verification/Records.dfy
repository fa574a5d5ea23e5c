/**
  Receipts as the gateway stores them: a row of columns, fourteen of which make up
  the hashed body. What a receipt chain commits to is exactly these columns.
 */
module Records {
  import opened Options
  import opened Canon
  import opened Digests
  import opened Receipts
  import opened Verifiers

  /** The hashed columns. */
  datatype Columns = Columns(
    id: string,
    ts: string,
    agentId: Option<string>,
    userId: Option<string>,
    runId: Option<string>,
    traceId: Option<string>,
    tool: Option<string>,
    action: Option<string>,
    resource: Option<string>,
    sourceTrust: string,
    decision: string,
    approver: Option<string>,
    actionHash: Option<string>,
    prev: string)

  /** A stored receipt: the hashed columns, their hash, and what the hash does not cover. */
  datatype Record = Record(
    columns: Columns,
    hash: string,
    tenantId: string,
    decisionId: Option<string>,
    canonVersion: string,
    signature: Option<string>,
    signerPublicKey: Option<string>,
    signerKeyId: Option<string>)

  function Text(t: Option<string>): Value {
    if t.Some? then Str(t.value) else Null
  }

  /** receipt_body_value: the hashed columns under the names receipts are exchanged with. */
  function ColumnFields(c: Columns): Receipt {
    map[
      "event_id" := Str(c.id),
      "ts" := Str(c.ts),
      "agent_id" := Text(c.agentId),
      "user_id" := Text(c.userId),
      "run_id" := Text(c.runId),
      "trace_id" := Text(c.traceId),
      "tool" := Text(c.tool),
      "action" := Text(c.action),
      "resource" := Text(c.resource),
      "source_trust" := Str(c.sourceTrust),
      "decision" := Str(c.decision),
      "approver" := Text(c.approver),
      "action_hash" := Text(c.actionHash),
      "prev_receipt_hash" := Str(c.prev)]
  }

  /** The receipt an auditor is handed for a stored record. */
  function AsReceipt(r: Record): Receipt {
    ColumnFields(r.columns)[HASH_FIELD := Str(r.hash)]
  }

  function AsReceipts(records: seq<Record>): (receipts: seq<Receipt>)
    ensures |receipts| == |records| && forall i :: 0 <= i < |records| ==> receipts[i] == AsReceipt(records[i])
  {
    if records == [] then [] else AsReceipts(records[..|records| - 1]) + [AsReceipt(records[|records| - 1])]
  }

  // ---------------------------------------------------------------- the columns can be read back

  lemma ReadFirst(c: Columns)
    ensures var m := ColumnFields(c);
            && "event_id" in m && m["event_id"] == Str(c.id) && "ts" in m && m["ts"] == Str(c.ts)
            && "agent_id" in m && m["agent_id"] == Text(c.agentId) && "user_id" in m && m["user_id"] == Text(c.userId)
            && "run_id" in m && m["run_id"] == Text(c.runId) && "trace_id" in m && m["trace_id"] == Text(c.traceId)
            && "tool" in m && m["tool"] == Text(c.tool)
  {
  }

  lemma ReadRest(c: Columns)
    ensures var m := ColumnFields(c);
            && "action" in m && m["action"] == Text(c.action) && "resource" in m && m["resource"] == Text(c.resource)
            && "source_trust" in m && m["source_trust"] == Str(c.sourceTrust)
            && "decision" in m && m["decision"] == Str(c.decision)
            && "approver" in m && m["approver"] == Text(c.approver)
            && "action_hash" in m && m["action_hash"] == Text(c.actionHash)
            && PREV_FIELD in m && m[PREV_FIELD] == Str(c.prev) && HASH_FIELD !in m
  {
  }

  lemma ColumnFieldsInjective(c: Columns, d: Columns)
    requires ColumnFields(c) == ColumnFields(d)
    ensures c == d
  {
    hide ColumnFields;
    ReadFirst(c);
    ReadFirst(d);
    ReadRest(c);
    ReadRest(d);
  }

  /** The body of the auditor's receipt is what the gateway hashes. */
  lemma BodyIsColumns(r: Record)
    ensures Body(AsReceipt(r)) == ColumnFields(r.columns)
    ensures HashOf(AsReceipt(r)) == r.hash
    ensures HasText(AsReceipt(r), PREV_FIELD) && TextField(AsReceipt(r), PREV_FIELD) == r.columns.prev
  {
    ReadRest(r.columns);
    FieldsDiffer();
    hide ColumnFields, HASH_FIELD, PREV_FIELD;
  }

  /** Two records read alike exactly if they agree on the hashed columns and the hash. */
  lemma SameReceiptIff(r: Record, s: Record)
    ensures AsReceipt(r) == AsReceipt(s) <==> r.columns == s.columns && r.hash == s.hash
  {
    hide ColumnFields, HASH_FIELD;
    if AsReceipt(r) == AsReceipt(s) {
      BodyIsColumns(r);
      BodyIsColumns(s);
      ColumnFieldsInjective(r.columns, s.columns);
    }
  }

  // ---------------------------------------------------------------- the gateway's job

  /** compute_receipt_hash of a record. */
  ghost function RecordHash(h: Hash, c: Columns): string {
    h(CanonicalBytes(Obj(ColumnFields(c))))
  }

  /** The gateway's periodic job: link first, then hash, always from the empty genesis. */
  method RustVerifyChainRecords(h: Hash, records: seq<Record>) returns (failure: Option<Break>)
    requires NonEmptyDigests(h)
    ensures failure.None? <==> Linked(h, AsReceipts(records), GENESIS)
    ensures failure.Some? ==> BreaksFirstAt(h, AsReceipts(records), GENESIS, failure.value.index)
    ensures failure.Some? ==>
              (failure.value.reason == BrokenLink <==>
               records[failure.value.index].columns.prev != Head(AsReceipts(records)[..failure.value.index], GENESIS))
  {
    hide HASH_FIELD, PREV_FIELD, CanonicalBytes, ColumnFields, AsReceipt, AsReceipts;
    ghost var chain := AsReceipts(records);
    var prev := "";
    for i := 0 to |records|
      invariant prev == Head(chain[..i], GENESIS)
      invariant forall j :: 0 <= j < i ==> GoodAt(h, chain, GENESIS, j)
    {
      BodyIsColumns(records[i]);
      assert chain[i] == AsReceipt(records[i]);
      if records[i].columns.prev != prev {
        assert !GoodAt(h, chain, GENESIS, i);
        return Some(Break(i, BrokenLink));
      }
      var recomputed := CanonicalHash(h, Obj(ColumnFields(records[i].columns)));
      if recomputed != records[i].hash {
        assert !GoodAt(h, chain, GENESIS, i);
        return Some(Break(i, HashMismatch));
      }
      prev := records[i].hash;
    }
    return None;
  }

  /**
    On stored records the auditor's tool and the gateway's job blame the same
    receipt; they name different reasons only when both checks fail there.
   */
  method AuditorAgreesWithJob(h: Hash, records: seq<Record>) returns (tool: Option<Break>, job: Option<Break>)
    requires NonEmptyDigests(h)
    ensures tool.None? <==> job.None?
    ensures tool.Some? && job.Some? ==> tool.value.index == job.value.index
    ensures tool.Some? && job.Some? && tool.value.reason != job.value.reason ==>
              && tool.value.index < |records| && !Intact(h, AsReceipt(records[tool.value.index]))
              && records[tool.value.index].columns.prev != Head(AsReceipts(records)[..tool.value.index], GENESIS)
  {
    hide HASH_FIELD, PREV_FIELD, CanonicalBytes, ColumnFields, AsReceipt, AsReceipts;
    tool := FirstFailure(h, AsReceipts(records), GENESIS);
    job := RustVerifyChainRecords(h, records);
    if tool.Some? && job.Some? {
      var i := tool.value.index;
      assert i == job.value.index;
      BodyIsColumns(records[i]);
      assert !GoodAt(h, AsReceipts(records), GENESIS, i);
    }
  }

  // ---------------------------------------------------------------- what the head commits to

  ghost predicate SameHashed(c: seq<Record>, d: seq<Record>) {
    |c| == |d| && forall i :: 0 <= i < |c| ==> c[i].columns == d[i].columns && c[i].hash == d[i].hash
  }

  /**
    Records verify with the head of a verified chain if and only if they agree with
    it, one by one, on the hashed columns and the hash. The tenant, the decision, the
    scheme and the signature can be anything.
   */
  lemma HeadCommitsToColumns(h: Hash, c: seq<Record>, d: seq<Record>)
    requires Linked(h, AsReceipts(c), GENESIS)
    requires CollisionFreeOn(h, BodyTexts(AsReceipts(c)) + BodyTexts(AsReceipts(d)))
    ensures Linked(h, AsReceipts(d), GENESIS) && Head(AsReceipts(d), GENESIS) == Head(AsReceipts(c), GENESIS)
       <==> SameHashed(c, d)
  {
    hide Linked, Head, CollisionFreeOn, BodyTexts, AsReceipt;
    if Linked(h, AsReceipts(d), GENESIS) && Head(AsReceipts(d), GENESIS) == Head(AsReceipts(c), GENESIS) {
      HeadCommits(h, AsReceipts(c), AsReceipts(d));
    }
    SameReceiptsIff(c, d);
  }

  lemma SameReceiptsIff(c: seq<Record>, d: seq<Record>)
    ensures AsReceipts(c) == AsReceipts(d) <==> SameHashed(c, d)
  {
    hide AsReceipt;
    var x, y := AsReceipts(c), AsReceipts(d);
    forall i | 0 <= i < |c| && i < |d|
      ensures x[i] == y[i] <==> c[i].columns == d[i].columns && c[i].hash == d[i].hash
    {
      SameReceiptIff(c[i], d[i]);
    }
  }

  // ---------------------------------------------------------------- appending

  /** append_action_receipt_atomic: the record linked to the head, with its hash. */
  ghost function Appended(h: Hash, records: seq<Record>, r: Record): seq<Record> {
    var columns := r.columns.(prev := Head(AsReceipts(records), GENESIS));
    records + [r.(columns := columns, hash := RecordHash(h, columns))]
  }

  /** An atomic append keeps the chain verified and everything in it, and stores the given columns. */
  lemma AppendKeepsLinked(h: Hash, records: seq<Record>, r: Record)
    requires NonEmptyDigests(h) && Linked(h, AsReceipts(records), GENESIS)
    ensures var after := Appended(h, records, r);
            && Linked(h, AsReceipts(after), GENESIS) && records <= after
            && after[|records|].columns.(prev := r.columns.prev) == r.columns
  {
    hide HASH_FIELD, PREV_FIELD, CanonicalBytes, ColumnFields, AsReceipt, AsReceipts, Linked, Head, RecordHash,
         NonEmptyDigests;
    var after := Appended(h, records, r);
    var n := |records|;
    SealedLinks(h, after[n]);
    OneMoreReceipt(records, after[n]);
    LinkedSplits(h, AsReceipts(records), [AsReceipt(after[n])], GENESIS);
  }

  lemma OneMoreReceipt(records: seq<Record>, r: Record)
    ensures AsReceipts(records + [r]) == AsReceipts(records) + [AsReceipt(r)]
  {
    assert (records + [r])[..|records|] == records;
  }

  lemma SealedLinks(h: Hash, r: Record)
    requires NonEmptyDigests(h) && r.hash == RecordHash(h, r.columns)
    ensures Linked(h, [AsReceipt(r)], r.columns.prev)
  {
    hide HASH_FIELD, PREV_FIELD, CanonicalBytes, ColumnFields, AsReceipt;
    BodyIsColumns(r);
    var chain := [AsReceipt(r)];
    assert chain[..0] == [];
    assert GoodAt(h, chain, r.columns.prev, 0);
  }
}
