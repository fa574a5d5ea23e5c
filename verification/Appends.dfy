/**
  Appending to the receipt chain without a lock: the head is read, and the record that
  refers to it is inserted later, as the Postgres branch of the gateway does. The SQLite
  branch takes the write lock first, so there the two are one step.
 */
module Appends {
  import opened Digests
  import opened Receipts
  import opened Verifiers
  import opened Records

  datatype Step =
    | Read(task: nat)                       // a task reads the head of the chain
    | Insert(task: nat, record: Record)     // and inserts its record, linked to what it read

  /** The records, and how many there were when each task under way read the head. */
  datatype State = State(records: seq<Record>, seen: map<nat, nat>)

  /** The record linked to the head of the first `n` records, with its hash. */
  ghost function LinkedTo(h: Hash, records: seq<Record>, n: nat, r: Record): Record
    requires n <= |records|
  {
    var columns := r.columns.(prev := Head(AsReceipts(records[..n]), GENESIS));
    r.(columns := columns, hash := RecordHash(h, columns))
  }

  ghost predicate Enabled(s: State, step: Step) {
    step.Insert? && step.task in s.seen && s.seen[step.task] <= |s.records|
  }

  ghost function Apply(h: Hash, s: State, step: Step): State {
    if step.Read? then s.(seen := s.seen[step.task := |s.records|])
    else if !Enabled(s, step) then s
    else State(s.records + [LinkedTo(h, s.records, s.seen[step.task], step.record)], s.seen - {step.task})
  }

  ghost function After(h: Hash, run: seq<Step>): State {
    if run == [] then State([], map[]) else Apply(h, After(h, run[..|run| - 1]), run[|run| - 1])
  }

  /** No record was inserted between the read and the insert of any task. */
  ghost predicate NoOverlap(h: Hash, run: seq<Step>) {
    run == [] ||
    (var before, last := run[..|run| - 1], run[|run| - 1];
     && NoOverlap(h, before)
     && (Enabled(After(h, before), last) ==> After(h, before).seen[last.task] == |After(h, before).records|))
  }

  /** Without a lock the chain verifies if and only if no two appends overlapped. */
  lemma {:induction false} LinkedIffNoOverlap(h: Hash, run: seq<Step>)
    requires NonEmptyDigests(h) && CollisionFreeOn(h, BodyTexts(AsReceipts(After(h, run).records)))
    ensures Linked(h, AsReceipts(After(h, run).records), GENESIS) <==> NoOverlap(h, run)
  {
    hide Linked, AsReceipts, NonEmptyDigests, CollisionFreeOn, BodyTexts, LinkedTo;
    if run == [] {
      NoneLinked(h);
    } else {
      var before, last := run[..|run| - 1], run[|run| - 1];
      var s := After(h, before);
      if Enabled(s, last) {
        var r := LinkedTo(h, s.records, s.seen[last.task], last.record);
        FewerTexts(h, s.records, r);
        LinkedIffNoOverlap(h, before);
        InsertLinks(h, s.records, s.seen[last.task], last.record);
      } else {
        LinkedIffNoOverlap(h, before);
      }
    }
  }

  lemma NoneLinked(h: Hash)
    ensures Linked(h, AsReceipts([]), GENESIS)
  {
  }

  lemma FewerTexts(h: Hash, records: seq<Record>, r: Record)
    requires CollisionFreeOn(h, BodyTexts(AsReceipts(records + [r])))
    ensures CollisionFreeOn(h, BodyTexts(AsReceipts(records)))
  {
    hide AsReceipt, BodyBytes;
    OneMoreReceipt(records, r);
    hide AsReceipts;
    assert BodyTexts(AsReceipts(records)) <= BodyTexts(AsReceipts(records) + [AsReceipt(r)]);
  }

  /** An insert keeps a chain verified exactly if the head it read is still the head. */
  lemma InsertLinks(h: Hash, records: seq<Record>, n: nat, r: Record)
    requires NonEmptyDigests(h) && n <= |records|
    requires CollisionFreeOn(h, BodyTexts(AsReceipts(records)))
    ensures Linked(h, AsReceipts(records + [LinkedTo(h, records, n, r)]), GENESIS)
       <==> Linked(h, AsReceipts(records), GENESIS) && n == |records|
  {
    hide Linked, AsReceipts, AsReceipt, NonEmptyDigests, CollisionFreeOn, BodyTexts, RecordHash, Head, LinkedTo,
         GENESIS;
    var x := LinkedTo(h, records, n, r);
    LinkedToFacts(h, records, n, r);
    PrefixReceipts(records, n);
    OneMoreReceipt(records, x);
    SealedLinksIff(h, x, Head(AsReceipts(records), GENESIS));
    LinkedSplits(h, AsReceipts(records), [AsReceipt(x)], GENESIS);
    if Linked(h, AsReceipts(records), GENESIS) {
      StillTheHead(h, AsReceipts(records), n);
    }
  }

  lemma LinkedToFacts(h: Hash, records: seq<Record>, n: nat, r: Record)
    requires n <= |records|
    ensures var x := LinkedTo(h, records, n, r);
            x.hash == RecordHash(h, x.columns) && x.columns.prev == Head(AsReceipts(records[..n]), GENESIS)
  {
    hide RecordHash, AsReceipts, Head, GENESIS;
  }

  lemma StillTheHead(h: Hash, chain: seq<Receipt>, n: nat)
    requires Linked(h, chain, GENESIS) && n <= |chain| && CollisionFreeOn(h, BodyTexts(chain))
    ensures Head(chain[..n], GENESIS) == Head(chain, GENESIS) <==> n == |chain|
  {
    hide Linked, CollisionFreeOn, BodyTexts, Head;
    HeadsDistinct(h, chain, n, |chain|);
    assert chain[..|chain|] == chain;
  }

  lemma PrefixReceipts(records: seq<Record>, n: nat)
    requires n <= |records|
    ensures AsReceipts(records[..n]) == AsReceipts(records)[..n]
  {
    hide AsReceipt;
  }

  /** A sealed record alone is a chain from the head it was linked to, and from no other. */
  lemma SealedLinksIff(h: Hash, r: Record, prev: string)
    requires NonEmptyDigests(h) && r.hash == RecordHash(h, r.columns)
    ensures Linked(h, [AsReceipt(r)], prev) <==> r.columns.prev == prev
  {
    hide AsReceipt, RecordHash, NonEmptyDigests, Intact;
    SealedLinks(h, r);
    BodyIsColumns(r);
    var chain := [AsReceipt(r)];
    assert chain[..0] == [];
    assert Linked(h, chain, prev) ==> GoodAt(h, chain, prev, 0);
  }
}
