/** The thread-safe receipt accumulator: every operation runs under one lock. */
module Accumulator {
  import opened Digests
  import opened Receipts
  import opened Verifiers

  class ReceiptAccumulator {
    const h: Hash
    const genesis: string
    var chainSoFar: seq<Receipt>
    var prevHash: string

    /** What every operation keeps: a verified chain whose head is the stored hash. */
    ghost predicate Valid()
      reads this
    {
      && NonEmptyDigests(h)
      && Linked(h, chainSoFar, genesis)
      && prevHash == Head(chainSoFar, genesis)
    }

    constructor (h: Hash, genesis: string)
      requires NonEmptyDigests(h)
      ensures Valid() && chainSoFar == [] && this.genesis == genesis && this.h == h
    {
      this.h := h;
      this.genesis := genesis;
      chainSoFar := [];
      prevHash := genesis;
    }

    method Append(body: Receipt) returns (sealed: Receipt)
      requires Valid()
      modifies this
      ensures Valid()
      ensures SealOf(h, sealed, body, old(prevHash))
      ensures chainSoFar == old(chainSoFar) + [sealed]
    {
      sealed := SealReceipt(h, body, prevHash);
      SealExtends(h, chainSoFar, genesis, sealed, body);
      chainSoFar := chainSoFar + [sealed];
      prevHash := sealed[HASH_FIELD].s;
    }

    method Chain() returns (snapshot: seq<Receipt>)
      requires Valid()
      ensures snapshot == chainSoFar && Linked(h, snapshot, genesis)
    {
      snapshot := chainSoFar;
    }

    method Clear()
      requires Valid()
      modifies this
      ensures Valid() && chainSoFar == []
    {
      chainSoFar := [];
      prevHash := genesis;
    }
  }

  // ---------------------------------------------------------------- runs of the accumulator

  /** One lock-atomic operation, with what it returned. */
  datatype Op = AppendOp(body: Receipt, sealed: Receipt) | ClearOp | SnapshotOp(snapshot: seq<Receipt>)

  /** The chain after the operations of a run, in the order the lock admitted them. */
  function After(run: seq<Op>): seq<Receipt> {
    if run == [] then []
    else
      var before, last := After(run[..|run| - 1]), run[|run| - 1];
      match last
      case AppendOp(_, sealed) => before + [sealed]
      case ClearOp => []
      case SnapshotOp(_) => before
  }

  /** Each operation of the run did what the class does in that state. */
  ghost predicate IsRun(h: Hash, genesis: string, run: seq<Op>) {
    forall i :: 0 <= i < |run| ==> Admitted(h, genesis, run, i)
  }

  ghost predicate Admitted(h: Hash, genesis: string, run: seq<Op>, i: nat)
    requires i < |run|
  {
    match run[i]
    case AppendOp(body, sealed) => SealOf(h, sealed, body, Head(After(run[..i]), genesis))
    case ClearOp => true
    case SnapshotOp(snapshot) => snapshot == After(run[..i])
  }

  /** At every point of every interleaving the chain verifies. */
  lemma {:induction false} AlwaysLinked(h: Hash, genesis: string, run: seq<Op>)
    requires NonEmptyDigests(h) && IsRun(h, genesis, run)
    ensures Linked(h, After(run), genesis)
  {
    if run != [] {
      var n := |run| - 1;
      PrefixIsRun(h, genesis, run, n);
      AlwaysLinked(h, genesis, run[..n]);
      assert Admitted(h, genesis, run, n);
      if run[n].AppendOp? {
        SealExtends(h, After(run[..n]), genesis, run[n].sealed, run[n].body);
      }
    }
  }

  lemma PrefixIsRun(h: Hash, genesis: string, run: seq<Op>, n: nat)
    requires IsRun(h, genesis, run) && n <= |run|
    ensures IsRun(h, genesis, run[..n])
  {
    forall i | 0 <= i < n ensures Admitted(h, genesis, run[..n], i) {
      assert Admitted(h, genesis, run, i);
      assert run[..n][..i] == run[..i];
    }
  }

  /**
    Every snapshot verifies, and a later one extends an earlier one when the chain
    was not cleared in between.
   */
  lemma SnapshotsGrow(h: Hash, genesis: string, run: seq<Op>, i: nat, j: nat)
    requires NonEmptyDigests(h) && IsRun(h, genesis, run)
    requires i <= j < |run| && run[i].SnapshotOp? && run[j].SnapshotOp?
    ensures Linked(h, run[i].snapshot, genesis) && Linked(h, run[j].snapshot, genesis)
    ensures (forall k :: i < k < j ==> !run[k].ClearOp?) ==> run[i].snapshot <= run[j].snapshot
  {
    PrefixIsRun(h, genesis, run, i);
    PrefixIsRun(h, genesis, run, j);
    AlwaysLinked(h, genesis, run[..i]);
    AlwaysLinked(h, genesis, run[..j]);
    assert Admitted(h, genesis, run, i) && Admitted(h, genesis, run, j);
    if forall k :: i < k < j ==> !run[k].ClearOp? {
      NoClearGrows(run, i, j);
    }
  }

  lemma {:induction false} NoClearGrows(run: seq<Op>, i: nat, j: nat)
    requires i <= j <= |run| && forall k :: i <= k < j ==> !run[k].ClearOp?
    ensures After(run[..i]) <= After(run[..j])
    decreases j
  {
    if i < j {
      NoClearGrows(run, i, j - 1);
      assert run[..j][..j - 1] == run[..j - 1];
    }
  }
}
