/**
  Sealing and verifying receipts: the Python, Go and TypeScript SDKs each walk a
  chain with a running previous hash. All are proved against `Linked`, the
  index-wise meaning of a chain.
 */
module Verifiers {
  import opened Options
  import opened Canon
  import opened Digests
  import opened Receipts

  datatype Reason = HashMismatch | BrokenLink
  datatype Break = Break(index: nat, reason: Reason)

  /** Digests are never empty; SHA-256 in hex has 64 characters. */
  ghost predicate NonEmptyDigests(h: Hash) {
    forall x :: h(x) != ""
  }

  // ---------------------------------------------------------------- sealing

  /** What the caller supplied: every field but the two that sealing writes. */
  function Payload(r: Receipt): Receipt {
    r - {HASH_FIELD, PREV_FIELD}
  }

  ghost predicate SamePayloads(c: seq<Receipt>, d: seq<Receipt>) {
    |c| == |d| && forall i :: 0 <= i < |c| ==> Payload(c[i]) == Payload(d[i])
  }

  /** `sealed` is `r` linked to `prev` with a hash that covers both. */
  ghost predicate SealOf(h: Hash, sealed: Receipt, r: Receipt, prev: string) {
    && sealed.Keys == r.Keys + {HASH_FIELD, PREV_FIELD}
    && Payload(sealed) == Payload(r)
    && sealed[PREV_FIELD] == Str(prev)
    && sealed[HASH_FIELD] == Str(ReceiptHash(h, sealed))
  }

  method SealReceipt(h: Hash, r: Receipt, prev: string) returns (sealed: Receipt)
    ensures SealOf(h, sealed, r, prev)
  {
    FieldsDiffer();
    hide HASH_FIELD, PREV_FIELD, CanonicalBytes;
    var body := Body(r)[PREV_FIELD := Str(prev)];
    var digest := CanonicalHash(h, Obj(body));
    sealed := body[HASH_FIELD := Str(digest)];
    assert Body(sealed) == body;
  }

  /** Sealing any bodies gives a chain that verifies and still carries them. */
  method SealChain(h: Hash, receipts: seq<Receipt>, genesis: string) returns (chain: seq<Receipt>)
    requires NonEmptyDigests(h)
    ensures Linked(h, chain, genesis)
    ensures SamePayloads(chain, receipts)
  {
    hide Linked, NonEmptyDigests, HASH_FIELD, PREV_FIELD, CanonicalBytes, Payload, Head, SealOf;
    EmptyLinked(h, genesis);
    chain := [];
    var prev := genesis;
    for i := 0 to |receipts|
      invariant |chain| == i && prev == Head(chain, genesis)
      invariant Linked(h, chain, genesis)
      invariant forall j :: 0 <= j < i ==> Payload(chain[j]) == Payload(receipts[j])
    {
      var sealed := SealReceipt(h, receipts[i], prev);
      SealExtends(h, chain, genesis, sealed, receipts[i]);
      chain := chain + [sealed];
      prev := sealed[HASH_FIELD].s;
    }
  }

  lemma EmptyLinked(h: Hash, genesis: string)
    ensures Linked(h, [], genesis) && Head([], genesis) == genesis
  {
  }

  lemma SealExtends(h: Hash, chain: seq<Receipt>, genesis: string, sealed: Receipt, r: Receipt)
    requires NonEmptyDigests(h) && Linked(h, chain, genesis)
    requires SealOf(h, sealed, r, Head(chain, genesis))
    ensures Linked(h, chain + [sealed], genesis)
    ensures Payload(sealed) == Payload(r)
    ensures HASH_FIELD in sealed && sealed[HASH_FIELD].Str?
    ensures Head(chain + [sealed], genesis) == sealed[HASH_FIELD].s
  {
    hide HASH_FIELD, PREV_FIELD, CanonicalBytes;
    assert GoodAt(h, [sealed], Head(chain, genesis), 0);
    LinkedSplits(h, chain, [sealed], genesis);
  }

  /** There is only one chain from a genesis that carries given bodies: the sealed one. */
  lemma {:induction false} SealingUnique(h: Hash, c: seq<Receipt>, d: seq<Receipt>, genesis: string)
    requires Linked(h, c, genesis) && Linked(h, d, genesis) && SamePayloads(c, d)
    ensures c == d
  {
    hide Linked, Payload;
    if c != [] {
      var n := |c| - 1;
      PrefixLinked(h, c, genesis, n);
      PrefixLinked(h, d, genesis, n);
      SealingUnique(h, c[..n], d[..n], genesis);
      SealingUniqueAt(h, c, d, genesis, n);
      assert c == c[..n] + [c[n]] && d == d[..n] + [d[n]];
    }
  }

  lemma SealingUniqueAt(h: Hash, c: seq<Receipt>, d: seq<Receipt>, genesis: string, n: nat)
    requires Linked(h, c, genesis) && Linked(h, d, genesis)
    requires n < |c| && n < |d| && c[..n] == d[..n] && Payload(c[n]) == Payload(d[n])
    ensures c[n] == d[n]
  {
    hide HASH_FIELD, PREV_FIELD, CanonicalBytes, Payload;
    assert GoodAt(h, c, genesis, n) && GoodAt(h, d, genesis, n);
    SamePayloadSamePrev(h, c[n], d[n]);
  }

  lemma SamePayloadSamePrev(h: Hash, r: Receipt, s: Receipt)
    requires Intact(h, r) && Intact(h, s) && Payload(r) == Payload(s)
    requires PREV_FIELD in r && PREV_FIELD in s && r[PREV_FIELD] == s[PREV_FIELD]
    ensures r == s
  {
    FieldsDiffer();
    hide HASH_FIELD, PREV_FIELD, CanonicalBytes;
    assert Body(r) == Payload(r)[PREV_FIELD := r[PREV_FIELD]];
    assert Body(s) == Payload(s)[PREV_FIELD := s[PREV_FIELD]];
    assert r == Body(r)[HASH_FIELD := Str(HashOf(r))];
    assert s == Body(s)[HASH_FIELD := Str(HashOf(s))];
  }

  // ---------------------------------------------------------------- the Python verifier

  method PyVerifyReceipt(h: Hash, r: Receipt) returns (ok: bool)
    ensures ok <==> Intact(h, r)
  {
    hide HASH_FIELD, PREV_FIELD, CanonicalBytes;
    if HASH_FIELD !in r || r[HASH_FIELD] == Str("") || !r[HASH_FIELD].Str? {
      return false;
    }
    var digest := CanonicalHash(h, Obj(Body(r)));
    ok := r[HASH_FIELD] == Str(digest);
  }

  method PyVerifyChain(h: Hash, chain: seq<Receipt>, genesis: string) returns (ok: bool)
    ensures ok <==> Linked(h, chain, genesis)
  {
    hide HASH_FIELD, PREV_FIELD, CanonicalBytes;
    var prev := genesis;
    for i := 0 to |chain|
      invariant prev == Head(chain[..i], genesis)
      invariant forall j :: 0 <= j < i ==> GoodAt(h, chain, genesis, j)
    {
      var intact := PyVerifyReceipt(h, chain[i]);
      if !intact || PREV_FIELD !in chain[i] || chain[i][PREV_FIELD] != Str(prev) {
        assert !GoodAt(h, chain, genesis, i);
        return false;
      }
      prev := chain[i][HASH_FIELD].s;
    }
    return true;
  }

  // ---------------------------------------------------------------- naming the first break

  /** The first receipt that is not good is at `i`. */
  ghost predicate BreaksFirstAt(h: Hash, chain: seq<Receipt>, genesis: string, i: nat) {
    i < |chain| && !GoodAt(h, chain, genesis, i) && forall j :: 0 <= j < i ==> GoodAt(h, chain, genesis, j)
  }

  /** The auditor's tool: hash first, then link. */
  method FirstFailure(h: Hash, chain: seq<Receipt>, genesis: string) returns (failure: Option<Break>)
    ensures failure.None? <==> Linked(h, chain, genesis)
    ensures failure.Some? ==> BreaksFirstAt(h, chain, genesis, failure.value.index)
    ensures failure.Some? ==> (failure.value.reason == HashMismatch <==> !Intact(h, chain[failure.value.index]))
  {
    hide HASH_FIELD, PREV_FIELD, CanonicalBytes;
    var prev := genesis;
    for i := 0 to |chain|
      invariant prev == Head(chain[..i], genesis)
      invariant forall j :: 0 <= j < i ==> GoodAt(h, chain, genesis, j)
    {
      var intact := PyVerifyReceipt(h, chain[i]);
      if !intact {
        assert !GoodAt(h, chain, genesis, i);
        return Some(Break(i, HashMismatch));
      }
      if PREV_FIELD !in chain[i] || chain[i][PREV_FIELD] != Str(prev) {
        assert !GoodAt(h, chain, genesis, i);
        return Some(Break(i, BrokenLink));
      }
      prev := chain[i][HASH_FIELD].s;
    }
    return None;
  }

  // ---------------------------------------------------------------- the TypeScript verifier

  method TsVerifyReceipt(h: Hash, r: Receipt) returns (ok: bool)
    ensures ok <==> Intact(h, r)
  {
    hide HASH_FIELD, PREV_FIELD, CanonicalBytes;
    if !HasText(r, HASH_FIELD) || |r[HASH_FIELD].s| == 0 {
      return false;
    }
    var digest := CanonicalHash(h, Obj(Body(r)));
    ok := digest == r[HASH_FIELD].s;
  }

  method TsVerifyChain(h: Hash, chain: seq<Receipt>, genesis: string) returns (ok: bool)
    ensures ok <==> Linked(h, chain, genesis)
  {
    hide HASH_FIELD, PREV_FIELD, CanonicalBytes;
    var prev := genesis;
    for i := 0 to |chain|
      invariant prev == Head(chain[..i], genesis)
      invariant forall j :: 0 <= j < i ==> GoodAt(h, chain, genesis, j)
    {
      var intact := TsVerifyReceipt(h, chain[i]);
      if !intact {
        assert !GoodAt(h, chain, genesis, i);
        return false;
      }
      if !HasText(chain[i], PREV_FIELD) || chain[i][PREV_FIELD].s != prev {
        assert !GoodAt(h, chain, genesis, i);
        return false;
      }
      prev := TextField(chain[i], HASH_FIELD);
    }
    return true;
  }

  // ---------------------------------------------------------------- the Go verifier

  ghost predicate GoGoodAt(h: Hash, chain: seq<Receipt>, genesis: string, i: nat)
    requires i < |chain|
  {
    Intact(h, chain[i]) && TextField(chain[i], PREV_FIELD) == Head(chain[..i], genesis)
  }

  /** Go reads a missing previous hash as the empty text. */
  ghost predicate GoLinked(h: Hash, chain: seq<Receipt>, genesis: string) {
    forall i :: 0 <= i < |chain| ==> GoGoodAt(h, chain, genesis, i)
  }

  method GoVerifyChain(h: Hash, chain: seq<Receipt>, genesis: string) returns (ok: bool)
    ensures ok <==> GoLinked(h, chain, genesis)
  {
    hide HASH_FIELD, PREV_FIELD, CanonicalBytes;
    var prev := genesis;
    for i := 0 to |chain|
      invariant prev == Head(chain[..i], genesis)
      invariant forall j :: 0 <= j < i ==> GoGoodAt(h, chain, genesis, j)
    {
      var stored := TextField(chain[i], HASH_FIELD);
      var recomputed := CanonicalHash(h, Obj(Body(chain[i])));
      if stored == "" || recomputed != stored || TextField(chain[i], PREV_FIELD) != prev {
        assert !GoGoodAt(h, chain, genesis, i);
        return false;
      }
      prev := stored;
    }
    return true;
  }

  /**
    Python and TypeScript accept exactly the chains Go accepts whose first
    receipt carries a previous hash as text; later receipts need no such proviso.
   */
  lemma GoAgainstPython(h: Hash, chain: seq<Receipt>, genesis: string)
    ensures Linked(h, chain, genesis)
       <==> GoLinked(h, chain, genesis) && (chain != [] ==> HasText(chain[0], PREV_FIELD))
  {
    if Linked(h, chain, genesis) {
      forall i | 0 <= i < |chain| ensures GoGoodAt(h, chain, genesis, i) {
        assert GoodAt(h, chain, genesis, i);
      }
      assert chain != [] ==> GoodAt(h, chain, genesis, 0);
    }
    if GoLinked(h, chain, genesis) && (chain != [] ==> HasText(chain[0], PREV_FIELD)) {
      forall i | 0 <= i < |chain| ensures GoodAt(h, chain, genesis, i) {
        assert GoGoodAt(h, chain, genesis, i);
        if i > 0 { assert GoGoodAt(h, chain, genesis, i - 1); }
      }
    }
  }

  /** The proviso matters: one receipt without a previous hash is a chain to Go alone. */
  lemma GoAcceptsMissingPrev(h: Hash)
    requires NonEmptyDigests(h)
    ensures exists r: Receipt :: GoLinked(h, [r], GENESIS) && !Linked(h, [r], GENESIS)
  {
    var body: Receipt := map[];
    var r: Receipt := map[HASH_FIELD := Str(h(CanonicalBytes(Obj(body))))];
    assert Body(r) == body;
    assert GoGoodAt(h, [r], GENESIS, 0);
    assert !GoodAt(h, [r], GENESIS, 0);
    assert GoLinked(h, [r], GENESIS) && !Linked(h, [r], GENESIS);
  }
}
