/**
  Verifiable receipts: each receipt's hash covers its body, the previous
  receipt's hash included, so the receipts of a tenant form a hash chain.
 */
module Receipts {
  import opened Canon
  import opened Digests

  type Receipt = map<string, Value>

  const GENESIS := ""
  const HASH_FIELD := "receipt_hash"
  const PREV_FIELD := "prev_receipt_hash"

  lemma FieldsDiffer()
    ensures HASH_FIELD != PREV_FIELD
  {
    assert |HASH_FIELD| != |PREV_FIELD|;
  }

  /** The hashed part of a receipt: every field but its own hash. */
  function Body(r: Receipt): Receipt {
    r - {HASH_FIELD}
  }

  ghost function BodyBytes(r: Receipt): Bytes {
    CanonicalBytes(Obj(Body(r)))
  }

  ghost function ReceiptHash(h: Hash, r: Receipt): string {
    h(BodyBytes(r))
  }

  /** A text field; a missing or non-text field reads as the empty text, as Go reads it. */
  function TextField(r: Receipt, field: string): string {
    if field in r && r[field].Str? then r[field].s else ""
  }

  predicate HasText(r: Receipt, field: string) {
    field in r && r[field].Str?
  }

  /** The stored hash of a receipt. */
  function HashOf(r: Receipt): string {
    TextField(r, HASH_FIELD)
  }

  // ---------------------------------------------------------------- what a chain is

  /** The hash a receipt appended to `chain` must link to. */
  function Head(chain: seq<Receipt>, genesis: string): string {
    if chain == [] then genesis else HashOf(chain[|chain| - 1])
  }

  /** A receipt whose stored hash is its recomputed one. */
  ghost predicate Intact(h: Hash, r: Receipt) {
    HashOf(r) != "" && ReceiptHash(h, r) == HashOf(r)
  }

  ghost predicate GoodAt(h: Hash, chain: seq<Receipt>, genesis: string, i: nat)
    requires i < |chain|
  {
    && Intact(h, chain[i])
    && HasText(chain[i], PREV_FIELD)
    && TextField(chain[i], PREV_FIELD) == Head(chain[..i], genesis)
  }

  /** Every receipt is intact and refers to the one before it. */
  ghost predicate Linked(h: Hash, chain: seq<Receipt>, genesis: string) {
    forall i :: 0 <= i < |chain| ==> GoodAt(h, chain, genesis, i)
  }

  ghost function BodyTexts(chain: seq<Receipt>): set<Bytes> {
    set r | r in chain :: BodyBytes(r)
  }

  // ---------------------------------------------------------------- chains and their parts

  /** Verification splits at any point, the second part starting from the head of the first. */
  lemma LinkedSplits(h: Hash, c: seq<Receipt>, d: seq<Receipt>, genesis: string)
    ensures Linked(h, c + d, genesis) <==> Linked(h, c, genesis) && Linked(h, d, Head(c, genesis))
  {
    forall i | 0 <= i < |c|
      ensures GoodAt(h, c + d, genesis, i) == GoodAt(h, c, genesis, i)
    {
      assert (c + d)[..i] == c[..i];
    }
    forall i | 0 <= i < |d|
      ensures GoodAt(h, c + d, genesis, |c| + i) == GoodAt(h, d, Head(c, genesis), i)
    {
      assert (c + d)[..|c| + i] == c + d[..i];
    }
    if Linked(h, c + d, genesis) {
      forall i | 0 <= i < |c| ensures GoodAt(h, c, genesis, i) { assert GoodAt(h, c + d, genesis, i); }
      forall i | 0 <= i < |d| ensures GoodAt(h, d, Head(c, genesis), i) {
        assert GoodAt(h, c + d, genesis, |c| + i);
      }
    }
    if Linked(h, c, genesis) && Linked(h, d, Head(c, genesis)) {
      forall i | 0 <= i < |c + d| ensures GoodAt(h, c + d, genesis, i) {
        if i >= |c| { assert GoodAt(h, d, Head(c, genesis), i - |c|); }
      }
    }
  }

  lemma PrefixLinked(h: Hash, c: seq<Receipt>, genesis: string, n: nat)
    requires Linked(h, c, genesis) && n <= |c|
    ensures Linked(h, c[..n], genesis) && Linked(h, c[n..], Head(c[..n], genesis))
  {
    assert c == c[..n] + c[n..];
    LinkedSplits(h, c[..n], c[n..], genesis);
  }

  /** Intact receipts with the same stored hash are the same receipt. */
  lemma SameHashSameReceipt(h: Hash, r: Receipt, s: Receipt, texts: set<Bytes>)
    requires Intact(h, r) && Intact(h, s) && HashOf(r) == HashOf(s)
    requires CollisionFreeOn(h, texts) && BodyBytes(r) in texts && BodyBytes(s) in texts
    ensures r == s
  {
    hide HASH_FIELD, PREV_FIELD, CanonicalBytes, CollisionFreeOn;
    SameDigestSameValue(h, Obj(Body(r)), Obj(Body(s)), texts);
    assert r == Body(r)[HASH_FIELD := Str(HashOf(r))];
    assert s == Body(s)[HASH_FIELD := Str(HashOf(s))];
  }

  // ---------------------------------------------------------------- the head commits to the history

  /**
    Two chains that end in the same hash agree as far back as the shorter one
    goes, and the shorter one starts at a point of the longer one.
   */
  lemma {:induction false} SameHeadSameSuffix(h: Hash, c: seq<Receipt>, g: string, d: seq<Receipt>, g': string,
                                              texts: set<Bytes>)
    requires Linked(h, c, g) && Linked(h, d, g') && |c| <= |d|
    requires Head(c, g) == Head(d, g')
    requires CollisionFreeOn(h, texts) && BodyTexts(c) <= texts && BodyTexts(d) <= texts
    ensures c == d[|d| - |c|..]
    ensures g == Head(d[..|d| - |c|], g')
  {
    hide Linked, CollisionFreeOn, CanonicalBytes, HASH_FIELD, BodyBytes;
    if c == [] {
      assert d[..|d|] == d;
    } else {
      var m, n := |c| - 1, |d| - 1;
      SameLast(h, c, g, d, g', texts);
      PrefixLinked(h, c, g, m);
      PrefixLinked(h, d, g', n);
      assert BodyTexts(c[..m]) <= BodyTexts(c) && BodyTexts(d[..n]) <= BodyTexts(d);
      SameHeadSameSuffix(h, c[..m], g, d[..n], g', texts);
      assert c == c[..m] + [c[m]];
      assert d[..n][n - m..] + [d[n]] == d[n - m..];
      assert d[..n][..n - m] == d[..n - m];
    }
  }

  lemma SameLast(h: Hash, c: seq<Receipt>, g: string, d: seq<Receipt>, g': string, texts: set<Bytes>)
    requires Linked(h, c, g) && Linked(h, d, g') && c != [] && d != []
    requires Head(c, g) == Head(d, g')
    requires CollisionFreeOn(h, texts) && BodyTexts(c) <= texts && BodyTexts(d) <= texts
    ensures c[|c| - 1] == d[|d| - 1]
    ensures Head(c[..|c| - 1], g) == Head(d[..|d| - 1], g')
  {
    var m, n := |c| - 1, |d| - 1;
    assert GoodAt(h, c, g, m) && GoodAt(h, d, g', n);
    assert c[m] in c && d[n] in d;
    assert BodyBytes(c[m]) in BodyTexts(c) && BodyBytes(d[n]) in BodyTexts(d);
    SameHashSameReceipt(h, c[m], d[n], texts);
  }

  /** The head hash commits to the whole history, receipt by receipt. */
  lemma HeadCommits(h: Hash, c: seq<Receipt>, d: seq<Receipt>)
    requires Linked(h, c, GENESIS) && Linked(h, d, GENESIS)
    requires Head(c, GENESIS) == Head(d, GENESIS)
    requires CollisionFreeOn(h, BodyTexts(c) + BodyTexts(d))
    ensures c == d
  {
    hide Linked, CollisionFreeOn, BodyTexts;
    if |c| <= |d| {
      SameHeadSameSuffix(h, c, GENESIS, d, GENESIS, BodyTexts(c) + BodyTexts(d));
      OnlyGenesisIsEmpty(h, d, |d| - |c|);
    } else {
      SameHeadSameSuffix(h, d, GENESIS, c, GENESIS, BodyTexts(c) + BodyTexts(d));
      OnlyGenesisIsEmpty(h, c, |c| - |d|);
    }
  }

  /** Only the empty prefix of a chain has the empty head. */
  lemma OnlyGenesisIsEmpty(h: Hash, c: seq<Receipt>, n: nat)
    requires Linked(h, c, GENESIS) && n <= |c|
    ensures Head(c[..n], GENESIS) == GENESIS <==> n == 0
  {
    if n > 0 { assert GoodAt(h, c, GENESIS, n - 1); }
  }

  /** The running heads of a chain are pairwise different, so no hash occurs twice. */
  lemma HeadsDistinct(h: Hash, c: seq<Receipt>, i: nat, j: nat)
    requires Linked(h, c, GENESIS) && i <= |c| && j <= |c|
    requires CollisionFreeOn(h, BodyTexts(c))
    ensures Head(c[..i], GENESIS) == Head(c[..j], GENESIS) <==> i == j
  {
    if Head(c[..i], GENESIS) == Head(c[..j], GENESIS) {
      PrefixLinked(h, c, GENESIS, i);
      PrefixLinked(h, c, GENESIS, j);
      assert BodyTexts(c[..i]) <= BodyTexts(c) && BodyTexts(c[..j]) <= BodyTexts(c);
      HeadCommits(h, c[..i], c[..j]);
      assert |c[..i]| == |c[..j]|;
    }
  }

  // ---------------------------------------------------------------- rearranging a chain

  /**
    Receipts taken from a chain verify exactly when they are a prefix of it:
    any deletion, repetition or reordering before the end is detected, and
    dropping receipts from the end is the one change that is not.
   */
  lemma RearrangedVerifiesOnlyAsPrefix(h: Hash, c: seq<Receipt>, d: seq<Receipt>)
    requires Linked(h, c, GENESIS) && CollisionFreeOn(h, BodyTexts(c))
    requires forall r :: r in d ==> r in c
    ensures Linked(h, d, GENESIS) <==> d <= c
  {
    if d <= c {
      assert d == c[..|d|];
      PrefixLinked(h, c, GENESIS, |d|);
    }
    if Linked(h, d, GENESIS) {
      LinkedIsPrefix(h, c, d);
    }
  }

  lemma {:induction false} LinkedIsPrefix(h: Hash, c: seq<Receipt>, d: seq<Receipt>)
    requires Linked(h, c, GENESIS) && CollisionFreeOn(h, BodyTexts(c))
    requires forall r :: r in d ==> r in c
    requires Linked(h, d, GENESIS)
    ensures d <= c
  {
    if d != [] {
      var n := |d| - 1;
      PrefixLinked(h, d, GENESIS, n);
      LinkedIsPrefix(h, c, d[..n]);
      assert d[..n] == c[..n];
      assert d[n] in c;
      var j :| 0 <= j < |c| && c[j] == d[n];
      assert GoodAt(h, c, GENESIS, j) && GoodAt(h, d, GENESIS, n);
      HeadsDistinct(h, c, j, n);
      assert d == d[..n] + [d[n]];
    }
  }

  /** The three edits an attacker would try first. */
  lemma TamperingDetected(h: Hash, c: seq<Receipt>, i: nat, j: nat)
    requires Linked(h, c, GENESIS) && CollisionFreeOn(h, BodyTexts(c))
    requires i < j < |c|
    ensures !Linked(h, c[..i] + c[i + 1..], GENESIS)
    ensures !Linked(h, c[..i] + [c[i]] + c[i..], GENESIS)
    ensures !Linked(h, c[i := c[j]][j := c[i]], GENESIS)
  {
    var dropped, doubled, swapped := c[..i] + c[i + 1..], c[..i] + [c[i]] + c[i..], c[i := c[j]][j := c[i]];
    RearrangedVerifiesOnlyAsPrefix(h, c, dropped);
    RearrangedVerifiesOnlyAsPrefix(h, c, doubled);
    RearrangedVerifiesOnlyAsPrefix(h, c, swapped);
    ReceiptsDistinct(h, c, i, i + 1);
    ReceiptsDistinct(h, c, i, j);
    assert dropped[i] == c[i + 1] && doubled[i + 1] == c[i] && swapped[i] == c[j];
  }

  lemma ReceiptsDistinct(h: Hash, c: seq<Receipt>, i: nat, j: nat)
    requires Linked(h, c, GENESIS) && CollisionFreeOn(h, BodyTexts(c))
    requires i < j < |c|
    ensures HashOf(c[i]) != HashOf(c[j]) && c[i] != c[j]
  {
    HeadsDistinct(h, c, i + 1, j + 1);
    assert c[..i + 1][i] == c[i] && c[..j + 1][j] == c[j];
  }
}
