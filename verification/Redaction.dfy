/**
  Client-side prompt redaction: six secret patterns are replaced one after the
  other, then the text is cut. Patterns are regular expressions with Python's
  backtracking priorities; the theorem is that the result matches none of them.
 */
module Redaction {

  // ---------------------------------------------------------------- characters

  /** Python's case folding of a single character under the ignore-case flag. */
  function Fold(c: char): char {
    var n := c as int;
    if 'A' <= c <= 'Z' then (n + 32) as char
    else if n == 0x130 || n == 0x131 then 'i'
    else if n == 0x17F then 's'
    else if n == 0x212A then 'k'
    else c
  }

  /** Unicode white space, as \s and str.isspace have it. */
  predicate IsSpace(c: char) {
    var n := c as int;
    || 9 <= n <= 13 || 28 <= n <= 32 || n == 0x85 || n == 0xA0 || n == 0x1680
    || 0x2000 <= n <= 0x200A || n == 0x2028 || n == 0x2029 || n == 0x202F || n == 0x205F || n == 0x3000
  }

  datatype Class = Lit(c: char) | OneOf(cs: string) | Space | NonSpace | Alnum | AlnumDash | NotNewline | Any

  predicate In(k: Class, c: char) {
    match k
    case Lit(x) => Fold(c) == x
    case OneOf(cs) => Fold(c) in cs
    case Space => IsSpace(c)
    case NonSpace => !IsSpace(c)
    case Alnum => 'a' <= Fold(c) <= 'z' || '0' <= c <= '9'
    case AlnumDash => 'a' <= Fold(c) <= 'z' || '0' <= c <= '9' || c == '_' || c == '-'
    case NotNewline => c != '\n'
    case Any => true
  }

  // ---------------------------------------------------------------- patterns

  /** A class once, one or more times, any number of times, or as few times as possible. */
  datatype Unit = One(k: Class) | Plus(k: Class) | Star(k: Class) | Lazy(k: Class)

  type Pattern = seq<Unit>

  /** All ends of matches that start at `i`, the one backtracking tries first standing first. */
  function Ends(p: Pattern, s: string, i: nat): (r: seq<nat>)
    requires i <= |s|
    ensures forall j :: j in r ==> i <= j <= |s|
    ensures p != [] && p[0].One? ==> forall j :: j in r ==> i < j
    decreases |p|, |s| - i
  {
    if p == [] then [i]
    else
      var more := i < |s| && In(p[0].k, s[i]);
      match p[0]
      case One(_) => if more then Ends(p[1..], s, i + 1) else []
      case Plus(k) => if more then Ends([Star(k)] + p[1..], s, i + 1) else []
      case Star(_) => (if more then Ends(p, s, i + 1) else []) + Ends(p[1..], s, i)
      case Lazy(_) => Ends(p[1..], s, i) + (if more then Ends(p, s, i + 1) else [])
  }

  /** The language of a pattern. */
  predicate Lang(p: Pattern, w: string)
    decreases |p|, |w|
  {
    if p == [] then w == ""
    else
      var more := w != "" && In(p[0].k, w[0]);
      match p[0]
      case One(_) => more && Lang(p[1..], w[1..])
      case Plus(k) => more && Lang([Star(k)] + p[1..], w[1..])
      case Star(_) => (more && Lang(p, w[1..])) || Lang(p[1..], w)
      case Lazy(_) => Lang(p[1..], w) || (more && Lang(p, w[1..]))
  }

  /** Backtracking finds exactly the matches the language has. */
  lemma {:induction false} EndsAreMatches(p: Pattern, s: string, i: nat, j: nat)
    requires i <= j <= |s|
    ensures j in Ends(p, s, i) <==> Lang(p, s[i..j])
    decreases |p|, |s| - i
  {
    hide In;
    if p != [] {
      var rest := if p[0].One? then p[1..] else if p[0].Plus? then [Star(p[0].k)] + p[1..] else p;
      if i < j {
        assert s[i..j][0] == s[i] && s[i..j][1..] == s[i + 1..j];
        EndsAreMatches(rest, s, i + 1, j);
      }
      if p[0].Star? || p[0].Lazy? {
        EndsAreMatches(p[1..], s, i, j);
      }
    }
  }

  /** Some match of the pattern starts where `t` starts. */
  predicate Fits(p: Pattern, t: string)
    decreases |p|, |t|
  {
    if p == [] then true
    else
      var more := t != "" && In(p[0].k, t[0]);
      match p[0]
      case One(_) => more && Fits(p[1..], t[1..])
      case Plus(k) => more && Fits([Star(k)] + p[1..], t[1..])
      case Star(_) => (more && Fits(p, t[1..])) || Fits(p[1..], t)
      case Lazy(_) => Fits(p[1..], t) || (more && Fits(p, t[1..]))
  }

  lemma {:induction false} MatchIffFits(p: Pattern, s: string, i: nat)
    requires i <= |s|
    ensures Ends(p, s, i) != [] <==> Fits(p, s[i..])
    decreases |p|, |s| - i
  {
    hide In;
    if p != [] {
      var rest := if p[0].One? then p[1..] else if p[0].Plus? then [Star(p[0].k)] + p[1..] else p;
      if i < |s| {
        assert s[i..][0] == s[i] && s[i..][1..] == s[i + 1..];
        MatchIffFits(rest, s, i + 1);
      }
      if p[0].Star? || p[0].Lazy? {
        MatchIffFits(p[1..], s, i);
      }
    }
  }

  /** Longer text keeps the match. */
  lemma {:induction false} FitsLonger(p: Pattern, t: string, u: string)
    requires Fits(p, t)
    ensures Fits(p, t + u)
    decreases |p|, |t|
  {
    hide In;
    if p != [] {
      var more := t != "" && In(p[0].k, t[0]);
      if more { assert (t + u)[1..] == t[1..] + u; }
      match p[0]
      case One(_) => FitsLonger(p[1..], t[1..], u);
      case Plus(k) => FitsLonger([Star(k)] + p[1..], t[1..], u);
      case Star(_) => if more && Fits(p, t[1..]) { FitsLonger(p, t[1..], u); } else { FitsLonger(p[1..], t, u); }
      case Lazy(_) => if Fits(p[1..], t) { FitsLonger(p[1..], t, u); } else { FitsLonger(p, t[1..], u); }
    }
  }

  /** pattern.search: the pattern occurs somewhere. */
  predicate Search(p: Pattern, s: string) {
    exists i :: 0 <= i <= |s| && Ends(p, s, i) != []
  }

  // ---------------------------------------------------------------- the six secrets

  function Word(w: string): Pattern {
    if w == "" then [] else [One(Lit(w[0]))] + Word(w[1..])
  }

  lemma WordSplit(w: string, rest: Pattern)
    ensures w == "" ==> Word(w) == [] && Word(w) + rest == rest
    ensures w != "" ==> Word(w) != [] && Word(w)[0] == One(Lit(w[0])) && Word(w)[1..] == Word(w[1..])
    ensures w != "" ==> (Word(w) + rest)[0] == One(Lit(w[0])) && (Word(w) + rest)[1..] == Word(w[1..]) + rest
  {
    if w == "" {
      assert [] + rest == rest;
    } else {
      FirstUnit(One(Lit(w[0])), Word(w[1..]), rest);
    }
  }

  lemma FirstUnit(u: Unit, p: Pattern, rest: Pattern)
    ensures ([u] + p)[0] == u && ([u] + p)[1..] == p
    ensures ([u] + p + rest)[0] == u && ([u] + p + rest)[1..] == p + rest
  {
  }

  /** What follows the begin marker of a key block: anything, the end marker, and dashes on its line. */
  function BlockRest(): Pattern {
    [Lazy(Any)] + (Word("-----end") + [Star(NotNewline)] + Word("-----"))
  }

  const PATTERN_COUNT: nat := 6

  function Secret(n: nat): Pattern
    requires n < PATTERN_COUNT
  {
    if n == 0 then Word("bearer") + [Plus(Space), Plus(NonSpace)]
    else if n == 1 then Word("sk-") + [Plus(AlnumDash)]
    else if n == 2 then Word("gh") + [One(OneOf("oprsu")), One(Lit('_')), Plus(Alnum)]
    else if n == 3 then Word("akia") + [Plus(Alnum)]
    else if n == 4 then Word("xox") + [One(OneOf("bpa")), One(Lit('-')), Plus(NonSpace)]
    else Word("-----begin") + BlockRest()
  }

  const REDACTED := "[REDACTED]"

  ghost predicate LooksUnredacted(s: string) {
    exists n :: 0 <= n < PATTERN_COUNT && Search(Secret(n), s)
  }

  /** A pattern that consumes at least one visible character, as all six do. */
  ghost predicate Visible(p: Pattern) {
    p != [] && p[0].One? && forall c :: In(p[0].k, c) ==> !IsSpace(c)
  }

  /** pattern.sub from position `i` on: leftmost matches, each replaced, none overlapping. */
  function SubFrom(p: Pattern, s: string, i: nat): string
    requires i <= |s| && p != [] && p[0].One?
    decreases |s| - i
  {
    if i == |s| then ""
    else
      var ends := Ends(p, s, i);
      if ends == [] then [s[i]] + SubFrom(p, s, i + 1)
      else
        assert ends[0] in ends;
        REDACTED + SubFrom(p, s, ends[0])
  }

  // ---------------------------------------------------------------- a match in the output was one in the input

  /** Position `i` of the input was copied, not replaced. */
  predicate Copied(p: Pattern, s: string, i: nat) {
    i < |s| && Ends(p, s, i) == []
  }

  lemma SubStep(p: Pattern, s: string, i: nat)
    requires i < |s| && p != [] && p[0].One?
    ensures Copied(p, s, i) ==> SubFrom(p, s, i) == [s[i]] + SubFrom(p, s, i + 1)
    ensures Copied(p, s, i) ==> SubFrom(p, s, i)[0] == s[i] && SubFrom(p, s, i)[1..] == SubFrom(p, s, i + 1)
    ensures !Copied(p, s, i) ==> SubFrom(p, s, i)[0] == '['
  {
    hide Ends;
  }

  /**
    Every unit refuses the bracket that starts a replacement, except that the
    last one may be a run of visible characters or be satisfied with nothing.
   */
  predicate Guarded(q: Pattern) {
    q == []
    || (!In(q[0].k, '[') && !q[0].Lazy? && Guarded(q[1..]))
    || (|q| == 1 && (q[0].Star? || q[0] == Plus(NonSpace)))
  }

  /** A replacement shows a visible character where a visible character was. */
  lemma {:induction false} FitsOutputFitsInput(p: Pattern, s: string, i: nat, q: Pattern)
    requires Visible(p) && i <= |s| && Guarded(q)
    requires Fits(q, SubFrom(p, s, i))
    ensures Fits(q, s[i..])
    decreases |q|, |s| - i
  {
    if q != [] {
      if i < |s| {
        SubStep(p, s, i);
        assert s[i..][0] == s[i] && s[i..][1..] == s[i + 1..];
      }
      if q[0].Star? && Fits(q[1..], SubFrom(p, s, i)) {
        FitsOutputFitsInput(p, s, i, q[1..]);
      } else if i < |s| && Copied(p, s, i) {
        var rest := if q[0].One? then q[1..] else [Star(q[0].k)] + q[1..];
        assert q[0].Star? ==> rest == q;
        FitsOutputFitsInput(p, s, i + 1, rest);
      } else if |q| == 1 && q[0] == Plus(NonSpace) {
        assert Fits([], s[i + 1..]) && Fits([Star(NonSpace)], s[i + 1..]);
      }
    }
  }

  /** No match can start inside a replacement: the first two units fail on all of it. */
  predicate StartsOutside(q: Pattern) {
    && |q| >= 2 && q[0].One? && q[1].One? && !In(q[0].k, REDACTED[9])
    && forall k :: 0 <= k < 9 ==> !In(q[0].k, REDACTED[k]) || !In(q[1].k, REDACTED[k + 1])
  }

  lemma InsideFails(q: Pattern, j: nat, rest: string)
    requires StartsOutside(q)
    ensures j < 10 ==> !Fits(q, (REDACTED + rest)[j..])
  {
    if j < 10 {
      var t := (REDACTED + rest)[j..];
      assert t[0] == REDACTED[j];
      if j < 9 { assert t[1..][0] == REDACTED[j + 1]; }
    }
  }

  /** A match in the output starts at a character copied from the input. */
  lemma {:induction false} OriginOfMatch(p: Pattern, s: string, i: nat, q: Pattern, j: nat) returns (m: nat)
    requires i <= |s| && p != [] && p[0].One? && StartsOutside(q)
    requires j <= |SubFrom(p, s, i)| && Fits(q, SubFrom(p, s, i)[j..])
    ensures i <= m && Copied(p, s, m) && Fits(q, SubFrom(p, s, m))
    decreases |s| - i
  {
    hide In;
    var t := SubFrom(p, s, i);
    assert i < |s|;
    SubStep(p, s, i);
    if Copied(p, s, i) {
      if j == 0 {
        assert t[0..] == t;
        m := i;
      } else {
        assert t[j..] == SubFrom(p, s, i + 1)[j - 1..];
        m := OriginOfMatch(p, s, i + 1, q, j - 1);
      }
    } else {
      var e := Ends(p, s, i)[0];
      assert e in Ends(p, s, i) && t == REDACTED + SubFrom(p, s, e);
      InsideFails(q, j, SubFrom(p, s, e));
      assert t[j..] == SubFrom(p, s, e)[j - 10..];
      m := OriginOfMatch(p, s, e, q, j - 10);
    }
  }

  lemma SearchIffFits(q: Pattern, s: string)
    ensures Search(q, s) <==> exists i :: 0 <= i <= |s| && Fits(q, s[i..])
  {
    forall i | 0 <= i <= |s| ensures Ends(q, s, i) != [] <==> Fits(q, s[i..]) { MatchIffFits(q, s, i); }
  }

  /** If a guarded pattern occurs after a pass, it occurred before, at a place the pass left alone. */
  lemma PassAddsNothing(p: Pattern, s: string, q: Pattern) returns (m: nat)
    requires Visible(p) && Guarded(q) && StartsOutside(q)
    requires Search(q, SubFrom(p, s, 0))
    ensures Copied(p, s, m) && Ends(q, s, m) != [] && Search(q, s)
  {
    var t := SubFrom(p, s, 0);
    SearchIffFits(q, t);
    var j :| 0 <= j <= |t| && Fits(q, t[j..]);
    m := OriginOfMatch(p, s, 0, q, j);
    FitsOutputFitsInput(p, s, m, q);
    MatchIffFits(q, s, m);
  }

  // ---------------------------------------------------------------- key blocks, the one unguarded pattern

  lemma BracketIsNoLetter(x: char)
    requires x != '['
    ensures !In(Lit(x), '[')
  {
  }

  lemma SubAtEnd(p: Pattern, s: string)
    requires p != [] && p[0].One?
    ensures SubFrom(p, s, |s|) == ""
  {
  }

  /** Copied text stands unchanged as long as single characters that are no bracket match it. */
  lemma {:induction false} WordWasCopied(p: Pattern, s: string, i: nat, w: string, rest: Pattern)
    requires i <= |s| && p != [] && p[0].One? && '[' !in w
    requires Fits(Word(w) + rest, SubFrom(p, s, i))
    ensures i + |w| <= |s| && Fits(Word(w), s[i..]) && Fits(rest, SubFrom(p, s, i + |w|))
    decreases |w|
  {
    hide In, Ends, SubFrom, Word;
    WordSplit(w, rest);
    if w != "" {
      assert w[0] in w;
      BracketIsNoLetter(w[0]);
      if i == |s| { SubAtEnd(p, s); }
      SubStep(p, s, i);
      WordWasCopied(p, s, i + 1, w[1..], rest);
      assert s[i..][0] == s[i] && s[i..][1..] == s[i + 1..];
    }
  }

  lemma {:induction false} FitsWordThen(w: string, rest: Pattern, t: string)
    ensures Fits(Word(w) + rest, t) <==> |w| <= |t| && Fits(Word(w), t) && Fits(rest, t[|w|..])
  {
    hide In, Word;
    WordSplit(w, rest);
    if w == "" {
      assert t[0..] == t;
    } else if t != "" {
      FitsWordThen(w[1..], rest, t[1..]);
      if |w| <= |t| { assert t[1..][|w| - 1..] == t[|w|..]; }
    }
  }

  /** The rest of a block, starting with anything, is also found from any earlier place. */
  lemma {:induction false} BlockRestFromEarlier(s: string, i: nat, j: nat)
    requires i <= j <= |s| && Fits(BlockRest(), s[j..])
    ensures Fits(BlockRest(), s[i..])
    decreases j - i
  {
    if i < j {
      BlockRestFromEarlier(s, i + 1, j);
      assert s[i..][1..] == s[i + 1..];
      assert BlockRest()[0] == Lazy(Any);
    }
  }

  /** After a begin marker that starts no block, no block starts either. */
  lemma NoBlockAfterOpenMarker(p: Pattern, s: string, i: nat, k: nat)
    requires p == Word("-----begin") + BlockRest()
    requires i <= k <= |s| && !Fits(BlockRest(), s[i..])
    ensures Ends(p, s, k) == []
  {
    hide Word, BlockRest, Fits, Ends;
    MatchIffFits(p, s, k);
    FitsWordThen("-----begin", BlockRest(), s[k..]);
    if Fits(p, s[k..]) {
      assert s[k..][10..] == s[k + 10..];
      BlockRestFromEarlier(s, i, k + 10);
    }
  }

  lemma {:induction false} NothingToReplace(p: Pattern, s: string, i: nat)
    requires i <= |s| && p != [] && p[0].One?
    requires forall k :: i <= k < |s| ==> Ends(p, s, k) == []
    ensures SubFrom(p, s, i) == s[i..]
    decreases |s| - i
  {
    hide Ends;
    if i < |s| {
      NothingToReplace(p, s, i + 1);
      assert s[i..] == [s[i]] + s[i + 1..];
    }
  }

  /** The block pass leaves no block: an open marker it leaves is beyond the last block. */
  lemma BlockPassClears(p: Pattern, s: string)
    requires p == Word("-----begin") + BlockRest() && Visible(p) && StartsOutside(p)
    ensures !Search(p, SubFrom(p, s, 0))
  {
    hide Word, BlockRest, Fits, Ends, SubFrom, Search, StartsOutside;
    var t := SubFrom(p, s, 0);
    SearchIffFits(p, t);
    if Search(p, t) {
      var j :| 0 <= j <= |t| && Fits(p, t[j..]);
      var m := OriginOfMatch(p, s, 0, p, j);
      WordWasCopied(p, s, m, "-----begin", BlockRest());
      MatchIffFits(p, s, m);
      FitsWordThen("-----begin", BlockRest(), s[m..]);
      assert s[m..][10..] == s[m + 10..];
      forall k | m + 10 <= k < |s| ensures Ends(p, s, k) == [] { NoBlockAfterOpenMarker(p, s, m + 10, k); }
      NothingToReplace(p, s, m + 10);
    }
  }

  // ---------------------------------------------------------------- the facts about the six patterns

  lemma {:induction false} WordUnits(w: string)
    ensures |Word(w)| == |w| && forall i :: 0 <= i < |w| ==> Word(w)[i] == One(Lit(w[i]))
  {
    if w != "" { WordUnits(w[1..]); }
  }

  lemma {:induction false} GuardedWord(w: string, rest: Pattern)
    requires '[' !in w && Guarded(rest)
    ensures Guarded(Word(w) + rest)
  {
    hide In, Word;
    WordSplit(w, rest);
    if w != "" {
      assert w[0] in w;
      BracketIsNoLetter(w[0]);
      GuardedWord(w[1..], rest);
    }
  }

  lemma GuardedSecrets(n: nat)
    requires n < 5
    ensures Guarded(Secret(n))
  {
    hide Guarded, Word;
    GuardedTails();
    if n == 0 { GuardedWord("bearer", [Plus(Space), Plus(NonSpace)]); }
    else if n == 1 { GuardedWord("sk-", [Plus(AlnumDash)]); }
    else if n == 2 { GuardedWord("gh", [One(OneOf("oprsu")), One(Lit('_')), Plus(Alnum)]); }
    else if n == 3 { GuardedWord("akia", [Plus(Alnum)]); }
    else { GuardedWord("xox", [One(OneOf("bpa")), One(Lit('-')), Plus(NonSpace)]); }
  }

  lemma GuardedTails()
    ensures Guarded([Plus(Space), Plus(NonSpace)]) && Guarded([Plus(AlnumDash)]) && Guarded([Plus(Alnum)])
    ensures Guarded([One(OneOf("oprsu")), One(Lit('_')), Plus(Alnum)])
    ensures Guarded([One(OneOf("bpa")), One(Lit('-')), Plus(NonSpace)])
  {
    GuardedMore(Plus(Space), [Plus(NonSpace)]);
    GuardedMore(One(Lit('_')), [Plus(Alnum)]);
    GuardedMore(One(OneOf("oprsu")), [One(Lit('_')), Plus(Alnum)]);
    GuardedMore(One(Lit('-')), [Plus(NonSpace)]);
    GuardedMore(One(OneOf("bpa")), [One(Lit('-')), Plus(NonSpace)]);
  }

  lemma GuardedMore(u: Unit, q: Pattern)
    requires !In(u.k, '[') && !u.Lazy? && Guarded(q)
    ensures Guarded([u] + q)
  {
    assert ([u] + q)[1..] == q;
  }

  lemma FoldRedacted()
    ensures forall k :: 0 <= k < 10 ==> Fold(REDACTED[k]) == "[redacted]"[k]
  {
  }

  /** Folding moves no white space, so a visible letter is matched by visible characters only. */
  lemma WordFacts(w: string, rest: Pattern)
    requires |Word(w) + rest| >= 2 && |w| >= 2 && !IsSpace(w[0])
    requires w[0] != ']' && forall k :: 0 <= k < 9 ==> "[redacted]"[k] != w[0] || "[redacted]"[k + 1] != w[1]
    ensures Visible(Word(w) + rest) && StartsOutside(Word(w) + rest)
  {
    hide REDACTED;
    WordUnits(w);
    FoldRedacted();
    var q := Word(w) + rest;
    assert q[0] == One(Lit(w[0])) && q[1] == One(Lit(w[1]));
  }

  lemma SecretFacts(n: nat)
    requires n < PATTERN_COUNT
    ensures Visible(Secret(n)) && StartsOutside(Secret(n))
  {
    hide Visible, StartsOutside, Word, BlockRest;
    if n == 0 { WordUnits("bearer"); WordFacts("bearer", [Plus(Space), Plus(NonSpace)]); }
    else if n == 1 { WordUnits("sk-"); WordFacts("sk-", [Plus(AlnumDash)]); }
    else if n == 2 { WordUnits("gh"); WordFacts("gh", [One(OneOf("oprsu")), One(Lit('_')), Plus(Alnum)]); }
    else if n == 3 { WordUnits("akia"); WordFacts("akia", [Plus(Alnum)]); }
    else if n == 4 { WordUnits("xox"); WordFacts("xox", [One(OneOf("bpa")), One(Lit('-')), Plus(NonSpace)]); }
    else { WordUnits("-----begin"); WordFacts("-----begin", BlockRest()); }
  }

  // ---------------------------------------------------------------- the passes together

  /** A pass removes every match of its own pattern. */
  lemma PassClears(n: nat, s: string)
    requires n < PATTERN_COUNT
    ensures Visible(Secret(n)) && !Search(Secret(n), SubFrom(Secret(n), s, 0))
  {
    hide Fits, Ends, SubFrom, Search, StartsOutside, Guarded;
    SecretFacts(n);
    if n == 5 {
      BlockPassClears(Secret(5), s);
    } else {
      GuardedSecrets(n);
      if Search(Secret(n), SubFrom(Secret(n), s, 0)) {
        var m := PassAddsNothing(Secret(n), s, Secret(n));
      }
    }
  }

  /** A later pass brings no earlier pattern back. */
  lemma PassKeepsClear(n: nat, m: nat, s: string)
    requires n < 5 && m < PATTERN_COUNT && !Search(Secret(n), s)
    ensures Visible(Secret(m)) && !Search(Secret(n), SubFrom(Secret(m), s, 0))
  {
    hide Fits, Ends, SubFrom, Search, StartsOutside, Guarded, Secret;
    SecretFacts(n);
    SecretFacts(m);
    GuardedSecrets(n);
    if Search(Secret(n), SubFrom(Secret(m), s, 0)) {
      var i := PassAddsNothing(Secret(m), s, Secret(n));
    }
  }

  lemma {:induction false} CutKeepsClear(q: Pattern, s: string, n: nat)
    requires n <= |s| && !Search(q, s)
    ensures !Search(q, s[..n])
  {
    SearchIffFits(q, s);
    SearchIffFits(q, s[..n]);
    forall i | 0 <= i <= n ensures !Fits(q, s[..n][i..]) {
      assert s[i..] == s[..n][i..] + s[n..];
      if Fits(q, s[..n][i..]) { FitsLonger(q, s[..n][i..], s[n..]); }
    }
  }

  // ---------------------------------------------------------------- what the six secrets are

  /** The letter in either case, or one of the four letters Python takes for its other case; else the character. */
  predicate AnyCase(c: char, x: char) {
    var n := c as int;
    || c == x
    || ('a' <= x <= 'z' && n == x as int - 32)
    || (x == 'i' && n in {0x130, 0x131}) || (x == 's' && n == 0x17F) || (x == 'k' && n == 0x212A)
  }

  predicate LetterOrDigit(c: char) {
    'a' <= c <= 'z' || 'A' <= c <= 'Z' || '0' <= c <= '9' || c as int in {0x130, 0x131, 0x17F, 0x212A}
  }

  /** The 29 code points of white space. */
  predicate White(c: char) {
    c as int in {0x09, 0x0A, 0x0B, 0x0C, 0x0D, 0x1C, 0x1D, 0x1E, 0x1F, 0x20, 0x85, 0xA0, 0x1680,
                 0x2000, 0x2001, 0x2002, 0x2003, 0x2004, 0x2005, 0x2006, 0x2007, 0x2008, 0x2009, 0x200A,
                 0x2028, 0x2029, 0x202F, 0x205F, 0x3000}
  }

  /** The word stands at place `i`, in any case. */
  predicate Stands(s: string, i: nat, w: string) {
    i + |w| <= |s| && forall k :: 0 <= k < |w| ==> AnyCase(s[i + k], w[k])
  }

  ghost predicate BearerAt(s: string, i: nat, j: nat) {
    && Stands(s, i, "bearer") && i + 6 < j < |s|
    && (forall k :: i + 6 <= k < j ==> White(s[k])) && !White(s[j])
  }

  predicate SkKeyAt(s: string, i: nat) {
    Stands(s, i, "sk-") && i + 3 < |s| && (LetterOrDigit(s[i + 3]) || s[i + 3] == '_' || s[i + 3] == '-')
  }

  predicate GitHubTokenAt(s: string, i: nat) {
    && Stands(s, i, "gh") && i + 4 < |s|
    && (|| AnyCase(s[i + 2], 'o') || AnyCase(s[i + 2], 'p') || AnyCase(s[i + 2], 'r')
        || AnyCase(s[i + 2], 's') || AnyCase(s[i + 2], 'u'))
    && s[i + 3] == '_' && LetterOrDigit(s[i + 4])
  }

  predicate AwsKeyAt(s: string, i: nat) {
    Stands(s, i, "akia") && i + 4 < |s| && LetterOrDigit(s[i + 4])
  }

  predicate SlackTokenAt(s: string, i: nat) {
    && Stands(s, i, "xox") && i + 5 < |s|
    && (AnyCase(s[i + 3], 'b') || AnyCase(s[i + 3], 'p') || AnyCase(s[i + 3], 'a'))
    && s[i + 4] == '-' && !White(s[i + 5])
  }

  /** A begin marker, somewhere after it an end marker, and five dashes after that on its line. */
  ghost predicate KeyBlockAt(s: string, i: nat, j: nat, k: nat) {
    && Stands(s, i, "-----begin") && i + 10 <= j && Stands(s, j, "-----end") && j + 8 <= k && Stands(s, k, "-----")
    && forall x :: j + 8 <= x < k ==> s[x] != '\n'
  }

  /** A secret of one of the six kinds stands in the text. */
  ghost predicate HoldsSecret(s: string) {
    || (exists i: nat, j: nat :: BearerAt(s, i, j))
    || (exists i: nat :: SkKeyAt(s, i))
    || (exists i: nat :: GitHubTokenAt(s, i))
    || (exists i: nat :: AwsKeyAt(s, i))
    || (exists i: nat :: SlackTokenAt(s, i))
    || (exists i: nat, j: nat, k: nat :: KeyBlockAt(s, i, j, k))
  }

  lemma ClassesAre(c: char, x: char)
    ensures !('A' <= x <= 'Z') && x as int !in {0x130, 0x131, 0x17F, 0x212A} ==> (In(Lit(x), c) <==> AnyCase(c, x))
    ensures In(Alnum, c) <==> LetterOrDigit(c)
    ensures In(AlnumDash, c) <==> LetterOrDigit(c) || c == '_' || c == '-'
    ensures In(Space, c) <==> White(c)
    ensures In(NonSpace, c) <==> !White(c)
  {
  }

  /** A word of a pattern: small letters, or no letters at all. */
  predicate Plain(w: string) {
    forall k :: 0 <= k < |w| ==> 'a' <= w[k] <= 'z' || w[k] == '-'
  }

  lemma {:induction false} WordStands(w: string, rest: Pattern, s: string, i: nat)
    requires Plain(w) && i <= |s|
    ensures Fits(Word(w) + rest, s[i..]) <==> Stands(s, i, w) && Fits(rest, s[i + |w|..])
    decreases |w|
  {
    hide In, Word, AnyCase;
    WordSplit(w, rest);
    if w != "" && i < |s| {
      ClassesAre(s[i], w[0]);
      assert s[i..][0] == s[i] && s[i..][1..] == s[i + 1..];
      WordStands(w[1..], rest, s, i + 1);
      StandsSplit(s, i, w);
    }
  }

  lemma StandsSplit(s: string, i: nat, w: string)
    requires w != "" && i < |s|
    ensures Stands(s, i, w) <==> AnyCase(s[i], w[0]) && Stands(s, i + 1, w[1..])
  {
    hide AnyCase;
    if Stands(s, i, w) {
      assert AnyCase(s[i + 0], w[0]);
      forall k | 0 <= k < |w[1..]| ensures AnyCase(s[i + 1 + k], w[1..][k]) {
        assert AnyCase(s[i + (k + 1)], w[k + 1]);
      }
    }
    if AnyCase(s[i], w[0]) && Stands(s, i + 1, w[1..]) {
      forall k | 0 <= k < |w| ensures AnyCase(s[i + k], w[k]) {
        if k > 0 { assert AnyCase(s[i + 1 + (k - 1)], w[1..][k - 1]); }
      }
    }
  }

  lemma OneThen(k: Class, rest: Pattern, s: string, i: nat)
    requires i <= |s|
    ensures Fits([One(k)] + rest, s[i..]) <==> i < |s| && In(k, s[i]) && Fits(rest, s[i + 1..])
  {
    hide In;
    assert ([One(k)] + rest)[1..] == rest;
    if i < |s| { assert s[i..][0] == s[i] && s[i..][1..] == s[i + 1..]; }
  }

  /** Any number of characters of the class, and then the rest. */
  ghost predicate RunTo(k: Class, s: string, i: nat, j: nat) {
    i <= j <= |s| && forall x :: i <= x < j ==> In(k, s[x])
  }

  lemma {:induction false} ManyThen(u: Unit, rest: Pattern, s: string, i: nat)
    requires (u.Star? || u.Lazy?) && i <= |s|
    ensures Fits([u] + rest, s[i..]) <==> exists j: nat :: RunTo(u.k, s, i, j) && Fits(rest, s[j..])
    decreases |s| - i
  {
    hide In;
    var p := [u] + rest;
    assert p[0] == u && p[1..] == rest;
    if i < |s| {
      assert s[i..][0] == s[i] && s[i..][1..] == s[i + 1..];
      ManyThen(u, rest, s, i + 1);
    }
    if Fits(p, s[i..]) {
      if Fits(rest, s[i..]) {
        assert RunTo(u.k, s, i, i);
      } else {
        var j: nat :| RunTo(u.k, s, i + 1, j) && Fits(rest, s[j..]);
        assert RunTo(u.k, s, i, j);
      }
    }
    if j: nat :| RunTo(u.k, s, i, j) && Fits(rest, s[j..]) {
      if i < j { assert RunTo(u.k, s, i + 1, j); }
    }
  }

  lemma PlusThen(k: Class, rest: Pattern, s: string, i: nat)
    requires i <= |s|
    ensures Fits([Plus(k)] + rest, s[i..]) <==>
            i < |s| && In(k, s[i]) && exists j: nat :: RunTo(k, s, i + 1, j) && Fits(rest, s[j..])
  {
    hide In;
    assert ([Plus(k)] + rest)[1..] == rest;
    if i < |s| {
      assert s[i..][0] == s[i] && s[i..][1..] == s[i + 1..];
      ManyThen(Star(k), rest, s, i + 1);
    }
  }

  /** One or more at the end of a pattern: one is enough. */
  lemma PlusLast(k: Class, s: string, i: nat)
    requires i <= |s|
    ensures Fits([Plus(k)], s[i..]) <==> i < |s| && In(k, s[i])
  {
    hide In;
    PlusThen(k, [], s, i);
    assert [Plus(k)] + [] == [Plus(k)];
    if i < |s| { assert RunTo(k, s, i + 1, i + 1); }
  }

  lemma BearerIff(s: string, i: nat)
    requires i <= |s|
    ensures Fits(Secret(0), s[i..]) <==> exists j: nat :: BearerAt(s, i, j)
  {
    hide Fits, Word, White, In, AnyCase;
    WordStands("bearer", [Plus(Space), Plus(NonSpace)], s, i);
    if Stands(s, i, "bearer") {
      PlusThen(Space, [Plus(NonSpace)], s, i + 6);
      assert [Plus(Space)] + [Plus(NonSpace)] == [Plus(Space), Plus(NonSpace)];
      forall j | i + 6 < j <= |s|
        ensures In(Space, s[i + 6]) && RunTo(Space, s, i + 7, j) && Fits([Plus(NonSpace)], s[j..])
           <==> BearerAt(s, i, j)
      {
        PlusLast(NonSpace, s, j);
        forall x | 0 <= x < |s| ensures (In(Space, s[x]) <==> White(s[x])) && (In(NonSpace, s[x]) <==> !White(s[x])) {
          ClassesAre(s[x], 'a');
        }
      }
    }
  }

  lemma SkKeyIff(s: string, i: nat)
    requires i <= |s|
    ensures Fits(Secret(1), s[i..]) <==> SkKeyAt(s, i)
  {
    hide Fits, Word, In, AnyCase, LetterOrDigit;
    WordStands("sk-", [Plus(AlnumDash)], s, i);
    if i + 3 <= |s| { PlusLast(AlnumDash, s, i + 3); }
    if i + 3 < |s| { ClassesAre(s[i + 3], 'a'); }
  }

  lemma GitHubTokenIff(s: string, i: nat)
    requires i <= |s|
    ensures Fits(Secret(2), s[i..]) <==> GitHubTokenAt(s, i)
  {
    hide Fits, Word, In, AnyCase, LetterOrDigit;
    var rest := [One(Lit('_')), Plus(Alnum)];
    assert [One(OneOf("oprsu"))] + rest == [One(OneOf("oprsu")), One(Lit('_')), Plus(Alnum)];
    assert [One(Lit('_'))] + [Plus(Alnum)] == rest;
    WordStands("gh", [One(OneOf("oprsu"))] + rest, s, i);
    if i + 2 <= |s| { OneThen(OneOf("oprsu"), rest, s, i + 2); }
    if i + 3 <= |s| {
      OneThen(Lit('_'), [Plus(Alnum)], s, i + 3);
      LetterOf(s[i + 2]);
    }
    if i + 4 <= |s| {
      PlusLast(Alnum, s, i + 4);
      ClassesAre(s[i + 3], '_');
      Symbol(s[i + 3]);
    }
    if i + 4 < |s| { ClassesAre(s[i + 4], 'a'); }
  }

  lemma LetterOf(c: char)
    ensures In(OneOf("oprsu"), c) <==>
            AnyCase(c, 'o') || AnyCase(c, 'p') || AnyCase(c, 'r') || AnyCase(c, 's') || AnyCase(c, 'u')
    ensures In(OneOf("bpa"), c) <==> AnyCase(c, 'b') || AnyCase(c, 'p') || AnyCase(c, 'a')
  {
    ClassesAre(c, 's');
  }

  lemma Symbol(c: char)
    ensures AnyCase(c, '_') <==> c == '_'
    ensures AnyCase(c, '-') <==> c == '-'
  {
  }

  lemma AwsKeyIff(s: string, i: nat)
    requires i <= |s|
    ensures Fits(Secret(3), s[i..]) <==> AwsKeyAt(s, i)
  {
    hide Fits, Word, In, AnyCase, LetterOrDigit;
    WordStands("akia", [Plus(Alnum)], s, i);
    if i + 4 <= |s| { PlusLast(Alnum, s, i + 4); }
    if i + 4 < |s| { ClassesAre(s[i + 4], 'a'); }
  }

  lemma SlackTokenIff(s: string, i: nat)
    requires i <= |s|
    ensures Fits(Secret(4), s[i..]) <==> SlackTokenAt(s, i)
  {
    hide Fits, Word, In, AnyCase, White;
    var rest := [One(Lit('-')), Plus(NonSpace)];
    assert [One(OneOf("bpa"))] + rest == [One(OneOf("bpa")), One(Lit('-')), Plus(NonSpace)];
    assert [One(Lit('-'))] + [Plus(NonSpace)] == rest;
    WordStands("xox", [One(OneOf("bpa"))] + rest, s, i);
    if i + 3 <= |s| { OneThen(OneOf("bpa"), rest, s, i + 3); }
    if i + 4 <= |s| {
      OneThen(Lit('-'), [Plus(NonSpace)], s, i + 4);
      LetterOf(s[i + 3]);
    }
    if i + 5 <= |s| {
      PlusLast(NonSpace, s, i + 5);
      ClassesAre(s[i + 4], '-');
      Symbol(s[i + 4]);
    }
    if i + 5 < |s| { ClassesAre(s[i + 5], 'a'); }
  }

  lemma KeyBlockIff(s: string, i: nat)
    requires i <= |s|
    ensures Fits(Secret(5), s[i..]) <==> exists j: nat, k: nat :: KeyBlockAt(s, i, j, k)
  {
    hide Fits, Word, AnyCase;
    var close := Word("-----");
    var end := Word("-----end") + [Star(NotNewline)] + close;
    WordStands("-----begin", BlockRest(), s, i);
    if Stands(s, i, "-----begin") {
      ManyThen(Lazy(Any), end, s, i + 10);
      forall j | 0 <= j <= |s|
        ensures Fits(end, s[j..]) <==> exists k: nat :: EndAt(s, j, k)
      {
        EndIff(s, j);
      }
      if j: nat :| RunTo(Any, s, i + 10, j) && Fits(end, s[j..]) {
        var k: nat :| EndAt(s, j, k);
        assert KeyBlockAt(s, i, j, k);
      }
      if j: nat, k: nat :| KeyBlockAt(s, i, j, k) {
        assert RunTo(Any, s, i + 10, j) && EndAt(s, j, k);
      }
    }
  }

  ghost predicate EndAt(s: string, j: nat, k: nat) {
    Stands(s, j, "-----end") && j + 8 <= k && Stands(s, k, "-----") && forall x :: j + 8 <= x < k ==> s[x] != '\n'
  }

  lemma EndIff(s: string, j: nat)
    requires j <= |s|
    ensures Fits(Word("-----end") + [Star(NotNewline)] + Word("-----"), s[j..]) <==> exists k: nat :: EndAt(s, j, k)
  {
    hide Fits, Word, AnyCase;
    var close := Word("-----");
    var tail := [Star(NotNewline)] + close;
    assert Word("-----end") + [Star(NotNewline)] + close == Word("-----end") + tail;
    WordStands("-----end", tail, s, j);
    if Stands(s, j, "-----end") {
      ManyThen(Star(NotNewline), close, s, j + 8);
      forall k | 0 <= k <= |s|
        ensures Fits(close, s[k..]) <==> Stands(s, k, "-----")
      {
        WordAlone("-----", s, k);
      }
      if k: nat :| RunTo(NotNewline, s, j + 8, k) && Fits(close, s[k..]) { assert EndAt(s, j, k); }
      if k: nat :| EndAt(s, j, k) { assert RunTo(NotNewline, s, j + 8, k); }
    }
  }

  lemma WordAlone(w: string, s: string, i: nat)
    requires Plain(w) && i <= |s|
    ensures Fits(Word(w), s[i..]) <==> Stands(s, i, w)
  {
    WordStands(w, [], s, i);
    assert Word(w) + [] == Word(w);
  }

  lemma BearerFound(s: string)
    ensures Search(Secret(0), s) <==> exists i: nat, j: nat :: BearerAt(s, i, j)
  {
    hide Fits, Search, Secret;
    SearchIffFits(Secret(0), s);
    if Search(Secret(0), s) {
      var i: nat :| i <= |s| && Fits(Secret(0), s[i..]);
      BearerIff(s, i);
    }
    if i: nat, j: nat :| BearerAt(s, i, j) { BearerIff(s, i); }
  }

  lemma KeyBlockFound(s: string)
    ensures Search(Secret(5), s) <==> exists i: nat, j: nat, k: nat :: KeyBlockAt(s, i, j, k)
  {
    hide Fits, Search, Secret;
    SearchIffFits(Secret(5), s);
    if Search(Secret(5), s) {
      var i: nat :| i <= |s| && Fits(Secret(5), s[i..]);
      KeyBlockIff(s, i);
    }
    if i: nat, j: nat, k: nat :| KeyBlockAt(s, i, j, k) { KeyBlockIff(s, i); }
  }

  /** The search for the six patterns finds exactly the texts that hold a secret. */
  lemma LooksUnredactedIff(s: string)
    ensures LooksUnredacted(s) <==> HoldsSecret(s)
  {
    hide Fits, Search, Secret, BearerAt, SkKeyAt, GitHubTokenAt, AwsKeyAt, SlackTokenAt, KeyBlockAt;
    BearerFound(s);
    KeyBlockFound(s);
    KeysInside(s);
    forall n | 1 <= n < 5
      ensures Search(Secret(n), s) <==> exists i :: 0 <= i <= |s| && Fits(Secret(n), s[i..])
    {
      SearchIffFits(Secret(n), s);
    }
    forall i | 0 <= i <= |s|
      ensures Fits(Secret(1), s[i..]) <==> SkKeyAt(s, i)
      ensures Fits(Secret(2), s[i..]) <==> GitHubTokenAt(s, i)
      ensures Fits(Secret(3), s[i..]) <==> AwsKeyAt(s, i)
      ensures Fits(Secret(4), s[i..]) <==> SlackTokenAt(s, i)
    {
      SkKeyIff(s, i);
      GitHubTokenIff(s, i);
      AwsKeyIff(s, i);
      SlackTokenIff(s, i);
    }
    assert Search(Secret(1), s) <==> exists i: nat :: SkKeyAt(s, i);
    assert Search(Secret(2), s) <==> exists i: nat :: GitHubTokenAt(s, i);
    assert Search(Secret(3), s) <==> exists i: nat :: AwsKeyAt(s, i);
    assert Search(Secret(4), s) <==> exists i: nat :: SlackTokenAt(s, i);
    assert LooksUnredacted(s) <==> (|| Search(Secret(0), s) || Search(Secret(1), s) || Search(Secret(2), s)
                                    || Search(Secret(3), s) || Search(Secret(4), s) || Search(Secret(5), s));
  }

  lemma KeysInside(s: string)
    ensures forall i: nat :: SkKeyAt(s, i) || GitHubTokenAt(s, i) || AwsKeyAt(s, i) || SlackTokenAt(s, i) ==> i <= |s|
  {
    hide AnyCase;
  }

  // ---------------------------------------------------------------- the module's functions

  method Sub(p: Pattern, s: string) returns (t: string)
    requires p != [] && p[0].One?
    ensures t == SubFrom(p, s, 0)
  {
    hide Ends;
    t := "";
    var i := 0;
    while i < |s|
      invariant i <= |s| && t + SubFrom(p, s, i) == SubFrom(p, s, 0)
    {
      var ends := Ends(p, s, i);
      if ends == [] {
        t, i := t + [s[i]], i + 1;
      } else {
        assert ends[0] in ends;
        t, i := t + REDACTED, ends[0];
      }
    }
  }

  /** Python's text[:n]; a negative n counts from the end. */
  function Cut(s: string, n: int): string {
    if n >= 0 then (if n < |s| then s[..n] else s)
    else if |s| + n > 0 then s[..|s| + n] else ""
  }

  /** The text after the first `n` passes. */
  function Scrub(s: string, n: nat): string
    requires n <= PATTERN_COUNT
  {
    if n == 0 then s
    else
      SecretFacts(n - 1);
      SubFrom(Secret(n - 1), Scrub(s, n - 1), 0)
  }

  /** Whatever the text and the length, no secret pattern is left in the preview. */
  method RedactPreview(text: string, maxLen: int) returns (preview: string)
    ensures !HoldsSecret(preview) && !LooksUnredacted(preview)
    ensures preview == Cut(Scrub(text, PATTERN_COUNT), maxLen)
    ensures !HoldsSecret(text) ==> preview == Cut(text, maxLen)
  {
    hide Secret, Search, SubFrom, HoldsSecret;
    LooksUnredactedIff(text);
    var redacted := text;
    for n := 0 to PATTERN_COUNT
      invariant redacted == Scrub(text, n)
      invariant forall k :: 0 <= k < n ==> !Search(Secret(k), redacted)
      invariant !LooksUnredacted(text) ==> redacted == text
    {
      SecretFacts(n);
      PassClears(n, redacted);
      forall k | 0 <= k < n ensures !Search(Secret(k), SubFrom(Secret(n), redacted, 0)) {
        PassKeepsClear(k, n, redacted);
      }
      if !Search(Secret(n), redacted) { CleanUnchanged(n, redacted); }
      redacted := Sub(Secret(n), redacted);
    }
    preview := Cut(redacted, maxLen);
    forall k | 0 <= k < PATTERN_COUNT ensures !Search(Secret(k), preview) {
      CutClear(Secret(k), redacted, maxLen);
    }
    LooksUnredactedIff(preview);
  }

  lemma CutClear(q: Pattern, s: string, n: int)
    requires !Search(q, s)
    ensures !Search(q, Cut(s, n))
  {
    hide Search;
    CutKeepsClear(q, s, |Cut(s, n)|);
    assert Cut(s, n) == s[..|Cut(s, n)|];
  }

  lemma CleanUnchanged(n: nat, s: string)
    requires n < PATTERN_COUNT && !Search(Secret(n), s)
    ensures Visible(Secret(n)) && SubFrom(Secret(n), s, 0) == s
  {
    hide Secret;
    SecretFacts(n);
    NothingToReplace(Secret(n), s, 0);
    assert s[0..] == s;
  }
}
