/**
  The gateway's own look at a preview: it rejects one that contains, in lower case,
  any of a list of bare markers. The Python patterns ask for more than the marker, so
  the two do not agree; what comes through redaction and is rejected is characterized
  exactly.
 */
module Markers {
  import opened Redaction

  const MARKERS :=
    ["bearer ", "sk-", "ghp_", "gho_", "ghu_", "ghs_", "ghr_", "akia", "xoxb-", "xoxp-", "xoxa-", "-----begin"]

  /**
    Lower case as the gateway computes it, as far as it can matter: the Kelvin sign
    becomes a k, the dotted capital I an i and a combining dot, and no other letter
    outside ASCII becomes one inside.
   */
  function LowerChar(c: char): string {
    if c == '\U{130}' then ['i', '\U{307}'] else [Plain(c)]
  }

  function Plain(c: char): char {
    if 'A' <= c <= 'Z' then (c as int + 32) as char else if c == '\U{212A}' then 'k' else c
  }

  function Lower(s: string): string {
    if s == "" then "" else LowerChar(s[0]) + Lower(s[1..])
  }

  ghost predicate Contains(t: string, w: string) {
    exists i :: 0 <= i <= |t| && w <= t[i..]
  }

  /** looks_unredacted of the gateway. */
  ghost predicate GatewayRejects(preview: string) {
    exists w :: w in MARKERS && Contains(Lower(preview), w)
  }

  /** The marker stands at place `i` of the text, in whatever case. */
  predicate MarkerAt(s: string, i: nat, w: string) {
    i + |w| <= |s| && forall d :: 0 <= d < |w| ==> Plain(s[i + d]) == w[d]
  }

  // ---------------------------------------------------------------- lower case, place by place

  /** A marker that no lower-casing can produce but letter by letter. */
  predicate Steady(w: string) {
    && (forall d :: 0 <= d < |w| ==> w[d] != '\U{307}' && w[d] != '\U{130}' && w[d] != '[')
    && (w != "" ==> w[|w| - 1] != 'i')
  }

  lemma {:induction false} LowerStarts(s: string, w: string)
    requires Steady(w)
    ensures w <= Lower(s) <==> MarkerAt(s, 0, w)
    decreases |w|
  {
    if w != "" && s != "" {
      var t := Lower(s);
      if s[0] == '\U{130}' {
        assert t[0] == 'i' && t[1] == '\U{307}';
      } else {
        assert t == [Plain(s[0])] + Lower(s[1..]) && t[1..] == Lower(s[1..]);
        LowerStarts(s[1..], w[1..]);
        assert w == [w[0]] + w[1..];
        assert MarkerAt(s, 0, w) ==> MarkerAt(s[1..], 0, w[1..]);
        if MarkerAt(s[1..], 0, w[1..]) && Plain(s[0]) == w[0] {
          forall d | 0 <= d < |w|
            ensures Plain(s[d]) == w[d]
          {
            if d > 0 { assert Plain(s[1..][d - 1]) == w[1..][d - 1]; }
          }
        }
      }
    }
  }

  /** The lowered text contains the marker exactly if it stands somewhere in the text. */
  lemma {:induction false} ContainsIff(s: string, w: string)
    requires Steady(w) && w != ""
    ensures Contains(Lower(s), w) <==> exists i: nat :: MarkerAt(s, i, w)
  {
    hide Lower, Steady, MarkerAt;
    LowerStarts(s, w);
    if s == "" {
      Nowhere(w);
    } else {
      ContainsIff(s[1..], w);
      ContainsStep(s, w);
      if m: nat :| MarkerAt(s, m, w) && m > 0 { Moved(s, s[1..], 1, m - 1, w); }
      if m: nat :| MarkerAt(s[1..], m, w) { Moved(s, s[1..], 1, m, w); }
    }
  }

  lemma Nowhere(w: string)
    requires w != ""
    ensures !Contains(Lower(""), w) && forall i: nat :: !MarkerAt("", i, w)
  {
  }

  /** A marker in the lowered text is at its start or in the lowered rest. */
  lemma ContainsStep(s: string, w: string)
    requires Steady(w) && w != "" && s != ""
    ensures Contains(Lower(s), w) <==> w <= Lower(s) || Contains(Lower(s[1..]), w)
  {
    var t, rest, n := Lower(s), Lower(s[1..]), |LowerChar(s[0])|;
    assert t == LowerChar(s[0]) + rest && (n == 2 ==> t[1] == '\U{307}');
    assert w[0] != '\U{307}';
    hide Lower, LowerChar, Steady;
    assert t[0..] == t && t[n..] == rest;
    forall i | 0 < i <= |t| && w <= t[i..]
      ensures Contains(rest, w)
    {
      assert i < |t| && t[i..][0] == t[i] && w[0] == t[i];
      assert t[i..] == rest[i - n..];
    }
    forall i | 0 <= i <= |rest| && w <= rest[i..]
      ensures Contains(t, w)
    {
      assert t[n + i..] == rest[i..];
    }
  }

  lemma Moved(t: string, rest: string, n: nat, j: nat, w: string)
    requires n <= |t| && rest == t[n..]
    ensures MarkerAt(t, n + j, w) <==> MarkerAt(rest, j, w)
  {
    if MarkerAt(t, n + j, w) {
      forall d | 0 <= d < |w|
        ensures Plain(rest[j + d]) == w[d]
      {
        assert rest[j + d] == t[n + j + d];
      }
    }
    if MarkerAt(rest, j, w) {
      forall d | 0 <= d < |w|
        ensures Plain(t[n + j + d]) == w[d]
      {
        assert rest[j + d] == t[n + j + d];
      }
    }
  }

  // ---------------------------------------------------------------- where the characters of a preview come from

  const BLANK: seq<int> := [-1, -1, -1, -1, -1, -1, -1, -1, -1, -1]

  /** For each character a pass puts out, the place it was copied from, or -1 for a replacement. */
  function Origins(p: Pattern, s: string, i: nat): seq<int>
    requires i <= |s| && p != [] && p[0].One?
    decreases |s| - i
  {
    if i == |s| then []
    else
      var ends := Ends(p, s, i);
      if ends == [] then [i] + Origins(p, s, i + 1)
      else
        assert ends[0] in ends;
        BLANK + Origins(p, s, ends[0])
  }

  /** A copied character is the one at its origin, and two next to each other were next to each other. */
  lemma {:induction false} OriginsRight(p: Pattern, s: string, i: nat)
    requires i <= |s| && p != [] && p[0].One?
    ensures var o, t := Origins(p, s, i), SubFrom(p, s, i);
            && |o| == |t|
            && (forall j :: 0 <= j < |o| ==> o[j] == -1 || (i <= o[j] < |s| && t[j] == s[o[j]]))
            && (forall j :: 0 < j < |o| && o[j - 1] >= 0 && o[j] >= 0 ==> o[j] == o[j - 1] + 1)
            && (|o| > 0 && o[0] >= 0 ==> o[0] == i)
    decreases |s| - i
  {
    hide Ends;
    if i < |s| {
      var ends := Ends(p, s, i);
      if ends == [] {
        OriginsRight(p, s, i + 1);
      } else {
        assert ends[0] in ends;
        OriginsRight(p, s, ends[0]);
      }
    }
  }

  /** A marker as the gateway has them: steady, and unlike any part of a replacement. */
  predicate Sturdy(w: string) {
    && |w| >= 2 && Steady(w) && w[0] != ']'
    && forall k :: 0 <= k < 9 ==> "[redacted]"[k] != w[0] || "[redacted]"[k + 1] != w[1]
  }

  lemma PlainRedacted(k: nat)
    requires k < 10
    ensures Plain(REDACTED[k]) == "[redacted]"[k]
  {
  }

  /** Places j to j + n of the output come from places m to m + n, all of them copied. */
  predicate Piece(o: seq<int>, j: nat, m: int, n: nat) {
    j + n <= |o| && m >= 0 && forall k :: j <= k < j + n ==> o[k] == m + (k - j)
  }

  /** What starts at a copied character and has no bracket in it was copied as one piece. */
  lemma {:induction false} StartWhole(p: Pattern, s: string, i: nat, w: string)
    requires i <= |s| && p != [] && p[0].One? && Steady(w) && MarkerAt(SubFrom(p, s, i), 0, w)
    ensures Piece(Origins(p, s, i), 0, i, |w|)
    decreases |w|
  {
    hide Ends;
    if w != "" {
      var t := SubFrom(p, s, i);
      assert Plain(t[0]) == w[0];
      SubStep(p, s, i);
      assert Copied(p, s, i);
      forall d | 0 <= d < |w[1..]|
        ensures Plain(t[1..][d]) == w[1..][d]
      {
        assert t[1..][d] == t[d + 1];
      }
      assert MarkerAt(SubFrom(p, s, i + 1), 0, w[1..]);
      StartWhole(p, s, i + 1, w[1..]);
    }
  }

  /** A marker in the output of a pass was copied as one piece. */
  lemma {:induction false} MarkerWhole(p: Pattern, s: string, i: nat, j: nat, w: string) returns (m: nat)
    requires i <= |s| && p != [] && p[0].One? && Sturdy(w) && MarkerAt(SubFrom(p, s, i), j, w)
    ensures Piece(Origins(p, s, i), j, m, |w|)
    decreases |s| - i
  {
    hide Ends, REDACTED, MarkerAt, Steady, SubFrom, Origins, Piece, Sturdy;
    NonEmpty(p, s, i, j, w);
    SturdyIsSteady(w);
    OutputStep(p, s, i);
    if Copied(p, s, i) {
      if j == 0 {
        StartWhole(p, s, i, w);
        m := i;
      } else {
        Moved(SubFrom(p, s, i), SubFrom(p, s, i + 1), 1, j - 1, w);
        m := MarkerWhole(p, s, i + 1, j - 1, w);
        PieceMoved(Origins(p, s, i), Origins(p, s, i + 1), 1, j - 1, m, |w|);
      }
    } else {
      var e := Ends(p, s, i)[0];
      NotInside(SubFrom(p, s, e), j, w);
      Moved(SubFrom(p, s, i), SubFrom(p, s, e), 10, j - 10, w);
      m := MarkerWhole(p, s, e, j - 10, w);
      PieceMoved(Origins(p, s, i), Origins(p, s, e), 10, j - 10, m, |w|);
    }
  }

  lemma NonEmpty(p: Pattern, s: string, i: nat, j: nat, w: string)
    requires i <= |s| && p != [] && p[0].One? && Sturdy(w) && MarkerAt(SubFrom(p, s, i), j, w)
    ensures i < |s|
  {
  }

  /** The output of a pass and its origins, one character or one replacement on. */
  lemma OutputStep(p: Pattern, s: string, i: nat)
    requires i < |s| && p != [] && p[0].One?
    ensures var t, o := SubFrom(p, s, i), Origins(p, s, i);
            if Copied(p, s, i) then
              && |t| >= 1 && t[1..] == SubFrom(p, s, i + 1) && |o| >= 1 && o[1..] == Origins(p, s, i + 1)
            else
              var e := Ends(p, s, i)[0];
              && i < e <= |s| && t == REDACTED + SubFrom(p, s, e)
              && |t| >= 10 && t[10..] == SubFrom(p, s, e) && |o| >= 10 && o[10..] == Origins(p, s, e)
  {
    var ends := Ends(p, s, i);
    hide Ends;
    if ends != [] { assert ends[0] in ends; }
  }

  lemma PieceMoved(o: seq<int>, rest: seq<int>, n: nat, j: nat, m: int, len: nat)
    requires n <= |o| && rest == o[n..] && Piece(rest, j, m, len)
    ensures Piece(o, n + j, m, len)
  {
    forall k | n + j <= k < n + j + len
      ensures o[k] == m + (k - (n + j))
    {
      assert o[k] == rest[k - n];
    }
  }

  lemma NotInside(rest: string, j: nat, w: string)
    requires Sturdy(w) && MarkerAt(REDACTED + rest, j, w)
    ensures j >= 10 && |REDACTED| == 10
  {
    var t := REDACTED + rest;
    assert Plain(t[j + 0]) == w[0] && Plain(t[j + 1]) == w[1];
    if j < 10 {
      assert t[j] == REDACTED[j];
      PlainRedacted(j);
      if j < 9 {
        assert t[j + 1] == REDACTED[j + 1];
        PlainRedacted(j + 1);
      }
    }
  }

  // ---------------------------------------------------------------- through all the passes

  /** Origins of origins. */
  function Through(o: seq<int>, sources: seq<int>): (r: seq<int>)
    ensures |r| == |o|
    ensures forall j :: 0 <= j < |o| ==> r[j] == if 0 <= o[j] < |sources| then sources[o[j]] else -1
  {
    seq(|o|, j requires 0 <= j < |o| => if 0 <= o[j] < |sources| then sources[o[j]] else -1)
  }

  /** For each character after `n` passes, its place in the text, or -1 if a pass put it there. */
  function Sources(text: string, n: nat): seq<int>
    requires n <= PATTERN_COUNT
  {
    if n == 0 then seq(|text|, i => i)
    else
      SecretFacts(n - 1);
      Through(Origins(Secret(n - 1), Scrub(text, n - 1), 0), Sources(text, n - 1))
  }

  lemma SourcesStep(text: string, n: nat)
    requires 0 < n <= PATTERN_COUNT
    ensures Visible(Secret(n - 1)) && Scrub(text, n) == SubFrom(Secret(n - 1), Scrub(text, n - 1), 0)
    ensures Sources(text, n) == Through(Origins(Secret(n - 1), Scrub(text, n - 1), 0), Sources(text, n - 1))
  {
    hide Secret, SubFrom, Origins, Through;
    SecretFacts(n - 1);
  }

  /** One pass: a marker in its output is a piece of its input, where the marker stood. */
  lemma PassPiece(p: Pattern, s: string, j: nat, w: string) returns (o: nat)
    requires p != [] && p[0].One? && Sturdy(w) && MarkerAt(SubFrom(p, s, 0), j, w)
    ensures Piece(Origins(p, s, 0), j, o, |w|) && MarkerAt(s, o, w)
  {
    hide Ends, Steady, SubFrom, Origins;
    OriginsRight(p, s, 0);
    o := MarkerWhole(p, s, 0, j, w);
    var origins, t := Origins(p, s, 0), SubFrom(p, s, 0);
    forall d | 0 <= d < |w|
      ensures o + d < |s| && Plain(s[o + d]) == w[d]
    {
      assert origins[j + d] == o + d;
      assert t[j + d] == s[o + d];
    }
    assert origins[j + (|w| - 1)] == o + (|w| - 1);
  }

  lemma PieceThrough(o: seq<int>, sources: seq<int>, j: nat, a: nat, m: nat, n: nat)
    requires Piece(o, j, a, n) && Piece(sources, a, m, n)
    ensures Piece(Through(o, sources), j, m, n)
  {
    forall k | j <= k < j + n
      ensures Through(o, sources)[k] == m + (k - j)
    {
      assert o[k] == a + (k - j);
      assert sources[a + (k - j)] == m + (k - j);
    }
  }

  /** A marker stands in the scrubbed text exactly where a marker of the text came through in one piece. */
  lemma {:induction false} SurvivesIff(text: string, n: nat, j: nat, w: string)
    requires n <= PATTERN_COUNT && Sturdy(w)
    ensures MarkerAt(Scrub(text, n), j, w) <==>
            exists m: nat :: Piece(Sources(text, n), j, m, |w|) && MarkerAt(text, m, w)
  {
    hide Sources, Scrub, Secret, Sturdy, MarkerAt;
    if MarkerAt(Scrub(text, n), j, w) {
      var m := Survived(text, n, j, w);
    }
    forall m: nat | Piece(Sources(text, n), j, m, |w|) && MarkerAt(text, m, w)
      ensures MarkerAt(Scrub(text, n), j, w)
    {
      ComesThrough(text, n, j, w, m);
    }
  }

  lemma {:induction false} Survived(text: string, n: nat, j: nat, w: string) returns (m: nat)
    requires n <= PATTERN_COUNT && Sturdy(w) && MarkerAt(Scrub(text, n), j, w)
    ensures Piece(Sources(text, n), j, m, |w|) && MarkerAt(text, m, w)
    decreases n
  {
    hide Secret, Ends, SubFrom, Origins, Through, Steady;
    if n == 0 {
      m := j;
    } else {
      SourcesStep(text, n);
      var p, s := Secret(n - 1), Scrub(text, n - 1);
      var o := PassPiece(p, s, j, w);
      m := Survived(text, n - 1, o, w);
      PieceThrough(Origins(p, s, 0), Sources(text, n - 1), j, o, m, |w|);
    }
  }

  lemma ComesThrough(text: string, n: nat, j: nat, w: string, m: nat)
    requires n <= PATTERN_COUNT && Piece(Sources(text, n), j, m, |w|) && MarkerAt(text, m, w)
    ensures MarkerAt(Scrub(text, n), j, w)
  {
    hide Sources, Scrub;
    SourceRight(text, n);
    forall d | 0 <= d < |w|
      ensures Plain(Scrub(text, n)[j + d]) == w[d]
    {
      assert Sources(text, n)[j + d] == m + d;
    }
  }

  /** A character that came through is the one it was. */
  lemma {:induction false} SourceRight(text: string, n: nat)
    requires n <= PATTERN_COUNT
    ensures |Sources(text, n)| == |Scrub(text, n)|
    ensures forall k :: 0 <= k < |Sources(text, n)| && Sources(text, n)[k] >= 0
                        ==> Sources(text, n)[k] < |text| && Scrub(text, n)[k] == text[Sources(text, n)[k]]
  {
    hide Secret, SubFrom, Origins;
    if n > 0 {
      SourcesStep(text, n);
      OriginsRight(Secret(n - 1), Scrub(text, n - 1), 0);
      SourceRight(text, n - 1);
      SourceStep(Origins(Secret(n - 1), Scrub(text, n - 1), 0), Sources(text, n - 1), text, Scrub(text, n - 1),
                 Scrub(text, n));
    }
  }

  lemma SourceStep(o: seq<int>, sources: seq<int>, text: string, s: string, t: string)
    requires |o| == |t| && |sources| == |s|
    requires forall k :: 0 <= k < |o| ==> o[k] == -1 || (0 <= o[k] < |s| && t[k] == s[o[k]])
    requires forall k :: 0 <= k < |sources| && sources[k] >= 0 ==> sources[k] < |text| && s[k] == text[sources[k]]
    ensures forall k :: 0 <= k < |o| && Through(o, sources)[k] >= 0
                        ==> Through(o, sources)[k] < |text| && t[k] == text[Through(o, sources)[k]]
  {
  }

  // ---------------------------------------------------------------- what the gateway makes of a preview

  lemma MarkersSturdy(w: string)
    requires w in MARKERS
    ensures Sturdy(w)
  {
    var i :| 0 <= i < |MARKERS| && MARKERS[i] == w;
  }

  /** A marker of the text reaches the preview: copied whole by all six passes, and not cut off. */
  ghost predicate Reaches(text: string, maxLen: int, m: nat, w: string) {
    exists j: nat ::
      Piece(Sources(text, PATTERN_COUNT), j, m, |w|) && j + |w| <= |Cut(Scrub(text, PATTERN_COUNT), maxLen)|
  }

  /** The gateway rejects a preview exactly if some marker of the text reaches it. */
  lemma RejectsIff(text: string, maxLen: int)
    ensures GatewayRejects(Cut(Scrub(text, PATTERN_COUNT), maxLen)) <==>
            exists w, m: nat :: w in MARKERS && MarkerAt(text, m, w) && Reaches(text, maxLen, m, w)
  {
    hide MARKERS, Sturdy, Steady, Scrub, Sources, Piece;
    var scrubbed := Scrub(text, PATTERN_COUNT);
    var preview := Cut(scrubbed, maxLen);
    forall w | w in MARKERS
      ensures Contains(Lower(preview), w) <==> exists m: nat :: MarkerAt(text, m, w) && Reaches(text, maxLen, m, w)
    {
      MarkersSturdy(w);
      RejectedFor(text, maxLen, w);
    }
  }

  lemma RejectedFor(text: string, maxLen: int, w: string)
    requires Sturdy(w)
    ensures Contains(Lower(Cut(Scrub(text, PATTERN_COUNT), maxLen)), w) <==>
            exists m: nat :: MarkerAt(text, m, w) && Reaches(text, maxLen, m, w)
  {
    hide Scrub, Sources, Lower, Contains;
    var scrubbed := Scrub(text, PATTERN_COUNT);
    var preview := Cut(scrubbed, maxLen);
    ContainsIff(preview, w);
    forall j: nat
      ensures MarkerAt(preview, j, w) <==> j + |w| <= |preview| && MarkerAt(scrubbed, j, w)
    {
      assert preview == scrubbed[..|preview|];
    }
    if j: nat :| MarkerAt(preview, j, w) {
      SurvivesIff(text, PATTERN_COUNT, j, w);
    }
    if m: nat :| MarkerAt(text, m, w) && Reaches(text, maxLen, m, w) {
      var j: nat :| Piece(Sources(text, PATTERN_COUNT), j, m, |w|) && j + |w| <= |preview|;
      SurvivesIff(text, PATTERN_COUNT, j, w);
    }
  }

  /** On a text clean to the patterns, what the gateway rejects is a marker that stands before the cut. */
  lemma CleanRejectsIff(text: string, maxLen: int)
    requires !LooksUnredacted(text)
    ensures GatewayRejects(Cut(Scrub(text, PATTERN_COUNT), maxLen)) <==>
            exists w, m: nat :: w in MARKERS && MarkerAt(Cut(text, maxLen), m, w)
  {
    hide MARKERS, Scrub, Sturdy, Steady, Lower, Contains;
    ScrubKeepsClean(text, PATTERN_COUNT);
    var preview := Cut(text, maxLen);
    forall w | w in MARKERS
      ensures Contains(Lower(preview), w) <==> exists m: nat :: MarkerAt(preview, m, w)
    {
      MarkersSturdy(w);
      SturdyIsSteady(w);
      ContainsIff(preview, w);
    }
  }

  lemma SturdyIsSteady(w: string)
    requires Sturdy(w)
    ensures Steady(w) && w != ""
  {
  }

  lemma {:induction false} ScrubKeepsClean(text: string, n: nat)
    requires n <= PATTERN_COUNT && !LooksUnredacted(text)
    ensures Scrub(text, n) == text
  {
    hide Secret, Search, SubFrom;
    if n > 0 {
      ScrubKeepsClean(text, n - 1);
      assert !Search(Secret(n - 1), text);
      CleanUnchanged(n - 1, text);
    }
  }

  /** How many characters a match takes at least. */
  function Least(p: Pattern): nat {
    if p == [] then 0 else (if p[0].One? || p[0].Plus? then 1 else 0) + Least(p[1..])
  }

  lemma {:induction false} FitsNeeds(p: Pattern, t: string)
    requires Fits(p, t)
    ensures |t| >= Least(p)
    decreases |p|, |t|
  {
    hide In;
    if p != [] {
      var more := t != "" && In(p[0].k, t[0]);
      match p[0]
      case One(_) => FitsNeeds(p[1..], t[1..]);
      case Plus(k) =>
        assert ([Star(k)] + p[1..])[1..] == p[1..];
        FitsNeeds([Star(k)] + p[1..], t[1..]);
      case Star(_) => if more && Fits(p, t[1..]) { FitsNeeds(p, t[1..]); } else { FitsNeeds(p[1..], t); }
      case Lazy(_) => if Fits(p[1..], t) { FitsNeeds(p[1..], t); } else { FitsNeeds(p, t[1..]); }
    }
  }

  lemma {:induction false} LeastOfWord(w: string, rest: Pattern)
    ensures Least(Word(w) + rest) >= |w| + Least(rest)
  {
    hide Word;
    WordSplit(w, rest);
    if w != "" { LeastOfWord(w[1..], rest); }
  }

  lemma SecretsAreLonger(n: nat)
    requires n < PATTERN_COUNT
    ensures Least(Secret(n)) >= 4
  {
    if n == 0 { LeastOfWord("bearer", [Plus(Space), Plus(NonSpace)]); }
    else if n == 1 { LeastOfWord("sk-", [Plus(AlnumDash)]); assert Least([Plus(AlnumDash)]) == 1; }
    else if n == 2 {
      var rest := [One(OneOf("oprsu")), One(Lit('_')), Plus(Alnum)];
      LeastOfWord("gh", rest);
      assert Least(rest) == 1 + Least(rest[1..]) && Least(rest[1..]) >= 1;
    }
    else if n == 3 { LeastOfWord("akia", [Plus(Alnum)]); }
    else if n == 4 {
      var rest := [One(OneOf("bpa")), One(Lit('-')), Plus(NonSpace)];
      LeastOfWord("xox", rest);
      assert Least(rest) >= 1;
    }
    else { LeastOfWord("-----begin", BlockRest()); }
  }

  /** A text too short for any of the six patterns. */
  lemma ShortIsClean(text: string)
    requires |text| < 4
    ensures !LooksUnredacted(text)
  {
    hide Secret, Fits;
    forall n | 0 <= n < PATTERN_COUNT
      ensures !Search(Secret(n), text)
    {
      SearchIffFits(Secret(n), text);
      SecretsAreLonger(n);
      forall i | 0 <= i <= |text|
        ensures !Fits(Secret(n), text[i..])
      {
        if Fits(Secret(n), text[i..]) { FitsNeeds(Secret(n), text[i..]); }
      }
    }
  }

  /** The two lists do not agree: this preview is clean to the patterns and rejected by the gateway. */
  lemma CleanButRejected()
    ensures !LooksUnredacted("sk-") && GatewayRejects("sk-")
  {
    hide LooksUnredacted;
    ShortIsClean("sk-");
    assert MARKERS[1] == "sk-";
    MarkersSturdy("sk-");
    assert MarkerAt("sk-", 0, "sk-");
    ContainsIff("sk-", "sk-");
  }
}
