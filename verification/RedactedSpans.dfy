/**
  Which stretch of a text a redaction pass replaces: the whole token, not a part of it.
  Python's greedy and lazy quantifiers decide that, and both are characterized by what
  the backtracking search tries first.
 */
module RedactedSpans {
  import opened Redaction

  // ---------------------------------------------------------------- what is tried first

  lemma EndsAfterOne(k: Class, rest: Pattern, s: string, i: nat)
    requires i <= |s|
    ensures Ends([One(k)] + rest, s, i) == if i < |s| && In(k, s[i]) then Ends(rest, s, i + 1) else []
  {
    hide In;
    assert ([One(k)] + rest)[1..] == rest;
  }

  lemma {:induction false} EndsAfterWord(w: string, rest: Pattern, s: string, i: nat)
    requires Plain(w) && i <= |s|
    ensures Ends(Word(w) + rest, s, i) == if Stands(s, i, w) then Ends(rest, s, i + |w|) else []
    decreases |w|
  {
    hide In, Ends, AnyCase;
    if w == "" {
      assert Word(w) + rest == rest;
    } else {
      var more := Word(w[1..]) + rest;
      assert Word(w) + rest == [One(Lit(w[0]))] + more;
      EndsAfterOne(Lit(w[0]), more, s, i);
      if i < |s| {
        ClassesAre(s[i], w[0]);
        EndsAfterWord(w[1..], rest, s, i + 1);
        StandsSplit(s, i, w);
      }
    }
  }

  lemma EndsAfterPlus(k: Class, rest: Pattern, s: string, i: nat)
    requires i <= |s|
    ensures Ends([Plus(k)] + rest, s, i) == if i < |s| && In(k, s[i]) then Ends([Star(k)] + rest, s, i + 1) else []
  {
    hide In;
    assert ([Plus(k)] + rest)[1..] == rest;
  }

  /** Without a match of the whole, the rest matches nowhere the run can reach. */
  lemma NoneReached(u: Unit, rest: Pattern, s: string, i: nat, x: nat)
    requires (u.Star? || u.Lazy?) && i <= |s| && Ends([u] + rest, s, i) == [] && RunTo(u.k, s, i, x)
    ensures Ends(rest, s, x) == []
  {
    hide In, Ends, Fits;
    MatchIffFits([u] + rest, s, i);
    ManyThen(u, rest, s, i);
    MatchIffFits(rest, s, x);
  }

  /** As many as possible: the first match goes on from the last place the rest matches at. */
  lemma {:induction false} GreedyFirst(k: Class, rest: Pattern, s: string, i: nat) returns (j: nat)
    requires i <= |s| && Ends([Star(k)] + rest, s, i) != []
    ensures RunTo(k, s, i, j) && Ends(rest, s, j) != [] && Ends([Star(k)] + rest, s, i)[0] == Ends(rest, s, j)[0]
    ensures forall x: nat :: x > j && RunTo(k, s, i, x) ==> Ends(rest, s, x) == []
    decreases |s| - i
  {
    hide In;
    var p := [Star(k)] + rest;
    assert p[1..] == rest;
    if i < |s| && In(k, s[i]) && Ends(p, s, i + 1) != [] {
      j := GreedyFirst(k, rest, s, i + 1);
      assert forall x: nat :: x > j && RunTo(k, s, i, x) ==> RunTo(k, s, i + 1, x);
    } else {
      j := i;
      forall x: nat | x > j && RunTo(k, s, i, x)
        ensures Ends(rest, s, x) == []
      {
        NoneReached(Star(k), rest, s, i + 1, x);
      }
    }
  }

  /** As few as possible: it goes on from the first such place. */
  lemma {:induction false} LazyFirst(k: Class, rest: Pattern, s: string, i: nat) returns (j: nat)
    requires i <= |s| && Ends([Lazy(k)] + rest, s, i) != []
    ensures RunTo(k, s, i, j) && Ends(rest, s, j) != [] && Ends([Lazy(k)] + rest, s, i)[0] == Ends(rest, s, j)[0]
    ensures forall x: nat :: i <= x < j ==> Ends(rest, s, x) == []
    decreases |s| - i
  {
    hide In;
    assert ([Lazy(k)] + rest)[1..] == rest;
    if Ends(rest, s, i) != [] {
      j := i;
    } else {
      j := LazyFirst(k, rest, s, i + 1);
    }
  }

  // ---------------------------------------------------------------- whole tokens

  /** The characters the end of a token of kind `n` is made of. */
  predicate TailChar(n: nat, c: char) {
    if n == 1 then LetterOrDigit(c) || c == '_' || c == '-'
    else if n == 2 || n == 3 then LetterOrDigit(c)
    else !White(c)
  }

  /** From `j` to `e` there are such characters and nothing else, and no further one follows. */
  ghost predicate Tail(n: nat, s: string, j: nat, e: nat) {
    j < e <= |s| && (forall x :: j <= x < e ==> TailChar(n, s[x])) && (e < |s| ==> !TailChar(n, s[e]))
  }

  /** A key block from `i` on, its end marker the first that will do and its closing dashes the last. */
  ghost predicate WholeBlock(s: string, i: nat, j: nat, k: nat) {
    && KeyBlockAt(s, i, j, k)
    && (forall x: nat, y: nat :: x < j ==> !KeyBlockAt(s, i, x, y))
    && (forall y: nat :: y > k ==> !KeyBlockAt(s, i, j, y))
  }

  /** The secret of kind `n` that starts at `i` reaches to `e`. */
  ghost predicate Whole(n: nat, s: string, i: nat, e: nat) {
    match n
    case 0 => exists j: nat :: BearerAt(s, i, j) && Tail(0, s, j, e)
    case 1 => SkKeyAt(s, i) && Tail(1, s, i + 3, e)
    case 2 => GitHubTokenAt(s, i) && Tail(2, s, i + 4, e)
    case 3 => AwsKeyAt(s, i) && Tail(3, s, i + 4, e)
    case 4 => SlackTokenAt(s, i) && Tail(4, s, i + 5, e)
    case _ => exists j: nat, k: nat :: WholeBlock(s, i, j, k) && e == k + 5
  }

  function TailClass(n: nat): Class {
    if n == 1 then AlnumDash else if n == 2 || n == 3 then Alnum else NonSpace
  }

  lemma TailClassIs(n: nat, c: char)
    ensures In(TailClass(n), c) <==> TailChar(n, c)
  {
    ClassesAre(c, 'a');
  }

  /** One or more at the end of a pattern takes all there are. */
  lemma TailFirst(n: nat, s: string, i: nat)
    requires i <= |s| && Ends([Plus(TailClass(n))], s, i) != []
    ensures Tail(n, s, i, Ends([Plus(TailClass(n))], s, i)[0])
  {
    hide In, TailClass, TailChar;
    var k := TailClass(n);
    assert [Plus(k)] + [] == [Plus(k)];
    EndsAfterPlus(k, [], s, i);
    var e := GreedyFirst(k, [], s, i + 1);
    forall x | 0 <= x < |s| ensures In(k, s[x]) <==> TailChar(n, s[x]) { TailClassIs(n, s[x]); }
    assert !RunTo(k, s, i + 1, e + 1);
    RunStops(k, s, i + 1, e);
  }

  lemma RunStops(k: Class, s: string, i: nat, e: nat)
    requires RunTo(k, s, i, e) && !RunTo(k, s, i, e + 1)
    ensures e < |s| ==> !In(k, s[e])
  {
  }

  // ---------------------------------------------------------------- the first match is the whole secret

  lemma BearerFirst(s: string, i: nat)
    requires i <= |s| && Ends(Secret(0), s, i) != []
    ensures Whole(0, s, i, Ends(Secret(0), s, i)[0])
  {
    hide In, Ends, Word, AnyCase, White, Tail;
    var last := [Plus(NonSpace)];
    assert [Plus(Space), Plus(NonSpace)] == [Plus(Space)] + last;
    EndsAfterWord("bearer", [Plus(Space)] + last, s, i);
    EndsAfterPlus(Space, last, s, i + 6);
    var j := GreedyFirst(Space, last, s, i + 7);
    TailFirst(0, s, j);
    SpacesThen(s, i, j);
  }

  lemma SpacesThen(s: string, i: nat, j: nat)
    requires Stands(s, i, "bearer") && i + 6 < |s| && In(Space, s[i + 6]) && RunTo(Space, s, i + 7, j)
    requires Ends([Plus(NonSpace)], s, j) != []
    ensures BearerAt(s, i, j)
  {
    hide In, Ends, AnyCase, White;
    MatchIffFits([Plus(NonSpace)], s, j);
    PlusLast(NonSpace, s, j);
    forall x | 0 <= x < |s| ensures (In(Space, s[x]) <==> White(s[x])) && (In(NonSpace, s[x]) <==> !White(s[x])) {
      ClassesAre(s[x], 'a');
    }
  }

  lemma SkKeyFirst(s: string, i: nat)
    requires i <= |s| && Ends(Secret(1), s, i) != []
    ensures Whole(1, s, i, Ends(Secret(1), s, i)[0])
  {
    hide In, Ends, Word, AnyCase, Tail, SkKeyAt;
    FoundAt(1, s, i);
    SkKeyIff(s, i);
    EndsAfterWord("sk-", [Plus(AlnumDash)], s, i);
    TailFirst(1, s, i + 3);
  }

  lemma FoundAt(n: nat, s: string, i: nat)
    requires n < PATTERN_COUNT && i <= |s|
    ensures Ends(Secret(n), s, i) != [] <==> Fits(Secret(n), s[i..])
  {
    MatchIffFits(Secret(n), s, i);
  }

  lemma GitHubTokenFirst(s: string, i: nat)
    requires i <= |s| && Ends(Secret(2), s, i) != []
    ensures Whole(2, s, i, Ends(Secret(2), s, i)[0])
  {
    hide In, Ends, Word, AnyCase, Tail, GitHubTokenAt;
    FoundAt(2, s, i);
    GitHubTokenIff(s, i);
    var rest := [One(Lit('_'))] + [Plus(Alnum)];
    assert [One(OneOf("oprsu")), One(Lit('_')), Plus(Alnum)] == [One(OneOf("oprsu"))] + rest;
    EndsAfterWord("gh", [One(OneOf("oprsu"))] + rest, s, i);
    EndsAfterOne(OneOf("oprsu"), rest, s, i + 2);
    EndsAfterOne(Lit('_'), [Plus(Alnum)], s, i + 3);
    TailFirst(2, s, i + 4);
  }

  lemma AwsKeyFirst(s: string, i: nat)
    requires i <= |s| && Ends(Secret(3), s, i) != []
    ensures Whole(3, s, i, Ends(Secret(3), s, i)[0])
  {
    hide In, Ends, Word, AnyCase, Tail, AwsKeyAt;
    FoundAt(3, s, i);
    AwsKeyIff(s, i);
    EndsAfterWord("akia", [Plus(Alnum)], s, i);
    TailFirst(3, s, i + 4);
  }

  lemma SlackTokenFirst(s: string, i: nat)
    requires i <= |s| && Ends(Secret(4), s, i) != []
    ensures Whole(4, s, i, Ends(Secret(4), s, i)[0])
  {
    hide In, Ends, Word, AnyCase, Tail, SlackTokenAt;
    FoundAt(4, s, i);
    SlackTokenIff(s, i);
    var rest := [One(Lit('-'))] + [Plus(NonSpace)];
    assert [One(OneOf("bpa")), One(Lit('-')), Plus(NonSpace)] == [One(OneOf("bpa"))] + rest;
    EndsAfterWord("xox", [One(OneOf("bpa"))] + rest, s, i);
    EndsAfterOne(OneOf("bpa"), rest, s, i + 3);
    EndsAfterOne(Lit('-'), [Plus(NonSpace)], s, i + 4);
    TailFirst(4, s, i + 5);
  }

  lemma KeyBlockFirst(s: string, i: nat)
    requires i <= |s| && Ends(Secret(5), s, i) != []
    ensures Whole(5, s, i, Ends(Secret(5), s, i)[0])
  {
    hide In, Ends, Word, AnyCase, Stands;
    var close := Word("-----");
    var end := Word("-----end") + [Star(NotNewline)] + close;
    EndsAfterWord("-----begin", [Lazy(Any)] + end, s, i);
    InsideText(s, i, "-----begin");
    var j := LazyFirst(Any, end, s, i + 10);
    var k := EndFirst(s, j);
    forall x: nat, y: nat | x < j
      ensures !KeyBlockAt(s, i, x, y)
    {
      if KeyBlockAt(s, i, x, y) {
        InsideText(s, x, "-----end");
        EndMatched(s, x, y);
      }
    }
    assert forall y: nat :: KeyBlockAt(s, i, j, y) ==> EndAt(s, j, y);
    assert KeyBlockAt(s, i, j, k);
    assert WholeBlock(s, i, j, k);
  }

  lemma InsideText(s: string, i: nat, w: string)
    requires Stands(s, i, w)
    ensures i + |w| <= |s|
  {
  }

  lemma EndMatched(s: string, j: nat, k: nat)
    requires j <= |s| && EndAt(s, j, k)
    ensures Ends(Word("-----end") + [Star(NotNewline)] + Word("-----"), s, j) != []
  {
    hide Ends, Word, EndAt;
    MatchIffFits(Word("-----end") + [Star(NotNewline)] + Word("-----"), s, j);
    EndIff(s, j);
  }

  lemma CloseEnds(s: string, k: nat)
    requires k <= |s|
    ensures Ends(Word("-----"), s, k) == if Stands(s, k, "-----") then [k + 5] else []
  {
    hide Word, Stands;
    assert Word("-----") + [] == Word("-----");
    EndsAfterWord("-----", [], s, k);
  }

  /** On the line of the end marker, the last five dashes in a row close the block. */
  lemma EndFirst(s: string, j: nat) returns (k: nat)
    requires j <= |s| && Ends(Word("-----end") + [Star(NotNewline)] + Word("-----"), s, j) != []
    ensures EndAt(s, j, k) && Ends(Word("-----end") + [Star(NotNewline)] + Word("-----"), s, j)[0] == k + 5
    ensures forall y: nat :: y > k ==> !EndAt(s, j, y)
  {
    hide Ends, Word, Stands;
    var close := Word("-----");
    var tail := [Star(NotNewline)] + close;
    assert Word("-----end") + [Star(NotNewline)] + close == Word("-----end") + tail;
    EndsAfterWord("-----end", tail, s, j);
    InsideText(s, j, "-----end");
    k := GreedyFirst(NotNewline, close, s, j + 8);
    CloseEnds(s, k);
    forall y: nat | y > k
      ensures !EndAt(s, j, y)
    {
      if EndAt(s, j, y) {
        InsideText(s, y, "-----");
        assert RunTo(NotNewline, s, j + 8, y);
        CloseEnds(s, y);
      }
    }
  }

  // ---------------------------------------------------------------- what a pass does at a place

  lemma FirstIsWhole(n: nat, s: string, i: nat)
    requires n < PATTERN_COUNT && i <= |s| && Ends(Secret(n), s, i) != []
    ensures Whole(n, s, i, Ends(Secret(n), s, i)[0])
  {
    hide Ends, Whole, Secret;
    match n
    case 0 => BearerFirst(s, i);
    case 1 => SkKeyFirst(s, i);
    case 2 => GitHubTokenFirst(s, i);
    case 3 => AwsKeyFirst(s, i);
    case 4 => SlackTokenFirst(s, i);
    case _ => KeyBlockFirst(s, i);
  }

  lemma WholeIsFound(n: nat, s: string, i: nat, e: nat)
    requires n < PATTERN_COUNT && i <= |s| && Whole(n, s, i, e)
    ensures Ends(Secret(n), s, i) != []
  {
    hide Ends, Fits, Secret, BearerAt, SkKeyAt, GitHubTokenAt, AwsKeyAt, SlackTokenAt, KeyBlockAt;
    FoundAt(n, s, i);
    match n
    case 0 => BearerIff(s, i);
    case 1 => SkKeyIff(s, i);
    case 2 => GitHubTokenIff(s, i);
    case 3 => AwsKeyIff(s, i);
    case 4 => SlackTokenIff(s, i);
    case _ => KeyBlockIff(s, i);
  }

  /**
    At every place of the text a pass either finds a secret of its kind, replaces all of it
    and goes on behind it, or finds none and copies the character that stands there.
   */
  lemma PassStep(n: nat, s: string, i: nat)
    requires n < PATTERN_COUNT && i < |s|
    ensures Visible(Secret(n))
    ensures || (exists e: nat :: i < e <= |s| && Whole(n, s, i, e)
                                 && SubFrom(Secret(n), s, i) == "[REDACTED]" + SubFrom(Secret(n), s, e))
            || (&& (forall e: nat :: !Whole(n, s, i, e))
                && SubFrom(Secret(n), s, i) == [s[i]] + SubFrom(Secret(n), s, i + 1))
  {
    hide Ends, Whole, Secret;
    SecretFacts(n);
    var ends := Ends(Secret(n), s, i);
    if ends == [] {
      forall e: nat ensures !Whole(n, s, i, e) {
        if Whole(n, s, i, e) { WholeIsFound(n, s, i, e); }
      }
    } else {
      assert ends[0] in ends;
      FirstIsWhole(n, s, i);
    }
  }
}
