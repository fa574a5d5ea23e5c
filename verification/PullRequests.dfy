/** Pull-request references "owner/repo#42" and the keys made from them. */
module PullRequests {
  import opened Options
  import opened Canon
  import opened CanonParse

  const U64_LIMIT: nat := 0x1_0000_0000_0000_0000

  /** run_key and rate_key: both clients key their state alike. */
  function Key(repo: string, number: nat): string {
    repo + "#" + NatText(number)
  }

  /** The position of the last '#'. */
  function LastHash(s: string): (r: Option<nat>)
    ensures r.Some? ==> r.value < |s| && s[r.value] == '#' && '#' !in s[r.value + 1..]
    ensures r.None? ==> '#' !in s
  {
    if s == "" then None
    else if s[|s| - 1] == '#' then Some(|s| - 1)
    else
      assert s == s[..|s| - 1] + [s[|s| - 1]];
      match LastHash(s[..|s| - 1])
      case None => None
      case Some(i) =>
        assert s[i + 1..] == s[..|s| - 1][i + 1..] + [s[|s| - 1]];
        Some(i)
  }

  predicate AllDigits(t: string) {
    forall i :: 0 <= i < |t| ==> IsDigit(t[i])
  }

  /** Rust's u64 parser: an optional plus sign, at least one digit, no overflow. */
  function ParseU64(t: string): Option<nat> {
    var digits := if t != "" && t[0] == '+' then t[1..] else t;
    if digits == "" || !AllDigits(digits) || ParseNat(0, digits).0 >= U64_LIMIT then None
    else Some(ParseNat(0, digits).0)
  }

  function ExtractPrRef(resource: string): Option<(string, nat)> {
    match LastHash(resource)
    case None => None
    case Some(i) =>
      match ParseU64(resource[i + 1..])
      case None => None
      case Some(n) => if n == 0 || resource[..i] == "" then None else Some((resource[..i], n))
  }

  // ---------------------------------------------------------------- references come back from keys

  lemma {:induction false} NatTextDigits(n: nat)
    ensures AllDigits(NatText(n)) && NatText(n) != ""
    ensures n > 0 ==> NatText(n)[0] != '0'
    ensures n == 0 ==> NatText(n) == "0"
  {
    if n >= 10 { NatTextDigits(n / 10); }
  }

  lemma LastHashOfKey(repo: string, t: string)
    requires '#' !in t
    ensures LastHash(repo + "#" + t) == Some(|repo|)
  {
    var s := repo + "#" + t;
    assert s[|repo|] == '#' && s[|repo| + 1..] == t;
    var i := LastHash(s).value;
    assert forall j :: |repo| < j < |s| ==> s[j] == t[j - |repo| - 1];
  }

  /** A key leads back to its pull request exactly when GitHub could have such a one. */
  lemma ExtractUndoesKey(repo: string, number: nat)
    ensures ExtractPrRef(Key(repo, number)) ==
            if repo != "" && 0 < number < U64_LIMIT then Some((repo, number)) else None
  {
    hide NatText, ParseU64, LastHash, AllDigits, U64_LIMIT;
    var t := NatText(number);
    NoHash(number);
    LastHashOfKey(repo, t);
    assert Key(repo, number)[|repo| + 1..] == t && Key(repo, number)[..|repo|] == repo;
    NumberBack(number);
  }

  lemma NoHash(number: nat)
    ensures '#' !in NatText(number)
  {
    NatTextDigits(number);
  }

  lemma NumberBack(number: nat)
    ensures ParseU64(NatText(number)) == if number < U64_LIMIT then Some(number) else None
  {
    hide NatText;
    var t := NatText(number);
    NatTextDigits(number);
    NatBack(number, "");
    assert t + "" == t;
    assert t[0] != '+';
  }

  /** Distinct pull requests have distinct keys, whatever the repository name contains. */
  lemma KeyInjective(repo: string, number: nat, repo': string, number': nat)
    requires Key(repo, number) == Key(repo', number')
    ensures repo == repo' && number == number'
  {
    NatTextDigits(number);
    NatTextDigits(number');
    LastHashOfKey(repo, NatText(number));
    LastHashOfKey(repo', NatText(number'));
    var s := Key(repo, number);
    assert s[..|repo|] == repo && s[|repo| + 1..] == NatText(number);
    assert s[..|repo'|] == repo' && s[|repo'| + 1..] == NatText(number');
    NatBack(number, "");
    NatBack(number', "");
    assert NatText(number) + "" == NatText(number) && NatText(number') + "" == NatText(number');
  }

  lemma DigitChar(c: char)
    requires IsDigit(c)
    ensures DIGITS[c as int - '0' as int] == c
  {
  }

  lemma AppendDigit(acc: nat, d: nat)
    requires acc > 0 && d < 10
    ensures NatText(10 * acc + d) == NatText(acc) + [DIGITS[d]]
  {
    hide DIGITS;
    assert (10 * acc + d) / 10 == acc && (10 * acc + d) % 10 == d;
  }

  /** Digits without a leading zero are the text of their number. */
  lemma {:induction false} DigitsAreText(acc: nat, t: string)
    requires AllDigits(t) && acc > 0
    ensures NatText(ParseNat(acc, t).0) == NatText(acc) + t && ParseNat(acc, t).0 > 0
    decreases |t|
  {
    hide NatText;
    if t == "" {
      assert NatText(acc) + t == NatText(acc);
    } else {
      var d := t[0] as int - '0' as int;
      DigitChar(t[0]);
      AppendDigit(acc, d);
      DigitsAreText(10 * acc + d, t[1..]);
      assert NatText(acc) + [t[0]] + t[1..] == NatText(acc) + t;
    }
  }

  /**
    The other way round a reference is its own key exactly when its number is
    written plainly: a plus sign or a leading zero is read but not written back.
   */
  lemma KeyUndoesExtractIff(resource: string)
    requires ExtractPrRef(resource).Some?
    ensures var (repo, n) := ExtractPrRef(resource).value;
            var t := resource[LastHash(resource).value + 1..];
            Key(repo, n) == resource <==> t[0] != '+' && t[0] != '0'
  {
    hide NatText, ParseNat, LastHash;
    var i := LastHash(resource).value;
    var t := resource[i + 1..];
    var (repo, n) := ExtractPrRef(resource).value;
    assert resource == resource[..i] + "#" + t && Key(repo, n)[i + 1..] == NatText(n);
    NatTextDigits(n);
    if t[0] != '+' && t[0] != '0' {
      PlainNumber(t);
    }
  }

  lemma PlainNumber(t: string)
    requires t != "" && AllDigits(t) && t[0] != '0'
    ensures NatText(ParseNat(0, t).0) == t
  {
    hide NatText;
    var d := t[0] as int - '0' as int;
    DigitsAreText(d, t[1..]);
    OneDigit(t[0]);
    assert t == [t[0]] + t[1..];
  }

  lemma OneDigit(c: char)
    requires IsDigit(c)
    ensures NatText(c as int - '0' as int) == [c]
  {
    DigitChar(c);
  }
}
