/**
  A recursive-descent JSON parser and the proof that it undoes the canonical
  printer, from which the text of a value determines the value.
 */
module CanonParse {
  import opened CodePoints
  import opened Canon
  import Utf8

  datatype Parsed<+T> = Bad | Got(value: T, rest: string)

  // ---------------------------------------------------------------- the parser

  predicate IsDigit(c: char) {
    '0' <= c <= '9'
  }

  /** Reads digits as long as there are any, continuing the number `acc`. */
  function ParseNat(acc: nat, s: string): (r: (nat, string))
    ensures |r.1| <= |s|
    ensures s != "" && IsDigit(s[0]) ==> |r.1| < |s|
    decreases |s|
  {
    if s != "" && IsDigit(s[0]) then ParseNat(10 * acc + (s[0] as int - '0' as int), s[1..])
    else (acc, s)
  }

  function ParseInt(s: string): (r: Parsed<Value>)
    ensures r.Got? ==> |r.rest| < |s|
  {
    var digits := if s != "" && s[0] == '-' then s[1..] else s;
    if digits == "" || !IsDigit(digits[0]) then Bad
    else
      var (n, rest) := ParseNat(0, digits);
      Got(Int(if s[0] == '-' then 0 - n else n), rest)
  }

  function HexValue(c: char): int {
    if IsDigit(c) then c as int - '0' as int
    else if 'a' <= c <= 'f' then c as int - 'a' as int + 10
    else if 'A' <= c <= 'F' then c as int - 'A' as int + 10
    else -1
  }

  /** One character of a JSON string, escaped or raw (section 7 of RFC 8259). */
  function ParseChar(s: string): (r: Parsed<char>)
    requires s != ""
    ensures r.Got? ==> |r.rest| < |s|
  {
    if s[0] != '\\' then (if s[0] < ' ' then Bad else Got(s[0], s[1..]))
    else if |s| < 2 then Bad
    else if s[1] == 'u' then ParseHexEscape(s)
    else match s[1]
      case '\"' => Got('\"', s[2..])
      case '\\' => Got('\\', s[2..])
      case '/' => Got('/', s[2..])
      case 'b' => Got(8 as char, s[2..])
      case 't' => Got('\t', s[2..])
      case 'n' => Got('\n', s[2..])
      case 'f' => Got(12 as char, s[2..])
      case 'r' => Got('\r', s[2..])
      case _ => Bad
  }

  /** A \uXXXX escape of a code point that is not a surrogate. */
  function ParseHexEscape(s: string): (r: Parsed<char>)
    ensures r.Got? ==> |r.rest| < |s|
  {
    if |s| < 6 || exists i :: 2 <= i < 6 && HexValue(s[i]) < 0 then Bad
    else
      var n := 4096 * HexValue(s[2]) + 256 * HexValue(s[3]) + 16 * HexValue(s[4]) + HexValue(s[5]);
      if 0 <= n < 0xD800 || 0xE000 <= n < 0x1_0000 then Got(n as char, s[6..]) else Bad
  }

  /** The rest of a JSON string, up to and including the closing quote. */
  function ParseChars(s: string): (r: Parsed<string>)
    ensures r.Got? ==> |r.rest| < |s|
    decreases |s|
  {
    if s == "" then Bad
    else if s[0] == '\"' then Got("", s[1..])
    else match ParseChar(s)
      case Bad => Bad
      case Got(c, more) =>
        match ParseChars(more)
        case Bad => Bad
        case Got(t, rest) => Got([c] + t, rest)
  }

  function ParseWord(s: string, word: string, v: Value): (r: Parsed<Value>)
    requires word != ""
    ensures r.Got? ==> |r.rest| < |s|
  {
    if word <= s then Got(v, s[|word|..]) else Bad
  }

  function ParseValue(s: string): (r: Parsed<Value>)
    ensures r.Got? ==> |r.rest| < |s|
    decreases |s|, 1
  {
    if s == "" then Bad
    else match s[0]
      case 'n' => ParseWord(s, "null", Null)
      case 't' => ParseWord(s, "true", Bool(true))
      case 'f' => ParseWord(s, "false", Bool(false))
      case '\"' => (match ParseChars(s[1..])
                    case Bad => Bad
                    case Got(t, rest) => Got(Str(t), rest))
      case '[' => ParseArray(s[1..])
      case '{' => ParseObject(s[1..])
      case _ => ParseInt(s)
  }

  /** What follows the opening bracket of an array. */
  function ParseArray(s: string): (r: Parsed<Value>)
    ensures r.Got? ==> |r.rest| < |s|
    decreases |s|, 2
  {
    if s != "" && s[0] == ']' then Got(Arr([]), s[1..])
    else match ParseValue(s)
      case Bad => Bad
      case Got(v, more) =>
        match ParseItems(more)
        case Bad => Bad
        case Got(vs, rest) => Got(Arr([v] + vs), rest)
  }

  /** What follows an element: a comma and more elements, or the closing bracket. */
  function ParseItems(s: string): (r: Parsed<seq<Value>>)
    ensures r.Got? ==> |r.rest| < |s|
    decreases |s|, 0
  {
    if s == "" then Bad
    else if s[0] == ']' then Got([], s[1..])
    else if s[0] != ',' then Bad
    else match ParseValue(s[1..])
      case Bad => Bad
      case Got(v, more) =>
        match ParseItems(more)
        case Bad => Bad
        case Got(vs, rest) => Got([v] + vs, rest)
  }

  function ParseMember(s: string): (r: Parsed<(string, Value)>)
    ensures r.Got? ==> |r.rest| < |s|
    decreases |s|, 2
  {
    if s == "" || s[0] != '\"' then Bad
    else match ParseChars(s[1..])
      case Bad => Bad
      case Got(k, more) =>
        if more == "" || more[0] != ':' then Bad
        else match ParseValue(more[1..])
          case Bad => Bad
          case Got(v, rest) => Got((k, v), rest)
  }

  /** What follows the opening brace of an object. */
  function ParseObject(s: string): (r: Parsed<Value>)
    ensures r.Got? ==> |r.rest| < |s|
    decreases |s|, 3
  {
    if s != "" && s[0] == '}' then Got(Obj(map[]), s[1..])
    else match ParseMember(s)
      case Bad => Bad
      case Got((k, v), more) =>
        match ParseFields(more)
        case Bad => Bad
        case Got(m, rest) => if k in m then Bad else Got(Obj(m[k := v]), rest)
  }

  /** What follows a member: a comma and more members, or the closing brace; no key twice. */
  function ParseFields(s: string): (r: Parsed<map<string, Value>>)
    ensures r.Got? ==> |r.rest| < |s|
    decreases |s|, 3
  {
    if s == "" then Bad
    else if s[0] == '}' then Got(map[], s[1..])
    else if s[0] != ',' then Bad
    else match ParseMember(s[1..])
      case Bad => Bad
      case Got((k, v), more) =>
        match ParseFields(more)
        case Bad => Bad
        case Got(m, rest) => if k in m then Bad else Got(m[k := v], rest)
  }

  // ---------------------------------------------------------------- leaves come back

  lemma DigitRead(acc: nat, d: nat, rest: string)
    requires d < 10
    ensures IsDigit(DIGITS[d])
    ensures ParseNat(acc, [DIGITS[d]] + rest) == ParseNat(10 * acc + d, rest)
  {
    assert ([DIGITS[d]] + rest)[1..] == rest;
  }

  lemma {:induction false} NatBack(n: nat, rest: string)
    ensures ParseNat(0, NatText(n) + rest) == ParseNat(n, rest)
    ensures IsDigit(NatText(n)[0])
  {
    hide ParseNat, IsDigit;
    DigitRead(n / 10, n % 10, rest);
    var d := [DIGITS[n % 10]];
    if n >= 10 {
      assert NatText(n) + rest == NatText(n / 10) + (d + rest);
      NatBack(n / 10, d + rest);
    }
  }

  /** A number ends where its digits end. */
  lemma DigitsBack(n: nat, rest: string)
    requires rest != "" ==> !IsDigit(rest[0])
    ensures NatText(n) != "" && IsDigit((NatText(n) + rest)[0])
    ensures ParseNat(0, NatText(n) + rest) == (n, rest)
  {
    NatBack(n, rest);
  }

  lemma IntFromDigits(digits: string, n: nat, rest: string)
    requires digits != "" && IsDigit(digits[0]) && ParseNat(0, digits) == (n, rest)
    ensures ParseInt(digits) == Got(Int(n), rest)
    ensures ParseInt("-" + digits) == Got(Int(0 - n), rest)
  {
    assert ("-" + digits)[1..] == digits;
  }

  lemma IntBack(n: int, rest: string)
    requires rest != "" ==> !IsDigit(rest[0])
    ensures ParseInt(IntText(n) + rest) == Got(Int(n), rest)
    ensures IntText(n)[0] == '-' || IsDigit(IntText(n)[0])
  {
    var m := if n < 0 then -n else n;
    DigitsBack(m, rest);
    IntFromDigits(NatText(m) + rest, m, rest);
    assert ("-" + NatText(m)) + rest == "-" + (NatText(m) + rest);
  }

  lemma CharBack(c: char, rest: string)
    ensures ParseChar(EscapeChar(c) + rest) == Got(c, rest)
    ensures EscapeChar(c) != "" && EscapeChar(c)[0] != '\"'
  {
    hide ParseHexEscape, DIGITS;
    var s := EscapeChar(c) + rest;
    assert s[|EscapeChar(c)|..] == rest;
    if |EscapeChar(c)| == 6 {
      HexBack(c, rest);
    }
  }

  lemma HexBack(c: char, rest: string)
    requires |EscapeChar(c)| == 6
    ensures ParseHexEscape(EscapeChar(c) + rest) == Got(c, rest)
  {
    var s := EscapeChar(c) + rest;
    assert s[6..] == rest;
    assert s[0] == '\\' && s[1] == 'u' && s[2] == '0' && s[3] == '0';
    assert HexValue(s[4]) == c as int / 16 && HexValue(s[5]) == c as int % 16;
  }

  lemma {:induction false} CharsBack(t: string, rest: string)
    ensures ParseChars(EscapeText(t) + "\"" + rest) == Got(t, rest)
  {
    hide EscapeChar, ParseChar;
    if t == "" {
      assert EscapeText(t) + "\"" + rest == "\"" + rest;
    } else {
      var more := EscapeText(t[1..]) + "\"" + rest;
      Regroup(EscapeChar(t[0]), EscapeText(t[1..]), "\"", rest);
      CharBack(t[0], more);
      CharsBack(t[1..], rest);
      assert t == [t[0]] + t[1..];
    }
  }

  // ---------------------------------------------------------------- the first character decides

  lemma ValueByFirstChar(t: string)
    ensures ParseValue("[" + t) == ParseArray(t)
    ensures ParseValue("{" + t) == ParseObject(t)
  {
    assert ("[" + t)[1..] == t && ("{" + t)[1..] == t;
  }

  lemma StringByFirstChar(t: string)
    ensures ParseChars(t).Got? ==> ParseValue("\"" + t) == Got(Str(ParseChars(t).value), ParseChars(t).rest)
  {
    assert ("\"" + t)[1..] == t;
  }

  lemma WordBack(rest: string)
    ensures ParseValue("null" + rest) == Got(Null, rest)
    ensures ParseValue("true" + rest) == Got(Bool(true), rest)
    ensures ParseValue("false" + rest) == Got(Bool(false), rest)
  {
    assert ("null" + rest)[4..] == rest && ("true" + rest)[4..] == rest && ("false" + rest)[5..] == rest;
  }

  lemma Regroup(open: string, inner: string, close: string, rest: string)
    ensures open + inner + close + rest == open + (inner + close + rest)
  {
  }

  // ---------------------------------------------------------------- values come back

  /** What may stand after a value inside a larger text: nothing, or a separator. */
  predicate Follows(rest: string) {
    rest == "" || rest[0] == ',' || rest[0] == ']' || rest[0] == '}'
  }

  /** The parser undoes the printer, whatever text follows the value. */
  lemma {:induction false} PrintThenParse(v: Value, rest: string)
    requires Follows(rest)
    ensures ParseValue(Print(v) + rest) == Got(v, rest)
    decreases v, 1, 0
  {
    match v
    case Null => WordBack(rest);
    case Bool(_) => WordBack(rest);
    case Int(n) => NumberBack(n, rest);
    case Str(t) => StringBack(t, rest);
    case Arr(_) =>
      Regroup("[", PrintItems(v, 0), "]", rest);
      ValueByFirstChar(PrintItems(v, 0) + "]" + rest);
      ArrayBack(v, rest);
    case Obj(_) =>
      var members := PrintFields(v, SortedKeys(v.fields.Keys), 0);
      Regroup("{", members, "}", rest);
      ValueByFirstChar(members + "}" + rest);
      ObjectBack(v, rest);
  }

  lemma NumberBack(n: int, rest: string)
    requires Follows(rest)
    ensures ParseValue(IntText(n) + rest) == Got(Int(n), rest)
  {
    IntBack(n, rest);
    var s := IntText(n) + rest;
    assert s[0] == IntText(n)[0];
    assert ParseValue(s) == ParseInt(s);
  }

  lemma StringBack(t: string, rest: string)
    ensures ParseValue(StringText(t) + rest) == Got(Str(t), rest)
  {
    Regroup("\"", EscapeText(t), "\"", rest);
    CharsBack(t, rest);
    StringByFirstChar(EscapeText(t) + "\"" + rest);
  }

  lemma {:induction false} ArrayBack(v: Value, rest: string)
    requires v.Arr?
    ensures ParseArray(PrintItems(v, 0) + "]" + rest) == Got(v, rest)
    decreases v, 0, |v.items| + 1
  {
    hide Print;
    var inner := PrintItems(v, 0) + "]" + rest;
    if v.items == [] {
      assert inner == "]" + rest;
    } else {
      var more := PrintItems(v, 1) + "]" + rest;
      assert inner == Print(v.items[0]) + more;
      StartsLikeAValue(v.items[0]);
      ItemsBack(v, 1, rest);
      PrintThenParse(v.items[0], more);
      assert v.items == [v.items[0]] + v.items[1..];
    }
  }

  lemma {:induction false} ItemsBack(v: Value, i: nat, rest: string)
    requires v.Arr? && 0 < i <= |v.items|
    ensures Follows(PrintItems(v, i) + "]" + rest)
    ensures ParseItems(PrintItems(v, i) + "]" + rest) == Got(v.items[i..], rest)
    decreases v, 0, |v.items| - i
  {
    hide Print;
    var s := PrintItems(v, i) + "]" + rest;
    if i == |v.items| {
      assert s == "]" + rest;
    } else {
      var more := PrintItems(v, i + 1) + "]" + rest;
      assert s == "," + (Print(v.items[i]) + more);
      ItemsBack(v, i + 1, rest);
      PrintThenParse(v.items[i], more);
      assert v.items[i..] == [v.items[i]] + v.items[i + 1..];
    }
  }

  /** No value's text starts like the end of an array. */
  lemma StartsLikeAValue(v: Value)
    ensures Print(v) != "" && Print(v)[0] != ']'
  {
    if v.Int? && v.n >= 0 { NatBack(v.n, ""); }
  }

  lemma {:induction false} MemberBack(v: Value, k: string, rest: string)
    requires v.Obj? && k in v.fields && Follows(rest)
    ensures ParseMember(StringText(k) + ":" + Print(v.fields[k]) + rest) == Got((k, v.fields[k]), rest)
    decreases v, 0, 0
  {
    hide Print, StringText;
    PrintThenParse(v.fields[k], rest);
    KeyBack(k, Print(v.fields[k]) + rest);
    assert StringText(k) + ":" + Print(v.fields[k]) + rest
        == StringText(k) + ":" + (Print(v.fields[k]) + rest);
  }

  lemma KeyBack(k: string, t: string)
    requires ParseValue(t).Got?
    ensures ParseMember(StringText(k) + ":" + t) == Got((k, ParseValue(t).value), ParseValue(t).rest)
  {
    var more := ":" + t;
    assert StringText(k) + ":" + t == "\"" + (EscapeText(k) + "\"" + more);
    CharsBack(k, more);
    assert more[1..] == t;
  }

  /** The members of `v` under `keys[i..]`. */
  ghost function Fields(v: Value, keys: seq<string>, i: nat): map<string, Value>
    requires v.Obj? && i <= |keys|
  {
    map k | k in v.fields && k in keys[i..] :: v.fields[k]
  }

  lemma {:induction false} ObjectBack(v: Value, rest: string)
    requires v.Obj?
    ensures ParseObject(PrintFields(v, SortedKeys(v.fields.Keys), 0) + "}" + rest) == Got(v, rest)
    decreases v, 0, |v.fields| + 1
  {
    hide Print, StringText;
    var keys := SortedKeys(v.fields.Keys);
    assert keys[0..] == keys && Fields(v, keys, 0) == v.fields;
    if keys == [] {
      assert PrintFields(v, keys, 0) + "}" + rest == "}" + rest;
    } else {
      var more := PrintFields(v, keys, 1) + "}" + rest;
      var s := StringText(keys[0]) + ":" + Print(v.fields[keys[0]]) + more;
      FieldsText(v, keys, 0, rest);
      assert PrintFields(v, keys, 0) + "}" + rest == s;
      FieldsBack(v, keys, 1, rest);
      MemberBack(v, keys[0], more);
      FieldsStep(v, keys, 0);
      MemberThenFields(s, keys[0], v.fields[keys[0]], more, Fields(v, keys, 1), rest);
    }
  }

  lemma MemberThenFields(s: string, k: string, x: Value, more: string, m: map<string, Value>, rest: string)
    requires ParseMember(s) == Got((k, x), more) && ParseFields(more) == Got(m, rest) && k !in m
    ensures ParseObject(s) == Got(Obj(m[k := x]), rest)
    ensures ParseFields("," + s) == Got(m[k := x], rest)
  {
    assert ("," + s)[1..] == s;
  }

  lemma FieldsStep(v: Value, keys: seq<string>, i: nat)
    requires v.Obj? && i < |keys| && Ascending(keys) && keys[i] in v.fields
    ensures keys[i] !in Fields(v, keys, i + 1)
    ensures Fields(v, keys, i) == Fields(v, keys, i + 1)[keys[i] := v.fields[keys[i]]]
  {
    assert keys[i..] == [keys[i]] + keys[i + 1..];
    if keys[i] in keys[i + 1..] {
      var j :| i + 1 <= j < |keys| && keys[j] == keys[i];
      LessTrichotomy(keys[i], keys[j]);
      assert false;
    }
  }

  /** The text of the members from `i` on, cut after the first of them. */
  lemma FieldsText(v: Value, keys: seq<string>, i: nat, rest: string)
    requires v.Obj? && i < |keys| && forall k :: k in keys ==> k in v.fields
    ensures PrintFields(v, keys, i) + "}" + rest
         == Comma(i) + (StringText(keys[i]) + ":" + Print(v.fields[keys[i]])
                        + (PrintFields(v, keys, i + 1) + "}" + rest))
  {
    hide Print, StringText, Comma;
    var member := StringText(keys[i]) + ":" + Print(v.fields[keys[i]]);
    Regroup(Comma(i) + member, PrintFields(v, keys, i + 1), "}", rest);
    Regroup(Comma(i), member, PrintFields(v, keys, i + 1) + "}" + rest, "");
  }

  lemma {:induction false} FieldsBack(v: Value, keys: seq<string>, i: nat, rest: string)
    requires v.Obj? && 0 < i <= |keys| && Ascending(keys)
    requires forall k :: k in keys ==> k in v.fields
    ensures Follows(PrintFields(v, keys, i) + "}" + rest)
    ensures ParseFields(PrintFields(v, keys, i) + "}" + rest) == Got(Fields(v, keys, i), rest)
    decreases v, 0, |keys| - i
  {
    hide Print, StringText;
    if i == |keys| {
      assert PrintFields(v, keys, i) + "}" + rest == "}" + rest;
    } else {
      var more := PrintFields(v, keys, i + 1) + "}" + rest;
      var s := StringText(keys[i]) + ":" + Print(v.fields[keys[i]]) + more;
      FieldsText(v, keys, i, rest);
      FieldsBack(v, keys, i + 1, rest);
      MemberBack(v, keys[i], more);
      FieldsStep(v, keys, i);
      MemberThenFields(s, keys[i], v.fields[keys[i]], more, Fields(v, keys, i + 1), rest);
    }
  }

  // ---------------------------------------------------------------- the text determines the value

  /** Two values with the same canonical text are the same value. */
  lemma PrintInjective(v: Value, w: Value)
    requires Print(v) == Print(w)
    ensures v == w
  {
    PrintThenParse(v, "");
    PrintThenParse(w, "");
  }

  /** The bytes that are hashed determine the value. */
  lemma BytesInjective(v: Value, w: Value)
    requires Utf8.Encode(Print(v)) == Utf8.Encode(Print(w))
    ensures v == w
  {
    Utf8.EncodeInjective(Print(v), Print(w));
    PrintInjective(v, w);
  }
}
