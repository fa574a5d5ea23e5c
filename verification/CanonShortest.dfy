/**
  The canonical text is a shortest text for its value: whatever the parser reads as a
  value, with members in any order and characters escaped in any way, is no shorter
  than what the printer writes.
 */
module CanonShortest {
  import opened CodePoints
  import opened Canon
  import opened CanonParse

  // ---------------------------------------------------------------- characters

  /** Whatever is read as one character is no shorter than its canonical escape. */
  lemma CharShortest(s: string)
    requires s != "" && s[0] != '\"' && ParseChar(s).Got?
    ensures |EscapeChar(ParseChar(s).value)| + |ParseChar(s).rest| <= |s|
  {
  }

  /** A hexadecimal escape is written with small letters: a capital in an escape is the character itself. */
  lemma NoCapitalHex(c: char, i: nat)
    requires i < |EscapeChar(c)| && 'A' <= EscapeChar(c)[i] <= 'F'
    ensures EscapeChar(c) == [c]
  {
    hide DIGITS;
    if |EscapeChar(c)| == 6 { SmallDigits(c as int / 16, c as int % 16); }
  }

  lemma SmallDigits(a: nat, b: nat)
    requires a < 16 && b < 16
    ensures !('A' <= DIGITS[a] <= 'F') && !('A' <= DIGITS[b] <= 'F')
  {
  }

  /** And there is no other text as short, without capitals in its hexadecimal digits, that is read as the character. */
  lemma EscapeUnique(c: char, u: string)
    requires u != "" && u[0] != '\"' && ParseChar(u) == Got(c, "") && |u| <= |EscapeChar(c)|
    requires |u| > 1 ==> forall i :: 0 <= i < |u| ==> !('A' <= u[i] <= 'F')
    ensures u == EscapeChar(c)
  {
    if |u| == 6 {
      HexUnique(c, u);
    } else {
      assert u == [u[0]] + u[1..];
    }
  }

  lemma HexUnique(c: char, u: string)
    requires |u| == 6 && u[0] == '\\' && ParseChar(u) == Got(c, "") && |EscapeChar(c)| == 6
    requires forall i :: 0 <= i < |u| ==> !('A' <= u[i] <= 'F')
    ensures u == EscapeChar(c)
  {
    var n := c as int;
    assert u[1] == 'u';
    forall i | 2 <= i < 6
      ensures 0 <= HexValue(u[i]) < 16 && u[i] == DIGITS[HexValue(u[i])]
    {
      SmallDigitOf(u[i]);
    }
    assert n == 4096 * HexValue(u[2]) + 256 * HexValue(u[3]) + 16 * HexValue(u[4]) + HexValue(u[5]) < 32;
    assert HexValue(u[2]) == 0 && HexValue(u[3]) == 0 && HexValue(u[4]) == n / 16 && HexValue(u[5]) == n % 16;
    assert u == ['\\', 'u', DIGITS[0], DIGITS[0], DIGITS[n / 16], DIGITS[n % 16]];
  }

  lemma SmallDigitOf(c: char)
    requires HexValue(c) >= 0 && !('A' <= c <= 'F')
    ensures HexValue(c) < 16 && DIGITS[HexValue(c)] == c
  {
  }

  // ---------------------------------------------------------------- strings and numbers

  /** Whatever is read as a string, up to its closing quote, is no shorter than the escaped text. */
  lemma {:induction false} CharsShortest(s: string)
    requires ParseChars(s).Got?
    ensures |EscapeText(ParseChars(s).value)| + 1 + |ParseChars(s).rest| <= |s|
    decreases |s|
  {
    hide EscapeChar, ParseChar;
    if s[0] != '\"' {
      var more := ParseChar(s).rest;
      CharShortest(s);
      CharsShortest(more);
      var t := ParseChars(more).value;
      assert ([ParseChar(s).value] + t)[1..] == t;
    }
  }

  /** In the words of the string alone. */
  lemma StringShortest(s: string, t: string)
    requires ParseChars(t + "\"") == Got(s, "")
    ensures |EscapeText(s)| <= |t|
  {
    CharsShortest(t + "\"");
  }

  lemma {:induction false} OneDigitMore(n: nat, d: nat)
    requires d < 10
    ensures |NatText(10 * n + d)| <= |NatText(n)| + 1
    ensures n == 0 ==> |NatText(10 * n + d)| == 1
  {
    if n > 0 {
      assert (10 * n + d) / 10 == n;
    }
  }

  lemma {:induction false} NatShortest(acc: nat, s: string)
    ensures |NatText(ParseNat(acc, s).0)| + |ParseNat(acc, s).1| <= |NatText(acc)| + |s|
    decreases |s|
  {
    hide NatText;
    if s != "" && IsDigit(s[0]) {
      var d := s[0] as int - '0' as int;
      OneDigitMore(acc, d);
      NatShortest(10 * acc + d, s[1..]);
    }
  }

  lemma IntShortest(s: string)
    requires ParseInt(s).Got?
    ensures |IntText(ParseInt(s).value.n)| + |ParseInt(s).rest| <= |s|
  {
    var digits := if s[0] == '-' then s[1..] else s;
    hide NatText;
    OneDigitMore(0, digits[0] as int - '0' as int);
    NatShortest(digits[0] as int - '0' as int, digits[1..]);
  }

  // ---------------------------------------------------------------- how long a container's text is

  /** What an element adds to the text of its array, a comma included. */
  ghost function ItemsSize(items: seq<Value>): nat {
    if items == [] then 0 else |Print(items[0])| + 1 + ItemsSize(items[1..])
  }

  ghost function MemberSize(k: string, v: Value): nat {
    |EscapeText(k)| + |Print(v)| + 4
  }

  /** What the members named by `keys` add to the text of their object, a comma each included. */
  ghost function FieldsSize(m: map<string, Value>, keys: seq<string>): nat
    requires forall k :: k in keys ==> k in m
  {
    if keys == [] then 0 else MemberSize(keys[0], m[keys[0]]) + FieldsSize(m, keys[1..])
  }

  lemma {:induction false} ItemsLength(v: Value, i: nat)
    requires v.Arr? && i <= |v.items|
    ensures |PrintItems(v, i)| + (if i == 0 && v.items != [] then 1 else 0) == ItemsSize(v.items[i..])
    decreases |v.items| - i
  {
    hide Print;
    if i < |v.items| {
      assert v.items[i..][1..] == v.items[i + 1..];
      ItemsLength(v, i + 1);
    }
  }

  lemma {:induction false} FieldsLength(v: Value, keys: seq<string>, i: nat)
    requires v.Obj? && i <= |keys| && forall k :: k in keys ==> k in v.fields
    ensures |PrintFields(v, keys, i)| + (if i == 0 && keys != [] then 1 else 0) == FieldsSize(v.fields, keys[i..])
    decreases |keys| - i
  {
    hide Print, EscapeText;
    if i < |keys| {
      assert keys[i..][1..] == keys[i + 1..];
      FieldsLength(v, keys, i + 1);
    }
  }

  lemma ArrayLength(items: seq<Value>)
    ensures |Print(Arr(items))| == ItemsSize(items) + (if items == [] then 2 else 1)
  {
    ItemsLength(Arr(items), 0);
    assert items[0..] == items;
  }

  lemma ObjectLength(m: map<string, Value>)
    ensures |Print(Obj(m))| == FieldsSize(m, SortedKeys(m.Keys)) + (if m == map[] then 2 else 1)
  {
    var keys := SortedKeys(m.Keys);
    assert keys == [] <==> m.Keys == {};
    FieldsLength(Obj(m), keys, 0);
    assert keys[0..] == keys;
  }

  lemma {:induction false} FieldsSizeConcat(m: map<string, Value>, a: seq<string>, b: seq<string>)
    requires (forall k :: k in a ==> k in m) && forall k :: k in b ==> k in m
    ensures FieldsSize(m, a + b) == FieldsSize(m, a) + FieldsSize(m, b)
  {
    hide MemberSize;
    if a == [] {
      assert a + b == b;
    } else {
      assert (a + b)[1..] == a[1..] + b;
      FieldsSizeConcat(m, a[1..], b);
    }
  }

  lemma {:induction false} FieldsSizeSame(m: map<string, Value>, k: string, v: Value, keys: seq<string>)
    requires (forall x :: x in keys ==> x in m) && k !in keys
    ensures FieldsSize(m[k := v], keys) == FieldsSize(m, keys)
  {
    hide MemberSize;
    if keys != [] { FieldsSizeSame(m, k, v, keys[1..]); }
  }

  /** Where a new key goes among the sorted ones. */
  lemma {:induction false} PlaceOf(r: seq<string>, k: string) returns (j: nat)
    requires Ascending(r)
    ensures j <= |r| && forall m :: 0 <= m < j ==> Less(r[m], k)
    ensures j < |r| ==> !Less(r[j], k)
  {
    j := 0;
    while j < |r| && Less(r[j], k)
      invariant j <= |r| && forall m :: 0 <= m < j ==> Less(r[m], k)
    {
      j := j + 1;
    }
  }

  /** Wherever the new member goes, it adds its own length. */
  lemma NewMember(m: map<string, Value>, k: string, v: Value)
    requires k !in m
    ensures FieldsSize(m[k := v], SortedKeys(m[k := v].Keys)) == FieldsSize(m, SortedKeys(m.Keys)) + MemberSize(k, v)
  {
    hide MemberSize, FieldsSize, Ascending, SortedKeys;
    var j := SortedWith(m.Keys, k);
    assert m[k := v].Keys == m.Keys + {k};
    InsertedAt(m, k, v, SortedKeys(m.Keys), j);
  }

  lemma InsertedAt(m: map<string, Value>, k: string, v: Value, r: seq<string>, j: nat)
    requires k !in m && j <= |r| && forall x :: x in r ==> x in m
    ensures FieldsSize(m[k := v], r[..j] + [k] + r[j..]) == FieldsSize(m, r) + MemberSize(k, v)
  {
    hide MemberSize, FieldsSize;
    assert r[..j] + r[j..] == r;
    Inserted(m, k, v, r[..j], r[j..]);
  }

  lemma SortedWith(keys: set<string>, k: string) returns (j: nat)
    requires k !in keys
    ensures j <= |SortedKeys(keys)|
    ensures SortedKeys(keys + {k}) == SortedKeys(keys)[..j] + [k] + SortedKeys(keys)[j..]
  {
    hide Less;
    var r := SortedKeys(keys);
    j := PlaceOf(r, k);
    InsertAscending(r, j, k);
    AscendingUnique(SortedKeys(keys + {k}), r[..j] + [k] + r[j..]);
  }

  lemma Inserted(m: map<string, Value>, k: string, v: Value, a: seq<string>, b: seq<string>)
    requires k !in m && (forall x :: x in a ==> x in m) && forall x :: x in b ==> x in m
    ensures FieldsSize(m[k := v], a + [k] + b) == FieldsSize(m, a + b) + MemberSize(k, v)
  {
    hide MemberSize;
    var n := m[k := v];
    FieldsSizeConcat(n, a + [k], b);
    FieldsSizeConcat(n, a, [k]);
    FieldsSizeConcat(m, a, b);
    FieldsSizeSame(m, k, v, a);
    FieldsSizeSame(m, k, v, b);
    assert FieldsSize(n, [k]) == MemberSize(k, v) by { assert [k][1..] == []; }
  }

  // ---------------------------------------------------------------- values

  lemma {:induction false} ValueShortest(s: string)
    requires ParseValue(s).Got?
    ensures |Print(ParseValue(s).value)| + |ParseValue(s).rest| <= |s|
    decreases |s|, 1
  {
    hide EscapeText, IntText, ParseChars, ParseInt, ParseArray, ParseObject;
    match s[0]
    case 'n' =>
    case 't' =>
    case 'f' =>
    case '\"' => CharsShortest(s[1..]);
    case '[' => ArrayShortest(s[1..]);
    case '{' => ObjectShortest(s[1..]);
    case _ => IntIsInt(s); IntShortest(s);
  }

  lemma IntIsInt(s: string)
    requires ParseInt(s).Got?
    ensures ParseInt(s).value.Int?
  {
  }

  lemma {:induction false} ArrayShortest(s: string)
    requires ParseArray(s).Got?
    ensures |Print(ParseArray(s).value)| + |ParseArray(s).rest| <= |s| + 1
    decreases |s|, 2
  {
    hide Print, ParseValue, ParseItems;
    if s != "" && s[0] == ']' {
      ArrayLength([]);
    } else {
      ValueShortest(s);
      var v, more := ParseValue(s).value, ParseValue(s).rest;
      ItemsShortest(more);
      ItemFirst(v, ParseItems(more).value);
      ArrayLength([v] + ParseItems(more).value);
    }
  }

  lemma ItemFirst(v: Value, vs: seq<Value>)
    ensures ItemsSize([v] + vs) == |Print(v)| + 1 + ItemsSize(vs)
  {
    assert ([v] + vs)[1..] == vs;
  }

  lemma {:induction false} ItemsShortest(s: string)
    requires ParseItems(s).Got?
    ensures ItemsSize(ParseItems(s).value) + 1 + |ParseItems(s).rest| <= |s|
    decreases |s|, 0
  {
    hide Print, ParseValue, ItemsSize;
    if s[0] == ']' {
      NoItems();
    } else {
      ValueShortest(s[1..]);
      var v, more := ParseValue(s[1..]).value, ParseValue(s[1..]).rest;
      ItemsShortest(more);
      ItemFirst(v, ParseItems(more).value);
    }
  }

  lemma NoItems()
    ensures ItemsSize([]) == 0
  {
  }

  lemma {:induction false} MemberShortest(s: string)
    requires ParseMember(s).Got?
    ensures MemberSize(ParseMember(s).value.0, ParseMember(s).value.1) + |ParseMember(s).rest| <= |s| + 1
    decreases |s|, 2
  {
    hide Print, EscapeText, ParseChars, ParseValue;
    CharsShortest(s[1..]);
    var more := ParseChars(s[1..]).rest;
    ValueShortest(more[1..]);
  }

  lemma {:induction false} ObjectShortest(s: string)
    requires ParseObject(s).Got?
    ensures |Print(ParseObject(s).value)| + |ParseObject(s).rest| <= |s| + 1
    decreases |s|, 3
  {
    hide Print, ParseMember, ParseFields, MemberSize, FieldsSize;
    if s != "" && s[0] == '}' {
      ObjectLength(map[]);
      NoFields(map[]);
    } else {
      MemberShortest(s);
      var (k, v) := ParseMember(s).value;
      var more := ParseMember(s).rest;
      FieldsShortest(more);
      var m := ParseFields(more).value;
      NewMember(m, k, v);
      ObjectLength(m[k := v]);
      assert k in m[k := v];
    }
  }

  lemma NoFields(m: map<string, Value>)
    requires m == map[]
    ensures FieldsSize(m, SortedKeys(m.Keys)) == 0
  {
    assert m.Keys == {};
  }

  lemma {:induction false} FieldsShortest(s: string)
    requires ParseFields(s).Got?
    ensures FieldsSize(ParseFields(s).value, SortedKeys(ParseFields(s).value.Keys)) + 1 + |ParseFields(s).rest| <= |s|
    decreases |s|, 3
  {
    hide ParseMember, MemberSize, FieldsSize;
    if s[0] == '}' {
      NoFields(map[]);
    } else {
      MemberShortest(s[1..]);
      var (k, v) := ParseMember(s[1..]).value;
      var more := ParseMember(s[1..]).rest;
      FieldsShortest(more);
      NewMember(ParseFields(more).value, k, v);
    }
  }

  /** No text of a value is shorter than its canonical text. */
  lemma PrintIsShortest(v: Value, t: string)
    requires ParseValue(t) == Got(v, "")
    ensures |Print(v)| <= |t|
  {
    ValueShortest(t);
  }

  /** What the Go and the TypeScript printer both write: a text of the value, and none is shorter. */
  method BothPrinters(v: Value) returns (go: string, ts: string)
    ensures go == ts && ParseValue(go) == Got(v, "")
    ensures forall t :: ParseValue(t) == Got(v, "") ==> |go| <= |t|
  {
    go := GoCanonicalize(v);
    ts := TsWriteValue(v);
    PrintThenParse(v, "");
    assert Print(v) + "" == Print(v);
    forall t | ParseValue(t) == Got(v, "")
      ensures |go| <= |t|
    {
      PrintIsShortest(v, t);
    }
  }
}
