/**
  Canonical printing, scheme aegis-jcs-1: compact JSON with object keys in
  code-point order and only the escapes JSON demands.

  `Print` says what the text of a value is; the Go printer (a builder appended
  in place) and the TypeScript printer (recursion returning text) are methods
  proved to produce exactly that text.
 */
module Canon {
  import opened CodePoints
  import Utf8

  /** The JSON values of the scheme; numbers are integers. */
  datatype Value =
    | Null
    | Bool(b: bool)
    | Int(n: int)
    | Str(s: string)
    | Arr(items: seq<Value>)
    | Obj(fields: map<string, Value>)

  // ---------------------------------------------------------------- leaves

  const DIGITS := "0123456789abcdef"

  function NatText(n: nat): string {
    if n < 10 then [DIGITS[n]] else NatText(n / 10) + [DIGITS[n % 10]]
  }

  function IntText(n: int): string {
    if n < 0 then "-" + NatText(-n) else NatText(n)
  }

  /** A backslash, a quote and the C0 controls are escaped; everything else is raw. */
  function EscapeChar(c: char): string {
    if c == '\"' then "\\\""
    else if c == '\\' then "\\\\"
    else if c as int == 8 then "\\b"
    else if c == '\t' then "\\t"
    else if c == '\n' then "\\n"
    else if c as int == 12 then "\\f"
    else if c == '\r' then "\\r"
    else if c < ' ' then "\\u00" + [DIGITS[c as int / 16], DIGITS[c as int % 16]]
    else [c]
  }

  function EscapeText(s: string): string {
    if s == "" then "" else EscapeChar(s[0]) + EscapeText(s[1..])
  }

  function StringText(s: string): string {
    "\"" + EscapeText(s) + "\""
  }

  // ---------------------------------------------------------------- the text of a value

  ghost function Print(v: Value): string
    decreases v, 1, 0
  {
    match v
    case Null => "null"
    case Bool(b) => if b then "true" else "false"
    case Int(n) => IntText(n)
    case Str(s) => StringText(s)
    case Arr(_) => "[" + PrintItems(v, 0) + "]"
    case Obj(fields) => "{" + PrintFields(v, SortedKeys(fields.Keys), 0) + "}"
  }

  /** The elements from index `i` on, each but the first of the array after a comma. */
  ghost function PrintItems(v: Value, i: nat): string
    requires v.Arr? && i <= |v.items|
    decreases v, 0, |v.items| - i
  {
    if i == |v.items| then ""
    else Comma(i) + Print(v.items[i]) + PrintItems(v, i + 1)
  }

  /** The members for `keys[i..]`, each but the first of the object after a comma. */
  ghost function PrintFields(v: Value, keys: seq<string>, i: nat): string
    requires v.Obj? && i <= |keys| && forall k :: k in keys ==> k in v.fields
    decreases v, 0, |keys| - i
  {
    if i == |keys| then ""
    else
      Comma(i) + (StringText(keys[i]) + ":" + Print(v.fields[keys[i]])) + PrintFields(v, keys, i + 1)
  }

  function Comma(i: nat): string {
    if i > 0 then "," else ""
  }

  /** Concatenation is associative: a text written in three pieces. */
  lemma InPieces(start: string, a: string, b: string, c: string)
    ensures start + (a + b + c) == start + a + b + c
    ensures start + a + (b + c) == start + a + b + c
  {
  }

  // ---------------------------------------------------------------- sorting the keys

  ghost predicate Distinct(keys: seq<string>) {
    forall i, j :: 0 <= i < j < |keys| ==> keys[i] != keys[j]
  }

  /**
    Library sort, for a comparison that is the code-point order: whatever order
    the keys of a map were listed in, one result.
   */
  method SortKeys(keys: seq<string>, before: (string, string) -> bool) returns (r: seq<string>)
    requires forall a, b :: before(a, b) <==> Less(a, b)
    requires Distinct(keys)
    ensures r == SortedKeys(set k | k in keys)
  {
    r := [];
    for i := 0 to |keys|
      invariant Ascending(r)
      invariant forall k :: k in r <==> k in keys[..i]
    {
      var j := 0;
      while j < |r| && before(r[j], keys[i])
        invariant j <= |r|
        invariant forall m :: 0 <= m < j ==> Less(r[m], keys[i])
      {
        j := j + 1;
      }
      assert keys[i] !in keys[..i];
      InsertAscending(r, j, keys[i]);
      r := r[..j] + [keys[i]] + r[j..];
    }
    assert keys[..|keys|] == keys;
    AscendingUnique(r, SortedKeys(set k | k in keys));
  }

  /** Lists the keys of an object, in any order at all. */
  method ListKeys(fields: map<string, Value>) returns (keys: seq<string>)
    ensures Distinct(keys)
    ensures (set k | k in keys) == fields.Keys
  {
    keys := [];
    var rest := fields.Keys;
    while rest != {}
      invariant Distinct(keys) && rest <= fields.Keys
      invariant forall k :: k in keys <==> k in fields && k !in rest
      decreases |rest|
    {
      var k :| k in rest;
      keys := keys + [k];
      rest := rest - {k};
    }
  }

  lemma InsertAscending(r: seq<string>, j: nat, k: string)
    requires Ascending(r) && j <= |r| && k !in r
    requires forall m :: 0 <= m < j ==> Less(r[m], k)
    requires j < |r| ==> !Less(r[j], k)
    ensures Ascending(r[..j] + [k] + r[j..])
    ensures forall x :: x in r[..j] + [k] + r[j..] <==> x in r || x == k
  {
    assert r == r[..j] + r[j..];
    forall m | j <= m < |r|
      ensures Less(k, r[m])
    {
      LessTrichotomy(k, r[j]);
      if j < m { LessTransitive(k, r[j], r[m]); }
    }
  }

  // ---------------------------------------------------------------- the Go printer

  /** Go's strings.Builder. */
  class Builder {
    var text: string

    constructor ()
      ensures text == ""
    {
      text := "";
    }

    method WriteString(s: string)
      modifies this
      ensures text == old(text) + s
    {
      text := text + s;
    }
  }

  /** canon.Canonicalize of the Go SDK. */
  method GoCanonicalize(v: Value) returns (s: string)
    ensures s == Print(v)
  {
    var b := new Builder();
    GoWriteValue(b, v);
    s := b.text;
  }

  method GoWriteValue(b: Builder, v: Value)
    modifies b
    ensures b.text == old(b.text) + Print(v)
    decreases v, 1
  {
    match v
    case Null => b.WriteString("null");
    case Bool(x) => b.WriteString(if x then "true" else "false");
    case Int(n) => b.WriteString(IntText(n));
    case Str(s) => GoWriteString(b, s);
    case Arr(_) => GoWriteArray(b, v);
    case Obj(_) => GoWriteObject(b, v);
  }

  method GoWriteRune(b: Builder, r: char)
    modifies b
    ensures b.text == old(b.text) + EscapeChar(r)
  {
    if r == '\"' { b.WriteString("\\\""); }
    else if r == '\\' { b.WriteString("\\\\"); }
    else if r as int == 8 { b.WriteString("\\b"); }
    else if r == '\t' { b.WriteString("\\t"); }
    else if r == '\n' { b.WriteString("\\n"); }
    else if r as int == 12 { b.WriteString("\\f"); }
    else if r == '\r' { b.WriteString("\\r"); }
    else if r < ' ' {
      b.WriteString("\\u00");
      b.WriteString([DIGITS[r as int / 16], DIGITS[r as int % 16]]);
    }
    else { b.WriteString([r]); }
  }

  lemma EscapeTextFrom(s: string, i: nat)
    requires i < |s|
    ensures EscapeText(s[i..]) == EscapeChar(s[i]) + EscapeText(s[i + 1..])
  {
    assert s[i..][0] == s[i] && s[i..][1..] == s[i + 1..];
  }

  method GoWriteString(b: Builder, s: string)
    modifies b
    ensures b.text == old(b.text) + StringText(s)
  {
    b.WriteString("\"");
    GoWriteRunes(b, s);
    b.WriteString("\"");
    InPieces(old(b.text), "\"", EscapeText(s), "\"");
  }

  method GoWriteRunes(b: Builder, s: string)
    modifies b
    ensures b.text == old(b.text) + EscapeText(s)
  {
    hide EscapeChar;
    for i := 0 to |s|
      invariant b.text + EscapeText(s[i..]) == old(b.text) + EscapeText(s)
    {
      EscapeTextFrom(s, i);
      InPieces(b.text, EscapeChar(s[i]), EscapeText(s[i + 1..]), "");
      GoWriteRune(b, s[i]);
    }
  }

  method GoWriteArray(b: Builder, v: Value)
    requires v.Arr?
    modifies b
    ensures b.text == old(b.text) + Print(v)
    decreases v, 0
  {
    b.WriteString("[");
    ghost var start := b.text;
    for i := 0 to |v.items|
      invariant b.text + PrintItems(v, i) == start + PrintItems(v, 0)
    {
      InPieces(b.text, Comma(i), Print(v.items[i]), PrintItems(v, i + 1));
      b.WriteString(Comma(i));
      GoWriteValue(b, v.items[i]);
    }
    assert b.text == start + PrintItems(v, 0);
    b.WriteString("]");
    InPieces(old(b.text), "[", PrintItems(v, 0), "]");
  }

  /** The keys of a Go map come out in any order; the text does not depend on it. */
  method GoWriteObject(b: Builder, v: Value)
    requires v.Obj?
    modifies b
    ensures b.text == old(b.text) + Print(v)
    decreases v, 0
  {
    forall x, y
      ensures Utf8.ByteLess(Utf8.Encode(x), Utf8.Encode(y)) <==> Less(x, y)
    {
      Utf8.ByteOrderIsCodePointOrder(x, y);
    }
    var keys := ListKeys(v.fields);
    keys := SortKeys(keys, (x, y) => Utf8.ByteLess(Utf8.Encode(x), Utf8.Encode(y)));
    b.WriteString("{");
    ghost var start := b.text;
    for i := 0 to |keys|
      invariant b.text + PrintFields(v, keys, i) == start + PrintFields(v, keys, 0)
    {
      ghost var member := StringText(keys[i]) + ":" + Print(v.fields[keys[i]]);
      InPieces(b.text, Comma(i), member, PrintFields(v, keys, i + 1));
      b.WriteString(Comma(i));
      InPieces(b.text, StringText(keys[i]), ":", Print(v.fields[keys[i]]));
      GoWriteString(b, keys[i]);
      b.WriteString(":");
      GoWriteValue(b, v.fields[keys[i]]);
    }
    assert b.text == start + PrintFields(v, keys, 0);
    b.WriteString("}");
    InPieces(old(b.text), "{", PrintFields(v, keys, 0), "}");
  }

  // ---------------------------------------------------------------- the TypeScript printer

  /** writeValue of the TypeScript SDK. */
  method TsWriteValue(v: Value) returns (out: string)
    ensures out == Print(v)
    decreases v, 1
  {
    match v
    case Null => out := "null";
    case Bool(x) => out := if x then "true" else "false";
    case Int(n) => out := IntText(n);
    case Str(s) => out := StringText(s);
    case Arr(_) => out := TsWriteArray(v);
    case Obj(_) => out := TsWriteObject(v);
  }

  method TsWriteArray(v: Value) returns (out: string)
    requires v.Arr?
    ensures out == Print(v)
    decreases v, 0
  {
    var joined := "";
    for i := 0 to |v.items|
      invariant joined + PrintItems(v, i) == PrintItems(v, 0)
    {
      InPieces(joined, Comma(i), Print(v.items[i]), PrintItems(v, i + 1));
      var item := TsWriteValue(v.items[i]);
      joined := joined + Comma(i) + item;
    }
    assert joined == PrintItems(v, 0);
    out := "[" + joined + "]";
  }

  method TsWriteObject(v: Value) returns (out: string)
    requires v.Obj?
    ensures out == Print(v)
    decreases v, 0
  {
    forall x, y
      ensures Compare(x, y, 0) < 0 <==> Less(x, y)
    {
      CompareOrders(x, y, 0);
    }
    var keys := ListKeys(v.fields);
    keys := SortKeys(keys, (x, y) => Compare(x, y, 0) < 0);
    out := "{";
    for i := 0 to |keys|
      invariant out + PrintFields(v, keys, i) == "{" + PrintFields(v, keys, 0)
    {
      ghost var start := out;
      out := out + Comma(i);
      var value := TsWriteValue(v.fields[keys[i]]);
      out := out + (StringText(keys[i]) + ":" + value);
      InPieces(start, Comma(i), StringText(keys[i]) + ":" + value, PrintFields(v, keys, i + 1));
    }
    assert out == "{" + PrintFields(v, keys, 0);
    out := out + "}";
  }
}
