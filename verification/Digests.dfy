/**
  Hashing: SHA-256 hex over UTF-8 is an arbitrary function from bytes to text.
  Where a theorem needs that different texts have different digests, it says so
  for the texts the theorem is about, and for no others.
 */
module Digests {
  import opened Canon
  import CanonParse
  import Utf8

  type Bytes = seq<Utf8.Byte>
  type Hash = Bytes -> string

  ghost predicate CollisionFreeOn(h: Hash, texts: set<Bytes>) {
    forall x, y :: x in texts && y in texts && h(x) == h(y) ==> x == y
  }

  /** The bytes that are hashed for a value. */
  ghost function CanonicalBytes(v: Value): Bytes {
    Utf8.Encode(Print(v))
  }

  /** canonical_hash, computed by printing the value. */
  method CanonicalHash(h: Hash, v: Value) returns (digest: string)
    ensures digest == h(CanonicalBytes(v))
  {
    var text := GoCanonicalize(v);
    digest := h(Utf8.Encode(text));
  }

  /** Values whose digests agree are equal. */
  lemma SameDigestSameValue(h: Hash, v: Value, w: Value, texts: set<Bytes>)
    requires CollisionFreeOn(h, texts)
    requires CanonicalBytes(v) in texts && CanonicalBytes(w) in texts
    requires h(CanonicalBytes(v)) == h(CanonicalBytes(w))
    ensures v == w
  {
    CanonParse.BytesInjective(v, w);
  }
}

/** The five-field action an approval is bound to. */
module Actions {
  import opened Options
  import opened CodePoints
  import opened Canon
  import CanonParse
  import opened Digests

  datatype Action = Action(
    tool: string,
    action: string,
    resource: Option<string>,
    mutatesState: bool,
    parameters: map<string, Value>)

  /** An absent resource is JSON null. */
  function ActionValue(a: Action): Value {
    Obj(map[
      "tool" := Str(a.tool),
      "action" := Str(a.action),
      "resource" := (if a.resource.Some? then Str(a.resource.value) else Null),
      "mutates_state" := Bool(a.mutatesState),
      "parameters" := Obj(a.parameters)])
  }

  ghost function ActionBytes(a: Action): Bytes {
    CanonicalBytes(ActionValue(a))
  }

  ghost function ActionHash(h: Hash, a: Action): string {
    h(ActionBytes(a))
  }

  /** The five fields can be read back from the hashed value. */
  lemma ActionValueInjective(a: Action, b: Action)
    requires ActionValue(a) == ActionValue(b)
    ensures a == b
  {
    var m, n := ActionValue(a).fields, ActionValue(b).fields;
    assert m["tool"] == n["tool"] && m["action"] == n["action"] && m["resource"] == n["resource"];
    assert m["mutates_state"] == n["mutates_state"] && m["parameters"] == n["parameters"];
  }

  /** The text that is hashed, letter by letter: the five fields by name, in code-point order. */
  lemma ActionText(a: Action)
    ensures Print(ActionValue(a)) ==
            "{" + ("\"action\":" + StringText(a.action))
            + "," + ("\"mutates_state\":" + if a.mutatesState then "true" else "false")
            + "," + ("\"parameters\":" + Print(Obj(a.parameters)))
            + "," + ("\"resource\":" + if a.resource.Some? then StringText(a.resource.value) else "null")
            + "," + ("\"tool\":" + StringText(a.tool)) + "}"
  {
    hide StringText, MemberText, ActionValue, Print;
    var v := ActionValue(a);
    FieldNames(a);
    FieldTexts(a);
    var keys := ["action", "mutates_state", "parameters", "resource", "tool"];
    PrintObject(v);
    FiveMembers(v, keys);
    Bracketed(MemberText(v, keys[0]), MemberText(v, keys[1]), MemberText(v, keys[2]), MemberText(v, keys[3]),
              MemberText(v, keys[4]));
  }

  lemma PrintObject(v: Value)
    requires v.Obj?
    ensures Print(v) == "{" + PrintFields(v, SortedKeys(v.fields.Keys), 0) + "}"
  {
  }

  lemma FieldNames(a: Action)
    ensures ActionValue(a).Obj?
    ensures SortedKeys(ActionValue(a).fields.Keys) == ["action", "mutates_state", "parameters", "resource", "tool"]
  {
    var names := ["action", "mutates_state", "parameters", "resource", "tool"];
    forall i, j | 0 <= i < j < 5
      ensures Less(names[i], names[j])
    {
      assert names[i][0] < names[j][0];
    }
    AscendingUnique(names, SortedKeys(ActionValue(a).fields.Keys));
  }

  lemma FieldTexts(a: Action)
    ensures var v := ActionValue(a);
            && v.Obj? && v.fields.Keys == {"action", "mutates_state", "parameters", "resource", "tool"}
            && MemberText(v, "action") == "\"action\":" + StringText(a.action)
            && MemberText(v, "mutates_state") == "\"mutates_state\":" + (if a.mutatesState then "true" else "false")
            && MemberText(v, "parameters") == "\"parameters\":" + Print(Obj(a.parameters))
            && MemberText(v, "resource")
               == "\"resource\":" + (if a.resource.Some? then StringText(a.resource.value) else "null")
            && MemberText(v, "tool") == "\"tool\":" + StringText(a.tool)
  {
    hide StringText, Print, MemberText, ActionValue;
    var v := ActionValue(a);
    FieldValues(a);
    Named(v, "action", "\"action\":");
    Named(v, "mutates_state", "\"mutates_state\":");
    Named(v, "parameters", "\"parameters\":");
    Named(v, "resource", "\"resource\":");
    Named(v, "tool", "\"tool\":");
  }

  lemma FieldValues(a: Action)
    ensures var v := ActionValue(a);
            && v.Obj? && v.fields.Keys == {"action", "mutates_state", "parameters", "resource", "tool"}
            && Print(v.fields["action"]) == StringText(a.action)
            && Print(v.fields["mutates_state"]) == (if a.mutatesState then "true" else "false")
            && v.fields["parameters"] == Obj(a.parameters)
            && Print(v.fields["resource"]) == (if a.resource.Some? then StringText(a.resource.value) else "null")
            && Print(v.fields["tool"]) == StringText(a.tool)
  {
    hide StringText, SortedKeys;
  }

  ghost function MemberText(v: Value, k: string): string
    requires v.Obj? && k in v.fields
  {
    StringText(k) + ":" + Print(v.fields[k])
  }

  lemma FiveMembers(v: Value, keys: seq<string>)
    requires v.Obj? && |keys| == 5 && forall k :: k in keys ==> k in v.fields
    ensures PrintFields(v, keys, 0) ==
            MemberText(v, keys[0]) + ("," + MemberText(v, keys[1]) + ("," + MemberText(v, keys[2])
            + ("," + MemberText(v, keys[3]) + ("," + MemberText(v, keys[4])))))
  {
    hide PrintFields, MemberText;
    LastMember(v, keys);
    NextMember(v, keys, 3);
    NextMember(v, keys, 2);
    NextMember(v, keys, 1);
    NextMember(v, keys, 0);
    assert "" + MemberText(v, keys[0]) == MemberText(v, keys[0]);
  }

  lemma NextMember(v: Value, keys: seq<string>, i: nat)
    requires v.Obj? && i < |keys| && forall k :: k in keys ==> k in v.fields
    ensures PrintFields(v, keys, i) == Comma(i) + MemberText(v, keys[i]) + PrintFields(v, keys, i + 1)
  {
  }

  lemma LastMember(v: Value, keys: seq<string>)
    requires v.Obj? && |keys| > 1 && forall k :: k in keys ==> k in v.fields
    ensures PrintFields(v, keys, |keys| - 1) == "," + MemberText(v, keys[|keys| - 1])
  {
    var i := |keys| - 1;
    assert PrintFields(v, keys, i + 1) == "";
  }

  lemma Bracketed(a: string, b: string, c: string, d: string, e: string)
    ensures "{" + (a + ("," + b + ("," + c + ("," + d + ("," + e))))) + "}"
         == "{" + a + "," + b + "," + c + "," + d + "," + e + "}"
  {
  }

  lemma Named(v: Value, k: string, head: string)
    requires v.Obj? && k in v.fields && Letters(k) && head == "\"" + k + "\":"
    ensures MemberText(v, k) == head + Print(v.fields[k])
  {
    hide Print;
    PlainText(k);
  }

  predicate Letters(w: string) {
    forall i :: 0 <= i < |w| ==> 'a' <= w[i] <= 'z' || w[i] == '_'
  }

  /** Letters need no escape. */
  lemma {:induction false} PlainText(w: string)
    requires Letters(w)
    ensures EscapeText(w) == w
  {
    hide EscapeChar;
    if w != "" {
      PlainText(w[1..]);
      LetterIsRaw(w[0]);
      assert w == [w[0]] + w[1..];
    }
  }

  lemma LetterIsRaw(c: char)
    requires 'a' <= c <= 'z' || c == '_'
    ensures EscapeChar(c) == [c]
  {
    hide DIGITS;
  }

  /** Actions with the same canonical text are the same action, field by field. */
  lemma ActionBytesInjective(a: Action, b: Action)
    requires ActionBytes(a) == ActionBytes(b)
    ensures a == b
  {
    CanonParse.BytesInjective(ActionValue(a), ActionValue(b));
    ActionValueInjective(a, b);
  }

  lemma SameHashSameAction(h: Hash, a: Action, b: Action, texts: set<Bytes>)
    requires CollisionFreeOn(h, texts) && ActionBytes(a) in texts && ActionBytes(b) in texts
    requires ActionHash(h, a) == ActionHash(h, b)
    ensures a == b
  {
    ActionBytesInjective(a, b);
  }
}
