/**
  UTF-8 (section 3 of RFC 3629) and the byte-wise order Go's `sort.Strings`
  uses, which is proved to be the code-point order of module CodePoints.
 */
module Utf8 {
  import opened CodePoints

  type Byte = x: int | 0 <= x < 256

  function EncodeChar(c: char): (r: seq<Byte>)
    ensures r != []
  {
    var n := c as int;
    var q := n / 0x40;    // the code point without its low six bits
    var r := q / 0x40;
    if n < 0x80 then [n]
    else if n < 0x800 then [0xC0 + q, 0x80 + n % 0x40]
    else if n < 0x1_0000 then [0xE0 + r, 0x80 + q % 0x40, 0x80 + n % 0x40]
    else [0xF0 + r / 0x40, 0x80 + r % 0x40, 0x80 + q % 0x40, 0x80 + n % 0x40]
  }

  function Encode(s: string): seq<Byte> {
    if s == "" then [] else EncodeChar(s[0]) + Encode(s[1..])
  }

  /** Byte-wise lexicographic order, as Go compares strings. */
  predicate ByteLess(a: seq<Byte>, b: seq<Byte>) {
    b != [] && (a == [] || a[0] < b[0] || (a[0] == b[0] && ByteLess(a[1..], b[1..])))
  }

  lemma {:induction false} ByteLessAfterPrefix(p: seq<Byte>, a: seq<Byte>, b: seq<Byte>)
    ensures ByteLess(p + a, p + b) == ByteLess(a, b)
  {
    if p == [] {
      assert p + a == a && p + b == b;
    } else {
      assert (p + a)[1..] == p[1..] + a && (p + b)[1..] == p[1..] + b;
      ByteLessAfterPrefix(p[1..], a, b);
    }
  }

  lemma {:induction false} ByteLessAsymmetric(a: seq<Byte>, b: seq<Byte>)
    requires ByteLess(a, b)
    ensures a != b && !ByteLess(b, a)
  {
    if a != [] && a[0] == b[0] {
      ByteLessAsymmetric(a[1..], b[1..]);
    }
  }

  lemma SixBits(m: int, n: int)
    requires 0 <= m < n
    ensures m / 0x40 < n / 0x40 || (m / 0x40 == n / 0x40 && m % 0x40 < n % 0x40)
  {
  }

  /** The first byte at which two encodings differ, and it is within both of them. */
  lemma SmallerCharDecides(a: char, b: char) returns (i: nat)
    requires a < b
    ensures i < |EncodeChar(a)| && i < |EncodeChar(b)|
    ensures EncodeChar(a)[..i] == EncodeChar(b)[..i]
    ensures EncodeChar(a)[i] < EncodeChar(b)[i]
  {
    hide EncodeChar;
    var m, n := a as int, b as int;
    if n < 0x80 || (m < 0x80 <= n) || (m < 0x800 <= n) || (m < 0x1_0000 <= n) {
      LeadByteDecides(a, b);
      i := 0;
    } else if n < 0x800 {
      i := TwoBytesDecide(a, b);
    } else if n < 0x1_0000 {
      i := ThreeBytesDecide(a, b);
    } else {
      i := FourBytesDecide(a, b);
    }
  }

  /** The first byte tells the length, longer encodings having larger ones. */
  lemma LeadByteDecides(a: char, b: char)
    requires a < b
    requires var m, n := a as int, b as int; n < 0x80 || (m < 0x80 <= n) || (m < 0x800 <= n) || (m < 0x1_0000 <= n)
    ensures EncodeChar(a)[0] < EncodeChar(b)[0]
  {
  }

  lemma TwoBytesDecide(a: char, b: char) returns (i: nat)
    requires 0x80 <= a as int < b as int < 0x800
    ensures i < |EncodeChar(a)| && i < |EncodeChar(b)|
    ensures EncodeChar(a)[..i] == EncodeChar(b)[..i] && EncodeChar(a)[i] < EncodeChar(b)[i]
  {
    SixBits(a as int, b as int);
    i := if a as int / 0x40 < b as int / 0x40 then 0 else 1;
  }

  lemma ThreeBytesDecide(a: char, b: char) returns (i: nat)
    requires 0x800 <= a as int < b as int < 0x1_0000
    ensures i < |EncodeChar(a)| && i < |EncodeChar(b)|
    ensures EncodeChar(a)[..i] == EncodeChar(b)[..i] && EncodeChar(a)[i] < EncodeChar(b)[i]
  {
    var p, q := a as int / 0x40, b as int / 0x40;
    SixBits(a as int, b as int);
    if p == q {
      i := 2;
    } else {
      SixBits(p, q);
      i := if p / 0x40 < q / 0x40 then 0 else 1;
    }
  }

  lemma FourBytesDecide(a: char, b: char) returns (i: nat)
    requires 0x1_0000 <= a as int < b as int
    ensures i < |EncodeChar(a)| && i < |EncodeChar(b)|
    ensures EncodeChar(a)[..i] == EncodeChar(b)[..i] && EncodeChar(a)[i] < EncodeChar(b)[i]
  {
    var p, q := a as int / 0x40, b as int / 0x40;
    SixBits(a as int, b as int);
    if p == q {
      i := 3;
    } else {
      SixBits(p, q);
      if p / 0x40 == q / 0x40 {
        i := 2;
      } else {
        SixBits(p / 0x40, q / 0x40);
        i := if p / 0x40 / 0x40 < q / 0x40 / 0x40 then 0 else 1;
      }
    }
  }

  lemma SmallerCharSmallerBytes(a: char, b: char, x: seq<Byte>, y: seq<Byte>)
    requires a < b
    ensures ByteLess(EncodeChar(a) + x, EncodeChar(b) + y)
  {
    var i := SmallerCharDecides(a, b);
    var s, t := EncodeChar(a) + x, EncodeChar(b) + y;
    assert s == EncodeChar(a)[..i] + s[i..] && t == EncodeChar(a)[..i] + t[i..];
    ByteLessAfterPrefix(EncodeChar(a)[..i], s[i..], t[i..]);
  }

  lemma {:induction false} LessImpliesByteLess(a: string, b: string)
    requires Less(a, b)
    ensures ByteLess(Encode(a), Encode(b))
  {
    if a != "" {
      if a[0] < b[0] {
        SmallerCharSmallerBytes(a[0], b[0], Encode(a[1..]), Encode(b[1..]));
      } else {
        LessImpliesByteLess(a[1..], b[1..]);
        ByteLessAfterPrefix(EncodeChar(a[0]), Encode(a[1..]), Encode(b[1..]));
      }
    }
  }

  /** Go's byte order on UTF-8 and the code-point order are one order on all texts. */
  lemma ByteOrderIsCodePointOrder(a: string, b: string)
    ensures ByteLess(Encode(a), Encode(b)) <==> Less(a, b)
  {
    LessTrichotomy(a, b);
    if Less(a, b) {
      LessImpliesByteLess(a, b);
    } else if Less(b, a) {
      LessImpliesByteLess(b, a);
      ByteLessAsymmetric(Encode(b), Encode(a));
    } else {
      if ByteLess(Encode(a), Encode(a)) { ByteLessAsymmetric(Encode(a), Encode(a)); }
    }
  }

  /** Different texts have different UTF-8 bytes. */
  lemma EncodeInjective(a: string, b: string)
    requires Encode(a) == Encode(b)
    ensures a == b
  {
    LessTrichotomy(a, b);
    if Less(a, b) {
      LessImpliesByteLess(a, b);
      ByteLessAsymmetric(Encode(a), Encode(b));
    } else if Less(b, a) {
      LessImpliesByteLess(b, a);
      ByteLessAsymmetric(Encode(b), Encode(a));
    }
  }
}
