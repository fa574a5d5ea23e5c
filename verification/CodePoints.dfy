/**
  The key order of scheme aegis-jcs-1: texts are sequences of Unicode scalar
  values (Dafny's `char`), compared code point by code point.
 */
module CodePoints {

  /** `a` comes strictly before `b` in code-point order. */
  predicate Less(a: string, b: string) {
    b != "" && (a == "" || a[0] < b[0] || (a[0] == b[0] && Less(a[1..], b[1..])))
  }

  /** Dropping the text two keys share does not change how they compare. */
  lemma {:induction false} LessAfterPrefix(p: string, a: string, b: string)
    ensures Less(p + a, p + b) == Less(a, b)
  {
    if p == "" {
      assert p + a == a && p + b == b;
    } else {
      assert (p + a)[1..] == p[1..] + a && (p + b)[1..] == p[1..] + b;
      LessAfterPrefix(p[1..], a, b);
    }
  }

  lemma {:induction false} LessTransitive(a: string, b: string, c: string)
    requires Less(a, b) && Less(b, c)
    ensures Less(a, c)
  {
    if a != "" && a[0] == b[0] && b[0] == c[0] {
      LessTransitive(a[1..], b[1..], c[1..]);
    }
  }

  /** Exactly one of `a` before `b`, `a` equal to `b`, `b` before `a` holds. */
  lemma {:induction false} LessTrichotomy(a: string, b: string)
    ensures Less(a, b) || a == b || Less(b, a)
    ensures !(Less(a, b) && Less(b, a))
    ensures a == b ==> !Less(a, b)
  {
    if a != "" && b != "" && a[0] == b[0] {
      LessTrichotomy(a[1..], b[1..]);
      assert a == [a[0]] + a[1..] && b == [b[0]] + b[1..];
    }
  }

  /** The comparator of the TypeScript SDK as a value, from index `i` on. */
  function Compare(a: string, b: string, i: nat): int
    requires i <= |a| && i <= |b|
    decreases |a| - i
  {
    if i == |a| || i == |b| then |a| - |b|
    else if a[i] != b[i] then a[i] as int - b[i] as int
    else Compare(a, b, i + 1)
  }

  /** Its loop; the sign of the result is the code-point order and zero means the same text. */
  method ByCodePoint(a: string, b: string) returns (d: int)
    ensures d == Compare(a, b, 0)
    ensures d < 0 <==> Less(a, b)
    ensures d == 0 <==> a == b
    ensures d > 0 <==> Less(b, a)
  {
    CompareOrders(a, b, 0);
    var n := if |a| < |b| then |a| else |b|;
    for i := 0 to n
      invariant Compare(a, b, i) == Compare(a, b, 0)
    {
      d := a[i] as int - b[i] as int;
      if d != 0 {
        return;
      }
    }
    d := |a| - |b|;
  }

  /** Texts that agree before index `i` and differ there are ordered by what stands there. */
  lemma DecidedAt(a: string, b: string, i: nat)
    requires i < |a| && i < |b| && a[..i] == b[..i] && a[i] != b[i]
    ensures Less(a, b) <==> a[i] < b[i]
    ensures Less(b, a) <==> b[i] < a[i]
  {
    assert a == a[..i] + a[i..] && b == b[..i] + b[i..];
    LessAfterPrefix(a[..i], a[i..], b[i..]);
    LessAfterPrefix(a[..i], b[i..], a[i..]);
  }

  lemma {:induction false} CompareOrders(a: string, b: string, i: nat)
    requires i <= |a| && i <= |b| && a[..i] == b[..i]
    ensures Compare(a, b, i) < 0 <==> Less(a, b)
    ensures Compare(a, b, i) == 0 <==> a == b
    ensures Compare(a, b, i) > 0 <==> Less(b, a)
    decreases |a| - i
  {
    if i < |a| && i < |b| {
      if a[i] == b[i] {
        assert a[..i + 1] == a[..i] + [a[i]] && b[..i + 1] == b[..i] + [b[i]];
        CompareOrders(a, b, i + 1);
      } else {
        DecidedAt(a, b, i);
      }
    } else {
      assert a == a[..i] + a[i..] && b == b[..i] + b[i..];
      LessAfterPrefix(a[..i], a[i..], b[i..]);
      LessAfterPrefix(a[..i], b[i..], a[i..]);
    }
  }

  // ---------------------------------------------------------------- sorting

  ghost predicate Ascending(keys: seq<string>) {
    forall i, j :: 0 <= i < j < |keys| ==> Less(keys[i], keys[j])
  }

  ghost predicate IsLeast(k: string, keys: set<string>) {
    k in keys && forall x :: x in keys && x != k ==> Less(k, x)
  }

  lemma {:induction false} LeastExists(keys: set<string>)
    requires keys != {}
    ensures exists k :: IsLeast(k, keys)
    decreases |keys|
  {
    var x :| x in keys;
    var rest := keys - {x};
    assert keys == rest + {x};
    if rest == {} {
      assert IsLeast(x, keys);
    } else {
      LeastExists(rest);
      var y :| IsLeast(y, rest);
      LessTrichotomy(x, y);
      if Less(x, y) {
        forall z | z in keys && z != x
          ensures Less(x, z)
        {
          if z != y { LessTransitive(x, y, z); }
        }
        assert IsLeast(x, keys);
      } else {
        assert IsLeast(y, keys);
      }
    }
  }

  /** The keys of an object in code-point order. */
  ghost function SortedKeys(keys: set<string>): (r: seq<string>)
    ensures forall k :: k in r <==> k in keys
    ensures |r| == |keys|
    ensures Ascending(r)
    decreases |keys|
  {
    if keys == {} then []
    else
      LeastExists(keys);
      var k :| IsLeast(k, keys);
      LeastFirst(k, keys, SortedKeys(keys - {k}));
      [k] + SortedKeys(keys - {k})
  }

  lemma LeastFirst(k: string, keys: set<string>, rest: seq<string>)
    requires IsLeast(k, keys) && Ascending(rest) && |rest| == |keys| - 1
    requires forall x :: x in rest <==> x in keys - {k}
    ensures Ascending([k] + rest) && |[k] + rest| == |keys|
    ensures forall x :: x in [k] + rest <==> x in keys
  {
    assert forall x :: x in [k] + rest <==> x == k || x in rest;
    forall i, j | 0 <= i < j < |[k] + rest|
      ensures Less(([k] + rest)[i], ([k] + rest)[j])
    {
      assert ([k] + rest)[j] in rest;
    }
  }

  /** There is only one way to list a key set in code-point order. */
  lemma {:induction false} AscendingUnique(a: seq<string>, b: seq<string>)
    requires Ascending(a) && Ascending(b)
    requires forall k :: k in a <==> k in b
    ensures a == b
  {
    assert b != [] ==> b[0] in b;
    if a != [] {
      assert a[0] in a && a[0] in b;
      assert b[0] in b && b[0] in a;
      var i :| 0 <= i < |b| && b[i] == a[0];
      var j :| 0 <= j < |a| && a[j] == b[0];
      LessTrichotomy(a[0], b[0]);
      assert a[0] == b[0];
      forall k
        ensures k in a[1..] <==> k in b[1..]
      {
        InTail(a, k);
        InTail(b, k);
      }
      AscendingUnique(a[1..], b[1..]);
      assert a == [a[0]] + a[1..] && b == [b[0]] + b[1..];
    }
  }

  lemma InTail(a: seq<string>, k: string)
    requires a != [] && Ascending(a)
    ensures k in a[1..] <==> k in a && k != a[0]
  {
    if k in a[1..] {
      var i :| 0 <= i < |a[1..]| && a[1..][i] == k;
      assert a[i + 1] == k && Less(a[0], a[i + 1]);
      LessTrichotomy(a[0], k);
    }
  }
}
