/**
  Go ranges over a map in an unspecified order, so `formatResponse` may emit
  the header lines in any order. The serialiser is therefore stated for every
  enumeration of the header names; to obtain concrete wire bytes the
  connection loop fixes one admissible enumeration, the lexicographic one
  built here.
 */
module KeyOrder {

  /** `order` lists every element of `keys` exactly once. */
  predicate IsEnumeration(order: seq<string>, keys: set<string>) {
    && (forall i, j :: 0 <= i < j < |order| ==> order[i] != order[j])
    && (forall k :: k in keys ==> k in order)
    && (forall i :: 0 <= i < |order| ==> order[i] in keys)
  }

  /** Lexicographic order by character code: `a` sorts no later than `b`. */
  predicate NoLater(a: string, b: string)
    decreases |a|
  {
    |a| == 0 || (|b| > 0 && (a[0] < b[0] || (a[0] == b[0] && NoLater(a[1..], b[1..]))))
  }

  lemma {:induction false} NoLaterTotal(a: string, b: string)
    ensures NoLater(a, b) || NoLater(b, a)
    decreases |a|
  {
    if |a| > 0 && |b| > 0 && a[0] == b[0] {
      NoLaterTotal(a[1..], b[1..]);
    }
  }

  lemma {:induction false} NoLaterAntisymmetric(a: string, b: string)
    requires NoLater(a, b) && NoLater(b, a)
    ensures a == b
    decreases |a|
  {
    if |a| > 0 {
      NoLaterAntisymmetric(a[1..], b[1..]);
      assert a == [a[0]] + a[1..] && b == [b[0]] + b[1..];
    }
  }

  lemma {:induction false} NoLaterTransitive(a: string, b: string, c: string)
    requires NoLater(a, b) && NoLater(b, c)
    ensures NoLater(a, c)
    decreases |a|
  {
    if |a| > 0 && a[0] == b[0] && b[0] == c[0] {
      NoLaterTransitive(a[1..], b[1..], c[1..]);
    }
  }

  /** `k` is the first of `keys` in lexicographic order. */
  predicate IsLeast(k: string, keys: set<string>) {
    k in keys && forall j :: j in keys ==> NoLater(k, j)
  }

  /** Every non-empty finite set of strings has a least element. */
  lemma {:induction false} LeastExists(keys: set<string>)
    requires keys != {}
    ensures exists k :: IsLeast(k, keys)
    decreases |keys|
  {
    var x :| x in keys;
    if keys == {x} {
      assert IsLeast(x, keys) by { NoLaterTotal(x, x); }
    } else {
      LeastExists(keys - {x});
      var m :| IsLeast(m, keys - {x});
      NoLaterTotal(x, m);
      if NoLater(x, m) {
        forall j | j in keys
          ensures NoLater(x, j)
        {
          if j != x {
            NoLaterTransitive(x, m, j);
          } else {
            NoLaterTotal(x, x);
          }
        }
        assert IsLeast(x, keys);
      } else {
        assert IsLeast(m, keys);
      }
    }
  }

  /** There is at most one least element. */
  lemma {:induction false} LeastUnique(keys: set<string>)
    ensures forall a, b :: IsLeast(a, keys) && IsLeast(b, keys) ==> a == b
  {
    forall a, b | IsLeast(a, keys) && IsLeast(b, keys)
      ensures a == b
    {
      NoLaterAntisymmetric(a, b);
    }
  }

  /** The header names of a response in one fixed admissible iteration order. */
  function Arrange(keys: set<string>): (order: seq<string>)
    ensures IsEnumeration(order, keys)
    decreases |keys|
  {
    if keys == {} then []
    else
      LeastExists(keys);
      LeastUnique(keys);
      var k :| k in keys && IsLeast(k, keys);
      var tail := Arrange(keys - {k});
      [k] + tail
  }
}
