/** Python's `sorted` applied to a collection of distinct keys (the keys of a
    dictionary, the members of a set), under a strict total order. With
    distinct keys the sorted sequence is unique, so the model agrees with any
    correct sorting algorithm. */
module Sorting {

  ghost predicate StrictTotalOrder<T(!new)>(lt: (T, T) -> bool)
  {
    && (forall a :: !lt(a, a))
    && (forall a, b, c :: lt(a, b) && lt(b, c) ==> lt(a, c))
    && (forall a, b :: a != b ==> lt(a, b) || lt(b, a))
  }

  predicate StrictlySorted<T>(s: seq<T>, lt: (T, T) -> bool)
  {
    forall i, j :: 0 <= i < j < |s| ==> lt(s[i], s[j])
  }

  /** Every finite non-empty set has a least element. */
  lemma {:induction false} LeastExists<T(!new)>(s: set<T>, lt: (T, T) -> bool)
    requires StrictTotalOrder(lt) && s != {}
    ensures exists m :: m in s && forall y :: y in s ==> !lt(y, m)
    decreases |s|
  {
    var x :| x in s;
    if s == {x} {
      assert forall y :: y in s ==> y == x;
    } else {
      LeastExists(s - {x}, lt);
      var m :| m in s - {x} && forall y :: y in s - {x} ==> !lt(y, m);
      if lt(x, m) {
        assert forall y :: y in s ==> !lt(y, x);
      } else {
        assert forall y :: y in s ==> !lt(y, m);
      }
    }
  }

  /** `sorted(s)`: the members of `s` in increasing order. */
  function SortSet<T(==, !new)>(s: set<T>, lt: (T, T) -> bool): (r: seq<T>)
    requires StrictTotalOrder(lt)
    ensures StrictlySorted(r, lt)
    ensures forall x :: x in r <==> x in s
    ensures |r| == |s|
    decreases |s|
  {
    if s == {} then []
    else
      LeastExists(s, lt);
      var m :| m in s && forall y :: y in s ==> !lt(y, m);
      var rest := SortSet(s - {m}, lt);
      assert forall y :: y in rest ==> lt(m, y);
      [m] + rest
  }

  /** A non-empty sequence holds its first element. */
  lemma HeadIsMember<T>(b: seq<T>)
    ensures |b| > 0 ==> b[0] in b
  {
  }

  /** A strictly sorted sequence holding exactly the members of `s` is
      `SortSet(s)`: the order keys arrived in cannot show through. */
  lemma {:induction false} SortedUnique<T(!new)>(a: seq<T>, b: seq<T>, lt: (T, T) -> bool)
    requires StrictTotalOrder(lt)
    requires StrictlySorted(a, lt) && StrictlySorted(b, lt)
    requires forall x :: x in a <==> x in b
    ensures a == b
    decreases |a|
  {
    if |a| == 0 {
      assert forall x :: x !in b;
      HeadIsMember(b);
    } else {
      assert a[0] in b;
      assert |b| > 0 && b[0] in a;
      // Each head is the least element of the other sequence too.
      var i :| 0 <= i < |b| && b[i] == a[0];
      var j :| 0 <= j < |a| && a[j] == b[0];
      assert a[0] == b[0];
      forall x
        ensures x in a[1..] <==> x in b[1..]
      {
        if x in a[1..] {
          var k :| 0 <= k < |a[1..]| && a[1..][k] == x;
          assert lt(a[0], a[k + 1]);
          assert x in b && x != b[0];
          var l :| 0 <= l < |b| && b[l] == x;
          assert b[1..][l - 1] == x;
        }
        if x in b[1..] {
          var k :| 0 <= k < |b[1..]| && b[1..][k] == x;
          assert lt(b[0], b[k + 1]);
          assert x in a && x != a[0];
          var l :| 0 <= l < |a| && a[l] == x;
          assert a[1..][l - 1] == x;
        }
      }
      SortedUnique(a[1..], b[1..], lt);
      assert a == [a[0]] + a[1..] && b == [b[0]] + b[1..];
    }
  }

  lemma SortSetUnique<T(!new)>(s: set<T>, a: seq<T>, lt: (T, T) -> bool)
    requires StrictTotalOrder(lt)
    requires StrictlySorted(a, lt) && forall x :: x in a <==> x in s
    ensures a == SortSet(s, lt)
  {
    SortedUnique(a, SortSet(s, lt), lt);
  }
}
