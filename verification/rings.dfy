/** Closed rings of field-local integer points and the three operations the
    primitive classifier applies to them before encoding: dropping consecutive
    duplicates, the shoelace-style signed area, and rotation of the ring to its
    (y, x)-least point with positive orientation. */
module Rings {

  datatype Point = Point(x: int, y: int)

  /** The key `(y, x)` used to pick the starting corner. */
  predicate YXLess(a: Point, b: Point)
  {
    a.y < b.y || (a.y == b.y && a.x < b.x)
  }

  predicate NoRepeats(ps: seq<Point>)
  {
    forall i :: 0 < i < |ps| ==> ps[i] != ps[i - 1]
  }

  /** A ring whose last point repeats its first, as a polygon exterior is listed. */
  predicate Closed(ps: seq<Point>)
  {
    |ps| >= 2 && ps[0] == ps[|ps| - 1]
  }

  predicate Distinct(ps: seq<Point>)
  {
    forall i, j :: 0 <= i < j < |ps| ==> ps[i] != ps[j]
  }

  /** Appends the first point again. */
  function Close(o: seq<Point>): (c: seq<Point>)
    requires |o| >= 1
    ensures Closed(c) && |c| == |o| + 1 && c[..|o|] == o
  {
    o + [o[0]]
  }

  /** The point loop of the classifier that keeps a point only when it differs
      from the last point kept. */
  function DropRepeats(ps: seq<Point>): (r: seq<Point>)
    ensures |r| <= |ps|
    ensures |ps| > 0 ==> |r| > 0 && r[0] == ps[0] && r[|r| - 1] == ps[|ps| - 1]
    ensures NoRepeats(r)
    ensures forall p :: p in r <==> p in ps
  {
    if |ps| <= 1 then ps
    else
      var prefix := ps[..|ps| - 1];
      assert ps == prefix + [ps[|ps| - 1]];
      var r := DropRepeats(prefix);
      if ps[|ps| - 1] == r[|r| - 1] then r else r + [ps[|ps| - 1]]
  }

  /** A ring without consecutive duplicates passes through unchanged. */
  lemma {:induction false} DropRepeatsIdentity(ps: seq<Point>)
    requires NoRepeats(ps)
    ensures DropRepeats(ps) == ps
    decreases |ps|
  {
    if |ps| > 1 {
      DropRepeatsIdentity(ps[..|ps| - 1]);
      assert ps == ps[..|ps| - 1] + [ps[|ps| - 1]];
    }
  }

  // ---------------------------------------------------------------------
  // Signed area

  /** One term of the area sum, for the edge from `a` to `b`. */
  function Edge(a: Point, b: Point): int
  {
    (b.x - a.x) * (b.y + a.y)
  }

  /** The area terms of the open chain ps[0] -> ps[1] -> ... -> ps[|ps|-1]. */
  function Chain(ps: seq<Point>): int
  {
    if |ps| <= 1 then 0 else Chain(ps[..|ps| - 1]) + Edge(ps[|ps| - 2], ps[|ps| - 1])
  }

  /** The area sum over every edge of the cyclic ring, including the edge from
      the last point back to the first. */
  function SignedArea(ps: seq<Point>): int
  {
    if |ps| == 0 then 0 else Edge(ps[|ps| - 1], ps[0]) + Chain(ps)
  }

  /** The loop of the source: the previous point starts as the last one. */
  method ComputeSignedArea(ps: seq<Point>) returns (area: int)
    ensures area == SignedArea(ps)
  {
    area := 0;
    if |ps| == 0 {
      return;
    }
    var p1 := ps[|ps| - 1];
    var i := 0;
    while i < |ps|
      invariant 0 <= i <= |ps|
      invariant p1 == if i == 0 then ps[|ps| - 1] else ps[i - 1]
      invariant area == if i == 0 then 0 else Edge(ps[|ps| - 1], ps[0]) + Chain(ps[..i])
    {
      var p2 := ps[i];
      area := area + Edge(p1, p2);
      assert ps[..i + 1][..i] == ps[..i];
      p1 := p2;
      i := i + 1;
    }
    assert ps[..|ps|] == ps;
  }

  lemma {:induction false} ChainAppend(a: seq<Point>, b: seq<Point>)
    requires |a| > 0 && |b| > 0
    ensures Chain(a + b) == Chain(a) + Edge(a[|a| - 1], b[0]) + Chain(b)
    decreases |b|
  {
    if |b| == 1 {
      assert (a + b)[..|a + b| - 1] == a;
    } else {
      var b' := b[..|b| - 1];
      ChainAppend(a, b');
      assert (a + b)[..|a + b| - 1] == a + b';
    }
  }

  function Reverse(ps: seq<Point>): (r: seq<Point>)
    ensures |r| == |ps|
    ensures forall i :: 0 <= i < |ps| ==> r[i] == ps[|ps| - 1 - i]
  {
    seq(|ps|, i requires 0 <= i < |ps| => ps[|ps| - 1 - i])
  }

  lemma {:induction false} ChainReverse(ps: seq<Point>)
    ensures Chain(Reverse(ps)) == -Chain(ps)
    decreases |ps|
  {
    if |ps| > 1 {
      var last := ps[|ps| - 1];
      var q := ps[..|ps| - 1];
      ChainReverse(q);
      assert Reverse(ps) == [last] + Reverse(q);
      ChainAppend([last], Reverse(q));
      assert Reverse(q)[0] == ps[|ps| - 2];
      EdgeFlip(ps[|ps| - 2], last);
    }
  }

  /** Walking an edge backwards negates its area term. */
  lemma EdgeFlip(a: Point, b: Point)
    ensures Edge(b, a) == -Edge(a, b)
  {
    assert (a.x - b.x) * (a.y + b.y) == -((b.x - a.x) * (b.y + a.y));
  }

  /** Reversing the ring negates the signed area. */
  lemma AreaReverse(ps: seq<Point>)
    ensures SignedArea(Reverse(ps)) == -SignedArea(ps)
  {
    ChainReverse(ps);
  }

  /** Rotating the ring leaves the signed area unchanged. */
  lemma AreaRotate(ps: seq<Point>, k: nat)
    requires k <= |ps|
    ensures SignedArea(ps[k..] + ps[..k]) == SignedArea(ps)
  {
    if 0 < k < |ps| {
      var a, b := ps[..k], ps[k..];
      assert ps == a + b;
      ChainAppend(a, b);
      ChainAppend(b, a);
    } else if k == 0 {
      assert ps[k..] + ps[..k] == ps;
    } else {
      assert ps[k..] + ps[..k] == ps;
    }
  }

  /** Repeating the first point at the end adds a zero-length edge only. */
  lemma AreaClose(o: seq<Point>)
    requires |o| >= 1
    ensures SignedArea(Close(o)) == SignedArea(o)
  {
    ChainAppend(o, [o[0]]);
  }

  // ---------------------------------------------------------------------
  // Rotation of open rings

  /** The open ring started at index k. */
  function Rot(o: seq<Point>, k: nat): (r: seq<Point>)
    requires k < |o|
    ensures |r| == |o|
    ensures forall i :: 0 <= i < |o| - k ==> r[i] == o[k + i]
    ensures forall i :: |o| - k <= i < |o| ==> r[i] == o[k + i - |o|]
  {
    o[k..] + o[..k]
  }

  lemma RotCompose(o: seq<Point>, k: nat, j: nat)
    requires k < |o| && j < |o|
    ensures k + j < |o| ==> Rot(Rot(o, k), j) == Rot(o, k + j)
    ensures k + j >= |o| ==> Rot(Rot(o, k), j) == Rot(o, k + j - |o|)
  {
  }

  lemma RotMultiset(o: seq<Point>, k: nat)
    requires k < |o|
    ensures multiset(Rot(o, k)) == multiset(o)
  {
    assert o == o[..k] + o[k..];
  }

  // ---------------------------------------------------------------------
  // Canonical starting corner and orientation

  /** `min(enumerate(ps), key=(y, x))`: the first index holding a (y, x)-least point. */
  function MinIndex(ps: seq<Point>): (m: nat)
    requires |ps| > 0
    ensures m < |ps|
    ensures forall i :: 0 <= i < |ps| ==> !YXLess(ps[i], ps[m])
    ensures forall i :: 0 <= i < m ==> YXLess(ps[m], ps[i])
  {
    if |ps| == 1 then 0
    else
      var m := MinIndex(ps[..|ps| - 1]);
      if YXLess(ps[|ps| - 1], ps[m]) then |ps| - 1 else m
  }

  /** The ring re-started at its least point, `ps[m:] + ps[1:m + 1]`, and
      reversed when the signed area is negative. */
  function Canonical(ps: seq<Point>): (c: seq<Point>)
    requires |ps| >= 1
    ensures |c| == |ps|
    ensures Closed(ps) ==> Closed(c) && c[0] == ps[MinIndex(ps)]
    ensures Closed(ps) ==> forall i :: 0 <= i < |ps| ==> !YXLess(ps[i], c[0])
    ensures Closed(ps) ==> multiset(c[1..]) == multiset(ps[1..])
    ensures Closed(ps) && SignedArea(ps) != 0 ==> SignedArea(c) > 0
    ensures Closed(ps) && NoRepeats(ps) ==> NoRepeats(c)
  {
    var m := MinIndex(ps);
    var rotated := ps[m..] + ps[1..m + 1];
    CanonicalFacts(ps);
    if SignedArea(ps) < 0 then Reverse(rotated) else rotated
  }

  /** The rotation step of `Canonical` on a closed ring is the closed form of
      a rotation of the open ring. */
  lemma RotatedIsClosedRotation(ps: seq<Point>, m: nat)
    requires Closed(ps) && m < |ps| - 1
    ensures ps[m..] + ps[1..m + 1] == Close(Rot(ps[..|ps| - 1], m))
  {
    var o := ps[..|ps| - 1];
    assert ps == o + [o[0]];
    assert ps[m..] == o[m..] + [o[0]];
    assert ps[1..m + 1] == o[1..m + 1];
    assert o[..m + 1] == o[..m] + [o[m]];
    assert [o[0]] + o[1..m + 1] == o[..m + 1];
  }

  lemma MinIndexOfClosed(ps: seq<Point>)
    requires Closed(ps)
    ensures MinIndex(ps) < |ps| - 1
  {
    var m := MinIndex(ps);
    if m > 0 {
      assert YXLess(ps[m], ps[0]);
      assert ps[m] != ps[|ps| - 1];
    }
  }

  /** In a closed ring, the points after the first are the points before the last. */
  lemma ClosedOpenMultiset(c: seq<Point>)
    requires Closed(c)
    ensures multiset(c[1..]) == multiset(c[..|c| - 1])
  {
    var n := |c|;
    assert c == [c[0]] + c[1..];
    assert c == c[..n - 1] + [c[n - 1]];
    assert multiset(c) == multiset{c[0]} + multiset(c[1..]);
    assert multiset(c) == multiset(c[..n - 1]) + multiset{c[n - 1]};
    assert multiset(c[1..]) == multiset(c) - multiset{c[0]};
    assert multiset(c[..n - 1]) == multiset(c) - multiset{c[n - 1]};
  }

  lemma {:induction false} ReverseMultiset(ps: seq<Point>)
    ensures multiset(Reverse(ps)) == multiset(ps)
    decreases |ps|
  {
    if |ps| > 0 {
      var q := ps[..|ps| - 1];
      ReverseMultiset(q);
      assert Reverse(ps) == [ps[|ps| - 1]] + Reverse(q);
      assert ps == q + [ps[|ps| - 1]];
    }
  }

  lemma ReverseClosed(r: seq<Point>)
    requires Closed(r)
    ensures Closed(Reverse(r))
    ensures multiset(Reverse(r)[1..]) == multiset(r[1..])
    ensures NoRepeats(r) ==> NoRepeats(Reverse(r))
  {
    var n := |r|;
    var v := Reverse(r);
    assert v[1..] == Reverse(r[..n - 1]);
    ReverseMultiset(r[..n - 1]);
    ClosedOpenMultiset(r);
  }

  lemma RotatedNoRepeats(ps: seq<Point>, m: nat)
    requires Closed(ps) && NoRepeats(ps) && m < |ps| - 1
    ensures NoRepeats(ps[m..] + ps[1..m + 1])
  {
    var rotated := ps[m..] + ps[1..m + 1];
    var n := |ps| - 1;
    forall i | 0 < i < |rotated|
      ensures rotated[i] != rotated[i - 1]
    {
      if i < n - m + 1 {
        assert rotated[i] == ps[m + i] && rotated[i - 1] == ps[m + i - 1];
      } else if i == n - m + 1 {
        assert rotated[i] == ps[1] && rotated[i - 1] == ps[n];
        assert ps[1] != ps[0];
      } else {
        assert rotated[i] == ps[i - (n - m)] && rotated[i - 1] == ps[i - 1 - (n - m)];
      }
    }
  }

  lemma CanonicalFacts(ps: seq<Point>)
    requires |ps| >= 1
    ensures Closed(ps) ==> var m := MinIndex(ps);
      var rotated := ps[m..] + ps[1..m + 1];
      && m < |ps| - 1
      && Closed(rotated) && rotated[0] == ps[m]
      && multiset(rotated[1..]) == multiset(ps[1..])
      && SignedArea(rotated) == SignedArea(ps)
      && (NoRepeats(ps) ==> NoRepeats(rotated))
      && Closed(Reverse(rotated)) && Reverse(rotated)[0] == ps[m]
      && multiset(Reverse(rotated)[1..]) == multiset(ps[1..])
      && SignedArea(Reverse(rotated)) == -SignedArea(ps)
      && (NoRepeats(ps) ==> NoRepeats(Reverse(rotated)))
  {
    if Closed(ps) {
      var m := MinIndex(ps);
      MinIndexOfClosed(ps);
      var rotated := ps[m..] + ps[1..m + 1];
      RotationArea(ps, m);
      RotationMultiset(ps, m);
      if NoRepeats(ps) {
        RotatedNoRepeats(ps, m);
      }
      ReverseClosed(rotated);
      AreaReverse(rotated);
    }
  }

  lemma RotationArea(ps: seq<Point>, m: nat)
    requires Closed(ps) && m < |ps| - 1
    ensures Closed(ps[m..] + ps[1..m + 1])
    ensures SignedArea(ps[m..] + ps[1..m + 1]) == SignedArea(ps)
  {
    var o := ps[..|ps| - 1];
    RotatedIsClosedRotation(ps, m);
    var q := Rot(o, m);
    AreaClose(q);
    AreaRotate(o, m);
    AreaClose(o);
    assert ps == Close(o);
  }

  lemma RotationMultiset(ps: seq<Point>, m: nat)
    requires Closed(ps) && m < |ps| - 1
    ensures multiset((ps[m..] + ps[1..m + 1])[1..]) == multiset(ps[1..])
  {
    var o := ps[..|ps| - 1];
    RotatedIsClosedRotation(ps, m);
    var q := Rot(o, m);
    var rotated := Close(q);
    RotMultiset(o, m);
    ClosedOpenMultiset(rotated);
    ClosedOpenMultiset(ps);
  }
}
