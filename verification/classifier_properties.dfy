/** End-to-end properties of the primitive classifier: an axis-aligned
    rectangle always becomes a DWSL primitive, and the result does not depend
    on the corner a ring starts at or on its orientation. */
module ClassifierProperties {
  import opened Wrappers
  import opened Text
  import opened Bytes
  import opened Rings
  import opened Rounding
  import opened Classifier

  /** The closed ring of a w x h rectangle whose least (y, x) local corner is
      (a, b), listed from that corner towards (a + w, b) first. */
  function RectRing(a: int, b: int, w: int, h: int): seq<Point>
  {
    [Point(a, b), Point(a + w, b), Point(a + w, b + h), Point(a, b + h), Point(a, b)]
  }

  /** An axis-aligned rectangle is never rejected: it is a DWSL with both
      slopes zero, height slot h + 1, and text listing only its first and
      third canonical corners. */
  lemma RectangleIsDWSL(a: int, b: int, w: int, h: int, enc: Encoding)
    requires w > 0 && h > 0
    requires InInt32(a) && InInt32(b) && InInt32(w) && InInt32(h + 1)
    requires InInt32(MyRound(enc.dose * 100.0))
    ensures var r := ClassifyLocal(RectRing(a, b, w, h), enc);
      && r.Success?
      && r.value.kind == DWSL
      && r.value.slots.slope1 == 0.0 && r.value.slots.slope2 == 0.0
      && r.value.slots.height == h + 1
      && r.value.slots.x0 == a && r.value.slots.y0 == b && r.value.slots.off2 == w
      && r.value.points[0] == Point(a, b) && r.value.points[2] == Point(a + w, b + h)
      && r.value.text == PointsText([Point(a, b), Point(a + w, b + h)])
  {
    var ring := RectRing(a, b, w, h);
    DropRepeatsIdentity(ring);
    RectArea(a, b, w, h);
    RectCanonical(a, b, w, h);
    assert ClassifyLocal(ring, enc) == Emit(Canonical(ring), enc);
    RectEmit(a, b, w, h, enc);
  }

  lemma RectEmit(a: int, b: int, w: int, h: int, enc: Encoding)
    requires w > 0 && h > 0
    requires InInt32(a) && InInt32(b) && InInt32(w) && InInt32(h + 1)
    requires InInt32(MyRound(enc.dose * 100.0))
    ensures var r := Emit([Point(a, b), Point(a, b + h), Point(a + w, b + h), Point(a + w, b), Point(a, b)], enc);
      && r.Success?
      && r.value.kind == DWSL
      && r.value.slots.slope1 == 0.0 && r.value.slots.slope2 == 0.0
      && r.value.slots.height == h + 1
      && r.value.slots.x0 == a && r.value.slots.y0 == b && r.value.slots.off2 == w
      && r.value.points[0] == Point(a, b) && r.value.points[2] == Point(a + w, b + h)
      && r.value.text == PointsText([Point(a, b), Point(a + w, b + h)])
  {
    var c := [Point(a, b), Point(a, b + h), Point(a + w, b + h), Point(a + w, b), Point(a, b)];
    RectSlots(a, b, w, h, enc.pitch, enc.dose);
    var s := DeriveSlots(c, enc.pitch, enc.dose).value;
    assert Kind(5, s) == DWSL;
    assert Record(s, enc.direction, enc.f32).Some?;
  }

  /** The canonical ring of the rectangle starts at its lower-left corner and
      runs the other way round. */
  lemma RectCanonical(a: int, b: int, w: int, h: int)
    requires w > 0 && h > 0
    ensures Canonical(RectRing(a, b, w, h)) == [Point(a, b), Point(a, b + h), Point(a + w, b + h), Point(a + w, b), Point(a, b)]
  {
    var ring := RectRing(a, b, w, h);
    RectArea(a, b, w, h);
    RectMinIndex(a, b, w, h);
    assert ring[0..] + ring[1..1] == ring;
    RectReverse(a, b, w, h);
  }

  lemma RectReverse(a: int, b: int, w: int, h: int)
    ensures Reverse(RectRing(a, b, w, h)) == [Point(a, b), Point(a, b + h), Point(a + w, b + h), Point(a + w, b), Point(a, b)]
  {
  }

  lemma RectArea(a: int, b: int, w: int, h: int)
    requires w > 0 && h > 0
    ensures SignedArea(RectRing(a, b, w, h)) == -2 * w * h < 0
  {
    assert w * h > 0;
    var ring := RectRing(a, b, w, h);
    assert ring[..2][..1] == ring[..1];
    assert Chain(ring[..2]) == Edge(ring[0], ring[1]);
    assert ring[..3][..2] == ring[..2];
    assert Chain(ring[..3]) == Chain(ring[..2]) + Edge(ring[1], ring[2]);
    assert ring[..4][..3] == ring[..3];
    assert Chain(ring[..4]) == Chain(ring[..3]) + Edge(ring[2], ring[3]);
    assert ring[..4] == ring[..|ring| - 1];
    assert Chain(ring) == Chain(ring[..4]) + Edge(ring[3], ring[4]);
  }

  lemma RectMinIndex(a: int, b: int, w: int, h: int)
    requires w > 0 && h > 0
    ensures MinIndex(RectRing(a, b, w, h)) == 0
  {
    var ring := RectRing(a, b, w, h);
    assert ring[..2][..1] == ring[..1];
    assert MinIndex(ring[..2]) == 0;
    assert ring[..3][..2] == ring[..2];
    assert MinIndex(ring[..3]) == 0;
    assert ring[..4][..3] == ring[..3];
    assert MinIndex(ring[..4]) == 0;
    assert ring[..4] == ring[..|ring| - 1];
  }

  lemma RectSlots(a: int, b: int, w: int, h: int, pitch: int, dose: real)
    requires w > 0 && h > 0
    ensures var c := [Point(a, b), Point(a, b + h), Point(a + w, b + h), Point(a + w, b), Point(a, b)];
      var r := DeriveSlots(c, pitch, dose);
      && r.Success?
      && r.value.slope1 == 0.0 && r.value.slope2 == 0.0
      && r.value.x0 == a && r.value.y0 == b && r.value.off2 == w && r.value.height == h + 1
  {
    var c := [Point(a, b), Point(a, b + h), Point(a + w, b + h), Point(a + w, b), Point(a, b)];
    var s := DeriveSlots(c, pitch, dose).value;
    assert s.slope1 * h as real == 0.0;
    assert s.slope2 * h as real == 0.0;
  }

  // ---------------------------------------------------------------------
  // Independence from the starting corner and the orientation

  lemma ClosedDistinctNoRepeats(o: seq<Point>)
    requires |o| >= 2 && Distinct(o)
    ensures NoRepeats(Close(o))
  {
  }

  lemma RotDistinct(o: seq<Point>, k: nat)
    requires k < |o| && Distinct(o)
    ensures Distinct(Rot(o, k))
  {
    var r := Rot(o, k);
    var n := |o|;
    forall i, j | 0 <= i < j < n
      ensures r[i] != r[j]
    {
      var oi := if i < n - k then k + i else k + i - n;
      var oj := if j < n - k then k + j else k + j - n;
      assert r[i] == o[oi] && r[j] == o[oj];
    }
  }

  lemma ReverseDistinct(o: seq<Point>)
    requires Distinct(o)
    ensures Distinct(Reverse(o))
  {
    var r := Reverse(o);
    forall i, j | 0 <= i < j < |o|
      ensures r[i] != r[j]
    {
      assert r[i] == o[|o| - 1 - i] && r[j] == o[|o| - 1 - j];
    }
  }

  /** The start index `Canonical` picks on a closed ring lies in its open part
      and holds the least point of that part. */
  lemma MinOfClose(o: seq<Point>)
    requires |o| >= 1
    ensures MinIndex(Close(o)) < |o|
    ensures forall i :: 0 <= i < |o| ==> !YXLess(o[i], o[MinIndex(Close(o))])
  {
    MinIndexOfClosed(Close(o));
    var c := Close(o);
    forall i | 0 <= i < |o|
      ensures !YXLess(o[i], o[MinIndex(c)])
    {
      assert o[i] == c[i];
    }
  }

  /** The rotation of the open ring starting at m, closed, and turned round
      when the ring's area is negative. */
  function Oriented(o: seq<Point>, m: nat): seq<Point>
    requires m < |o|
  {
    if SignedArea(o) < 0 then Reverse(Close(Rot(o, m))) else Close(Rot(o, m))
  }

  /** The canonical ring of a closed ring, written over its open part. */
  lemma CanonicalOfClose(o: seq<Point>)
    requires |o| >= 1
    ensures MinIndex(Close(o)) < |o|
    ensures Canonical(Close(o)) == Oriented(o, MinIndex(Close(o)))
  {
    MinOfClose(o);
    var c := Close(o);
    assert c[..|c| - 1] == o;
    RotatedIsClosedRotation(c, MinIndex(c));
    AreaClose(o);
  }

  /** In a ring of distinct points, the same least point sits where both
      rotations start, so the two rotations coincide. */
  lemma SameStartSameRotation(o: seq<Point>, k: nat, j: nat, m: nat)
    requires Distinct(o) && k < |o| && j < |o| && m < |o|
    requires Rot(o, k)[j] == o[m]
    ensures Rot(Rot(o, k), j) == Rot(o, m)
  {
    RotCompose(o, k, j);
    var n := |o|;
    var t := if k + j < n then k + j else k + j - n;
    assert Rot(o, k)[j] == o[t];
  }

  lemma LeastPointsEqual(p: Point, q: Point)
    requires !YXLess(p, q) && !YXLess(q, p)
    ensures p == q
  {
  }

  /** The classification of a ring depends only on the ring left after
      dropping repeats: through its length, its area and its canonical form. */
  lemma ClassifyByCanonical(x: seq<Point>, y: seq<Point>, enc: Encoding)
    requires DropRepeats(x) == x && DropRepeats(y) == y
    requires |x| == |y| && (SignedArea(x) == 0 <==> SignedArea(y) == 0)
    requires |x| >= 4 && SignedArea(x) != 0 ==> Canonical(x) == Canonical(y)
    ensures ClassifyLocal(x, enc) == ClassifyLocal(y, enc)
  {
    if |x| >= 4 && SignedArea(x) != 0 {
      assert ClassifyLocal(x, enc) == Emit(Canonical(x), enc);
    }
  }

  lemma CanonicalRotationInvariant(o: seq<Point>, k: nat)
    requires |o| >= 1 && Distinct(o) && k < |o|
    ensures Canonical(Close(Rot(o, k))) == Canonical(Close(o))
  {
    var o' := Rot(o, k);
    AreaRotate(o, k);
    CanonicalOfClose(o);
    CanonicalOfClose(o');
    RotatedStart(o, k);
  }

  /** The least point of a rotated ring is the least point of the ring. */
  lemma RotatedStart(o: seq<Point>, k: nat)
    requires |o| >= 1 && Distinct(o) && k < |o|
    ensures MinIndex(Close(Rot(o, k))) < |o|
    ensures Rot(Rot(o, k), MinIndex(Close(Rot(o, k)))) == Rot(o, MinIndex(Close(o)))
  {
    var o' := Rot(o, k);
    var m := MinIndex(Close(o));
    var m' := MinIndex(Close(o'));
    MinOfClose(o);
    MinOfClose(o');
    RotMultiset(o, k);
    assert o[m] in multiset(o') && o'[m'] in multiset(o);
    LeastPointsEqual(o'[m'], o[m]);
    SameStartSameRotation(o, k, m', m);
  }

  /** Starting the ring at another corner does not change the classification. */
  lemma ClassifyRotationInvariant(o: seq<Point>, k: nat, enc: Encoding)
    requires |o| >= 3 && Distinct(o) && k < |o|
    ensures ClassifyLocal(Close(Rot(o, k)), enc) == ClassifyLocal(Close(o), enc)
  {
    var o' := Rot(o, k);
    RotDistinct(o, k);
    ClosedDistinctNoRepeats(o);
    ClosedDistinctNoRepeats(o');
    DropRepeatsIdentity(Close(o));
    DropRepeatsIdentity(Close(o'));
    AreaClose(o);
    AreaClose(o');
    AreaRotate(o, k);
    CanonicalRotationInvariant(o, k);
    ClassifyByCanonical(Close(o'), Close(o), enc);
  }

  /** Reversing a closed rotation of the reversed ring gives the closed
      rotation of the ring that starts at the mirrored index. */
  lemma ReverseCloseRot(o: seq<Point>, j: nat)
    requires 1 <= |o| && j < |o|
    ensures Reverse(Close(Rot(Reverse(o), j))) == Close(Rot(o, |o| - 1 - j))
  {
    var n := |o|;
    var q := Rot(Reverse(o), j);
    var lhs := Reverse(Close(q));
    var rhs := Close(Rot(o, n - 1 - j));
    forall i | 0 <= i <= n
      ensures lhs[i] == rhs[i]
    {
      if i == 0 || i == n {
        assert lhs[i] == q[0] == o[n - 1 - j];
      } else {
        assert lhs[i] == q[n - i];
        var t := if j + (n - i) < n then j + (n - i) else j + (n - i) - n;
        assert q[n - i] == Reverse(o)[t] == o[n - 1 - t];
      }
    }
  }

  lemma ReverseReverse(o: seq<Point>)
    ensures Reverse(Reverse(o)) == o
  {
  }

  /** The least point of the reversed ring sits at the mirrored index. */
  lemma ReversedStart(o: seq<Point>)
    requires |o| >= 1 && Distinct(o)
    ensures MinIndex(Close(Reverse(o))) == |o| - 1 - MinIndex(Close(o))
  {
    var n := |o|;
    var r := Reverse(o);
    var m := MinIndex(Close(o));
    var mr := MinIndex(Close(r));
    MinOfClose(o);
    MinOfClose(r);
    assert r[n - 1 - m] == o[m];
    assert o[n - 1 - mr] == r[mr];
    LeastPointsEqual(r[mr], o[m]);
  }

  lemma OrientedReversal(o: seq<Point>, m: nat)
    requires m < |o| && SignedArea(o) != 0
    ensures Oriented(Reverse(o), |o| - 1 - m) == Oriented(o, m)
  {
    var r := Reverse(o);
    var mr := |o| - 1 - m;
    AreaReverse(o);
    ReverseReverse(o);
    if SignedArea(o) < 0 {
      ReverseCloseRot(r, m);
    } else {
      ReverseCloseRot(o, mr);
    }
  }

  /** Reversal leaves the canonical form of a ring with non-zero area alone
      (a zero-area ring is not turned round, so its canonical form follows the
      orientation it is given in). */
  lemma CanonicalReversalInvariant(o: seq<Point>)
    requires |o| >= 1 && Distinct(o) && SignedArea(o) != 0
    ensures Canonical(Close(Reverse(o))) == Canonical(Close(o))
  {
    CanonicalOfClose(o);
    CanonicalOfClose(Reverse(o));
    ReversedStart(o);
    OrientedReversal(o, MinIndex(Close(o)));
  }

  lemma ReversedCanonicalPremise(o: seq<Point>)
    requires |o| >= 3 && Distinct(o)
    ensures SignedArea(Close(Reverse(o))) != 0 ==> Canonical(Close(Reverse(o))) == Canonical(Close(o))
  {
    AreaClose(Reverse(o));
    AreaReverse(o);
    if SignedArea(o) != 0 {
      CanonicalReversalInvariant(o);
    }
  }

  /** Listing the ring in the opposite orientation does not change the classification. */
  lemma ClassifyReversalInvariant(o: seq<Point>, enc: Encoding)
    requires |o| >= 3 && Distinct(o)
    ensures ClassifyLocal(Close(Reverse(o)), enc) == ClassifyLocal(Close(o), enc)
  {
    var r := Reverse(o);
    ReverseDistinct(o);
    ClosedDistinctNoRepeats(o);
    ClosedDistinctNoRepeats(r);
    DropRepeatsIdentity(Close(o));
    DropRepeatsIdentity(Close(r));
    AreaClose(o);
    AreaClose(r);
    AreaReverse(o);
    ReversedCanonicalPremise(o);
    ClassifyByCanonical(Close(r), Close(o), enc);
  }
}
