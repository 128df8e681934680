/** The primitive classifier: turns one trapezoid ring of a field into the
    CABL primitive written to the `.ccc` text file and the `.cbc` binary file,
    or rejects it. */
module Classifier {
  import opened Wrappers
  import opened Text
  import opened Bytes
  import opened Rings
  import opened Rounding
  import opened FieldGrid

  /** The three primitive commands of the CABL pattern vocabulary. */
  datatype PolyType = DWTZL | DWTL | DWSL

  function TypeName(t: PolyType): string
  {
    match t
    case DWTZL => "DWTZL"
    case DWTL => "DWTL"
    case DWSL => "DWSL"
  }

  /** `bytes(direction, 'utf-8')` for the direction letter. */
  function DirectionByte(d: Direction): Byte
  {
    match d
    case AlongX => 0x78
    case AlongY => 0x79
  }

  /** The settings the classifier reads: pitch, dose (in microseconds), the
      slicing direction, and the single-precision packer used for slots 3 to 5
      (IEEE float32 encoding is not modelled; it is taken as given). */
  datatype Encoding = Encoding(pitch: int, dose: real, direction: Direction, f32: real -> Word)

  /** The eight numbers of a binary record, in slot order. */
  datatype Slots = Slots(x0: int, y0: int, off2: int, slope1: real, pitch: int,
                         slope2: real, height: int, dose: int)

  /** Why a ring yields no primitive. The first three are logged and the ring is
      skipped; `Int32Overflow` is the `struct.error` that the source does not catch. */
  datatype Reject = TooFewPoints | ZeroArea | ZeroDivision | Int32Overflow

  /** A classified ring: its type, canonical points, record slots, the text of
      its `.ccc` coordinate list and its 38-byte `.cbc` record. */
  datatype Primitive = Primitive(kind: PolyType, points: seq<Point>, slots: Slots,
                                 text: string, record: seq<Byte>)

  const RecordTag: seq<Byte> := [0x01, 0x08, 0x13, 0x00]
  const RecordSize: nat := 38

  // ---------------------------------------------------------------------
  // Field-local coordinates

  /** A layout point in the dot coordinates of the field centred at `field`:
      origin at the field's top-left corner, y pointing down, rounded by `myround`. */
  function LocalPoint(p: RPoint, field: RPoint, spec: FieldSpec): (q: Point)
    ensures q.x >= 0 && q.y >= 0
  {
    Point(MyRound(Offset(p.x - field.x, spec)), MyRound(Offset(field.y - p.y, spec)))
  }

  /** Distance from the field's near edge, in dots, for a distance `d` from its centre. */
  function Offset(d: real, spec: FieldSpec): real
  {
    (d + spec.size as real / 2.0) * (spec.dots as real / spec.size as real)
  }

  lemma OffsetMonotone(d: real, e: real, spec: FieldSpec)
    requires d <= e
    ensures Offset(d, spec) <= Offset(e, spec)
  {
    PositiveRatio(spec.dots, spec.size);
    MulMonotone(d + spec.size as real / 2.0, e + spec.size as real / 2.0, spec.dots as real / spec.size as real);
  }

  /** A point a whole number of dot pitches (`size / dots` layout units) right of
      and below the field's top-left corner gets exactly those dot offsets. */
  lemma LocalPointExact(p: RPoint, field: RPoint, spec: FieldSpec, dx: nat, dy: nat)
    requires p.x == field.x - spec.size as real / 2.0 + dx as real * (spec.size as real / spec.dots as real)
    requires p.y == field.y + spec.size as real / 2.0 - dy as real * (spec.size as real / spec.dots as real)
    ensures LocalPoint(p, field, spec) == Point(dx, dy)
  {
    OffsetOfWhole(p.x - field.x, spec, dx);
    OffsetOfWhole(field.y - p.y, spec, dy);
    MyRoundOfInteger(dx);
    MyRoundOfInteger(dy);
  }

  /** `n` dot pitches from the near edge is `n` dots. */
  lemma OffsetOfWhole(d: real, spec: FieldSpec, n: int)
    requires d + spec.size as real / 2.0 == n as real * (spec.size as real / spec.dots as real)
    ensures Offset(d, spec) == n as real
  {
    var s, t := spec.size as real, spec.dots as real;
    assert (s / t) * (t / s) == 1.0;
  }

  /** Local coordinates keep the horizontal order and reverse the vertical order. */
  lemma LocalPointOrder(p: RPoint, q: RPoint, field: RPoint, spec: FieldSpec)
    ensures p.x <= q.x ==> LocalPoint(p, field, spec).x <= LocalPoint(q, field, spec).x
    ensures p.y <= q.y ==> LocalPoint(q, field, spec).y <= LocalPoint(p, field, spec).y
  {
    if p.x <= q.x {
      OffsetMonotone(p.x - field.x, q.x - field.x, spec);
      MyRoundMonotone(Offset(p.x - field.x, spec), Offset(q.x - field.x, spec));
    }
    if p.y <= q.y {
      OffsetMonotone(field.y - q.y, field.y - p.y, spec);
      MyRoundMonotone(Offset(field.y - q.y, spec), Offset(field.y - p.y, spec));
    }
  }

  lemma PositiveRatio(a: PosInt, b: PosInt)
    ensures a as real / b as real > 0.0
  {
    var r := a as real / b as real;
    assert r * b as real == a as real;
    if r <= 0.0 {
      MulMonotone(r, 0.0, b as real);
    }
  }

  // ---------------------------------------------------------------------
  // Record slots

  /** The eight record numbers of a canonical ring; `ZeroDivision` when its
      first edge is horizontal. Slot 2 is the offset of the second-to-last point
      (1 when that point is off the base line); the slopes are exact rationals. */
  function DeriveSlots(c: seq<Point>, pitch: int, dose: real): (r: Result<Slots, Reject>)
    requires |c| >= 4
    ensures r.Failure? <==> c[1].y == c[0].y
    ensures r.Failure? ==> r.error == ZeroDivision
    ensures r.Success? ==> var s := r.value;
      var dy := (c[1].y - c[0].y) as real;
      && s.x0 == c[0].x && s.y0 == c[0].y
      && s.height - 1 == c[1].y - c[0].y
      && s.slope1 * dy == (c[1].x - c[0].x) as real
      && (c[|c| - 2].y == c[0].y ==> s.off2 == c[|c| - 2].x - c[0].x)
      && (c[|c| - 2].y != c[0].y ==> s.off2 == 1)
      && (c[2].y == c[1].y ==> s.slope2 * dy == (c[2].x - c[1].x - s.off2) as real)
      && (c[2].y != c[1].y ==> s.slope2 * dy == (1 - s.off2) as real)
      && s.pitch == pitch
      && s.dose == MyRound(dose * 100.0)
  {
    var dy := c[1].y - c[0].y;
    if dy == 0 then Failure(ZeroDivision)
    else
      var slope1 := (c[1].x - c[0].x) as real / dy as real;
      var off2 := if c[|c| - 2].y != c[0].y then 1 else c[|c| - 2].x - c[0].x;
      var slope2 := if c[2].y != c[1].y then (1 - off2) as real / dy as real
                    else (c[2].x - c[1].x - off2) as real / dy as real;
      Success(Slots(c[0].x, c[0].y, off2, slope1, pitch, slope2, dy + 1, MyRound(dose * 100.0)))
  }

  /** Four-byte words laid end to end. */
  function Words(ws: seq<Word>): (b: seq<Byte>)
    ensures |b| == 4 * |ws|
  {
    if |ws| == 0 then [] else ws[0] + Words(ws[1..])
  }

  lemma {:induction false} WordsSlice(ws: seq<Word>, k: nat)
    requires k < |ws|
    ensures Words(ws)[4 * k..4 * k + 4] == ws[k]
    decreases k
  {
    if k > 0 {
      WordsSlice(ws[1..], k - 1);
      assert Words(ws)[4 * k..4 * k + 4] == Words(ws[1..])[4 * (k - 1)..4 * (k - 1) + 4];
    }
  }

  /** The five integer slots all fit the signed 32-bit fields of the record. */
  predicate IntSlotsFit(s: Slots) {
    InInt32(s.x0) && InInt32(s.y0) && InInt32(s.off2) && InInt32(s.height) && InInt32(s.dose)
  }

  /** `struct.pack('< 3i 3f 2i', ...)` behind the tag, direction and pad bytes;
      `None` when an integer slot does not fit in 32 bits. */
  function Record(s: Slots, direction: Direction, f32: real -> Word): (r: Option<seq<Byte>>)
    ensures r.Some? <==> IntSlotsFit(s)
    ensures r.Some? ==> var b := r.value;
      && |b| == RecordSize
      && b[..6] == RecordTag + [DirectionByte(direction), 0x00]
      && UnpackInt32(b[6..10]) == s.x0
      && UnpackInt32(b[10..14]) == s.y0
      && UnpackInt32(b[14..18]) == s.off2
      && b[18..22] == f32(s.slope1)
      && b[22..26] == f32(s.pitch as real)
      && b[26..30] == f32(s.slope2)
      && UnpackInt32(b[30..34]) == s.height
      && UnpackInt32(b[34..38]) == s.dose
  {
    var w0 :- PackInt32(s.x0);
    var w1 :- PackInt32(s.y0);
    var w2 :- PackInt32(s.off2);
    var w6 :- PackInt32(s.height);
    var w7 :- PackInt32(s.dose);
    var head := RecordTag + [DirectionByte(direction), 0x00];
    var ws := [w0, w1, w2, f32(s.slope1), f32(s.pitch as real), f32(s.slope2), w6, w7];
    RecordLayout(head, ws);
    PackUnpack(s.x0);
    PackUnpack(s.y0);
    PackUnpack(s.off2);
    PackUnpack(s.height);
    PackUnpack(s.dose);
    Some(head + Words(ws))
  }

  lemma RecordLayout(head: seq<Byte>, ws: seq<Word>)
    requires |head| == 6 && |ws| == 8
    ensures var b := head + Words(ws);
      && |b| == RecordSize && b[..6] == head
      && b[6..10] == ws[0] && b[10..14] == ws[1] && b[14..18] == ws[2] && b[18..22] == ws[3]
      && b[22..26] == ws[4] && b[26..30] == ws[5] && b[30..34] == ws[6] && b[34..38] == ws[7]
  {
    var b := head + Words(ws);
    forall k | 0 <= k < 8
      ensures b[6 + 4 * k..10 + 4 * k] == ws[k]
    {
      WordsSlice(ws, k);
      assert b[6 + 4 * k..10 + 4 * k] == Words(ws)[4 * k..4 * k + 4];
    }
    assert b[6 + 4 * 0..10 + 4 * 0] == ws[0];
    assert b[6 + 4 * 1..10 + 4 * 1] == ws[1];
    assert b[6 + 4 * 2..10 + 4 * 2] == ws[2];
    assert b[6 + 4 * 3..10 + 4 * 3] == ws[3];
    assert b[6 + 4 * 4..10 + 4 * 4] == ws[4];
    assert b[6 + 4 * 5..10 + 4 * 5] == ws[5];
    assert b[6 + 4 * 6..10 + 4 * 6] == ws[6];
    assert b[6 + 4 * 7..10 + 4 * 7] == ws[7];
  }

  // ---------------------------------------------------------------------
  // Text of the coordinate list

  /** `"x,y,"` for every point, as written inside a `.ccc` command. */
  function PointsText(ps: seq<Point>): string
  {
    if |ps| == 0 then ""
    else IntToString(ps[0].x) + "," + IntToString(ps[0].y) + "," + PointsText(ps[1..])
  }

  /** Reads a coordinate list back: comma-separated integers, two per point,
      each followed by a comma. */
  function ParsePoints(text: string): Option<seq<Point>>
  {
    ParseCoordinateParts(Split(text, ','))
  }

  function ParseCoordinateParts(parts: seq<string>): Option<seq<Point>>
  {
    if |parts| == 1 && parts[0] == "" then Some([])
    else if |parts| >= 3 then
      var x :- ParseInt(parts[0]);
      var y :- ParseInt(parts[1]);
      var rest :- ParseCoordinateParts(parts[2..]);
      Some([Point(x, y)] + rest)
    else None
  }

  /** The text of an integer holds only digits and a leading minus sign. */
  lemma IntTextCharacters(n: int)
    ensures forall c :: c in IntToString(n) ==> IsDigit(c) || c == '-'
  {
    var s := IntToString(n);
    if n >= 0 {
      assert AllDigits(s);
    } else {
      assert AllDigits(s[1..]);
      assert forall i :: 1 <= i < |s| ==> s[i] == s[1..][i - 1];
    }
  }

  /** The coordinate list holds only digits, minus signs and commas. */
  lemma {:induction false} PointsTextCharacters(ps: seq<Point>)
    ensures forall c :: c in PointsText(ps) ==> IsDigit(c) || c == '-' || c == ','
    decreases |ps|
  {
    if |ps| > 0 {
      IntTextCharacters(ps[0].x);
      IntTextCharacters(ps[0].y);
      PointsTextCharacters(ps[1..]);
    }
  }

  /** The integer texts of a point list, two per point. */
  function CoordParts(ps: seq<Point>): (parts: seq<string>)
    ensures |parts| == 2 * |ps|
  {
    if |ps| == 0 then [] else [IntToString(ps[0].x), IntToString(ps[0].y)] + CoordParts(ps[1..])
  }

  /** Splitting a coordinate list with anything behind it at the commas yields
      the integer texts, then the pieces of what follows. */
  lemma {:induction false} SplitPointsText(ps: seq<Point>, t: string)
    ensures Split(PointsText(ps) + t, ',') == CoordParts(ps) + Split(t, ',')
    decreases |ps|
  {
    if |ps| > 0 {
      var sx, sy := IntToString(ps[0].x), IntToString(ps[0].y);
      var tail := PointsText(ps[1..]) + t;
      IntTextHasNoComma(ps[0].x);
      IntTextHasNoComma(ps[0].y);
      PointsTextCons(ps, t);
      SplitAtSeparator(sx, sy + [','] + tail, ',');
      SplitAtSeparator(sy, tail, ',');
      SplitPointsText(ps[1..], t);
      CoordPartsAppend(ps, Split(t, ','));
    } else {
      assert PointsText(ps) + t == t;
    }
  }

  lemma IntTextHasNoComma(n: int)
    ensures ',' !in IntToString(n)
  {
    IntTextCharacters(n);
  }

  /** The text of a non-empty list with `t` behind it, front point first. */
  lemma PointsTextCons(ps: seq<Point>, t: string)
    requires |ps| > 0
    ensures PointsText(ps) + t
      == IntToString(ps[0].x) + [','] + (IntToString(ps[0].y) + [','] + (PointsText(ps[1..]) + t))
  {
    var sx, sy := IntToString(ps[0].x), IntToString(ps[0].y);
    assert PointsText(ps) == sx + [','] + sy + [','] + PointsText(ps[1..]);
    Regroup(sx, sy, PointsText(ps[1..]), t, ',');
  }

  lemma Regroup<T>(a: seq<T>, b: seq<T>, c: seq<T>, t: seq<T>, x: T)
    ensures (a + [x] + b + [x] + c) + t == a + [x] + (b + [x] + (c + t))
  {
  }

  /** The parts of a non-empty list with `rest` behind them, front point first. */
  lemma CoordPartsAppend(ps: seq<Point>, rest: seq<string>)
    requires |ps| > 0
    ensures CoordParts(ps) + rest
      == [IntToString(ps[0].x)] + ([IntToString(ps[0].y)] + (CoordParts(ps[1..]) + rest))
  {
    var sx, sy := IntToString(ps[0].x), IntToString(ps[0].y);
    assert CoordParts(ps) == [sx, sy] + CoordParts(ps[1..]);
    PairFront(sx, sy, CoordParts(ps[1..]), rest);
  }

  lemma PairFront<T>(a: T, b: T, m: seq<T>, rest: seq<T>)
    ensures ([a, b] + m) + rest == [a] + ([b] + (m + rest))
  {
    assert [a, b] == [a] + [b];
  }

  lemma {:induction false} ParseCoordParts(ps: seq<Point>)
    ensures ParseCoordinateParts(CoordParts(ps) + [""]) == Some(ps)
    decreases |ps|
  {
    if |ps| == 0 {
      assert CoordParts(ps) + [""] == [""];
    } else {
      var sx, sy := IntToString(ps[0].x), IntToString(ps[0].y);
      var rest := CoordParts(ps[1..]) + [""];
      ParseIntToString(ps[0].x);
      ParseIntToString(ps[0].y);
      ParseCoordParts(ps[1..]);
      ParseCoordStep(sx, sy, rest, ps[0].x, ps[0].y, ps[1..]);
      CoordPartsCons(ps);
    }
  }

  /** The parts of a non-empty list with the terminator, front point first. */
  lemma CoordPartsCons(ps: seq<Point>)
    requires |ps| > 0
    ensures CoordParts(ps) + [""] == [IntToString(ps[0].x), IntToString(ps[0].y)] + (CoordParts(ps[1..]) + [""])
    ensures [Point(ps[0].x, ps[0].y)] + ps[1..] == ps
  {
    var head := [IntToString(ps[0].x), IntToString(ps[0].y)];
    assert CoordParts(ps) == head + CoordParts(ps[1..]);
    assert (head + CoordParts(ps[1..])) + [""] == head + (CoordParts(ps[1..]) + [""]);
    assert [Point(ps[0].x, ps[0].y)] + ps[1..] == [ps[0]] + ps[1..];
  }

  /** One point read off the front of the parts. */
  lemma ParseCoordStep(a: string, b: string, rest: seq<string>, x: int, y: int, tail: seq<Point>)
    requires ParseInt(a) == Some(x) && ParseInt(b) == Some(y)
    requires ParseCoordinateParts(rest) == Some(tail)
    ensures ParseCoordinateParts([a, b] + rest) == Some([Point(x, y)] + tail)
  {
    var parts := [a, b] + rest;
    assert parts[0] == a && parts[1] == b && parts[2..] == rest;
    assert |rest| >= 1;
  }

  /** The coordinate text reads back as the same points. */
  lemma PointsTextRoundTrip(ps: seq<Point>)
    ensures ParsePoints(PointsText(ps)) == Some(ps)
  {
    SplitPointsText(ps, "");
    assert PointsText(ps) + "" == PointsText(ps);
    ParseCoordParts(ps);
  }

  // ---------------------------------------------------------------------
  // Classification

  /** The type decision: a five-point ring (a quadrilateral with its closing
      vertex) with a non-zero slope is DWTZL, a four-point ring (a triangle) is
      DWTL, anything else is DWSL. */
  function Kind(pointCount: nat, s: Slots): (k: PolyType)
    ensures k == DWTZL <==> pointCount == 5 && (s.slope1 != 0.0 || s.slope2 != 0.0)
    ensures k == DWTL <==> pointCount == 4
  {
    if (s.slope1 != 0.0 || s.slope2 != 0.0) && pointCount == 5 then DWTZL
    else if pointCount == 4 then DWTL
    else DWSL
  }

  /** The second half of `get_str_bin`: slots, type, text and record of a ring
      already in canonical form. */
  function Emit(c: seq<Point>, enc: Encoding): (r: Result<Primitive, Reject>)
    requires |c| >= 4
    ensures r == Failure(ZeroDivision) <==> c[1].y == c[0].y
    ensures r == Failure(Int32Overflow) <==> c[1].y != c[0].y && !IntSlotsFit(DeriveSlots(c, enc.pitch, enc.dose).value)
    ensures r.Failure? ==> r.error == ZeroDivision || r.error == Int32Overflow
    ensures r.Success? ==> var p := r.value;
      && p.points == c
      && DeriveSlots(c, enc.pitch, enc.dose) == Success(p.slots)
      && p.kind == Kind(|c|, p.slots)
      && (p.kind == DWSL ==> p.text == PointsText([c[0], c[2]]))
      && (p.kind != DWSL ==> p.text == PointsText(c[..|c| - 1]))
      && Record(p.slots, enc.direction, enc.f32) == Some(p.record)
  {
    var s :- DeriveSlots(c, enc.pitch, enc.dose);
    var kind := Kind(|c|, s);
    var text := if kind == DWSL then PointsText([c[0], c[2]]) else PointsText(c[..|c| - 1]);
    match Record(s, enc.direction, enc.f32)
    case None => Failure(Int32Overflow)
    case Some(bytes) => Success(Primitive(kind, c, s, text, bytes))
  }

  /** `get_str_bin` on a ring already in field-local dot coordinates. */
  function ClassifyLocal(ring: seq<Point>, enc: Encoding): (r: Result<Primitive, Reject>)
    ensures var ps := DropRepeats(ring);
      && (r == Failure(TooFewPoints) <==> |ps| < 4)
      && (r == Failure(ZeroArea) <==> |ps| >= 4 && SignedArea(ps) == 0)
      && (r == Failure(ZeroDivision) <==> |ps| >= 4 && SignedArea(ps) != 0 && Canonical(ps)[1].y == Canonical(ps)[0].y)
      && (r == Failure(Int32Overflow) <==>
            |ps| >= 4 && SignedArea(ps) != 0 && Canonical(ps)[1].y != Canonical(ps)[0].y
            && !IntSlotsFit(DeriveSlots(Canonical(ps), enc.pitch, enc.dose).value))
    ensures r.Success? ==> var p := r.value;
      && |p.points| == |DropRepeats(ring)| >= 4
      && (Closed(ring) ==> Closed(p.points) && SignedArea(p.points) > 0 && NoRepeats(p.points))
      && (Closed(ring) ==> forall q :: q in ring ==> !YXLess(q, p.points[0]))
      && (Closed(ring) ==> multiset(p.points[1..]) == multiset(DropRepeats(ring)[1..]))
      && DeriveSlots(p.points, enc.pitch, enc.dose) == Success(p.slots)
      && p.kind == Kind(|p.points|, p.slots)
      && (p.kind == DWSL ==> p.text == PointsText([p.points[0], p.points[2]]))
      && (p.kind != DWSL ==> p.text == PointsText(p.points[..|p.points| - 1]))
      && Record(p.slots, enc.direction, enc.f32) == Some(p.record)
  {
    var ps := DropRepeats(ring);
    if |ps| < 4 then Failure(TooFewPoints)
    else if SignedArea(ps) == 0 then Failure(ZeroArea)
    else Emit(Canonical(ps), enc)
  }

  /** `get_str_bin(shape, field)`: converts the ring to local coordinates of the
      field and classifies it. */
  function GetStrBin(shape: seq<RPoint>, field: RPoint, spec: FieldSpec, enc: Encoding): (r: Result<Primitive, Reject>)
    ensures |shape| >= 2 && shape[0] == shape[|shape| - 1] && r.Success? ==>
      Closed(r.value.points) && SignedArea(r.value.points) > 0
    ensures r.Success? ==> |r.value.record| == RecordSize && |r.value.points| >= 4
  {
    var local := LocalRing(shape, field, spec);
    ClassifyLocal(local, enc)
  }

  /** The ring in local dot coordinates, point by point; a closed ring stays closed. */
  function LocalRing(shape: seq<RPoint>, field: RPoint, spec: FieldSpec): (ring: seq<Point>)
    ensures |ring| == |shape|
    ensures forall i :: 0 <= i < |shape| ==> ring[i] == LocalPoint(shape[i], field, spec)
    ensures |shape| >= 2 && shape[0] == shape[|shape| - 1] ==> Closed(ring)
  {
    seq(|shape|, i requires 0 <= i < |shape| => LocalPoint(shape[i], field, spec))
  }
}
