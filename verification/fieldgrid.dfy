/** The regular field grid: snapping a point to the centre of the field that
    holds it, the field-boundary cut positions across a bounding box, and the
    interior vertex ordinates at which a shape is sliced into trapezoids. */
module FieldGrid {
  import opened Rounding

  type PosInt = n: int | n > 0 witness 1

  /** A point in layout units (micrometres), as the host supplies it. */
  datatype RPoint = RPoint(x: real, y: real)

  /** Field edge length, exposure dots per field edge, and the grid anchor. */
  datatype FieldSpec = FieldSpec(size: PosInt, dots: PosInt, center: RPoint)

  /** The slicing direction: horizontal cuts (`'x'`) or vertical cuts (`'y'`). */
  datatype Direction = AlongX | AlongY

  /** Index of the grid cell, along one axis, whose half-open extent holds `p`. */
  function CellIndex(p: real, c: real, size: PosInt): (k: int)
    ensures CellLow(c, size, k) <= p < CellLow(c, size, k + 1)
  {
    var k := FloorDiv(p - c + size as real / 2.0, size as real);
    assert CellLow(c, size, k) == c + k as real * size as real - size as real / 2.0;
    assert CellLow(c, size, k + 1) == c + (k as real + 1.0) * size as real - size as real / 2.0;
    k
  }

  /** The j-th grid point along one axis: a field centre. */
  function GridPoint(c: real, size: PosInt, j: int): real
  {
    c + j as real * size as real
  }

  /** The lower edge of the j-th cell, which is also the (j-1)-th field boundary. */
  function CellLow(c: real, size: PosInt, j: int): real
  {
    GridPoint(c, size, j) - size as real / 2.0
  }

  /** Cell edges increase with the index. */
  lemma CellLowMonotone(c: real, size: PosInt, i: int, j: int)
    requires i < j
    ensures CellLow(c, size, i) < CellLow(c, size, j)
  {
    MulStrict(i as real, j as real, size as real);
  }

  /** Only one cell holds a given coordinate. */
  lemma CellIndexUnique(p: real, c: real, size: PosInt, j: int)
    requires CellLow(c, size, j) <= p < CellLow(c, size, j + 1)
    ensures j == CellIndex(p, c, size)
  {
    var k := CellIndex(p, c, size);
    if j < k {
      if j + 1 < k {
        CellLowMonotone(c, size, j + 1, k);
      }
    } else if j > k {
      if k + 1 < j {
        CellLowMonotone(c, size, k + 1, j);
      }
    }
  }

  /** Grid-mode `get_field` along one axis: the centre of the field holding `p`. */
  function SnapCoord(p: real, c: real, size: PosInt): (r: real)
    ensures r - size as real / 2.0 <= p < r + size as real / 2.0
    ensures exists k: int :: r == GridPoint(c, size, k)
  {
    var k := CellIndex(p, c, size);
    assert CellLow(c, size, k + 1) == GridPoint(c, size, k) + size as real / 2.0;
    GridPoint(c, size, k)
  }

  /** Grid-mode `get_field`: the centre of the field that holds the point. */
  function GetField(spec: FieldSpec, p: RPoint): (f: RPoint)
    ensures f.x - spec.size as real / 2.0 <= p.x < f.x + spec.size as real / 2.0
    ensures f.y - spec.size as real / 2.0 <= p.y < f.y + spec.size as real / 2.0
  {
    RPoint(SnapCoord(p.x, spec.center.x, spec.size), SnapCoord(p.y, spec.center.y, spec.size))
  }

  /** Any grid point whose field holds `p` is the one `SnapCoord` returns. */
  lemma SnapCoordUnique(p: real, c: real, size: PosInt, k: int)
    requires GridPoint(c, size, k) - size as real / 2.0 <= p < GridPoint(c, size, k) + size as real / 2.0
    ensures SnapCoord(p, c, size) == GridPoint(c, size, k)
  {
    assert CellLow(c, size, k + 1) == GridPoint(c, size, k) + size as real / 2.0;
    CellIndexUnique(p, c, size, k);
  }

  // ---------------------------------------------------------------------
  // Field-boundary cuts

  /** The boundary between cell j and cell j + 1. */
  function Boundary(c: real, size: PosInt, j: int): real
  {
    CellLow(c, size, j + 1)
  }

  /** `int((fmax - fmin) / size)`, as the bound of a Python `range`. */
  function CutCount(lo: real, hi: real, c: real, size: PosInt): (n: nat)
    ensures n == if CellIndex(hi, c, size) > CellIndex(lo, c, size)
                 then CellIndex(hi, c, size) - CellIndex(lo, c, size) else 0
  {
    var kmin := CellIndex(lo, c, size);
    var kmax := CellIndex(hi, c, size);
    var fmin := SnapCoord(lo, c, size);
    var fmax := SnapCoord(hi, c, size);
    GridDifference(c, size, kmin, kmax);
    var count := PyInt((fmax - fmin) / size as real);
    if count > 0 then count else 0
  }

  lemma GridDifference(c: real, size: PosInt, i: int, j: int)
    ensures (GridPoint(c, size, j) - GridPoint(c, size, i)) / size as real == (j - i) as real
  {
    var s := size as real;
    assert GridPoint(c, size, j) - GridPoint(c, size, i) == (j - i) as real * s;
  }

  /** The positions where a bounding-box extent [lo, hi] is cut at field
      boundaries, `fmin + (k + 1/2) size` for each k below the count: exactly
      the field boundaries that lie in (lo, hi], in increasing order. */
  function CutPositions(lo: real, hi: real, c: real, size: PosInt): (cuts: seq<real>)
    ensures forall t :: 0 <= t < |cuts| ==> lo < cuts[t] <= hi
    ensures forall t :: 0 <= t < |cuts| ==> cuts[t] == Boundary(c, size, CellIndex(lo, c, size) + t)
    ensures forall j: int :: lo < Boundary(c, size, j) <= hi ==> Boundary(c, size, j) in cuts
    ensures forall s, t :: 0 <= s < t < |cuts| ==> cuts[s] < cuts[t]
  {
    var fmin := SnapCoord(lo, c, size);
    var n := CutCount(lo, hi, c, size);
    var cuts := seq(n, t => (t as real + 0.5) * size as real + fmin);
    assert |cuts| == n;
    assert forall t :: 0 <= t < |cuts| ==> cuts[t] == (t as real + 0.5) * size as real + fmin;
    CutPositionsFacts(lo, hi, c, size, cuts);
    cuts
  }

  lemma CutPositionsFacts(lo: real, hi: real, c: real, size: PosInt, cuts: seq<real>)
    requires |cuts| == CutCount(lo, hi, c, size)
    requires forall t :: 0 <= t < |cuts| ==> cuts[t] == (t as real + 0.5) * size as real + SnapCoord(lo, c, size)
    ensures forall t :: 0 <= t < |cuts| ==> lo < cuts[t] <= hi
    ensures forall t :: 0 <= t < |cuts| ==> cuts[t] == Boundary(c, size, CellIndex(lo, c, size) + t)
    ensures forall j: int :: lo < Boundary(c, size, j) <= hi ==> Boundary(c, size, j) in cuts
    ensures forall s, t :: 0 <= s < t < |cuts| ==> cuts[s] < cuts[t]
  {
    var kmin := CellIndex(lo, c, size);
    var kmax := CellIndex(hi, c, size);
    CutsAreBoundaries(lo, hi, c, size, cuts);
    forall t | 0 <= t < |cuts|
      ensures lo < cuts[t] <= hi
    {
      BoundaryWindow(lo, hi, c, size, kmin + t);
    }
    forall j: int | lo < Boundary(c, size, j) <= hi
      ensures Boundary(c, size, j) in cuts
    {
      BoundaryWindow(lo, hi, c, size, j);
      assert cuts[j - kmin] == Boundary(c, size, j);
    }
    forall a, b | 0 <= a < b < |cuts|
      ensures cuts[a] < cuts[b]
    {
      CellLowMonotone(c, size, kmin + a + 1, kmin + b + 1);
    }
  }

  /** The t-th cut is the boundary t cells after the cell of `lo`. */
  lemma CutsAreBoundaries(lo: real, hi: real, c: real, size: PosInt, cuts: seq<real>)
    requires forall t :: 0 <= t < |cuts| ==> cuts[t] == (t as real + 0.5) * size as real + SnapCoord(lo, c, size)
    ensures forall t :: 0 <= t < |cuts| ==> cuts[t] == Boundary(c, size, CellIndex(lo, c, size) + t)
  {
    var kmin := CellIndex(lo, c, size);
    forall t | 0 <= t < |cuts|
      ensures cuts[t] == Boundary(c, size, kmin + t)
    {
      assert (t as real + 0.5) * size as real + GridPoint(c, size, kmin)
        == GridPoint(c, size, kmin + t + 1) - size as real / 2.0;
    }
  }

  /** The boundaries in (lo, hi] are those from the cell of `lo` up to, not
      including, the cell of `hi`. */
  lemma BoundaryWindow(lo: real, hi: real, c: real, size: PosInt, j: int)
    ensures lo < Boundary(c, size, j) <==> j >= CellIndex(lo, c, size)
    ensures Boundary(c, size, j) <= hi <==> j < CellIndex(hi, c, size)
  {
    BoundaryPosition(lo, c, size, j);
    BoundaryPosition(hi, c, size, j);
  }

  /** A boundary lies above `p` exactly when it is at or after the cell of `p`. */
  lemma BoundaryPosition(p: real, c: real, size: PosInt, j: int)
    ensures p < Boundary(c, size, j) <==> j >= CellIndex(p, c, size)
  {
    var k := CellIndex(p, c, size);
    if j > k {
      CellLowMonotone(c, size, k + 1, j + 1);
    } else if j + 1 < k {
      CellLowMonotone(c, size, j + 1, k);
    }
  }

  /** The horizontal and vertical field-boundary cuts of a bounding box. */
  function BoxCuts(spec: FieldSpec, minX: real, minY: real, maxX: real, maxY: real): (cuts: (seq<real>, seq<real>))
    ensures forall t :: 0 <= t < |cuts.0| ==> minY < cuts.0[t] <= maxY
    ensures forall t :: 0 <= t < |cuts.1| ==> minX < cuts.1[t] <= maxX
    ensures forall j: int :: minY < Boundary(spec.center.y, spec.size, j) <= maxY ==> Boundary(spec.center.y, spec.size, j) in cuts.0
    ensures forall j: int :: minX < Boundary(spec.center.x, spec.size, j) <= maxX ==> Boundary(spec.center.x, spec.size, j) in cuts.1
    ensures forall t :: 0 <= t < |cuts.0| ==> exists j: int :: cuts.0[t] == Boundary(spec.center.y, spec.size, j)
    ensures forall t :: 0 <= t < |cuts.1| ==> exists j: int :: cuts.1[t] == Boundary(spec.center.x, spec.size, j)
    ensures forall s, t :: 0 <= s < t < |cuts.0| ==> cuts.0[s] < cuts.0[t]
    ensures forall s, t :: 0 <= s < t < |cuts.1| ==> cuts.1[s] < cuts.1[t]
  {
    (CutPositions(minY, maxY, spec.center.y, spec.size), CutPositions(minX, maxX, spec.center.x, spec.size))
  }

  // ---------------------------------------------------------------------
  // Trapezoid slicing ordinates

  function SeqMin(vs: seq<real>): (m: real)
    requires |vs| > 0
    ensures m in vs && forall v :: v in vs ==> m <= v
  {
    if |vs| == 1 then vs[0]
    else
      var rest := SeqMin(vs[1..]);
      assert forall v :: v in vs ==> v == vs[0] || v in vs[1..];
      if vs[0] <= rest then vs[0] else rest
  }

  function SeqMax(vs: seq<real>): (m: real)
    requires |vs| > 0
    ensures m in vs && forall v :: v in vs ==> v <= m
  {
    if |vs| == 1 then vs[0]
    else
      var rest := SeqMax(vs[1..]);
      assert forall v :: v in vs ==> v == vs[0] || v in vs[1..];
      if vs[0] >= rest then vs[0] else rest
  }

  /** The vertex coordinates with the least and greatest removed:
      exactly those that have a smaller and a larger vertex coordinate. */
  function InteriorOrdinates(vs: seq<real>): (r: set<real>)
    requires |vs| > 0
    ensures forall v :: v in r <==> v in vs && (exists a :: a in vs && a < v) && (exists b :: b in vs && v < b)
  {
    var lo := SeqMin(vs);
    var hi := SeqMax(vs);
    (set v | v in vs) - {lo, hi}
  }

  /** Slicing ordinates for the configured direction: along x the shape is cut
      by horizontal lines at its interior vertex y values, along y by vertical
      lines at its interior vertex x values. */
  function SliceOrdinates(direction: Direction, xs: seq<real>, ys: seq<real>): (r: set<real>)
    requires |xs| > 0 && |ys| > 0
    ensures direction == AlongX ==> forall y :: y in r <==> y in ys && SeqMin(ys) < y < SeqMax(ys)
    ensures direction == AlongY ==> forall x :: x in r <==> x in xs && SeqMin(xs) < x < SeqMax(xs)
  {
    match direction
    case AlongX => InteriorOrdinates(ys)
    case AlongY => InteriorOrdinates(xs)
  }
}
