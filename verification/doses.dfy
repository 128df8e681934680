// The dose visualiser: shapes of the visible layers are regrouped, by the
// dose they will be exposed with, onto auxiliary layers of one layout layer
// number, one datatype per dose, coloured from yellow (highest rank) towards
// red.

module DoseVisualize {
  import opened Wrappers
  import opened Text
  import opened Sorting

  /** The layout layer number every auxiliary layer uses. */
  const DoseLayer: int := 10000

  /** A layout polygon, as its integer vertices. */
  type Polygon = seq<(int, int)>

  /** A shape as the scan meets it: its polygon, its own `dose` property, and
      the `dose` properties of the instances on its path, outermost first. */
  datatype Scanned = Scanned(poly: Polygon, own: Option<real>, path: seq<Option<real>>)

  // ---------------------------------------------------------------------
  // Which dose a shape is exposed with

  /** The loop over the instance path: every instance that carries a dose
      overrides what was found so far. */
  function PathDose(found: Option<real>, path: seq<Option<real>>): (d: Option<real>)
    ensures (forall i :: 0 <= i < |path| ==> path[i].None?) ==> d == found
    ensures (exists i :: 0 <= i < |path| && path[i].Some?) ==>
      exists i :: 0 <= i < |path| && path[i] == d && d.Some? && forall j :: i < j < |path| ==> path[j].None?
    decreases |path|
  {
    if |path| == 0 then found
    else
      var rest := PathDose(if path[0].Some? then path[0] else found, path[1..]);
      assert forall j :: 1 <= j < |path| ==> path[j] == path[1..][j - 1];
      rest
  }

  /** A shape's own dose wins; otherwise the deepest instance dose on its
      path; otherwise it has none. */
  function ResolveDose(own: Option<real>, path: seq<Option<real>>): (d: Option<real>)
    ensures own.Some? ==> d == own
    ensures d.None? <==> own.None? && forall i :: 0 <= i < |path| ==> path[i].None?
    ensures own.None? && d.Some? ==>
      exists i :: 0 <= i < |path| && path[i] == d && forall j :: i < j < |path| ==> path[j].None?
  {
    if own.Some? then own else PathDose(None, path)
  }

  /** The group a shape joins: its dose printed with two decimals, or none. */
  function DoseKey(d: Option<real>, fmt2: real -> string): (k: Option<string>)
    ensures k.None? <==> d.None?
  {
    match d
    case None => None
    case Some(v) => Some(fmt2(v))
  }

  // ---------------------------------------------------------------------
  // Grouping (the `defaultdict(list)` of polygons)

  /** The polygons filed under key `k`, in scan order. */
  function Select(items: seq<(Option<string>, Polygon)>, k: Option<string>): (r: seq<Polygon>)
    ensures |r| <= |items|
    decreases |items|
  {
    if |items| == 0 then []
    else
      var n := |items| - 1;
      Select(items[..n], k) + (if items[n].0 == k then [items[n].1] else [])
  }

  /** A polygon is selected exactly when it was filed under the key. */
  lemma {:induction false} SelectMembers(items: seq<(Option<string>, Polygon)>, k: Option<string>, p: Polygon)
    ensures p in Select(items, k) <==> (k, p) in items
    decreases |items|
  {
    if |items| > 0 {
      var n := |items| - 1;
      SelectMembers(items[..n], k, p);
      assert items == items[..n] + [items[n]];
    }
  }

  /** Some item is filed under key `k`. */
  ghost predicate Filed(items: seq<(Option<string>, Polygon)>, k: Option<string>)
  {
    exists i :: 0 <= i < |items| && items[i].0 == k
  }

  lemma FiledSnoc(items: seq<(Option<string>, Polygon)>, k: Option<string>)
    requires |items| > 0
    ensures Filed(items, k) <==> Filed(items[..|items| - 1], k) || items[|items| - 1].0 == k
  {
    var n := |items| - 1;
    if Filed(items, k) && items[n].0 != k {
      var i :| 0 <= i < |items| && items[i].0 == k;
      assert items[..n][i].0 == k;
    }
    if Filed(items[..n], k) {
      var i :| 0 <= i < n && items[..n][i].0 == k;
      assert items[i].0 == k;
    }
  }

  /** Nothing is selected under a key nothing was filed under. */
  lemma {:induction false} SelectUnfiled(items: seq<(Option<string>, Polygon)>, k: Option<string>)
    requires !Filed(items, k)
    ensures Select(items, k) == []
    decreases |items|
  {
    if |items| > 0 {
      FiledSnoc(items, k);
      SelectUnfiled(items[..|items| - 1], k);
    }
  }

  /** The scan loop appending each polygon to the list of its key. */
  function Group(items: seq<(Option<string>, Polygon)>): (g: map<Option<string>, seq<Polygon>>)
    ensures forall k :: k in g <==> Filed(items, k)
    ensures forall k :: k in g ==> g[k] == Select(items, k)
    decreases |items|
  {
    if |items| == 0 then map[]
    else
      GroupStep(items);
      Group(items[..|items| - 1])[items[|items| - 1].0 := GroupedUnder(items)]
  }

  /** The list of the last item's key once the last item is appended. */
  function GroupedUnder(items: seq<(Option<string>, Polygon)>): seq<Polygon>
    requires |items| > 0
    decreases |items|, 0
  {
    var g := Group(items[..|items| - 1]);
    var k := items[|items| - 1].0;
    (if k in g then g[k] else []) + [items[|items| - 1].1]
  }

  lemma GroupStep(items: seq<(Option<string>, Polygon)>)
    requires |items| > 0
    ensures var n := |items| - 1;
      var k := items[n].0;
      && GroupedUnder(items) == Select(items, k)
      && (forall key :: Filed(items, key) <==> Filed(items[..n], key) || key == k)
      && (forall key :: key != k ==> Select(items, key) == Select(items[..n], key))
    decreases |items|, 1
  {
    var n := |items| - 1;
    var k := items[n].0;
    forall key ensures Filed(items, key) <==> Filed(items[..n], key) || key == k {
      FiledSnoc(items, key);
    }
    var g := Group(items[..n]);
    if k !in g {
      SelectUnfiled(items[..n], k);
    }
  }

  /** The string keys of the dose groups. */
  function DoseStrings(items: seq<(Option<string>, Polygon)>): (s: set<string>)
    ensures forall d :: d in s <==> Filed(items, Some(d))
  {
    set i | 0 <= i < |items| && items[i].0.Some? :: items[i].0.value
  }

  // ---------------------------------------------------------------------
  // Colours

  /** `(r << 16) + (g << 8) + b`. */
  function Rgb2Int(r: int, g: int, b: int): int
  {
    r * 65536 + g * 256 + b
  }

  /** The red, green and blue channels of a packed colour. */
  function Channels(c: int): (int, int, int)
  {
    (c / 65536 % 256, c / 256 % 256, c % 256)
  }

  /** Packing three byte channels gives a 24-bit colour that unpacks to them. */
  lemma Rgb2IntRoundTrip(r: int, g: int, b: int)
    requires 0 <= r < 256 && 0 <= g < 256 && 0 <= b < 256
    ensures 0 <= Rgb2Int(r, g, b) < 0x100_0000
    ensures Channels(Rgb2Int(r, g, b)) == (r, g, b)
  {
    var c := Rgb2Int(r, g, b);
    assert c == (r * 256 + g) * 256 + b;
    assert c / 256 == r * 256 + g;
    assert c / 65536 == (c / 256) / 256;
  }

  /** Different byte channels give different colours. */
  lemma Rgb2IntInjective(r: int, g: int, b: int, r': int, g': int, b': int)
    requires 0 <= r < 256 && 0 <= g < 256 && 0 <= b < 256
    requires 0 <= r' < 256 && 0 <= g' < 256 && 0 <= b' < 256
    requires Rgb2Int(r, g, b) == Rgb2Int(r', g', b')
    ensures r == r' && g == g' && b == b'
  {
    Rgb2IntRoundTrip(r, g, b);
    Rgb2IntRoundTrip(r', g', b');
  }

  /** Division of naturals rounding down, as repeated subtraction. */
  function FloorDiv(a: nat, n: nat): (q: nat)
    requires n > 0
    ensures q <= a
    decreases a
  {
    if a < n then 0 else 1 + FloorDiv(a - n, n)
  }

  /** The quotient is the largest q with q * n <= a. */
  lemma {:induction false} FloorDivBounds(a: nat, n: nat)
    requires n > 0
    ensures FloorDiv(a, n) * n <= a < (FloorDiv(a, n) + 1) * n
    decreases a
  {
    var q := FloorDiv(a, n);
    if a >= n {
      FloorDivBounds(a - n, n);
      var q' := FloorDiv(a - n, n);
      assert q == q' + 1;
      assert q * n == q' * n + n;
      assert (q + 1) * n == (q' + 1) * n + n;
    }
  }

  /** `int(255 * (n - i) / n)`: the green channel of the i-th of n doses.
      The quotient is never negative, so truncation is the floor. */
  function Green(i: nat, n: nat): (g: int)
    requires i < n
    ensures 0 <= g <= 255
  {
    GreenBounds(i, n);
    FloorDiv(255 * (n - i), n)
  }

  lemma GreenBounds(i: nat, n: nat)
    requires i < n
    ensures FloorDiv(255 * (n - i), n) <= 255
  {
    var a := 255 * (n - i);
    var q := FloorDiv(a, n);
    FloorDivBounds(a, n);
    assert a <= 255 * n;
    if q > 255 {
      MulMonotone(256, q, n);
      assert false;
    }
  }

  lemma MulMonotone(a: int, b: int, n: nat)
    requires a <= b
    ensures a * n <= b * n
  {
    assert b * n - a * n == (b - a) * n;
  }

  /** The green channel is the floor of `255 * (n - i) / n`; the first dose
      gets full green. */
  lemma GreenIsFloor(i: nat, n: nat)
    requires i < n
    ensures Green(i, n) * n <= 255 * (n - i) < (Green(i, n) + 1) * n
    ensures i == 0 ==> Green(i, n) == 255
  {
    var a := 255 * (n - i);
    FloorDivBounds(a, n);
    var q := Green(i, n);
    if i == 0 {
      assert q * n <= 255 * n < (q + 1) * n;
      if q < 255 {
        MulMonotone(q + 1, 255, n);
      }
      if q > 255 {
        MulMonotone(256, q, n);
      }
    }
  }

  /** Higher-ranked doses get no more green than lower-ranked ones. */
  lemma GreenNonIncreasing(i: nat, j: nat, n: nat)
    requires i <= j < n
    ensures Green(j, n) <= Green(i, n)
  {
    GreenIsFloor(i, n);
    GreenIsFloor(j, n);
    var gi, gj := Green(i, n), Green(j, n);
    assert 255 * (n - j) <= 255 * (n - i);
    if gj > gi {
      MulMonotone(gi + 1, gj, n);
      assert false;
    }
  }

  // ---------------------------------------------------------------------
  // The auxiliary layers

  /** An auxiliary layer as shown: layer number, datatype, legend, fill and
      frame colours, its shapes, and the dose property its shapes get. */
  datatype AuxLayer = AuxLayer(layer: int, dtype: int, name: string, fill: int, frame: int,
                                  shapes: seq<Polygon>, dose: Option<string>)

  /** Grey fill of the no-dose layer, and black frames. */
  const NoDoseFill: int := 0x96_9696
  const Frame: int := 0

  lemma ColourConstants()
    ensures NoDoseFill == Rgb2Int(150, 150, 150) && Frame == Rgb2Int(0, 0, 0)
  {
  }

  /** Each scanned shape keyed by its resolved dose. */
  function Keyed(scanned: seq<Scanned>, fmt2: real -> string): (items: seq<(Option<string>, Polygon)>)
    ensures |items| == |scanned|
    ensures forall i :: 0 <= i < |scanned| ==>
      items[i] == (DoseKey(ResolveDose(scanned[i].own, scanned[i].path), fmt2), scanned[i].poly)
  {
    seq(|scanned|, i requires 0 <= i < |scanned| => (DoseKey(ResolveDose(scanned[i].own, scanned[i].path), fmt2), scanned[i].poly))
  }

  /** Every dose of `sorted` has a group. */
  predicate Grouped(sorted: seq<string>, groups: map<Option<string>, seq<Polygon>>)
  {
    forall i :: 0 <= i < |sorted| ==> Some(sorted[i]) in groups
  }

  /** The fill colour of the i-th of n dose layers: red with a falling share of green. */
  function DoseFill(i: nat, n: nat): int
    requires i < n
  {
    var g := Green(i, n);
    Rgb2Int(255, g, 0)
  }

  /** One layer per dose in ascending string order, datatypes from 1. */
  function DoseLayers(sorted: seq<string>, groups: map<Option<string>, seq<Polygon>>): (ls: seq<AuxLayer>)
    requires Grouped(sorted, groups)
    ensures |ls| == |sorted|
    ensures forall i :: 0 <= i < |ls| ==> ls[i].layer == DoseLayer && ls[i].frame == Frame
    ensures forall i :: 0 <= i < |sorted| ==>
      ls[i] == AuxLayer(DoseLayer, i + 1, sorted[i] + " us", DoseFill(i, |sorted|), Frame, groups[Some(sorted[i])], Some(sorted[i]))
  {
    seq(|sorted|, i requires 0 <= i < |sorted| =>
      AuxLayer(DoseLayer, i + 1, sorted[i] + " us", DoseFill(i, |sorted|), Frame,
               groups[Some(sorted[i])], Some(sorted[i])))
  }

  lemma StrLessIsStrictTotal()
    ensures StrictTotalOrder(StrLess)
  {
    forall a | true ensures !StrLess(a, a) { StrLessIrreflexive(a); }
    forall a, b, c | StrLess(a, b) && StrLess(b, c) ensures StrLess(a, c) { StrLessTransitive(a, b, c); }
    forall a, b | a != b ensures StrLess(a, b) || StrLess(b, a) { StrLessConnected(a, b); }
  }

  /** `sorted(doses)`: the distinct dose strings in ascending string order. */
  function SortedDoses(items: seq<(Option<string>, Polygon)>): (sorted: seq<string>)
    ensures |sorted| == |DoseStrings(items)|
    ensures forall d :: d in sorted <==> d in DoseStrings(items)
    ensures forall i, j :: 0 <= i < j < |sorted| ==> StrLess(sorted[i], sorted[j])
    ensures Grouped(sorted, Group(items))
  {
    StrLessIsStrictTotal();
    var sorted := SortSet(DoseStrings(items), StrLess);
    assert forall i :: 0 <= i < |sorted| ==> sorted[i] in DoseStrings(items);
    sorted
  }

  /** The "Show" button: the no-dose layer (datatype 0, grey) when some shape
      has no dose, then one layer per distinct dose. */
  function Show(scanned: seq<Scanned>, fmt2: real -> string): (ls: seq<AuxLayer>)
    ensures OnAuxLayer(ls)
  {
    var items := Keyed(scanned, fmt2);
    var nd := NoDoseLayer(Group(items));
    var ds := DoseLayers(SortedDoses(items), Group(items));
    OnAuxLayerAppend(nd, ds);
    nd + ds
  }

  /** Every layer sits on the auxiliary layer number with the black frame. */
  predicate OnAuxLayer(ls: seq<AuxLayer>)
  {
    forall i :: 0 <= i < |ls| ==> ls[i].layer == DoseLayer && ls[i].frame == Frame
  }

  lemma OnAuxLayerAppend(a: seq<AuxLayer>, b: seq<AuxLayer>)
    requires OnAuxLayer(a) && OnAuxLayer(b)
    ensures OnAuxLayer(a + b)
  {
  }

  /** The grey layer of the shapes without a dose, when there are any. */
  function NoDoseLayer(groups: map<Option<string>, seq<Polygon>>): (ls: seq<AuxLayer>)
    ensures |ls| == if None in groups then 1 else 0
    ensures forall i :: 0 <= i < |ls| ==> ls[i] == AuxLayer(DoseLayer, 0, "no dose", NoDoseFill, Frame, groups[None], None)
  {
    if None in groups then [AuxLayer(DoseLayer, 0, "no dose", NoDoseFill, Frame, groups[None], None)] else []
  }

  /** Some scanned shape resolves to no dose at all. */
  ghost predicate HasUndosed(scanned: seq<Scanned>)
  {
    exists i :: 0 <= i < |scanned| && ResolveDose(scanned[i].own, scanned[i].path).None?
  }

  /** The number of layers before the dose layers. */
  ghost function Undosed(scanned: seq<Scanned>): nat
  {
    if HasUndosed(scanned) then 1 else 0
  }

  lemma UndosedGroup(scanned: seq<Scanned>, fmt2: real -> string)
    ensures HasUndosed(scanned) <==> None in Group(Keyed(scanned, fmt2))
  {
    var items := Keyed(scanned, fmt2);
    if HasUndosed(scanned) {
      var i :| 0 <= i < |scanned| && ResolveDose(scanned[i].own, scanned[i].path).None?;
      assert items[i].0 == None;
    }
    if None in Group(items) {
      var i :| 0 <= i < |items| && items[i].0 == None;
      assert ResolveDose(scanned[i].own, scanned[i].path).None?;
    }
  }

  /** Show's layers past the no-dose layer are the dose layers. */
  lemma ShowSplit(scanned: seq<Scanned>, fmt2: real -> string)
    ensures EndsWith(Show(scanned, fmt2), Undosed(scanned),
                     DoseLayers(SortedDoses(Keyed(scanned, fmt2)), Group(Keyed(scanned, fmt2))))
  {
    ShowUnfold(scanned, fmt2);
    NoDoseCount(scanned, fmt2);
    AppendTail(Show(scanned, fmt2), NoDoseLayer(Group(Keyed(scanned, fmt2))),
               DoseLayers(SortedDoses(Keyed(scanned, fmt2)), Group(Keyed(scanned, fmt2))), Undosed(scanned));
  }

  /** `ls` is `n` elements followed by `tail`. */
  predicate EndsWith<T(==)>(ls: seq<T>, n: nat, tail: seq<T>)
  {
    && |ls| == n + |tail|
    && forall i :: n <= i < |ls| ==> ls[i] == tail[i - n]
  }

  lemma AppendTail<T>(ls: seq<T>, a: seq<T>, b: seq<T>, n: nat)
    requires ls == a + b && |a| == n
    ensures EndsWith(ls, n, b)
  {
  }

  lemma ShowUnfold(scanned: seq<Scanned>, fmt2: real -> string)
    ensures Show(scanned, fmt2) == NoDoseLayer(Group(Keyed(scanned, fmt2)))
      + DoseLayers(SortedDoses(Keyed(scanned, fmt2)), Group(Keyed(scanned, fmt2)))
  {
  }

  lemma NoDoseCount(scanned: seq<Scanned>, fmt2: real -> string)
    ensures |NoDoseLayer(Group(Keyed(scanned, fmt2)))| == Undosed(scanned)
  {
    UndosedGroup(scanned, fmt2);
  }

  /** The no-dose layer comes first, exactly when some shape has no dose,
      and holds those shapes in scan order. */
  lemma ShowNoDoseLayer(scanned: seq<Scanned>, fmt2: real -> string)
    ensures var ls := Show(scanned, fmt2);
      var items := Keyed(scanned, fmt2);
      && |ls| == Undosed(scanned) + |DoseStrings(items)|
      && (HasUndosed(scanned) ==> ls[0] == AuxLayer(DoseLayer, 0, "no dose", NoDoseFill, Frame, Select(items, None), None))
  {
    UndosedGroup(scanned, fmt2);
    ShowSplit(scanned, fmt2);
  }

  /** The dose layers follow the no-dose layer with datatypes 1, 2, ...;
      each holds exactly the shapes of its dose, in scan order, and its
      shapes carry that dose. */
  lemma ShowDoseLayers(scanned: seq<Scanned>, fmt2: real -> string)
    ensures var ls := Show(scanned, fmt2);
      var items := Keyed(scanned, fmt2);
      var first := Undosed(scanned);
      forall i :: first <= i < |ls| ==>
        && ls[i].dtype == i - first + 1
        && ls[i].dose.Some?
        && ls[i].name == ls[i].dose.value + " us"
        && ls[i].dose.value in DoseStrings(items)
        && ls[i].shapes == Select(items, ls[i].dose)
  {
    ShowSplit(scanned, fmt2);
  }

  /** The dose layers come in ascending string order of their doses. */
  lemma ShowDoseOrder(scanned: seq<Scanned>, fmt2: real -> string)
    ensures var ls := Show(scanned, fmt2);
      forall i, j :: Undosed(scanned) <= i < j < |ls| ==>
        ls[i].dose.Some? && ls[j].dose.Some? && StrLess(ls[i].dose.value, ls[j].dose.value)
  {
    ShowSplit(scanned, fmt2);
  }

  /** Every distinct dose gets a layer. */
  lemma ShowCoversDoses(scanned: seq<Scanned>, fmt2: real -> string, d: string)
    requires d in DoseStrings(Keyed(scanned, fmt2))
    ensures exists i :: Undosed(scanned) <= i < |Show(scanned, fmt2)| && Show(scanned, fmt2)[i].dose == Some(d)
  {
    var sorted := SortedDoses(Keyed(scanned, fmt2));
    var k :| 0 <= k < |sorted| && sorted[k] == d;
    ShowLayerAt(scanned, fmt2, k);
    assert Show(scanned, fmt2)[Undosed(scanned) + k].dose == Some(d);
  }

  /** The k-th dose layer of Show, for the k-th dose in order. */
  lemma ShowLayerAt(scanned: seq<Scanned>, fmt2: real -> string, k: nat)
    requires k < |SortedDoses(Keyed(scanned, fmt2))|
    ensures Undosed(scanned) + k < |Show(scanned, fmt2)|
    ensures Show(scanned, fmt2)[Undosed(scanned) + k].dose == Some(SortedDoses(Keyed(scanned, fmt2))[k])
  {
    var items := Keyed(scanned, fmt2);
    var ds := DoseLayers(SortedDoses(items), Group(items));
    ShowSplit(scanned, fmt2);
    assert ds[k].dose == Some(SortedDoses(items)[k]);
    assert Show(scanned, fmt2)[Undosed(scanned) + k] == ds[k];
  }

  // ---------------------------------------------------------------------
  // Cleaning up

  /** What identifies a layout layer. */
  datatype LayerInfo = LayerInfo(layer: int, dtype: int)

  /** `delete_aux`: drops every layer on the auxiliary layer number. */
  function DeleteAux(layers: seq<LayerInfo>): (r: seq<LayerInfo>)
    ensures forall l :: l in r <==> l in layers && l.layer != DoseLayer
    ensures |r| <= |layers|
    decreases |layers|
  {
    if |layers| == 0 then []
    else
      var rest := DeleteAux(layers[1..]);
      assert layers == [layers[0]] + layers[1..];
      if layers[0].layer == DoseLayer then rest else [layers[0]] + rest
  }

  /** The layout layers of shown auxiliary layers. */
  function Infos(ls: seq<AuxLayer>): (r: seq<LayerInfo>)
    ensures |r| == |ls| && forall i :: 0 <= i < |ls| ==> r[i] == LayerInfo(ls[i].layer, ls[i].dtype)
  {
    seq(|ls|, i requires 0 <= i < |ls| => LayerInfo(ls[i].layer, ls[i].dtype))
  }

  lemma {:induction false} DeleteAuxAppend(a: seq<LayerInfo>, b: seq<LayerInfo>)
    ensures DeleteAux(a + b) == DeleteAux(a) + DeleteAux(b)
    decreases |a|
  {
    if |a| == 0 {
      assert a + b == b;
    } else {
      assert (a + b)[1..] == a[1..] + b;
      assert (a + b)[0] == a[0];
      DeleteAuxAppend(a[1..], b);
    }
  }

  /** "Clean up" removes everything "Show" added and nothing else. */
  lemma CleanUpUndoesShow(existing: seq<LayerInfo>, scanned: seq<Scanned>, fmt2: real -> string)
    ensures DeleteAux(existing + Infos(Show(scanned, fmt2))) == DeleteAux(existing)
  {
    var added := Infos(Show(scanned, fmt2));
    DeleteAuxAppend(existing, added);
    DeleteAuxDropsAll(added);
    assert existing + [] == existing;
  }

  lemma {:induction false} DeleteAuxDropsAll(layers: seq<LayerInfo>)
    requires forall i :: 0 <= i < |layers| ==> layers[i].layer == DoseLayer
    ensures DeleteAux(layers) == []
    decreases |layers|
  {
    if |layers| > 0 {
      DeleteAuxDropsAll(layers[1..]);
    }
  }

  /** Cleaning up twice is cleaning up once. */
  lemma DeleteAuxIdempotent(layers: seq<LayerInfo>)
    ensures DeleteAux(DeleteAux(layers)) == DeleteAux(layers)
  {
    var r := DeleteAux(layers);
    DeleteAuxKeeps(r);
  }

  lemma {:induction false} DeleteAuxKeeps(layers: seq<LayerInfo>)
    requires forall i :: 0 <= i < |layers| ==> layers[i].layer != DoseLayer
    ensures DeleteAux(layers) == layers
    decreases |layers|
  {
    if |layers| > 0 {
      DeleteAuxKeeps(layers[1..]);
      assert layers == [layers[0]] + layers[1..];
    }
  }
}
