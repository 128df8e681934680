/** The conversion parameters the two converter dialogs collect before they
    start the converter: registration marks in millimetres, put in (y, x)
    order for CABL, the field-layer name and the slicing direction. */
module ConvertParams {
  import opened Wrappers
  import opened FieldGrid

  /** The two machines the dialog is configured for. */
  datatype Ebl = Cabl | Xenos

  /** Number of mark entry rows the dialog builds for each machine. */
  function MarkCount(ebl: Ebl): nat
  {
    match ebl
    case Cabl => 2
    case Xenos => 4
  }

  /** A mark entered in micrometres, written in millimetres. */
  function ToMillimetres(m: RPoint): (r: RPoint)
    ensures r.x * 1000.0 == m.x && r.y * 1000.0 == m.y
  {
    RPoint(m.x / 1000.0, m.y / 1000.0)
  }

  /** (y, x) order on marks, not strict: y first, then x. */
  predicate MarksInOrder(a: RPoint, b: RPoint)
  {
    a.y < b.y || (a.y == b.y && a.x <= b.x)
  }

  /** The CABL swap: the pair is exchanged exactly when the first mark is
      higher, or level with the second and to its right. */
  function OrderCablMarks(a: RPoint, b: RPoint): (r: (RPoint, RPoint))
    ensures MarksInOrder(r.0, r.1)
    ensures r == (a, b) || r == (b, a)
    ensures MarksInOrder(a, b) ==> r == (a, b)
  {
    if a.y > b.y || (a.x > b.x && a.y == b.y) then (b, a) else (a, b)
  }

  /** Swapping is needed only once: the ordered pair is left alone. */
  lemma OrderCablMarksIdempotent(a: RPoint, b: RPoint)
    ensures var r := OrderCablMarks(a, b); OrderCablMarks(r.0, r.1) == r
  {
  }

  /** The result depends only on which two marks were entered, not on the row
      each was typed into, unless the two marks coincide. */
  lemma OrderCablMarksSymmetric(a: RPoint, b: RPoint)
    requires a != b
    ensures OrderCablMarks(a, b) == OrderCablMarks(b, a)
  {
  }

  /** The marks handed to the converter by the dialog of `gui.py`: `None` when
      the marks box is unchecked; otherwise the entered marks in millimetres,
      the CABL pair put in (y, x) order, the XENOS marks in entry order. */
  function GuiMarks(ebl: Ebl, checked: bool, entered: seq<RPoint>): (r: Option<seq<RPoint>>)
    requires |entered| == MarkCount(ebl)
    ensures r.Some? <==> checked
    ensures r.Some? ==> |r.value| == |entered|
    ensures r.Some? && ebl == Xenos ==> forall i :: 0 <= i < |entered| ==> r.value[i] == ToMillimetres(entered[i])
    ensures r.Some? && ebl == Cabl ==> MarksInOrder(r.value[0], r.value[1])
    ensures r.Some? && ebl == Cabl ==>
      multiset(r.value) == multiset{ToMillimetres(entered[0]), ToMillimetres(entered[1])}
  {
    if !checked then None
    else
      var marks := seq(|entered|, i requires 0 <= i < |entered| => ToMillimetres(entered[i]));
      match ebl
      case Cabl =>
        var pair := OrderCablMarks(marks[0], marks[1]);
        Some([pair.0, pair.1])
      case Xenos => Some(marks)
  }

  /** The marks handed to the converter by the CABL-only dialog of `gui_start.py`. */
  function GuiStartMarks(checked: bool, mark1: RPoint, mark2: RPoint): (r: Option<seq<RPoint>>)
    ensures r.Some? <==> checked
    ensures r.Some? ==> |r.value| == 2 && MarksInOrder(r.value[0], r.value[1])
    ensures r.Some? ==> multiset(r.value) == multiset{ToMillimetres(mark1), ToMillimetres(mark2)}
  {
    if !checked then None
    else
      var pair := OrderCablMarks(ToMillimetres(mark1), ToMillimetres(mark2));
      Some([pair.0, pair.1])
  }

  /** Both dialogs hand the same marks to the CABL converter. */
  lemma DialogsAgreeOnCablMarks(checked: bool, mark1: RPoint, mark2: RPoint)
    ensures GuiStartMarks(checked, mark1, mark2) == GuiMarks(Cabl, checked, [mark1, mark2])
  {
  }

  /** The layer that marks field borders: empty unless its box is checked. */
  function FieldLayerChoice(checked: bool, text: string): (r: string)
    ensures r != "" ==> checked && r == text
    ensures checked ==> r == text
  {
    if checked then text else ""
  }

  /** What a dialog reads from its widgets when Convert is pressed. */
  datatype Form = Form(
    fieldSize: PosInt, fieldDots: PosInt, center: RPoint,
    dose: real, pitch: int, dirname: string,
    marksChecked: bool, marks: seq<RPoint>, visible: bool,
    fieldLayerChecked: bool, fieldLayerText: string)

  /** The arguments the converter is started with. */
  datatype Params = Params(
    dirname: string, field: FieldSpec, marks: Option<seq<RPoint>>,
    visible: bool, direction: Direction, pitch: int, dose: real, fieldLayer: string)

  /** `_convert_button_clicked` of `gui_start.py`: the direction is always x and
      the two entered marks are converted and ordered. */
  function GuiStartParams(form: Form): (p: Params)
    requires |form.marks| == 2
    ensures p.direction == AlongX
    ensures p.field == FieldSpec(form.fieldSize, form.fieldDots, form.center)
    ensures p.marks.Some? <==> form.marksChecked
    ensures p.marks.Some? ==> |p.marks.value| == 2 && MarksInOrder(p.marks.value[0], p.marks.value[1])
    ensures p.marks.Some? ==>
      multiset(p.marks.value) == multiset{ToMillimetres(form.marks[0]), ToMillimetres(form.marks[1])}
    ensures p.marks == GuiStartMarks(form.marksChecked, form.marks[0], form.marks[1])
    ensures p.fieldLayer != "" ==> form.fieldLayerChecked
    ensures form.fieldLayerChecked ==> p.fieldLayer == form.fieldLayerText
    ensures p.fieldLayer == FieldLayerChoice(form.fieldLayerChecked, form.fieldLayerText)
    ensures p.visible == form.visible
    ensures p.pitch == form.pitch && p.dose == form.dose && p.dirname == form.dirname
  {
    Params(form.dirname, FieldSpec(form.fieldSize, form.fieldDots, form.center),
           GuiStartMarks(form.marksChecked, form.marks[0], form.marks[1]),
           form.visible, AlongX, form.pitch, form.dose,
           FieldLayerChoice(form.fieldLayerChecked, form.fieldLayerText))
  }

  /** `_convert_button_clicked` of `gui.py`, for either machine. */
  function GuiParams(ebl: Ebl, form: Form): (p: Params)
    requires |form.marks| == MarkCount(ebl)
    ensures p.direction == AlongX
    ensures p.field == FieldSpec(form.fieldSize, form.fieldDots, form.center)
    ensures p.marks == GuiMarks(ebl, form.marksChecked, form.marks)
    ensures p.fieldLayer != "" ==> form.fieldLayerChecked
    ensures form.fieldLayerChecked ==> p.fieldLayer == form.fieldLayerText
    ensures p.visible == form.visible
    ensures p.pitch == form.pitch && p.dose == form.dose && p.dirname == form.dirname
    ensures ebl == Cabl ==> p == GuiStartParams(form)
  {
    Params(form.dirname, FieldSpec(form.fieldSize, form.fieldDots, form.center),
           GuiMarks(ebl, form.marksChecked, form.marks),
           form.visible, AlongX, form.pitch, form.dose,
           FieldLayerChoice(form.fieldLayerChecked, form.fieldLayerText))
  }
}
