// Placing microscope images of written fields back onto the layout: the
// image's file name says which field, which side of the field (in
// multi-field mode) and which tile of the field's grid it shows, and the
// tile fixes where the image's two alignment crosses land.

module ImageInsert {
  import opened Wrappers
  import opened Text

  /** A position or offset in layout micrometres. */
  datatype Vec = Vec(x: real, y: real)

  function Plus(a: Vec, b: Vec): Vec
  {
    Vec(a.x + b.x, a.y + b.y)
  }

  /** Componentwise product with a pair of integers, as numpy multiplies arrays. */
  function Times(a: Vec, i: int, j: int): Vec
  {
    Vec(a.x * i as real, a.y * j as real)
  }

  /** The dialog's settings: where tile (1, 1) of field 1 starts, the distance
      between fields, the size of one tile, the in-field shifts of the left
      and right halves, and whether names carry a side letter. */
  datatype Settings = Settings(offset: Vec, macrostep: Vec, step: Vec, leftShift: Vec, rightShift: Vec, multifields: bool)

  /** Extensions of files treated as images, and those converted to PNG first. */
  const ImageFormats: set<string> := {"png", "jpg", "tif", "tiff"}
  const NeedConvert: set<string> := {"tif", "tiff"}

  lemma NeedConvertIsTheRest()
    ensures NeedConvert == ImageFormats - {"png", "jpg"}
  {
  }

  /** `s[:-1]`. */
  function DropLast(s: string): (r: string)
    ensures |s| > 0 ==> r + [s[|s| - 1]] == s
    ensures |s| == 0 ==> r == ""
  {
    if |s| == 0 then "" else s[..|s| - 1]
  }

  /** The field tag before the field digit. */
  predicate FieldTag(s: string)
  {
    s == "f" || s == "F" || s == "field"
  }

  /** Where field `field` of the 2 x 2 macro grid sits, numbered row by row:
      `macrostep * ((field - 1) % 2, (field - 1) // 2)`. Python's floor
      division and modulo agree with Dafny's for the divisor 2. */
  function FieldShift(field: int, macrostep: Vec): Vec
  {
    Times(macrostep, (field - 1) % 2, (field - 1) / 2)
  }

  /** Fields 1 to 4 fill the 2 x 2 grid left to right, bottom to top. */
  lemma FieldShiftGrid(macrostep: Vec)
    ensures FieldShift(1, macrostep) == Vec(0.0, 0.0)
    ensures FieldShift(2, macrostep) == Vec(macrostep.x, 0.0)
    ensures FieldShift(3, macrostep) == Vec(0.0, macrostep.y)
    ensures FieldShift(4, macrostep) == Vec(macrostep.x, macrostep.y)
  {
    assert (3 - 1) % 2 == 0 && (3 - 1) / 2 == 1;
    assert (4 - 1) % 2 == 1 && (4 - 1) / 2 == 1;
  }

  /** What becomes of one file. */
  datatype Verdict =
    | NotImage                   // extension not an image format: skipped silently
    | Auxiliary                  // no field tag where one belongs
    | WrongName                  // too few name parts, or a bad side letter
    | Unparsable                 // a number did not parse; the exception is caught
    | Insert(p1: Vec, p2: Vec)   // crosses go to p1 (bottom left) and p2 (top right)

  /** The bottom-left corner of tile (col, row) of a field. */
  function TileOrigin(s: Settings, fieldShift: Vec, sideShift: Vec, col: int, row: int): Vec
  {
    Plus(Plus(Plus(s.offset, fieldShift), sideShift), Times(s.step, col - 1, row - 1))
  }

  /** The last two name parts as tile column and row, then the placement. */
  function PlaceTile(name: seq<string>, s: Settings, fieldShift: Vec, sideShift: Vec): (v: Verdict)
    requires |name| >= 2
    ensures v.Unparsable? || v.Insert?
    ensures v.Insert? ==> v.p2 == Plus(v.p1, s.step)
    ensures v.Insert? <==> ParseInt(name[|name| - 2]).Some? && ParseInt(name[|name| - 1]).Some?
    ensures v.Insert? ==>
      v.p1 == TileOrigin(s, fieldShift, sideShift, ParseInt(name[|name| - 2]).value, ParseInt(name[|name| - 1]).value)
  {
    match (ParseInt(name[|name| - 2]), ParseInt(name[|name| - 1]))
    case (Some(col), Some(row)) =>
      var p1 := TileOrigin(s, fieldShift, sideShift, col, row);
      Insert(p1, Plus(p1, s.step))
    case _ => Unparsable
  }

  /** The field digit: the last character of the tagged part. */
  function FieldNumber(part: string): Option<int>
    requires |part| > 0
  {
    ParseInt([part[|part| - 1]])
  }

  /** The verdict on the `_`-separated parts of a file's stem. */
  function Placement(name: seq<string>, s: Settings): (v: Verdict)
    ensures v != NotImage
    ensures v.Insert? ==> v.p2 == Plus(v.p1, s.step)
    ensures !((|name| > 3 && !s.multifields) || (|name| > 4 && s.multifields)) ==> v == WrongName
    ensures v == Auxiliary <==>
      if s.multifields then |name| > 4 && !FieldTag(DropLast(name[|name| - 4]))
      else |name| > 3 && !FieldTag(DropLast(name[|name| - 3]))
  {
    if |name| > 3 && !s.multifields then
      var tagged := name[|name| - 3];
      if !FieldTag(DropLast(tagged)) then Auxiliary
      else
        match FieldNumber(tagged)
        case None => Unparsable
        case Some(field) => PlaceTile(name, s, FieldShift(field, s.macrostep), s.leftShift)
    else if |name| > 4 && s.multifields then
      var tagged := name[|name| - 4];
      if !FieldTag(DropLast(tagged)) then Auxiliary
      else
        match FieldNumber(tagged)
        case None => Unparsable
        case Some(field) =>
          var side := name[|name| - 3];
          if side == "r" then PlaceTile(name, s, FieldShift(field, s.macrostep), s.rightShift)
          else if side == "l" then PlaceTile(name, s, FieldShift(field, s.macrostep), s.leftShift)
          else WrongName
    else WrongName
  }

  /** One directory entry's fate: the verdict, whether a PNG copy was made
      first, and whether that copy is deleted again. */
  datatype Outcome = Outcome(verdict: Verdict, converted: bool, copyDeleted: bool)

  /** The extension: the text after the last dot, or the whole name. */
  function Extension(file: string): string
  {
    var parts := Split(file, '.');
    parts[|parts| - 1]
  }

  /** The stem: the name up to its last dot. */
  function Stem(file: string): string
  {
    var parts := Split(file, '.');
    Join(parts[..|parts| - 1], '.')
  }

  /** The body of the directory loop for one file. */
  function InsertImage(file: string, s: Settings): (o: Outcome)
    ensures o.verdict == NotImage <==> Extension(file) !in ImageFormats
    ensures o.converted <==> Extension(file) in NeedConvert
    ensures o.copyDeleted <==> o.converted && (o.verdict == Auxiliary || o.verdict == WrongName)
    ensures o.verdict != NotImage ==> o.verdict == Placement(Split(Stem(file), '_'), s)
  {
    var ext := Extension(file);
    if ext !in ImageFormats then Outcome(NotImage, false, false)
    else
      var v := Placement(Split(Stem(file), '_'), s);
      var converted := ext in NeedConvert;
      Outcome(v, converted, converted && (v == Auxiliary || v == WrongName))
  }

  /** Where the four crosses found in the image corners go: top left, bottom
      left, bottom right, top right. */
  function CrossTargets(p1: Vec, p2: Vec): (t: seq<Vec>)
    ensures |t| == 4
    ensures t[1] == p1 && t[3] == p2
    ensures t[0].x == t[1].x && t[2].x == t[3].x && t[1].y == t[2].y && t[0].y == t[3].y
  {
    [Vec(p1.x, p2.y), p1, Vec(p2.x, p1.y), p2]
  }

  /** The crosses of a placed tile span exactly one tile step. */
  lemma CrossTargetsSpanStep(p1: Vec, s: Settings)
    ensures var t := CrossTargets(p1, Plus(p1, s.step));
      && t[2].x - t[1].x == s.step.x
      && t[0].y - t[1].y == s.step.y
  {
  }

  // ---------------------------------------------------------------------
  // File names written the way the microscope software names tiles

  /** `<prefix>_<tag><digit>_<col>_<row>.<ext>`, or with `_<side>` before
      the column in multi-field mode; the column and row are any texts,
      zero-padded or not. */
  function TileName(prefix: seq<string>, tag: string, digit: nat, side: seq<string>, colText: string, rowText: string, ext: string): string
    requires digit < 10
  {
    Join(TileParts(prefix, tag, digit, side, colText, rowText), '_') + "." + ext
  }

  /** The parts a tile name is made of, in order. */
  function TileParts(prefix: seq<string>, tag: string, digit: nat, side: seq<string>, colText: string, rowText: string): (name: seq<string>)
    requires digit < 10
    ensures |name| == |prefix| + |side| + 3
    ensures name[|prefix|] == tag + [DigitChar(digit)]
    ensures forall i :: 0 <= i < |side| ==> name[|prefix| + 1 + i] == side[i]
    ensures name[|name| - 2] == colText && name[|name| - 1] == rowText
  {
    prefix + [tag + [DigitChar(digit)]] + side + [colText, rowText]
  }

  /** None of the parts of a tile name holds an underscore. */
  predicate Underscoreless(parts: seq<string>)
  {
    forall i :: 0 <= i < |parts| ==> '_' !in parts[i]
  }

  /** A number text `int()` accepts holds no underscore, so it is one name part. */
  lemma ParsedHasNoUnderscore(t: string)
    requires ParseInt(t).Some?
    ensures '_' !in t
  {
    if '_' in t {
      ParseIntCharacters(t, '_');
    }
  }

  lemma SideUnderscoreless(side: string)
    requires '_' !in side
    ensures Underscoreless([side])
  {
  }

  /** A tile name splits back into its stem parts and its extension. */
  lemma TileNameParts(prefix: seq<string>, tag: string, digit: nat, side: seq<string>, colText: string, rowText: string, ext: string)
    requires digit < 10 && FieldTag(tag) && ext in ImageFormats
    requires Underscoreless(prefix) && Underscoreless(side) && '_' !in colText && '_' !in rowText
    ensures var file := TileName(prefix, tag, digit, side, colText, rowText, ext);
      Extension(file) == ext && Split(Stem(file), '_') == TileParts(prefix, tag, digit, side, colText, rowText)
  {
    var parts := TileParts(prefix, tag, digit, side, colText, rowText);
    var stem := Join(parts, '_');
    var file := TileName(prefix, tag, digit, side, colText, rowText, ext);
    assert file == stem + ['.'] + ext;
    assert '.' !in ext;
    SplitBeforeLast(stem, ext, '.');
    var dots := Split(stem, '.');
    assert Split(file, '.') == dots + [ext];
    assert (dots + [ext])[..|dots|] == dots;
    assert Stem(file) == stem;
    assert '_' !in tag + [DigitChar(digit)];
    assert Underscoreless(parts) by {
      forall i | 0 <= i < |parts| ensures '_' !in parts[i] {
        if i < |prefix| {
          assert parts[i] == prefix[i];
        } else if i == |prefix| {
        } else if i < |prefix| + 1 + |side| {
          assert parts[i] == side[i - |prefix| - 1];
        }
      }
    }
    SplitJoin(parts, '_');
  }

  /** Single-field mode reads a well-formed tile name back as the tile it
      names: field `digit` of the macro grid, left shift, tile (col, row). */
  lemma SingleFieldRoundTrip(prefix: seq<string>, tag: string, digit: nat, colText: string, rowText: string, col: int, row: int, ext: string, s: Settings)
    requires digit < 10 && FieldTag(tag) && ext in ImageFormats
    requires ParseInt(colText) == Some(col) && ParseInt(rowText) == Some(row)
    requires |prefix| >= 1 && Underscoreless(prefix) && !s.multifields
    ensures var o := InsertImage(TileName(prefix, tag, digit, [], colText, rowText, ext), s);
      var p1 := TileOrigin(s, FieldShift(digit, s.macrostep), s.leftShift, col, row);
      o.verdict == Insert(p1, Plus(p1, s.step)) && !o.copyDeleted
  {
    ParsedHasNoUnderscore(colText);
    ParsedHasNoUnderscore(rowText);
    TileNameParts(prefix, tag, digit, [], colText, rowText, ext);
    PlaceSingle(TileParts(prefix, tag, digit, [], colText, rowText), tag, digit, col, row, s);
  }

  /** The example name `Sample_Nice_f3_01_25`, as a PNG in single-field mode,
      lands on tile (1, 25) of field 3 with the left shift. */
  lemma ExampleNamePlaced(file: string, s: Settings)
    requires file == "Sample_Nice_f3_01_25.png" && !s.multifields
    ensures var o := InsertImage(file, s);
      var p1 := TileOrigin(s, FieldShift(3, s.macrostep), s.leftShift, 1, 25);
      o.verdict == Insert(p1, Plus(p1, s.step)) && !o.copyDeleted
  {
    var prefix, tag, colText, rowText, ext := ["Sample", "Nice"], "f", "01", "25", "png";
    ZeroPaddedColumn();
    TwoDigitRow();
    ExampleName(prefix, tag, colText, rowText, ext);
    ExamplePrefix();
    SingleFieldRoundTrip(prefix, tag, 3, colText, rowText, 1, 25, ext, s);
  }

  /** The parts of the example name put together. */
  lemma ExampleName(prefix: seq<string>, tag: string, colText: string, rowText: string, ext: string)
    requires prefix == ["Sample", "Nice"] && tag == "f" && colText == "01" && rowText == "25" && ext == "png"
    ensures TileName(prefix, tag, 3, [], colText, rowText, ext) == "Sample_Nice_f3_01_25.png"
  {
    var field := tag + [DigitChar(3)];
    assert field == "f3";
    var parts := TileParts(prefix, tag, 3, [], colText, rowText);
    assert parts == [prefix[0], prefix[1], field, colText, rowText];
    assert Join(parts, '_') == prefix[0] + "_" + prefix[1] + "_" + field + "_" + colText + "_" + rowText by {
      JoinCons(parts, '_');
      JoinCons(parts[1..], '_');
      JoinCons(parts[2..], '_');
      JoinCons(parts[3..], '_');
    }
  }

  lemma JoinCons(parts: seq<string>, sep: char)
    requires |parts| >= 2
    ensures Join(parts, sep) == parts[0] + [sep] + Join(parts[1..], sep)
  {
  }

  lemma ExamplePrefix()
    ensures Underscoreless(["Sample", "Nice"])
  {
    assert '_' !in "Sample";
    assert '_' !in "Nice";
  }

  /** A zero-padded column number reads as its value. */
  lemma ZeroPaddedColumn()
    ensures ParseInt("01") == Some(1)
  {
    assert StripLeft("01") == "01";
    assert StripRight("01") == "01";
    assert AllDigits("01");
    assert DigitsValue("0") == 0;
    assert DigitsValue("01") == 1;
  }

  lemma TwoDigitRow()
    ensures ParseInt("25") == Some(25)
  {
    assert StripLeft("25") == "25";
    assert StripRight("25") == "25";
    assert AllDigits("25");
    assert DigitsValue("2") == 2;
    assert DigitsValue("25") == 25;
  }

  /** Multi-field mode reads the side letter: `r` takes the right shift, `l`
      the left one. */
  lemma MultiFieldRoundTrip(prefix: seq<string>, tag: string, digit: nat, side: string, colText: string, rowText: string, col: int, row: int, ext: string, s: Settings)
    requires digit < 10 && FieldTag(tag) && ext in ImageFormats
    requires side == "r" || side == "l"
    requires ParseInt(colText) == Some(col) && ParseInt(rowText) == Some(row)
    requires |prefix| >= 1 && Underscoreless(prefix) && s.multifields
    ensures var o := InsertImage(TileName(prefix, tag, digit, [side], colText, rowText, ext), s);
      var shift := if side == "r" then s.rightShift else s.leftShift;
      var p1 := TileOrigin(s, FieldShift(digit, s.macrostep), shift, col, row);
      o.verdict == Insert(p1, Plus(p1, s.step)) && !o.copyDeleted
  {
    SideUnderscoreless(side);
    ParsedHasNoUnderscore(colText);
    ParsedHasNoUnderscore(rowText);
    TileNameParts(prefix, tag, digit, [side], colText, rowText, ext);
    PlaceMulti(TileParts(prefix, tag, digit, [side], colText, rowText), tag, digit, side, col, row, s);
  }

  /** Single-field placement of a name ending in a tagged digit, column and row. */
  lemma PlaceSingle(name: seq<string>, tag: string, digit: nat, col: int, row: int, s: Settings)
    requires digit < 10 && FieldTag(tag) && |name| > 3 && !s.multifields
    requires name[|name| - 3] == tag + [DigitChar(digit)]
    requires ParseInt(name[|name| - 2]) == Some(col) && ParseInt(name[|name| - 1]) == Some(row)
    ensures var p1 := TileOrigin(s, FieldShift(digit, s.macrostep), s.leftShift, col, row);
      Placement(name, s) == Insert(p1, Plus(p1, s.step))
  {
    TaggedDigit(tag, digit);
  }

  /** Multi-field placement of a name ending in a tagged digit, a side letter,
      column and row. */
  lemma PlaceMulti(name: seq<string>, tag: string, digit: nat, side: string, col: int, row: int, s: Settings)
    requires digit < 10 && FieldTag(tag) && |name| > 4 && s.multifields
    requires side == "r" || side == "l"
    requires name[|name| - 4] == tag + [DigitChar(digit)] && name[|name| - 3] == side
    requires ParseInt(name[|name| - 2]) == Some(col) && ParseInt(name[|name| - 1]) == Some(row)
    ensures var shift := if side == "r" then s.rightShift else s.leftShift;
      var p1 := TileOrigin(s, FieldShift(digit, s.macrostep), shift, col, row);
      Placement(name, s) == Insert(p1, Plus(p1, s.step))
  {
    TaggedDigit(tag, digit);
  }

  /** In multi-field mode any other side letter rejects the name. */
  lemma MultiFieldWrongSide(prefix: seq<string>, tag: string, digit: nat, side: string, colText: string, rowText: string, ext: string, s: Settings)
    requires digit < 10 && FieldTag(tag) && ext in ImageFormats
    requires side != "r" && side != "l" && '_' !in side && '_' !in colText && '_' !in rowText
    requires |prefix| >= 1 && Underscoreless(prefix) && s.multifields
    ensures var o := InsertImage(TileName(prefix, tag, digit, [side], colText, rowText, ext), s);
      o.verdict == WrongName && (o.copyDeleted <==> ext in NeedConvert)
  {
    SideUnderscoreless(side);
    TileNameParts(prefix, tag, digit, [side], colText, rowText, ext);
    PlaceWrongSide(TileParts(prefix, tag, digit, [side], colText, rowText), tag, digit, side, s);
  }

  /** Multi-field placement of a tagged digit followed by a bad side letter. */
  lemma PlaceWrongSide(name: seq<string>, tag: string, digit: nat, side: string, s: Settings)
    requires digit < 10 && FieldTag(tag) && |name| > 4 && s.multifields
    requires side != "r" && side != "l"
    requires name[|name| - 4] == tag + [DigitChar(digit)] && name[|name| - 3] == side
    ensures Placement(name, s) == WrongName
  {
    TaggedDigit(tag, digit);
  }

  lemma TaggedDigit(tag: string, digit: nat)
    requires digit < 10
    ensures DropLast(tag + [DigitChar(digit)]) == tag
    ensures FieldNumber(tag + [DigitChar(digit)]) == Some(digit)
  {
    var part := tag + [DigitChar(digit)];
    assert part[..|part| - 1] == tag;
    assert [part[|part| - 1]] == NatToString(digit);
    NatToStringValue(digit);
    ParseIntToString(digit);
  }

  /** Neighbouring tiles abut: the next column starts where this one ends. */
  lemma NeighbouringTilesAbut(s: Settings, fieldShift: Vec, sideShift: Vec, col: int, row: int)
    ensures TileOrigin(s, fieldShift, sideShift, col + 1, row).x == Plus(TileOrigin(s, fieldShift, sideShift, col, row), s.step).x
    ensures TileOrigin(s, fieldShift, sideShift, col, row + 1).y == Plus(TileOrigin(s, fieldShift, sideShift, col, row), s.step).y
  {
    assert s.step.x * ((col + 1 - 1) as real) == s.step.x * ((col - 1) as real) + s.step.x;
    assert s.step.y * ((row + 1 - 1) as real) == s.step.y * ((row - 1) as real) + s.step.y;
  }
}
