/** The content of the files `write_files` produces for the CABL machine: the
    `.con` job file, and per field a `.ccc` pattern text and a `.cbc` binary.
    Directory listing, deletion and writing are not modelled; the builders
    return the names and contents the converter writes. */
module CablOutput {
  import opened Wrappers
  import opened Text
  import opened Bytes
  import opened Sorting
  import opened Rings
  import opened FieldGrid
  import opened Classifier
  import opened ConvertParams

  // ---------------------------------------------------------------------
  // Cleanup of earlier output

  const ArtifactEndings: set<string> := {"con", "ccc", "cbc"}

  /** The cleanup test applied to every regular file of the output directory:
      the lower-cased name is longer than three characters and its last three
      are one of the CABL endings. No dot is required before them. */
  predicate IsCablArtifact(name: string)
  {
    |name| > 3 && LowerAscii(name)[|name| - 3..] in ArtifactEndings
  }

  /** The files left in the directory after cleanup, in listing order. */
  function Cleanup(names: seq<string>): (kept: seq<string>)
    ensures |kept| <= |names|
    ensures forall n :: n in kept <==> n in names && !IsCablArtifact(n)
  {
    if |names| == 0 then []
    else if IsCablArtifact(names[0]) then Cleanup(names[1..])
    else [names[0]] + Cleanup(names[1..])
  }

  /** Name of the i-th field (counting from 0) in the `.con` file: 1-based. */
  function FieldName(i: nat): (name: string)
    ensures |name| > 6 && name[..6] == "field_"
    ensures forall k :: 6 <= k < |name| ==> IsDigit(name[k])
    ensures IsAscii(name)
  {
    var digits := NatToString(i + 1);
    assert forall k :: 0 <= k < |digits| ==> IsDigit(digits[k]);
    "field_" + digits
  }

  function CccName(i: nat): (name: string)
    ensures IsAscii(name)
    ensures |name| > 10 && name[..6] == "field_" && name[|name| - 4..] == ".ccc"
  {
    FieldName(i) + ".ccc"
  }

  function CbcName(i: nat): (name: string)
    ensures IsAscii(name)
    ensures |name| > 10 && name[..6] == "field_" && name[|name| - 4..] == ".cbc"
  {
    FieldName(i) + ".cbc"
  }

  /** `split(dirname)[1] + ".con"`. */
  function ConName(dirname: string): string { BaseName(dirname) + ".con" }

  /** The last component of a `/`-separated path, as `os.path.split` returns it:
      a slash-free suffix that is the whole path or starts right after a `/`. */
  function BaseName(path: string): (base: string)
    ensures '/' !in base
    ensures |base| <= |path| && path[|path| - |base|..] == base
    ensures |base| == |path| || path[|path| - |base| - 1] == '/'
  {
    var parts := Split(path, '/');
    var base := parts[|parts| - 1];
    JoinEndsWithLast(parts, '/');
    base
  }

  /** Two fields never share a name, and the name gives the field back. */
  lemma FieldNamesDistinct(i: nat, j: nat)
    requires FieldName(i) == FieldName(j)
    ensures i == j
  {
    assert FieldName(i)[6..] == NatToString(i + 1);
    assert FieldName(j)[6..] == NatToString(j + 1);
    NatToStringInjective(i + 1, j + 1);
  }

  lemma FieldNameNumber(i: nat)
    ensures ParseInt(FieldName(i)[6..]) == Some(i + 1)
  {
    assert FieldName(i)[6..] == IntToString(i + 1);
    ParseIntToString(i + 1);
  }

  /** Every file the converter writes is removed by the next run's cleanup. */
  lemma OwnFilesAreCleanedUp(dirname: string, i: nat)
    ensures IsCablArtifact(ConName(dirname))
    ensures IsCablArtifact(CccName(i)) && IsCablArtifact(CbcName(i))
  {
    EndsLower(BaseName(dirname), "con");
    assert ConName(dirname) == BaseName(dirname) + "." + "con";
    EndsLower(FieldName(i), "ccc");
    assert CccName(i) == FieldName(i) + "." + "ccc";
    EndsLower(FieldName(i), "cbc");
    assert CbcName(i) == FieldName(i) + "." + "cbc";
  }

  lemma EndsLower(s: string, ending: string)
    requires |ending| == 3 && ending in ArtifactEndings
    ensures IsCablArtifact(s + "." + ending)
  {
    var name := s + "." + ending;
    assert LowerAscii(name)[|name| - 3..] == ending;
  }

  // ---------------------------------------------------------------------
  // The binary file

  /** The 38-byte trailer that ends every `.cbc` file. */
  const EndBytes: seq<Byte> := [0xFF, 0xFF, 0x13, 0x00] + Padding(34)

  /** `n * [0xcc]`: the filler byte of the format. */
  function Padding(n: nat): (p: seq<Byte>)
    ensures |p| == n && forall i :: 0 <= i < n ==> p[i] == 0xCC
  {
    if n == 0 then [] else [0xCC] + Padding(n - 1)
  }

  /** The caption: the file name, ";1.1;", a zero byte, then 0xCC padding up
      to 24 name characters (none when the name is longer). */
  function CbcHeader(name: string): (h: seq<Byte>)
    requires IsAscii(name)
    ensures |name| <= 24 ==> |h| == 30
    ensures |name| > 24 ==> |h| == |name| + 6
    ensures h[..|name|] == AsciiBytes(name)
    ensures h[|name|..|name| + 6] == [0x3B, 0x31, 0x2E, 0x31, 0x3B, 0x00]
    ensures forall i :: |name| + 6 <= i < |h| ==> h[i] == 0xCC
  {
    var pad := if 24 - |name| > 0 then 24 - |name| else 0;
    var caption := name + ";1.1;";
    assert IsAscii(caption);
    var h := AsciiBytes(caption) + [0x00] + Padding(pad);
    assert h[..|name|] == AsciiBytes(name);
    h
  }

  /** Field names up to the 10^13-th field fit the 24-character caption, so
      their headers are 30 bytes. */
  lemma CbcHeaderSize(i: nat)
    requires i + 1 < Pow10(13)
    ensures IsAscii(CbcName(i)) && |CbcHeader(CbcName(i))| == 30
  {
    NatToStringLength(i + 1, 13);
  }


  predicate RecordSized(rs: seq<seq<Byte>>)
  {
    forall k :: 0 <= k < |rs| ==> |rs[k]| == RecordSize
  }

  /** Byte strings laid end to end. */
  function Concat(rs: seq<seq<Byte>>): (b: seq<Byte>)
    ensures RecordSized(rs) ==> |b| == RecordSize * |rs|
  {
    if |rs| == 0 then [] else rs[0] + Concat(rs[1..])
  }

  /** Cuts a byte string into consecutive 38-byte records. */
  function Records(b: seq<Byte>): (rs: seq<seq<Byte>>)
    requires |b| % RecordSize == 0
    ensures |rs| == |b| / RecordSize
    ensures RecordSized(rs)
    decreases |b|
  {
    if |b| == 0 then [] else [b[..RecordSize]] + Records(b[RecordSize..])
  }

  /** Records laid end to end are cut apart again unchanged. */
  lemma {:induction false} RecordsConcat(rs: seq<seq<Byte>>)
    requires RecordSized(rs)
    ensures |Concat(rs)| % RecordSize == 0 && Records(Concat(rs)) == rs
    decreases |rs|
  {
    if |rs| > 0 {
      RecordsConcat(rs[1..]);
      var b := Concat(rs);
      assert b[..RecordSize] == rs[0];
      assert b[RecordSize..] == Concat(rs[1..]);
      assert rs == [rs[0]] + rs[1..];
    }
  }

  /** A `.cbc` file: header, one record per accepted primitive, trailer. */
  function CbcFile(name: string, records: seq<seq<Byte>>): (b: seq<Byte>)
    requires IsAscii(name)
    requires RecordSized(records)
    ensures |b| == |CbcHeader(name)| + RecordSize * |records| + RecordSize
    ensures b[..|CbcHeader(name)|] == CbcHeader(name)
    ensures b[|b| - RecordSize..] == EndBytes
    ensures Records(b[|CbcHeader(name)|..|b| - RecordSize]) == records
  {
    RecordsConcat(records);
    ThreeParts(CbcHeader(name), Concat(records), EndBytes);
    CbcHeader(name) + Concat(records) + EndBytes
  }

  lemma ThreeParts(head: seq<Byte>, body: seq<Byte>, tail: seq<Byte>)
    ensures var b := head + body + tail;
      && b[..|head|] == head
      && b[|head|..|b| - |tail|] == body
      && b[|b| - |tail|..] == tail
  {
  }

  // ---------------------------------------------------------------------
  // The pattern text

  /** One `.ccc` command: the type, the coordinate list (each number followed
      by a comma), the pitch, the dose text and the closing `);3`. */
  function CccLine(kind: PolyType, text: string, pitch: int, doseText: string): string
  {
    TypeName(kind) + "(" + text + IntToString(pitch) + "," + doseText + ");3\n"
  }

  /** What a `.ccc` command says. */
  datatype CccEntry = CccEntry(kind: PolyType, points: seq<Point>, pitch: int, doseText: string)

  function ParseTypeName(s: string): (r: Option<PolyType>)
    ensures r.Some? ==> TypeName(r.value) == s
  {
    if s == "DWTZL" then Some(DWTZL)
    else if s == "DWTL" then Some(DWTL)
    else if s == "DWSL" then Some(DWSL)
    else None
  }

  /** Reads a `.ccc` command back; `None` when the line is not shaped like one. */
  function ReadCccLine(line: string): (r: Option<CccEntry>)
    ensures r.Some? ==> ',' !in r.value.doseText
  {
    var halves := Split(line, '(');
    if |halves| != 2 then None
    else
      var kind :- ParseTypeName(halves[0]);
      var body := halves[1];
      if |body| < 4 || body[|body| - 4..] != ");3\n" then None
      else
        var fields := Split(body[..|body| - 4], ',');
        if |fields| < 2 then None
        else
          var pitch :- ParseInt(fields[|fields| - 2]);
          var points :- ParseCoordinateParts(fields[..|fields| - 2] + [""]);
          Some(CccEntry(kind, points, pitch, fields[|fields| - 1]))
  }

  /** A command written for a list of points reads back as that list, the
      pitch and the dose text, whenever the dose text holds no comma or
      opening parenthesis (a decimal number never does). */
  lemma CccLineRoundTrip(kind: PolyType, ps: seq<Point>, pitch: int, doseText: string)
    requires ',' !in doseText && '(' !in doseText
    ensures ReadCccLine(CccLine(kind, PointsText(ps), pitch, doseText)) == Some(CccEntry(kind, ps, pitch, doseText))
  {
    var inner := PointsText(ps) + IntToString(pitch) + "," + doseText;
    CccLineHalves(kind, ps, pitch, doseText);
    CccLineFields(ps, pitch, doseText);
    ParseTypeNameOfTypeName(kind);
    ParseIntToString(pitch);
    ParseCoordParts(ps);
    ReadCccLineOf(CccLine(kind, PointsText(ps), pitch, doseText), TypeName(kind), inner,
                  CoordParts(ps), IntToString(pitch), doseText, kind, pitch, ps);
  }

  lemma ParseTypeNameOfTypeName(kind: PolyType)
    ensures ParseTypeName(TypeName(kind)) == Some(kind)
  {
  }

  /** The reader on a line whose pieces are known. */
  lemma ReadCccLineOf(line: string, head: string, inner: string, coords: seq<string>, pitchText: string,
                      doseText: string, kind: PolyType, pitch: int, ps: seq<Point>)
    requires Split(line, '(') == [head, inner + ");3\n"]
    requires ParseTypeName(head) == Some(kind)
    requires Split(inner, ',') == coords + [pitchText, doseText]
    requires ParseInt(pitchText) == Some(pitch)
    requires ParseCoordinateParts(coords + [""]) == Some(ps)
    ensures ReadCccLine(line) == Some(CccEntry(kind, ps, pitch, doseText))
  {
    var body := inner + ");3\n";
    assert body[..|body| - 4] == inner;
    assert body[|body| - 4..] == ");3\n";
    var fields := coords + [pitchText, doseText];
    assert fields[..|fields| - 2] == coords;
  }

  /** The only opening parenthesis of a command follows its type name. */
  lemma CccLineHalves(kind: PolyType, ps: seq<Point>, pitch: int, doseText: string)
    requires '(' !in doseText
    ensures Split(CccLine(kind, PointsText(ps), pitch, doseText), '(')
      == [TypeName(kind), PointsText(ps) + IntToString(pitch) + "," + doseText + ");3\n"]
  {
    var body := PointsText(ps) + IntToString(pitch) + "," + doseText + ");3\n";
    Nest7(TypeName(kind), "(", PointsText(ps), IntToString(pitch), ",", doseText, ");3\n");
    NoParenInCommand(ps, pitch, doseText);
    assert '(' !in TypeName(kind);
    SplitAtSeparator(TypeName(kind), body, '(');
    SplitWithoutSeparator(body, '(');
  }

  lemma Nest7<T>(a: seq<T>, b: seq<T>, c: seq<T>, d: seq<T>, e: seq<T>, f: seq<T>, g: seq<T>)
    ensures a + b + c + d + e + f + g == (a + b) + (c + d + e + f + g)
  {
  }

  lemma NoParenInCommand(ps: seq<Point>, pitch: int, doseText: string)
    requires '(' !in doseText
    ensures '(' !in PointsText(ps) + IntToString(pitch) + "," + doseText + ");3\n"
  {
    PointsTextCharacters(ps);
    IntTextCharacters(pitch);
    assert !IsDigit('(');
    assert '(' !in PointsText(ps);
    assert '(' !in IntToString(pitch);
  }

  /** Inside the parentheses the commas separate the coordinates, the pitch and the dose. */
  lemma CccLineFields(ps: seq<Point>, pitch: int, doseText: string)
    requires ',' !in doseText
    ensures Split(PointsText(ps) + IntToString(pitch) + "," + doseText, ',')
      == CoordParts(ps) + [IntToString(pitch), doseText]
  {
    var pitchText := IntToString(pitch);
    Nest4(PointsText(ps), pitchText, ",", doseText);
    SplitPointsText(ps, pitchText + [','] + doseText);
    IntTextHasNoComma(pitch);
    SplitAtSeparator(pitchText, doseText, ',');
    SplitWithoutSeparator(doseText, ',');
    PairBack(CoordParts(ps), pitchText, doseText);
  }

  lemma Nest4<T>(a: seq<T>, b: seq<T>, c: seq<T>, d: seq<T>)
    ensures a + b + c + d == a + (b + c + d)
  {
  }

  lemma PairBack<T>(m: seq<T>, a: T, b: T)
    ensures m + ([a] + [b]) == m + [a, b]
  {
    assert [a] + [b] == [a, b];
  }

  /** The points a primitive's command lists: for DWSL only the first and
      third canonical corners, otherwise every point but the closing one. */
  function ListedPoints(p: Primitive): seq<Point>
    requires |p.points| >= 4
  {
    if p.kind == DWSL then [p.points[0], p.points[2]] else p.points[..|p.points| - 1]
  }

  /** The command written for a classified ring reads back as its type, its
      listed points, the pitch and the dose text. */
  lemma PrimitiveLineRoundTrip(shape: Shape, field: RPoint, spec: FieldSpec, enc: Encoding, doseText: string)
    requires GetStrBin(shape, field, spec, enc).Success?
    requires ',' !in doseText && '(' !in doseText
    ensures var p := GetStrBin(shape, field, spec, enc).value;
      ReadCccLine(CccLine(p.kind, p.text, enc.pitch, doseText)) == Some(CccEntry(p.kind, ListedPoints(p), enc.pitch, doseText))
  {
    var p := GetStrBin(shape, field, spec, enc).value;
    assert p.text == PointsText(ListedPoints(p));
    CccLineRoundTrip(p.kind, ListedPoints(p), enc.pitch, doseText);
  }

  // ---------------------------------------------------------------------
  // One field

  /** A polygon's exterior ring in layout micrometres, closing point included. */
  type Shape = seq<RPoint>

  /** What the converter was started with, plus the two float encoders the
      model takes as given: `fmt` is Python's `str()` of a float, `f32` packs
      a single-precision slot. */
  datatype Job = Job(params: Params, fmt: real -> string, f32: real -> Word)

  function JobEncoding(job: Job): Encoding
  {
    Encoding(job.params.pitch, job.params.dose, job.params.direction, job.f32)
  }

  /** A primitive the writers can emit: a 38-byte record and at least four points. */
  predicate Emittable(p: Primitive)
  {
    |p.record| == RecordSize && |p.points| >= 4
  }

  /** The classifier's verdict on each shape of a field, in shape order. */
  function Classified(shapes: seq<Shape>, f: RPoint, spec: FieldSpec, enc: Encoding): (outs: seq<Result<Primitive, Reject>>)
    ensures |outs| == |shapes|
    ensures forall i :: 0 <= i < |shapes| ==> outs[i] == GetStrBin(shapes[i], f, spec, enc)
    ensures forall i :: 0 <= i < |outs| && outs[i].Success? ==> Emittable(outs[i].value)
  {
    seq(|shapes|, i requires 0 <= i < |shapes| => GetStrBin(shapes[i], f, spec, enc))
  }

  /** The accepted primitives among some verdicts, in order; rejected shapes are skipped. */
  function Kept(outs: seq<Result<Primitive, Reject>>): (r: seq<Primitive>)
    ensures |r| <= |outs|
    ensures forall p :: p in r <==> Success(p) in outs
    decreases |outs|
  {
    if |outs| == 0 then []
    else
      assert outs == [outs[0]] + outs[1..];
      if outs[0].Success? then [outs[0].value] + Kept(outs[1..]) else Kept(outs[1..])
  }

  /** The primitives of two runs of verdicts are those of the first run
      followed by those of the second. */
  lemma {:induction false} KeptAppend(a: seq<Result<Primitive, Reject>>, b: seq<Result<Primitive, Reject>>)
    ensures Kept(a + b) == Kept(a) + Kept(b)
    decreases |a|
  {
    if |a| == 0 {
      assert a + b == b;
    } else {
      assert (a + b)[1..] == a[1..] + b;
      assert (a + b)[0] == a[0];
      KeptAppend(a[1..], b);
    }
  }

  lemma {:induction false} KeptEmittable(outs: seq<Result<Primitive, Reject>>)
    requires forall i :: 0 <= i < |outs| && outs[i].Success? ==> Emittable(outs[i].value)
    ensures forall k :: 0 <= k < |Kept(outs)| ==> Emittable(Kept(outs)[k])
    decreases |outs|
  {
    if |outs| > 0 {
      KeptEmittable(outs[1..]);
    }
  }

  /** The loop over a field's shapes: accepted primitives are kept in order,
      and an int32 overflow anywhere aborts the whole conversion. */
  function Collect(outs: seq<Result<Primitive, Reject>>): (r: Result<seq<Primitive>, Reject>)
    ensures r.Failure? <==> Failure(Int32Overflow) in outs
    ensures r.Failure? ==> r.error == Int32Overflow
    ensures r.Success? ==> r.value == Kept(outs)
  {
    if Failure(Int32Overflow) in outs then Failure(Int32Overflow) else Success(Kept(outs))
  }

  /** The primitives written for one field. */
  function FieldPrimitives(shapes: seq<Shape>, f: RPoint, spec: FieldSpec, enc: Encoding): (r: Result<seq<Primitive>, Reject>)
    ensures r.Failure? <==> exists i :: 0 <= i < |shapes| && GetStrBin(shapes[i], f, spec, enc) == Failure(Int32Overflow)
    ensures r.Success? ==> forall k :: 0 <= k < |r.value| ==> Emittable(r.value[k])
  {
    var outs := Classified(shapes, f, spec, enc);
    assert Failure(Int32Overflow) in outs <==> exists i :: 0 <= i < |shapes| && outs[i] == Failure(Int32Overflow);
    KeptEmittable(outs);
    Collect(outs)
  }

  function RecordsOf(prims: seq<Primitive>): (rs: seq<seq<Byte>>)
    requires forall k :: 0 <= k < |prims| ==> Emittable(prims[k])
    ensures |rs| == |prims| && RecordSized(rs)
    ensures forall k :: 0 <= k < |prims| ==> rs[k] == prims[k].record
  {
    var rs := seq(|prims|, k requires 0 <= k < |prims| => prims[k].record);
    assert forall k :: 0 <= k < |rs| ==> rs[k] == prims[k].record && Emittable(prims[k]);
    rs
  }

  function CccLines(prims: seq<Primitive>, pitch: int, doseText: string): string
  {
    if |prims| == 0 then ""
    else CccLine(prims[0].kind, prims[0].text, pitch, doseText) + CccLines(prims[1..], pitch, doseText)
  }

  /** `CZ<size in mm>,<dots>`, the field-size command. */
  function CzText(spec: FieldSpec, fmt: real -> string): string
  {
    "CZ" + fmt(spec.size as real / 1000.0) + "," + IntToString(spec.dots)
  }

  /** The `.ccc` file: title comment, the field size as a comment, `PATTERN`,
      one command per accepted primitive, `!END`. */
  function CccFile(name: string, cz: string, body: string): (text: string)
    ensures |text| >= 6 && text[|text| - 5..] == "!END\n"
  {
    "/*--- " + name + " ---*/" + "\n" + "/* " + cz + " */" + "\n" + "PATTERN" + "\n" + body + "!END\n"
  }

  /** A `.ccc` command without its line end. */
  function CccCommand(kind: PolyType, text: string, pitch: int, doseText: string): string
  {
    TypeName(kind) + "(" + text + IntToString(pitch) + "," + doseText + ");3"
  }

  lemma CccLineEnds(kind: PolyType, text: string, pitch: int, doseText: string)
    ensures CccLine(kind, text, pitch, doseText) == CccCommand(kind, text, pitch, doseText) + "\n"
  {
  }

  /** A command stays on one line when its point text and dose text do. */
  lemma CccCommandOneLine(kind: PolyType, text: string, pitch: int, doseText: string)
    requires '\n' !in text && '\n' !in doseText
    ensures '\n' !in CccCommand(kind, text, pitch, doseText)
  {
    IntTextCharacters(pitch);
    assert '\n' !in TypeName(kind);
  }

  /** The commands of the primitives, one per primitive, in order. */
  function CccCommands(prims: seq<Primitive>, pitch: int, doseText: string): (cmds: seq<string>)
    ensures |cmds| == |prims|
    ensures forall k :: 0 <= k < |prims| ==> cmds[k] == CccCommand(prims[k].kind, prims[k].text, pitch, doseText)
  {
    seq(|prims|, k requires 0 <= k < |prims| => CccCommand(prims[k].kind, prims[k].text, pitch, doseText))
  }

  lemma {:induction false} CccLinesAreLines(prims: seq<Primitive>, pitch: int, doseText: string)
    ensures CccLines(prims, pitch, doseText) == Lines(CccCommands(prims, pitch, doseText))
    decreases |prims|
  {
    if |prims| > 0 {
      var cmds := CccCommands(prims, pitch, doseText);
      CccLinesAreLines(prims[1..], pitch, doseText);
      CccLineEnds(prims[0].kind, prims[0].text, pitch, doseText);
      assert cmds[1..] == CccCommands(prims[1..], pitch, doseText);
    }
  }

  /** Read line by line, a `.ccc` file is its three header lines, one command
      line per primitive in order, and `!END`. */
  lemma CccFileLines(name: string, cz: string, prims: seq<Primitive>, pitch: int, doseText: string)
    requires '\n' !in name && '\n' !in cz && '\n' !in doseText
    requires forall k :: 0 <= k < |prims| ==> '\n' !in prims[k].text
    ensures var lines := Split(CccFile(name, cz, CccLines(prims, pitch, doseText)), '\n');
      && |lines| == |prims| + 5
      && lines[..3] == ["/*--- " + name + " ---*/", "/* " + cz + " */", "PATTERN"]
      && (forall k :: 0 <= k < |prims| ==> lines[3 + k] + "\n" == CccLine(prims[k].kind, prims[k].text, pitch, doseText))
      && lines[|prims| + 3..] == ["!END", ""]
  {
    var head := ["/*--- " + name + " ---*/", "/* " + cz + " */", "PATTERN"];
    var cmds := CccCommands(prims, pitch, doseText);
    CccFileSplit(name, cz, prims, pitch, doseText);
    forall k | 0 <= k < |prims|
      ensures cmds[k] + "\n" == CccLine(prims[k].kind, prims[k].text, pitch, doseText)
    {
      CccLineEnds(prims[k].kind, prims[k].text, pitch, doseText);
    }
    Framed(Split(CccFile(name, cz, CccLines(prims, pitch, doseText)), '\n'), head, cmds, ["!END", ""]);
  }

  lemma CccFileSplit(name: string, cz: string, prims: seq<Primitive>, pitch: int, doseText: string)
    requires '\n' !in name && '\n' !in cz && '\n' !in doseText
    requires forall k :: 0 <= k < |prims| ==> '\n' !in prims[k].text
    ensures Split(CccFile(name, cz, CccLines(prims, pitch, doseText)), '\n')
      == ["/*--- " + name + " ---*/", "/* " + cz + " */", "PATTERN"] + CccCommands(prims, pitch, doseText) + ["!END", ""]
  {
    var head := ["/*--- " + name + " ---*/", "/* " + cz + " */", "PATTERN"];
    var cmds := CccCommands(prims, pitch, doseText);
    CccLinesAreLines(prims, pitch, doseText);
    CccFileIsLines(name, cz, cmds);
    forall k | 0 <= k < |prims|
      ensures '\n' !in cmds[k]
    {
      CccCommandOneLine(prims[k].kind, prims[k].text, pitch, doseText);
    }
    CccHeadOneLine(name, cz);
    OneLineEach(head, cmds, ["!END"]);
    SplitLines(head + cmds + ["!END"]);
  }

  lemma CccHeadOneLine(name: string, cz: string)
    requires '\n' !in name && '\n' !in cz
    ensures var head := ["/*--- " + name + " ---*/", "/* " + cz + " */", "PATTERN"];
      forall i :: 0 <= i < |head| ==> '\n' !in head[i]
  {
    assert '\n' !in "/*--- " + name + " ---*/";
    assert '\n' !in "/* " + cz + " */";
  }

  lemma CccFileIsLines(name: string, cz: string, cmds: seq<string>)
    ensures CccFile(name, cz, Lines(cmds)) == Lines(["/*--- " + name + " ---*/", "/* " + cz + " */", "PATTERN"] + cmds + ["!END"])
  {
    var head := ["/*--- " + name + " ---*/", "/* " + cz + " */", "PATTERN"];
    HeadLines(head[0], head[1], head[2]);
    LinesCons("!END", []);
    LinesAppend(head, cmds);
    LinesAppend(head + cmds, ["!END"]);
  }

  /** No line of three newline-free groups holds a newline. */
  lemma OneLineEach(a: seq<string>, b: seq<string>, c: seq<string>)
    requires forall i :: 0 <= i < |a| ==> '\n' !in a[i]
    requires forall i :: 0 <= i < |b| ==> '\n' !in b[i]
    requires forall i :: 0 <= i < |c| ==> '\n' !in c[i]
    ensures forall i :: 0 <= i < |a + b + c| ==> '\n' !in (a + b + c)[i]
  {
  }

  /** Where the parts of a three-part sequence sit. */
  lemma Framed<T>(ls: seq<T>, head: seq<T>, mid: seq<T>, tail: seq<T>)
    requires ls == head + mid + tail
    ensures |ls| == |head| + |mid| + |tail|
    ensures ls[..|head|] == head
    ensures forall k :: 0 <= k < |mid| ==> ls[|head| + k] == mid[k]
    ensures ls[|head|..|head| + |mid|] == mid
    ensures ls[|head| + |mid|..] == tail
  {
  }

  /** Three lines written one after another. */
  lemma HeadLines(a: string, b: string, c: string)
    ensures Lines([a, b, c]) == a + "\n" + b + "\n" + c + "\n"
  {
    LinesCons(c, []);
    LinesCons(b, [c]);
    LinesCons(a, [b, c]);
  }

  /** The files of one field. */
  datatype FieldFiles = FieldFiles(center: RPoint, cccName: string, ccc: string, cbcName: string, cbc: seq<Byte>)

  /** The two files of the i-th field in emission order. */
  function FieldFilesOf(i: nat, f: RPoint, shapes: seq<Shape>, job: Job): (r: Result<FieldFiles, Reject>)
    ensures r.Failure? <==> FieldFails(job, shapes, f)
    ensures r.Success? ==> r.value.center == f && r.value.cccName == CccName(i) && r.value.cbcName == CbcName(i)
  {
    var prims :- FieldPrimitives(shapes, f, job.params.field, JobEncoding(job));
    var ccc := CccFile(CccName(i), CzText(job.params.field, job.fmt), CccLines(prims, job.params.pitch, job.fmt(job.params.dose)));
    Success(FieldFiles(f, CccName(i), ccc, CbcName(i), CbcFile(CbcName(i), RecordsOf(prims))))
  }

  /** The `.cbc` file of a field is its header, the records of its accepted
      primitives in shape order, and the trailer; its `.ccc` file holds one
      command per accepted primitive. */
  lemma FieldFilesLayout(i: nat, f: RPoint, shapes: seq<Shape>, job: Job)
    requires FieldFilesOf(i, f, shapes, job).Success?
    ensures var out := FieldFilesOf(i, f, shapes, job).value;
      var prims := FieldPrimitives(shapes, f, job.params.field, JobEncoding(job)).value;
      var h := |CbcHeader(CbcName(i))|;
      && |out.cbc| == h + RecordSize * |prims| + RecordSize
      && out.cbc[..h] == CbcHeader(CbcName(i))
      && out.cbc[|out.cbc| - RecordSize..] == EndBytes
      && Records(out.cbc[h..|out.cbc| - RecordSize]) == RecordsOf(prims)
      && out.ccc == CccFile(CccName(i), CzText(job.params.field, job.fmt), CccLines(prims, job.params.pitch, job.fmt(job.params.dose)))
    ensures i + 1 < Pow10(13) ==> |CbcHeader(CbcName(i))| == 30
  {
    var prims := FieldPrimitives(shapes, f, job.params.field, JobEncoding(job)).value;
    var out := FieldFilesOf(i, f, shapes, job).value;
    assert out.cbc == CbcFile(CbcName(i), RecordsOf(prims));
    if i + 1 < Pow10(13) {
      CbcHeaderSize(i);
    }
  }


  // ---------------------------------------------------------------------
  // The job file and the whole conversion

  /** Fields are written in increasing y, then increasing x. */
  predicate FieldBefore(a: RPoint, b: RPoint)
  {
    a.y < b.y || (a.y == b.y && a.x < b.x)
  }

  lemma FieldBeforeIsStrictTotal()
    ensures StrictTotalOrder(FieldBefore)
  {
  }

  /** `sorted(shapes_with_f.keys(), key=lambda f: (f[1], f[0]))`. */
  function FieldOrder(centers: set<RPoint>): (r: seq<RPoint>)
    ensures |r| == |centers|
    ensures forall f :: f in r <==> f in centers
    ensures forall i, j :: 0 <= i < j < |r| ==> FieldBefore(r[i], r[j])
  {
    FieldBeforeIsStrictTotal();
    SortSet(centers, FieldBefore)
  }

  /** The registration line, present only when marks were given. */
  function R2Line(marks: Option<seq<RPoint>>, fmt: real -> string): (line: string)
    requires marks.Some? ==> |marks.value| >= 2
    ensures line == "" <==> marks.None?
  {
    match marks
    case None => ""
    case Some(m) => R2Text(m, fmt) + "\n"
  }

  /** The two marks, in millimetres as the dialog left them. */
  function R2Text(m: seq<RPoint>, fmt: real -> string): string
    requires |m| >= 2
  {
    "R2 " + fmt(m[0].x) + "," + fmt(m[0].y) + "; " + fmt(m[1].x) + "," + fmt(m[1].y) + ";"
  }

  /** A field centre in millimetres. */
  function CentreText(f: RPoint, fmt: real -> string): string
  {
    fmt(f.x / 1000.0) + "," + fmt(f.y / 1000.0) + ";"
  }

  /** The `PC` and `PP` commands that place the i-th field at its centre, in millimetres. */
  function PlacementLines(i: nat, f: RPoint, fmt: real -> string): string
  {
    "PC" + FieldName(i) + ";" + "\n" + CentreText(f, fmt) + "\n" + "PP" + FieldName(i) + ";" + "\n" + CentreText(f, fmt) + "\n"
  }

  /** The four lines of `PlacementLines`, without their line ends. */
  function PlacementFour(i: nat, f: RPoint, fmt: real -> string): seq<string>
  {
    ["PC" + FieldName(i) + ";", CentreText(f, fmt), "PP" + FieldName(i) + ";", CentreText(f, fmt)]
  }

  lemma PlacementLinesAreLines(i: nat, f: RPoint, fmt: real -> string)
    ensures PlacementLines(i, f, fmt) == Lines(PlacementFour(i, f, fmt))
  {
    var four := PlacementFour(i, f, fmt);
    FourLines(four[0], four[1], four[2], four[3]);
  }

  /** The placement lines hold no newline when the number texts do not. */
  lemma PlacementFourOneLine(i: nat, f: RPoint, fmt: real -> string)
    requires forall v :: '\n' !in fmt(v)
    ensures forall j :: 0 <= j < 4 ==> '\n' !in PlacementFour(i, f, fmt)[j]
  {
    assert '\n' !in FieldName(i);
    assert '\n' !in CentreText(f, fmt);
  }

  /** The lines of all the placements, field by field. */
  function PlacementTexts(centers: seq<RPoint>, start: nat, fmt: real -> string): seq<string>
    decreases |centers|
  {
    if |centers| == 0 then []
    else PlacementFour(start, centers[0], fmt) + PlacementTexts(centers[1..], start + 1, fmt)
  }

  lemma {:induction false} PlacementsAreLines(centers: seq<RPoint>, start: nat, fmt: real -> string)
    ensures Placements(centers, start, fmt) == Lines(PlacementTexts(centers, start, fmt))
    decreases |centers|
  {
    if |centers| > 0 {
      PlacementsAreLines(centers[1..], start + 1, fmt);
      LinesAppend(PlacementFour(start, centers[0], fmt), PlacementTexts(centers[1..], start + 1, fmt));
      PlacementLinesAreLines(start, centers[0], fmt);
    }
  }

  /** Four lines written one after another. */
  lemma FourLines(a: string, b: string, c: string, d: string)
    ensures Lines([a, b, c, d]) == a + "\n" + b + "\n" + c + "\n" + d + "\n"
  {
    HeadLines(b, c, d);
    LinesCons(a, [b, c, d]);
  }

  /** Field `start + k` is placed by lines `4k` to `4k + 3`, none of which
      holds a newline when the number texts do not. */
  lemma {:induction false} PlacementTextsAt(centers: seq<RPoint>, start: nat, fmt: real -> string)
    ensures |PlacementTexts(centers, start, fmt)| == 4 * |centers|
    ensures forall k :: 0 <= k < |centers| ==>
      PlacementTexts(centers, start, fmt)[4 * k..4 * k + 4] == PlacementFour(start + k, centers[k], fmt)
    decreases |centers|
  {
    if |centers| > 0 {
      var ls := PlacementTexts(centers, start, fmt);
      var rest := PlacementTexts(centers[1..], start + 1, fmt);
      PlacementTextsAt(centers[1..], start + 1, fmt);
      forall k | 0 < k < |centers|
        ensures ls[4 * k..4 * k + 4] == rest[4 * (k - 1)..4 * (k - 1) + 4]
      {
        assert ls[4 * k..4 * k + 4] == ls[4..][4 * (k - 1)..4 * (k - 1) + 4];
      }
    }
  }

  function Placements(centers: seq<RPoint>, start: nat, fmt: real -> string): string
    decreases |centers|
  {
    if |centers| == 0 then ""
    else PlacementLines(start, centers[0], fmt) + Placements(centers[1..], start + 1, fmt)
  }

  /** The `.con` job file. */
  function ConFile(name: string, spec: FieldSpec, marks: Option<seq<RPoint>>, centers: seq<RPoint>, fmt: real -> string): (text: string)
    requires marks.Some? ==> |marks.value| >= 2
    ensures |text| >= 5 && text[|text| - 5..] == "!END\n"
  {
    "/*--- " + name + " ---*/" + "\n" + CzText(spec, fmt) + ";" + "\n" + R2Line(marks, fmt) + Placements(centers, 0, fmt) + "!END\n"
  }

  /** The marks line, if any, without its line end. */
  function R2Texts(marks: Option<seq<RPoint>>, fmt: real -> string): seq<string>
    requires marks.Some? ==> |marks.value| >= 2
  {
    if marks.Some? then [R2Text(marks.value, fmt)] else []
  }

  lemma R2LineIsLines(marks: Option<seq<RPoint>>, fmt: real -> string)
    requires marks.Some? ==> |marks.value| >= 2
    ensures R2Line(marks, fmt) == Lines(R2Texts(marks, fmt))
  {
    if marks.Some? {
      LinesCons(R2Text(marks.value, fmt), []);
    }
  }

  lemma ConFileIsLines(name: string, spec: FieldSpec, marks: Option<seq<RPoint>>, centers: seq<RPoint>, fmt: real -> string)
    requires marks.Some? ==> |marks.value| >= 2
    ensures ConFile(name, spec, marks, centers, fmt)
      == Lines(["/*--- " + name + " ---*/", CzText(spec, fmt) + ";"] + R2Texts(marks, fmt) + PlacementTexts(centers, 0, fmt) + ["!END"])
  {
    R2LineIsLines(marks, fmt);
    PlacementsAreLines(centers, 0, fmt);
    TwoLinesBetween("/*--- " + name + " ---*/", CzText(spec, fmt), R2Texts(marks, fmt), PlacementTexts(centers, 0, fmt));
  }

  /** The title, the field-size command, two groups of lines, and `!END`,
      written one after another. */
  lemma TwoLinesBetween(a: string, cz: string, r2: seq<string>, mid: seq<string>)
    ensures a + "\n" + cz + ";" + "\n" + Lines(r2) + Lines(mid) + "!END\n" == Lines([a, cz + ";"] + r2 + mid + ["!END"])
  {
    var b := cz + ";";
    LinesCons(b, []);
    LinesCons(a, [b]);
    LinesCons("!END", []);
    var two := [a, b];
    calc {
      Lines(two + r2 + mid + ["!END"]);
      { LinesAppend(two + r2 + mid, ["!END"]); }
      Lines(two + r2 + mid) + "!END\n";
      { LinesAppend(two + r2, mid); }
      Lines(two + r2) + Lines(mid) + "!END\n";
      { LinesAppend(two, r2); }
      Lines(two) + Lines(r2) + Lines(mid) + "!END\n";
      a + "\n" + b + "\n" + Lines(r2) + Lines(mid) + "!END\n";
      { assert a + "\n" + b == a + "\n" + cz + ";"; }
      a + "\n" + cz + ";" + "\n" + Lines(r2) + Lines(mid) + "!END\n";
    }
  }

  /** No placement line holds a newline when the number texts do not. */
  lemma PlacementOneLine(centers: seq<RPoint>, fmt: real -> string)
    requires forall v :: '\n' !in fmt(v)
    ensures forall i :: 0 <= i < |PlacementTexts(centers, 0, fmt)| ==> '\n' !in PlacementTexts(centers, 0, fmt)[i]
  {
    var mid := PlacementTexts(centers, 0, fmt);
    PlacementTextsAt(centers, 0, fmt);
    forall i | 0 <= i < |mid|
      ensures '\n' !in mid[i]
    {
      var k := i / 4;
      assert mid[i] == mid[4 * k..4 * k + 4][i - 4 * k];
      PlacementFourOneLine(k, centers[k], fmt);
    }
  }

  lemma ConHeadOneLine(name: string, spec: FieldSpec, marks: Option<seq<RPoint>>, fmt: real -> string)
    requires marks.Some? ==> |marks.value| >= 2
    requires '\n' !in name
    requires forall v :: '\n' !in fmt(v)
    ensures var head := ["/*--- " + name + " ---*/", CzText(spec, fmt) + ";"] + R2Texts(marks, fmt);
      forall i :: 0 <= i < |head| ==> '\n' !in head[i]
  {
    IntTextCharacters(spec.dots);
    assert '\n' !in CzText(spec, fmt) + ";";
  }

  lemma ConFileSplit(name: string, spec: FieldSpec, marks: Option<seq<RPoint>>, centers: seq<RPoint>, fmt: real -> string)
    requires marks.Some? ==> |marks.value| >= 2
    requires '\n' !in name
    requires forall v :: '\n' !in fmt(v)
    ensures Split(ConFile(name, spec, marks, centers, fmt), '\n')
      == ["/*--- " + name + " ---*/", CzText(spec, fmt) + ";"] + R2Texts(marks, fmt) + PlacementTexts(centers, 0, fmt) + ["!END", ""]
  {
    var head := ["/*--- " + name + " ---*/", CzText(spec, fmt) + ";"] + R2Texts(marks, fmt);
    var mid := PlacementTexts(centers, 0, fmt);
    ConFileIsLines(name, spec, marks, centers, fmt);
    ConHeadOneLine(name, spec, marks, fmt);
    PlacementOneLine(centers, fmt);
    OneLineEach(head, mid, ["!END"]);
    SplitLines(head + mid + ["!END"]);
  }

  /** Read line by line, a `.con` file is its title, the field size, the marks
      when there are any, four lines per field centre in order, and `!END`. */
  lemma ConFileLines(name: string, spec: FieldSpec, marks: Option<seq<RPoint>>, centers: seq<RPoint>, fmt: real -> string)
    requires marks.Some? ==> |marks.value| >= 2
    requires '\n' !in name
    requires forall v :: '\n' !in fmt(v)
    ensures var lines := Split(ConFile(name, spec, marks, centers, fmt), '\n');
      var r := if marks.Some? then 1 else 0;
      && |lines| == 4 + r + 4 * |centers|
      && lines[0] == "/*--- " + name + " ---*/"
      && lines[1] == CzText(spec, fmt) + ";"
      && (marks.Some? ==> lines[2] == R2Text(marks.value, fmt))
      && (forall k :: 0 <= k < |centers| ==>
            lines[2 + r + 4 * k..6 + r + 4 * k]
              == ["PC" + FieldName(k) + ";", CentreText(centers[k], fmt), "PP" + FieldName(k) + ";", CentreText(centers[k], fmt)])
      && lines[|lines| - 2..] == ["!END", ""]
  {
    var head := ["/*--- " + name + " ---*/", CzText(spec, fmt) + ";"] + R2Texts(marks, fmt);
    var mid := PlacementTexts(centers, 0, fmt);
    var lines := Split(ConFile(name, spec, marks, centers, fmt), '\n');
    ConFileSplit(name, spec, marks, centers, fmt);
    Framed(lines, head, mid, ["!END", ""]);
    PlacementTextsAt(centers, 0, fmt);
    FramedBlocks(lines, head, mid, ["!END", ""]);
  }

  /** Where the blocks of four of the middle part of a three-part sequence sit. */
  lemma FramedBlocks<T>(ls: seq<T>, head: seq<T>, mid: seq<T>, tail: seq<T>)
    requires ls == head + mid + tail
    ensures forall k :: 0 <= k && 4 * k + 4 <= |mid| ==> ls[|head| + 4 * k..|head| + 4 * k + 4] == mid[4 * k..4 * k + 4]
  {
    forall k | 0 <= k && 4 * k + 4 <= |mid|
      ensures ls[|head| + 4 * k..|head| + 4 * k + 4] == mid[4 * k..4 * k + 4]
    {
      assert ls[|head|..|head| + |mid|] == mid;
      assert ls[|head| + 4 * k..|head| + 4 * k + 4] == ls[|head|..|head| + |mid|][4 * k..4 * k + 4];
    }
  }

  /** Whether the shapes of the field centred at `f` abort the conversion. */
  predicate FieldFails(job: Job, shapes: seq<Shape>, f: RPoint)
  {
    FieldPrimitives(shapes, f, job.params.field, JobEncoding(job)).Failure?
  }

  /** All the values of some outcomes, in order, or the first failure among them. */
  function Sequence<T>(outs: seq<Result<T, Reject>>): (r: Result<seq<T>, Reject>)
    ensures r.Failure? <==> exists k :: 0 <= k < |outs| && outs[k].Failure?
    ensures r.Success? ==> |r.value| == |outs| && forall k :: 0 <= k < |outs| ==> r.value[k] == outs[k].value
    decreases |outs|
  {
    if |outs| == 0 then Success([])
    else
      var first :- outs[0];
      var rest :- Sequence(outs[1..]);
      assert forall k :: 1 <= k < |outs| ==> outs[k] == outs[1..][k - 1];
      Success([first] + rest)
  }

  /** The files of the fields `centers`, numbered from 0. */
  function AllFields(centers: seq<RPoint>, shapesWithF: map<RPoint, seq<Shape>>, job: Job): (r: Result<seq<FieldFiles>, Reject>)
    requires forall f :: f in centers ==> f in shapesWithF
    ensures r.Failure? <==> exists f :: f in centers && FieldFails(job, shapesWithF[f], f)
    ensures r.Success? ==> |r.value| == |centers| && forall k :: 0 <= k < |centers| ==>
      && FieldFilesOf(k, centers[k], shapesWithF[centers[k]], job) == Success(r.value[k])
      && r.value[k].center == centers[k]
      && r.value[k].cccName == CccName(k)
      && r.value[k].cbcName == CbcName(k)
  {
    var outs := seq(|centers|, k requires 0 <= k < |centers| => FieldFilesOf(k, centers[k], shapesWithF[centers[k]], job));
    assert forall k :: 0 <= k < |centers| ==> (outs[k].Failure? <==> FieldFails(job, shapesWithF[centers[k]], centers[k]));
    Sequence(outs)
  }

  function Centers(fields: seq<FieldFiles>): (cs: seq<RPoint>)
    ensures |cs| == |fields| && forall k :: 0 <= k < |fields| ==> cs[k] == fields[k].center
  {
    seq(|fields|, k requires 0 <= k < |fields| => fields[k].center)
  }

  /** Everything one run writes. */
  datatype Output = Output(conName: string, con: string, fields: seq<FieldFiles>)

  /** What a successful run writes: one field pair per key of the map, in
      (y, x) order of the centres and numbered from 1, each pair built from
      the shapes of its field, and the job file that places them. */
  ghost predicate WellFormedOutput(out: Output, job: Job, shapesWithF: map<RPoint, seq<Shape>>)
    requires job.params.marks.Some? ==> |job.params.marks.value| >= 2
  {
    && |out.fields| == |shapesWithF.Keys|
    && (forall f :: f in shapesWithF <==> f in Centers(out.fields))
    && (forall k, l :: 0 <= k < l < |out.fields| ==> FieldBefore(out.fields[k].center, out.fields[l].center))
    && (forall k :: 0 <= k < |out.fields| ==> out.fields[k].cccName == CccName(k) && out.fields[k].cbcName == CbcName(k))
    && (forall k :: 0 <= k < |out.fields| ==> FieldBuiltFrom(k, out.fields[k], job, shapesWithF))
    && out.conName == ConName(job.params.dirname)
    && out.con == ConFile(out.conName, job.params.field, job.params.marks, Centers(out.fields), job.fmt)
  }

  /** Field `k`'s files are the ones `FieldFilesOf` builds from the shapes
      filed under its centre. */
  ghost predicate FieldBuiltFrom(k: nat, out: FieldFiles, job: Job, shapesWithF: map<RPoint, seq<Shape>>)
  {
    out.center in shapesWithF && FieldFilesOf(k, out.center, shapesWithF[out.center], job) == Success(out)
  }

  lemma OutputOfOrderedFields(centers: seq<RPoint>, fields: seq<FieldFiles>, job: Job, shapesWithF: map<RPoint, seq<Shape>>)
    requires job.params.marks.Some? ==> |job.params.marks.value| >= 2
    requires |centers| == |shapesWithF.Keys| && (forall f :: f in centers <==> f in shapesWithF)
    requires forall i, j :: 0 <= i < j < |centers| ==> FieldBefore(centers[i], centers[j])
    requires |fields| == |centers| && forall k :: 0 <= k < |centers| ==>
      && FieldFilesOf(k, centers[k], shapesWithF[centers[k]], job) == Success(fields[k])
      && fields[k].center == centers[k]
      && fields[k].cccName == CccName(k)
      && fields[k].cbcName == CbcName(k)
    ensures var name := ConName(job.params.dirname);
      WellFormedOutput(Output(name, ConFile(name, job.params.field, job.params.marks, centers, job.fmt), fields), job, shapesWithF)
  {
    assert Centers(fields) == centers;
    forall k | 0 <= k < |fields|
      ensures FieldBuiltFrom(k, fields[k], job, shapesWithF)
    {
      assert fields[k].center == centers[k];
    }
  }

  /** Building the fields of any ordering of the map's centres fails exactly
      when some field of the map fails. */
  lemma AllFieldsFail(centers: seq<RPoint>, shapesWithF: map<RPoint, seq<Shape>>, job: Job)
    requires forall f :: f in centers <==> f in shapesWithF
    ensures AllFields(centers, shapesWithF, job).Failure?
        <==> exists f :: f in shapesWithF && FieldFails(job, shapesWithF[f], f)
  {
  }

  /** `write_files`: one `.con` file for the job and a `.ccc`/`.cbc` pair per
      field, fields numbered from 1 in (y, x) order of their centres. The run
      fails only when some record slot overflows 32 bits. */
  function WriteFiles(job: Job, shapesWithF: map<RPoint, seq<Shape>>): (r: Result<Output, Reject>)
    requires job.params.marks.Some? ==> |job.params.marks.value| >= 2
    ensures r.Failure? <==> exists f :: f in shapesWithF && FieldFails(job, shapesWithF[f], f)
    ensures r.Success? ==> WellFormedOutput(r.value, job, shapesWithF)
  {
    var centers := FieldOrder(shapesWithF.Keys);
    var built := AllFields(centers, shapesWithF, job);
    AllFieldsFail(centers, shapesWithF, job);
    if built.Failure? then Failure(built.error)
    else
      OutputOfOrderedFields(centers, built.value, job, shapesWithF);
      var name := ConName(job.params.dirname);
      Success(Output(name, ConFile(name, job.params.field, job.params.marks, centers, job.fmt), built.value))
  }
}
