# E-beam pattern converter: a Dafny model

This project models the pure logic of the KLayout macros that turn layout
polygons into job files for electron-beam writers, and proves properties of
that logic. The macros are the CABL converter (`con_creator`), the dose
visualiser and the image inserter. The model covers these parts:

* **Field grid.** Each point snaps to the centre of the writing field that
  contains it (`get_field` in grid mode). The model also covers the
  positions where a polygon is cut along field boundaries, and the interior
  ordinates along which a polygon is sliced.
* **Classifier.** `get_str_bin` turns a polygon into one CABL primitive:
  * it rounds the coordinates to field-local dots (`myround`) and drops
    consecutive repeated points;
  * it rejects rings with fewer than four points and rings of zero signed
    area (`signed_area`);
  * it rotates the ring to start at its lowest point and orients it
    positively;
  * it derives the eight record slots and names the primitive type (DWSL,
    DWTL or DWTZL);
  * it writes the point list for the `.ccc` file and the 38-byte binary
    record for the `.cbc` file.
* **Writing the files.** `write_files` deletes old `con`/`ccc`/`cbc`
  files. It then writes:
  * the `.con` job file: header, `CZ` line, optional `R2` registration
    line, and `PC`/`PP` entries for the fields in (y, x) order;
  * for each field, a `.ccc` text file with one line per primitive;
  * for each field, a `.cbc` binary file: padded header, the records, and
    the 38-byte trailer.
* **Dialog parameters.** Both dialogs normalise the registration marks and
  the field-layer choice the same way (`gui.py`, `gui_start.py`).
* **Image insertion.** A tile image's file name says which field, which
  side and which tile it shows. Parsing that name decides where the image's
  crosses land, or why the file is skipped.
* **Dose visualisation.** Each shape's dose is resolved from its own
  property or from the deepest instance on its path. Shapes are grouped by
  dose string and get one auxiliary layer per dose, coloured by rank. The
  clean-up removes those layers again.

Floating-point values are exact reals. Three things come in as parameters:
* `fmt` is Python's `str()` of a float;
* `fmt2` is the `'{:.2f}'` dose formatting;
* `f32` is the IEEE single-precision packing of `struct.pack('f')`.

File system access, the GUI and KLayout's database become explicit inputs
and outputs.

Two consequences of the code are worth spelling out:
* A 10 x 10 square comes out as `DWSL`. The type is `DWTL` only when the
  closed ring holds exactly four points, that is, a triangle.
* The clean-up deletes every file whose lower-cased name is longer than
  three characters and ends in `con`, `ccc` or `cbc`. No dot is needed, so
  `falcon` goes as well.

## Model

| member | source | states |
|---|---|---|
| Rounding.MyRound | con_creator/calculus.py:272-280 | inputs below 0.5 give 0; otherwise the result is the integer r with r <= num + 0.5 < r + 1 |
| Rounding.FirstDecimalRule | con_creator/calculus.py:277-279 | the first decimal digit after the point is above 4 exactly when the fractional part is at least one half |
| Rounding.MyRoundIsHalfUp | con_creator/calculus.py:272-280 | the string-based rounding equals round-half-up, floor(num + 0.5), clamped at 0 |
| Rounding.MyRoundMonotone | con_creator/calculus.py:272-280 | rounding never reverses the order of two values |
| Rounding.MyRoundOfInteger | con_creator/calculus.py:272-280 | whole numbers round to themselves, negative ones to 0 |
| Rounding.PyInt | con_creator/calculus.py:181 | Python's int() truncates toward zero, for both signs |
| Rounding.FloorDiv | con_creator/calculus.py:130-131 | Python's // on floats gives the k with k*b <= a < (k+1)*b |
| Rings.SignedArea | con_creator/calculus.py:282-288 | (used by the lemmas below) twice the shoelace area, summed from the last point around the ring |
| Rings.ComputeSignedArea | con_creator/calculus.py:282-288 | the accumulating loop returns the same value as the closed-form sum of the edges |
| Rings.AreaReverse | con_creator/calculus.py:311-312 | reversing a ring negates its signed area, so reversal makes a negative ring positive |
| Rings.AreaRotate | con_creator/calculus.py:282-288 | the signed area does not depend on which point the ring starts at |
| Rings.AreaClose | con_creator/calculus.py:282-288 | repeating the first point at the end leaves the signed area unchanged |
| Rings.DropRepeats | con_creator/calculus.py:293-301 | no two consecutive points are equal; the first and last points are kept; the set of points is unchanged |
| Rings.DropRepeatsIdentity | con_creator/calculus.py:298-301 | a ring without consecutive repeats passes through unchanged |
| Rings.ChainReverse | con_creator/calculus.py:312 | walking the edges backwards negates their sum |
| Rings.RotCompose | con_creator/calculus.py:310 | two rotations compose to one rotation by the sum of the offsets |
| Rings.RotMultiset | con_creator/calculus.py:310 | rotation permutes the points |
| Rings.MinIndex | con_creator/calculus.py:309 | the index of the first point that is least in (y, x) order |
| Rings.Canonical | con_creator/calculus.py:309-312 | a closed ring stays closed, starts at its least (y, x) point, is a permutation of the input, keeps no repeats, and has positive area when its area is non-zero |
| Rings.RotatedIsClosedRotation | con_creator/calculus.py:310 | the slice expression `points[m:] + points[1:m+1]` is the closed rotation of the open ring by m |
| Rings.RotationArea | con_creator/calculus.py:310 | that rotation keeps the ring closed and keeps its signed area |
| Rings.RotationMultiset | con_creator/calculus.py:310 | that rotation keeps the multiset of ring points |
| Rings.RotatedNoRepeats | con_creator/calculus.py:310 | that rotation introduces no consecutive repeats |
| Rings.ReverseClosed | con_creator/calculus.py:312 | reversing a closed ring keeps it closed, keeps its points and introduces no repeats |
| Rings.CanonicalFacts | con_creator/calculus.py:309-312 | the canonical ring starts at the minimum point, and its area is positive whenever it was non-zero |
| FieldGrid.CellIndex | con_creator/calculus.py:130-131 | the floor-division index k puts the point in the half-open cell [low(k), low(k+1)) |
| FieldGrid.CellIndexUnique | con_creator/calculus.py:130-131 | exactly one cell contains a given coordinate |
| FieldGrid.SnapCoord | con_creator/calculus.py:128-131 | the snapped coordinate is a grid centre whose half-open field contains the input |
| FieldGrid.SnapCoordUnique | con_creator/calculus.py:128-131 | any grid centre whose field contains the point is the snapped one |
| FieldGrid.GetField | con_creator/calculus.py:128-131 | the point lies in the half-open square field around the returned centre |
| FieldGrid.GridDifference | con_creator/calculus.py:181 | two grid centres differ by a whole number of field sizes, so the loop count is exact |
| FieldGrid.CutCount | con_creator/calculus.py:179-184 | the loop count is the difference of the cell indices of the two corners (the number of fields spanned minus one), and 0 when both lie in one field |
| FieldGrid.CutPositions | con_creator/calculus.py:179-186 | every cut lies in (lo, hi], is a field boundary, and the cuts increase; every boundary in (lo, hi] is one of them |
| FieldGrid.BoundaryWindow | con_creator/calculus.py:181-186 | a boundary lies in (lo, hi] exactly when its index is between the cells of lo and hi |
| FieldGrid.BoxCuts | con_creator/calculus.py:179-186 | for each axis, the cuts of a bounding box are exactly the field boundaries strictly above its low side and up to its high side, in increasing order |
| FieldGrid.SeqMin | con_creator/calculus.py:219 | the minimum is a member, and no member is smaller |
| FieldGrid.SeqMax | con_creator/calculus.py:219 | the maximum is a member, and no member is larger |
| FieldGrid.InteriorOrdinates | con_creator/calculus.py:220-221 | a value is kept exactly when it occurs and some occurring value is smaller and some is larger |
| FieldGrid.SliceOrdinates | con_creator/calculus.py:219-236 | slicing along x uses exactly the occurring y values strictly between the least and greatest y; slicing along y does the same with x |
| Classifier.LocalPoint | con_creator/calculus.py:291-297 | field-local dot coordinates are non-negative |
| Classifier.LocalPointExact | con_creator/calculus.py:295-296 | for every field size and dot count, a point dx dot pitches (size / dots) right of and dy below the field's top-left corner maps to (dx, dy) |
| Classifier.LocalPointOrder | con_creator/calculus.py:295-296 | x keeps its order and y flips it, since local y grows downwards |
| Classifier.LocalRing | con_creator/calculus.py:292-297 | each ring point is mapped to local dots, and a closed ring stays closed |
| Classifier.DeriveSlots | con_creator/calculus.py:315-332 | fails with a division by zero exactly when the first edge is horizontal; otherwise gives the start point, height dy+1, slopes with slope*dy equal to the run, the offset rule for the second-to-last point, pitch, and the rounded dose |
| Classifier.WordsSlice | con_creator/calculus.py:333-334 | word k sits at bytes 4k to 4k+4 |
| Classifier.Record | con_creator/calculus.py:333-347 | packing fails exactly when an integer slot is outside 32-bit range; otherwise the 38 bytes are the tag, direction byte, zero, three little-endian ints, three floats and two ints in slot order |
| Classifier.RecordLayout | con_creator/calculus.py:347 | byte positions of each word after the six-byte tag |
| Classifier.Kind | con_creator/calculus.py:335-339 | DWTZL exactly for five-point rings with a non-zero slope; DWTL exactly for four-point rings; DWSL otherwise |
| Classifier.PointsTextRoundTrip | con_creator/calculus.py:341-346 | the comma-terminated coordinate text parses back to the same point list |
| Classifier.ParseCoordParts | con_creator/calculus.py:345-346 | the coordinate fields, read in pairs, give back the points |
| Classifier.SplitPointsText | con_creator/calculus.py:345-346 | splitting the point text at commas yields one field per coordinate |
| Classifier.PointsTextCharacters | con_creator/calculus.py:345-346 | the point text holds only digits, minus signs and commas |
| Classifier.Emit | con_creator/calculus.py:309-347 | on a canonical ring: fails with a division by zero exactly when the first edge is horizontal, and with a 32-bit overflow exactly when it is not but an integer slot does not fit; so it succeeds whenever the slots fit, and a success carries the derived slots, the type, the text and the record |
| Classifier.ClassifyLocal | con_creator/calculus.py:298-347 | rejects exactly the rings with fewer than four points, zero area, a horizontal first edge after canonicalisation, or an integer slot outside 32 bits, each with its own reason; a success is closed, positively oriented, starts at the least point, permutes the input, and its type, text and record agree with its slots |
| Classifier.GetStrBin | con_creator/calculus.py:290-347 | a success from a closed shape is a closed, positively oriented ring with a 38-byte record |
| ClassifierProperties.RectangleIsDWSL | con_creator/calculus.py:309-347 | any axis-aligned rectangle becomes a DWSL with zero slopes and height h+1, listed by its corners 0 and 2 |
| ClassifierProperties.ClassifyRotationInvariant | con_creator/calculus.py:309-310 | for rings of distinct points, the result does not depend on the point at which the ring starts (with a repeated point the chosen start can differ) |
| ClassifierProperties.ClassifyReversalInvariant | con_creator/calculus.py:311-312 | for rings with distinct points, the result does not depend on the ring's orientation |
| ClassifierProperties.ClassifyByCanonical | con_creator/calculus.py:309-347 | two rings with equal canonical forms classify alike |
| ClassifierProperties.CanonicalRotationInvariant | con_creator/calculus.py:309-310 | rotating a ring of distinct points does not change its canonical form |
| ClassifierProperties.CanonicalReversalInvariant | con_creator/calculus.py:309-312 | reversing a ring of distinct points with non-zero area does not change its canonical form |
| CablOutput.Cleanup | con_creator/calculus.py:350-356 | keeps exactly the names that are not converter output, and never adds any |
| CablOutput.OwnFilesAreCleanedUp | con_creator/calculus.py:350-376 | the files a run writes are all removed by the next run's clean-up |
| CablOutput.EndsLower | con_creator/calculus.py:353-355 | any name ending in `.con`, `.ccc` or `.cbc` is removed |
| CablOutput.FieldName | con_creator/calculus.py:365-367 | field names start with `field_` and are ASCII |
| CablOutput.FieldNamesDistinct | con_creator/calculus.py:366-370 | distinct field indices give distinct file names |
| CablOutput.FieldNameNumber | con_creator/calculus.py:367 | the suffix of a field name reads back as the one-based field number |
| CablOutput.BaseName | con_creator/calculus.py:357 | the last path component: a slash-free suffix of the path that is the whole path or starts right after a `/` |
| CablOutput.CbcHeader | con_creator/calculus.py:376-379 | the ASCII name, then `;1.1;` and a zero byte, then 0xCC padding to 30 bytes for names of at most 24 characters |
| CablOutput.CbcHeaderSize | con_creator/calculus.py:376-379 | the `.cbc` header of every field numbered below 10^13 is exactly 30 bytes |
| CablOutput.RecordsConcat | con_creator/calculus.py:384 | concatenated 38-byte records split back into the same records |
| CablOutput.CbcFile | con_creator/calculus.py:376-387 | the binary file is the header, then the records (which can be read back), then the 38-byte end marker |
| CablOutput.ParseTypeNameOfTypeName | con_creator/calculus.py:335-339 | the type names read back as their types |
| CablOutput.CccLineRoundTrip | con_creator/calculus.py:383 | a `.ccc` line reads back as its type, points, pitch and dose text |
| CablOutput.PrimitiveLineRoundTrip | con_creator/calculus.py:381-383 | the line written for a classified shape lists the primitive's points (its corners 0 and 2 for DWSL) |
| CablOutput.Classified | con_creator/calculus.py:380-381 | one classification per shape of the field, each writable |
| CablOutput.Kept | con_creator/calculus.py:381-384 | keeps exactly the successful primitives, skipping rejected shapes |
| CablOutput.KeptAppend | con_creator/calculus.py:380-384 | filtering distributes over concatenation of shape lists |
| CablOutput.Collect | con_creator/calculus.py:380-384 | aborts exactly when some shape overflows 32 bits; otherwise yields the kept primitives |
| CablOutput.FieldPrimitives | con_creator/calculus.py:380-384 | a field fails exactly when one of its shapes overflows 32 bits |
| CablOutput.RecordsOf | con_creator/calculus.py:384 | the records of a field, one 38-byte record per kept primitive |
| CablOutput.CccFile | con_creator/calculus.py:370-385 | the `.ccc` text ends with `!END` |
| CablOutput.CccFileLines | con_creator/calculus.py:370-385 | read line by line, a `.ccc` file is the title, the `CZ` comment and `PATTERN`, then one line per kept primitive in order, each that primitive's command, then `!END` |
| CablOutput.CccLinesAreLines | con_creator/calculus.py:381-383 | the primitive commands are written one per line, in order |
| CablOutput.FieldFilesOf | con_creator/calculus.py:366-388 | a field's files fail exactly when the field fails; otherwise they carry the field's centre and its own file names |
| CablOutput.FieldFilesLayout | con_creator/calculus.py:370-388 | a field's `.cbc` content is header, records, end marker, and its `.ccc` ends with `!END` |
| CablOutput.FieldBeforeIsStrictTotal | con_creator/calculus.py:364 | the (y, x) key orders field centres strictly and totally |
| CablOutput.FieldOrder | con_creator/calculus.py:364 | the fields in strictly increasing (y, x) order, each exactly once |
| CablOutput.R2Line | con_creator/calculus.py:362-363 | the registration line is written exactly when marks are given |
| CablOutput.ConFile | con_creator/calculus.py:357-389 | the `.con` text ends with `!END` |
| CablOutput.ConFileLines | con_creator/calculus.py:357-389 | read line by line, a `.con` file is the title, the `CZ` line, the `R2` line exactly when marks are given, then for the k-th field in order `PCfield_<k+1>;`, its centre in mm, `PPfield_<k+1>;`, its centre again, then `!END` |
| CablOutput.PlacementsAreLines | con_creator/calculus.py:366-368 | the placement commands are written four lines per field, in field order |
| CablOutput.PlacementTextsAt | con_creator/calculus.py:366-368 | lines 4k to 4k+3 of the placements belong to field k |
| CablOutput.Sequence | con_creator/calculus.py:366-388 | fails exactly when some element fails; otherwise gives the values in order |
| CablOutput.AllFields | con_creator/calculus.py:366-388 | fails exactly when some field fails; otherwise field k's files are built for the k-th centre |
| CablOutput.OutputOfOrderedFields | con_creator/calculus.py:357-390 | field files built for the centres in (y, x) order, each from the shapes filed under its centre, form a well-formed job |
| CablOutput.WriteFiles | con_creator/calculus.py:349-390 | fails exactly when some field's shape overflows 32 bits; otherwise the `.con` lists every field once in (y, x) order, and the k-th field's `.ccc` and `.cbc` contents are the ones built from the shapes filed under its centre |
| ConvertParams.ToMillimetres | con_creator/gui.py:306-314 | the result times 1000 is the micrometre input |
| ConvertParams.OrderCablMarks | con_creator/gui.py:310-312 | the two marks come out in order, as the same pair in either order, and unchanged when already ordered |
| ConvertParams.OrderCablMarksIdempotent | con_creator/gui.py:310-312 | ordering twice is ordering once |
| ConvertParams.OrderCablMarksSymmetric | con_creator/gui.py:310-312 | for distinct marks, the input order does not matter |
| ConvertParams.GuiMarks | con_creator/gui.py:306-314 | marks exist exactly when the box is checked; XENOS marks are converted one by one, and CABL marks are the two converted marks in order |
| ConvertParams.GuiStartMarks | con_creator/gui_start.py:143-150 | marks exist exactly when checked; then they are the two converted marks, in order |
| ConvertParams.DialogsAgreeOnCablMarks | con_creator/gui_start.py:143-150 | both dialogs produce the same CABL marks |
| ConvertParams.FieldLayerChoice | con_creator/gui.py:324-327 | a field layer is used exactly when its box is checked |
| ConvertParams.GuiStartParams | con_creator/gui_start.py:131-163 | the start dialog slices along x; passes field, pitch, dose, directory and visibility through; gives marks exactly when checked, as the two entered marks in mm in order; and uses the field layer text exactly when its box is checked |
| ConvertParams.GuiParams | con_creator/gui.py:296-330 | the main dialog slices along x, passes field, pitch, dose, directory and visibility through, normalises the marks per machine, uses the field layer only when checked, and for CABL builds the same parameters as the start dialog |
| ImageInsert.NeedConvertIsTheRest | image_insert/image_insert.py:13-14 | the formats that need conversion are the image formats other than png and jpg |
| ImageInsert.FieldShiftGrid | image_insert/image_insert.py:129-138 | fields 1 to 4 fill the 2 x 2 macro grid left to right, bottom to top |
| ImageInsert.PlaceTile | image_insert/image_insert.py:151-152 | inserts exactly when column and row parse as integers; the first corner is the offset plus the field and side shifts plus (col-1, row-1) steps; the second corner is one step further |
| ImageInsert.Placement | image_insert/image_insert.py:123-152 | a name too short for the mode is wrong; an untagged field part means auxiliary; an insert spans one step |
| ImageInsert.InsertImage | image_insert/image_insert.py:105-155 | non-images are skipped; tif and tiff are converted; the converted copy is deleted exactly for auxiliary or wrong names |
| ImageInsert.CrossTargets | image_insert/image_insert.py:85-88 | the four targets are the corners of the tile rectangle, bottom left p1 and top right p2 |
| ImageInsert.CrossTargetsSpanStep | image_insert/image_insert.py:85-88 | a placed tile's crosses span exactly one tile step |
| ImageInsert.SingleFieldRoundTrip | image_insert/image_insert.py:123-153 | a single-field tile name, whose column and row texts are any that `int()` reads (zero-padded ones included), is placed at its field's grid cell and at that tile, with the left shift |
| ImageInsert.MultiFieldRoundTrip | image_insert/image_insert.py:131-153 | a multi-field tile name with side r or l and any column and row texts `int()` reads is placed at that tile with the right or left shift |
| ImageInsert.ExampleNamePlaced | image_insert/image_insert.py:109-152 | the documented example name `Sample_Nice_f3_01_25`, with its zero-padded column, lands on tile (1, 25) of field 3 with the left shift |
| ImageInsert.PlaceSingle | image_insert/image_insert.py:123-152 | a single-field name ending in a tagged field digit and two number texts is placed at the tile they give |
| ImageInsert.PlaceMulti | image_insert/image_insert.py:131-152 | a multi-field name ending in a tagged field digit, a side letter and two number texts is placed at that tile with the side's shift |
| ImageInsert.ParsedHasNoUnderscore | image_insert/image_insert.py:112 | a number text `int()` accepts holds no underscore, so it stays one name part |
| ImageInsert.MultiFieldWrongSide | image_insert/image_insert.py:143-146 | any other side letter rejects the file as a wrong name |
| ImageInsert.TileNameParts | image_insert/image_insert.py:109-112 | a tile name splits back into its parts and its extension |
| ImageInsert.NeighbouringTilesAbut | image_insert/image_insert.py:151-152 | the next column or row starts where this tile ends |
| DoseVisualize.PathDose | con_creator/dosevisualize.py:57-62 | the last dose on the instance path wins; with no dose on the path the shape stays undosed |
| DoseVisualize.ResolveDose | con_creator/dosevisualize.py:55-62 | the shape's own dose wins; no dose results only when neither the shape nor its path has one |
| DoseVisualize.DoseKey | con_creator/dosevisualize.py:63 | undosed shapes get no key, dosed ones a formatted string |
| DoseVisualize.SelectMembers | con_creator/dosevisualize.py:63 | a polygon is in a key's group exactly when it was filed under that key |
| DoseVisualize.Group | con_creator/dosevisualize.py:63 | the keys are exactly the keys used, each holding the polygons filed under it (see SelectMembers) |
| DoseVisualize.GroupStep | con_creator/dosevisualize.py:63 | filing one more shape adds it to its own key's list and to nothing else |
| DoseVisualize.DoseStrings | con_creator/dosevisualize.py:64-65 | exactly the dose strings some shape was filed under |
| DoseVisualize.Rgb2IntRoundTrip | con_creator/dosevisualize.py:123-125 | a packed colour fits in 24 bits and unpacks to its channels |
| DoseVisualize.Rgb2IntInjective | con_creator/dosevisualize.py:123-125 | distinct channel triples give distinct colours |
| DoseVisualize.Green | con_creator/dosevisualize.py:90 | the green channel lies in 0..255 |
| DoseVisualize.GreenIsFloor | con_creator/dosevisualize.py:90 | green is the floor of 255*(n-i)/n, and 255 for the first dose |
| DoseVisualize.GreenNonIncreasing | con_creator/dosevisualize.py:90 | later doses are never greener, so the colours run from yellow towards red |
| DoseVisualize.ColourConstants | con_creator/dosevisualize.py:76-95 | the no-dose fill is grey 150 and the frame is black |
| DoseVisualize.SortedDoses | con_creator/dosevisualize.py:86 | the distinct dose strings, each once, strictly increasing |
| DoseVisualize.DoseLayers | con_creator/dosevisualize.py:86-101 | layer i is on the dose layer with datatype i+1, named after its dose, coloured by rank, and holds that dose's polygons |
| DoseVisualize.Show | con_creator/dosevisualize.py:69-101 | every created layer is on the auxiliary dose layer |
| DoseVisualize.UndosedGroup | con_creator/dosevisualize.py:69 | a no-dose group exists exactly when some shape has no resolved dose |
| DoseVisualize.ShowSplit | con_creator/dosevisualize.py:69-101 | the layers are the optional no-dose layer followed by the dose layers in sorted order |
| DoseVisualize.ShowNoDoseLayer | con_creator/dosevisualize.py:69-83 | when some shape is undosed, the first layer is the grey `no dose` layer with datatype 0 holding those shapes |
| DoseVisualize.ShowDoseLayers | con_creator/dosevisualize.py:86-101 | after that come exactly one layer per dose |
| DoseVisualize.ShowDoseOrder | con_creator/dosevisualize.py:86 | the dose layers appear in increasing dose order |
| DoseVisualize.ShowCoversDoses | con_creator/dosevisualize.py:64-101 | every dose that occurs gets a layer |
| DoseVisualize.DeleteAux | con_creator/dosevisualize.py:103-115 | keeps exactly the layers not on the dose layer |
| DoseVisualize.DeleteAuxAppend | con_creator/dosevisualize.py:106-112 | deletion distributes over concatenation of layer lists |
| DoseVisualize.CleanUpUndoesShow | con_creator/dosevisualize.py:103-121 | clearing after showing leaves the layers that were not on the dose layer before |
| DoseVisualize.DeleteAuxIdempotent | con_creator/dosevisualize.py:103-115 | clearing twice is clearing once |
| DoseVisualize.DeleteAuxKeeps | con_creator/dosevisualize.py:106-112 | layers off the dose layer are never touched |
| Bytes.PackInt32 | con_creator/calculus.py:333-334 | packing fails exactly outside the signed 32-bit range; otherwise it gives four little-endian bytes |
| Bytes.PackUnpack | con_creator/calculus.py:333-334 | unpacking a packed integer gives it back |
| Bytes.AsciiRoundTrip | con_creator/calculus.py:379 | ASCII text encoded to bytes decodes to the same text |
| Text.SplitJoin | con_creator/calculus.py:276 | splitting a joined list of separator-free parts gives back the parts |
| Text.ParseIntToString | image_insert/image_insert.py:151 | `int(str(n)) == n` for every integer, so tile numbers written in decimal read back |
| Text.ParseIntCharacters | image_insert/image_insert.py:151 | every character of a text `int()` accepts is whitespace, a sign or a digit |
| Text.SplitLines | con_creator/calculus.py:357-389 | text written as newline-free lines, each ended by a newline, splits at newlines back into those lines and a final empty string |
| Text.NatToStringInjective | con_creator/calculus.py:367 | distinct numbers have distinct decimal texts |
| Sorting.SortSet | con_creator/calculus.py:364 | under a strict total order: every element once, strictly increasing |
| Sorting.SortedUnique | con_creator/calculus.py:364 | only one strictly increasing sequence lists a given set |

## Left out

- File system: listing directories, opening, writing and removing files, and creating directories. Files become strings and byte sequences. The names given to `Cleanup` are those of the regular files in the output directory only, since `calculus.py` skips every entry that is not a file (con_creator/calculus.py:352).
- Shapely geometry in `calculus.py`: merging, the hole check, splitting polygons along the cut lines, and the field-layer mode of `get_field`. The cut positions and interior ordinates are modelled; the splitting they drive is not.
- `round(p, 3)` before the dot conversion: the model takes coordinates as already rounded, since decimal rounding of floats needs the float representation.
- Text form of floats (`str(float)`, `'{:.2f}'`): passed in as the `fmt`/`fmt2` functions, because float printing is not modelled.
- IEEE single-precision packing of the three slope slots: passed in as the `f32` function.
- CablOutput.WriteFiles: a 32-bit overflow in `struct.pack` aborts the model's run as a whole. The source has already written the files of earlier fields at that point, and those partial files are not modelled.
- XENOS output and the `merge` option: both dialogs pass eleven positional arguments to `Calculus`, with `self.ebl` first and `merge` last (con_creator/gui.py:329-330, con_creator/gui_start.py:165-166). The constructor at con_creator/calculus.py:35 accepts at most ten, so the call as written raises a `TypeError` before any conversion starts. ConvertParams.GuiParams and ConvertParams.GuiStartParams model the intended mapping of the form values to the constructor parameters by name. Only the CABL writer is in `calculus.py`, so neither XENOS output nor merging is modelled.
- Timer, progress messages, `outlog` texts and profiling: diagnostics only. The model keeps each rejection's reason instead of the message text.
- The image transforms in `image_insert.py`: cross search in the picture, the matrix fit and the KLayout image insertion. The model stops at the four target corners.
- PIL conversion of tif and tiff files: the model records that a PNG copy is made, not the copy's path or pixels.
- Python's `int()` also accepts underscores between digits and non-ASCII digits, and strips the separators `\x1c` to `\x1f` and Unicode spaces as well as ASCII whitespace. The model's integer parser takes ASCII digits with an optional sign and strips only space, tab, newline, carriage return, vertical tab and form feed. The tile names it is applied to never contain underscores, since they are split at `_` first.
- Rounding.MyRound: takes the decimal text of `num` as exact and returns floor(num + 0.5). From 1e16 up, Python's `str()` of a float switches to exponent notation. Then `myround(1e16)` raises an `IndexError`, since `1e+16` has no `.`, and `myround(1.5e16)` returns 2, from the mantissa `1.5`. Field-local dot coordinates never come near that size.
- CablOutput.BaseName: splits the path at `/` only, as `os.path.split` does on POSIX. On Windows it also splits at `\`.
- CablOutput.R2Line: states only when the line is present; the coordinate text comes from the `fmt` parameter.
- DoseVisualize.Show: layer visibility toggling and KLayout's layer-properties objects (dither pattern, width) are not modelled. The result is the list of created layers with their number, datatype, name, colours, polygons and dose.
- The GUI widgets and their event wiring: the model takes the values read from the form.
