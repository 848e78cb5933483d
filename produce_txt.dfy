/**
 * `produce_txt.py`: every polygon annotation file becomes a label file with one
 * line per shape, the class id followed by the shape's vertices as interleaved
 * `x / imageWidth`, `y / imageHeight` values. Rendering a value with six
 * decimals is the parameter `fmt`.
 */
module LabelConvert {
  import opened Results
  import opened Text
  import opened Paths
  import opened Files

  const JsonDir: Path := ["..", "photo", "labels_json"]
  const OutputDir: Path := ["..", "photo", "labels"]

  /** `class_map` */
  const ClassMap: map<string, nat> := map["bag" := 0]

  /** One entry of `data["shapes"]`: its label and its `[x, y]` points. */
  datatype Shape = Shape(labelText: string, points: seq<(real, real)>)

  /** A parsed annotation file. */
  datatype Annotation = Annotation(imageWidth: real, imageHeight: real, shapes: seq<Shape>)

  /** One label line before rendering: the class id and the normalised values. */
  datatype Line = Line(classId: nat, values: seq<real>)

  /** `class_map[label]` raises `KeyError`; `x / 0` raises `ZeroDivisionError`. */
  datatype ConvertError = UnknownLabel(labelText: string) | ZeroDivision

  /** The values `normalized` holds after the points: `x / w, y / h` for each point in turn. */
  function Normalized(points: seq<(real, real)>, w: real, h: real): (values: seq<real>)
    requires points == [] || (w != 0.0 && h != 0.0)
    ensures |values| == 2 * |points|
  {
    if points == [] then []
    else
      var p := points[|points| - 1];
      Normalized(points[..|points| - 1], w, h) + [p.0 / w, p.1 / h]
  }

  /** Exactly two values per point, in point order: the x value at `2i`, the y value at `2i + 1`. */
  lemma {:induction false} NormalizedAt(points: seq<(real, real)>, w: real, h: real)
    requires w != 0.0 && h != 0.0
    ensures forall i :: 0 <= i < |points| ==>
      Normalized(points, w, h)[2 * i] == points[i].0 / w && Normalized(points, w, h)[2 * i + 1] == points[i].1 / h
  {
    if points != [] {
      var init := points[..|points| - 1];
      NormalizedAt(init, w, h);
      forall i | 0 <= i < |points|
        ensures Normalized(points, w, h)[2 * i] == points[i].0 / w && Normalized(points, w, h)[2 * i + 1] == points[i].1 / h
      {
        if i < |init| {
          assert points[i] == init[i];
        }
      }
    }
  }

  /** Scales interleaved values back by the image size, pairing `2i` with `2i + 1`: the inverse of `Normalized`. */
  function Denormalized(values: seq<real>, w: real, h: real): (points: seq<(real, real)>)
    requires |values| % 2 == 0
    ensures |points| == |values| / 2
  {
    seq(|values| / 2, i requires 0 <= i < |values| / 2 => (values[2 * i] * w, values[2 * i + 1] * h))
  }

  /** Dividing by a non-zero size and multiplying back gives the coordinate. */
  lemma ScaleBack(a: real, size: real)
    requires size != 0.0
    ensures (a / size) * size == a
  {
  }

  /** Normalising loses nothing: scaling back gives the original points. */
  lemma NormalizeRoundTrip(points: seq<(real, real)>, w: real, h: real)
    requires w != 0.0 && h != 0.0
    ensures Denormalized(Normalized(points, w, h), w, h) == points
  {
    var values := Normalized(points, w, h);
    var back := Denormalized(values, w, h);
    NormalizedAt(points, w, h);
    forall i | 0 <= i < |points|
      ensures back[i] == points[i]
    {
      var p := points[i];
      var x, y := values[2 * i], values[2 * i + 1];
      ScaleBack(p.0, w);
      ScaleBack(p.1, h);
      assert back[i].0 == x * w == p.0;
      assert back[i].1 == y * h == p.1;
    }
  }

  /** The loop over a shape's points, which raises on a zero image size as soon as there is a point. */
  method NormalizePoints(points: seq<(real, real)>, w: real, h: real) returns (r: Result<seq<real>, ConvertError>)
    ensures r.Err? <==> |points| > 0 && (w == 0.0 || h == 0.0)
    ensures r.Err? ==> r.error == ZeroDivision
    ensures r.Ok? ==> r.value == Normalized(points, w, h)
  {
    var normalized: seq<real> := [];
    for i := 0 to |points|
      invariant i > 0 ==> w != 0.0 && h != 0.0
      invariant normalized == Normalized(points[..i], w, h)
    {
      var (x, y) := points[i];
      if w == 0.0 {
        return Err(ZeroDivision);
      }
      normalized := normalized + [x / w];
      if h == 0.0 {
        return Err(ZeroDivision);
      }
      normalized := normalized + [y / h];
      assert points[..i + 1][..i] == points[..i];
    }
    assert points[..|points|] == points;
    return Ok(normalized);
  }

  /** The line for one shape, or the exception converting it raises. */
  function LineFor(shape: Shape, w: real, h: real): Result<Line, ConvertError>
  {
    if shape.labelText !in ClassMap then Err(UnknownLabel(shape.labelText))
    else if shape.points != [] && (w == 0.0 || h == 0.0) then Err(ZeroDivision)
    else Ok(Line(ClassMap[shape.labelText], Normalized(shape.points, w, h)))
  }

  /**
   * A shape's line starts with the class id of its label, `"bag"` giving 0, and holds two
   * values per point, interleaved; an unknown label is an error whatever the points.
   */
  lemma LineForSpec(shape: Shape, w: real, h: real)
    ensures shape.labelText !in ClassMap ==> LineFor(shape, w, h) == Err(UnknownLabel(shape.labelText))
    ensures LineFor(shape, w, h).Ok? <==> shape.labelText in ClassMap && (shape.points == [] || (w != 0.0 && h != 0.0))
    ensures LineFor(shape, w, h).Ok? ==>
      var line := LineFor(shape, w, h).value;
      && line.classId == ClassMap[shape.labelText]
      && (shape.labelText == "bag" ==> line.classId == 0)
      && |line.values| == 2 * |shape.points|
      && forall i :: 0 <= i < |shape.points| ==>
           line.values[2 * i] == shape.points[i].0 / w && line.values[2 * i + 1] == shape.points[i].1 / h
  {
    if LineFor(shape, w, h).Ok? && shape.points != [] {
      NormalizedAt(shape.points, w, h);
    }
  }

  /** The lines of a file, in shape order, or the first shape's exception. */
  function ConvertShapes(shapes: seq<Shape>, w: real, h: real): Result<seq<Line>, ConvertError>
  {
    if shapes == [] then Ok([])
    else
      match LineFor(shapes[0], w, h)
      case Err(e) => Err(e)
      case Ok(line) =>
        match ConvertShapes(shapes[1..], w, h)
        case Err(e) => Err(e)
        case Ok(rest) => Ok([line] + rest)
  }

  /** One line per shape, in shape order; otherwise the error of the first shape that fails. */
  lemma {:induction false} ConvertShapesSpec(shapes: seq<Shape>, w: real, h: real)
    ensures ConvertShapes(shapes, w, h).Ok? <==> forall i :: 0 <= i < |shapes| ==> LineFor(shapes[i], w, h).Ok?
    ensures ConvertShapes(shapes, w, h).Ok? ==>
      var lines := ConvertShapes(shapes, w, h).value;
      |lines| == |shapes| && forall i :: 0 <= i < |shapes| ==> LineFor(shapes[i], w, h) == Ok(lines[i])
    ensures ConvertShapes(shapes, w, h).Err? ==>
      exists i :: 0 <= i < |shapes| && LineFor(shapes[i], w, h) == Err(ConvertShapes(shapes, w, h).error)
        && forall j :: 0 <= j < i ==> LineFor(shapes[j], w, h).Ok?
  {
    if shapes != [] {
      ConvertShapesSpec(shapes[1..], w, h);
      assert forall i :: 1 <= i < |shapes| ==> shapes[i] == shapes[1..][i - 1];
      if LineFor(shapes[0], w, h).Ok? && ConvertShapes(shapes[1..], w, h).Err? {
        var i :| 0 <= i < |shapes[1..]| && LineFor(shapes[1..][i], w, h) == Err(ConvertShapes(shapes, w, h).error)
          && forall j :: 0 <= j < i ==> LineFor(shapes[1..][j], w, h).Ok?;
        assert LineFor(shapes[i + 1], w, h) == Err(ConvertShapes(shapes, w, h).error);
      }
    }
  }

  /** The outcome of the shapes from `done` on, once the lines of the earlier ones are in `done`. */
  function Prepend(done: seq<Line>, r: Result<seq<Line>, ConvertError>): Result<seq<Line>, ConvertError>
  {
    if r.Ok? then Ok(done + r.value) else r
  }

  /** The loop over the shapes of one annotation file. */
  method ConvertAnnotation(a: Annotation) returns (r: Result<seq<Line>, ConvertError>)
    ensures r == ConvertShapes(a.shapes, a.imageWidth, a.imageHeight)
  {
    var w, h := a.imageWidth, a.imageHeight;
    var lines: seq<Line> := [];
    assert a.shapes[0..] == a.shapes;
    ghost var whole := ConvertShapes(a.shapes, w, h);
    if whole.Ok? {
      assert lines + whole.value == whole.value;
    }
    for i := 0 to |a.shapes|
      invariant ConvertShapes(a.shapes, w, h) == Prepend(lines, ConvertShapes(a.shapes[i..], w, h))
    {
      var shape := a.shapes[i];
      assert a.shapes[i..][0] == shape && a.shapes[i..][1..] == a.shapes[i + 1..];
      if shape.labelText !in ClassMap {
        return Err(UnknownLabel(shape.labelText));
      }
      var classId := ClassMap[shape.labelText];
      var normalized := NormalizePoints(shape.points, w, h);
      if normalized.Err? {
        return Err(normalized.error);
      }
      var line := Line(classId, normalized.value);
      assert LineFor(shape, w, h) == Ok(line);
      ghost var later := ConvertShapes(a.shapes[i + 1..], w, h);
      if later.Ok? {
        assert lines + ([line] + later.value) == (lines + [line]) + later.value;
      }
      lines := lines + [line];
    }
    assert a.shapes[|a.shapes|..] == [];
    assert lines + [] == lines;
    return Ok(lines);
  }

  /** `f"{v:.6f}"` for each value, joined with spaces. */
  function RenderValues(values: seq<real>, fmt: real -> string): seq<string>
  {
    seq(|values|, i requires 0 <= i < |values| => fmt(values[i]))
  }

  /** `str(class_id) + " " + " ".join(...)` */
  function LineText(line: Line, fmt: real -> string): string
  {
    NatToString(line.classId) + " " + Join(RenderValues(line.values, fmt), ' ')
  }

  /** `"\n".join(lines)`: no newline after the last line, and an empty file for no shapes. */
  function FileText(lines: seq<Line>, fmt: real -> string): string
  {
    Join(seq(|lines|, i requires 0 <= i < |lines| => LineText(lines[i], fmt)), '\n')
  }

  /**
   * When the value rendering never produces a space, a line splits on spaces into the
   * decimal class id followed by the rendered values, and the first field reads back as the id.
   * A shape without points gives `"<id> "`, which splits into the id and one empty field.
   */
  lemma LineTextFields(line: Line, fmt: real -> string)
    requires forall v :: ' ' !in fmt(v)
    ensures SplitOn(LineText(line, fmt), ' ') ==
      [NatToString(line.classId)] + (if line.values == [] then [""] else RenderValues(line.values, fmt))
    ensures ParseDigits(SplitOn(LineText(line, fmt), ' ')[0]) == line.classId
  {
    var id := NatToString(line.classId);
    assert ' ' !in id;
    var rendered := RenderValues(line.values, fmt);
    SplitOnHead(id, ' ', Join(rendered, ' '));
    if line.values != [] {
      forall i | 0 <= i < |rendered| ensures ' ' !in rendered[i] {
        var v := line.values[i];
        assert rendered[i] == fmt(v);
        assert ' ' !in fmt(v);
      }
      SplitJoin(rendered, ' ');
    }
    ParseNatToString(line.classId);
  }

  /**
   * When the value rendering never produces a newline, splitting the file text on newlines
   * gives back exactly one text line per label line; a file without lines is empty.
   */
  lemma FileTextLines(lines: seq<Line>, fmt: real -> string)
    requires forall v :: '\n' !in fmt(v)
    ensures lines == [] ==> FileText(lines, fmt) == ""
    ensures lines != [] ==>
      SplitOn(FileText(lines, fmt), '\n') == seq(|lines|, i requires 0 <= i < |lines| => LineText(lines[i], fmt))
  {
    if lines != [] {
      var texts := seq(|lines|, i requires 0 <= i < |lines| => LineText(lines[i], fmt));
      forall i | 0 <= i < |lines| ensures '\n' !in texts[i] {
        var line := lines[i];
        var rendered := RenderValues(line.values, fmt);
        forall k | 0 <= k < |rendered| ensures '\n' !in rendered[k] {
          var v := line.values[k];
          assert rendered[k] == fmt(v);
          assert '\n' !in fmt(v);
        }
        JoinAvoids(rendered, ' ', '\n');
        assert '\n' !in NatToString(line.classId);
      }
      SplitJoin(texts, '\n');
    }
  }

  /** `output_dir / f"{json_path.stem}.txt"` */
  function OutputPath(jsonName: string): Path
  {
    OutputDir + [Stem(jsonName) + ".txt"]
  }

  /** For `<base>.json` the label file is `<base>.txt` in the labels directory. */
  lemma OutputPathOfJson(base: string)
    requires |base| > 0
    ensures OutputPath(base + ".json") == OutputDir + [base + ".txt"]
  {
    StemOfExtension(base, ".json");
  }

  /** `json_dir.glob("*.json")` */
  predicate MatchesJsonGlob(name: string)
  {
    EndsWith(name, ".json")
  }

  /** An entry of the JSON directory with its parsed contents. */
  datatype JsonFile = JsonFile(name: string, data: Annotation)

  /** The file map after converting the matching entries in turn, and the exception that stopped it, if any. */
  function ConvertAllResult(files: map<Path, string>, entries: seq<JsonFile>, fmt: real -> string): (map<Path, string>, Option<ConvertError>)
    decreases |entries|
  {
    if entries == [] then (files, None)
    else if !MatchesJsonGlob(entries[0].name) then ConvertAllResult(files, entries[1..], fmt)
    else
      var a := entries[0].data;
      match ConvertShapes(a.shapes, a.imageWidth, a.imageHeight)
      case Err(e) => (files, Some(e))
      case Ok(lines) => ConvertAllResult(files[OutputPath(entries[0].name) := FileText(lines, fmt)], entries[1..], fmt)
  }

  /** No two matching entries write the same label file. */
  predicate DistinctOutputs(entries: seq<JsonFile>)
  {
    forall i, j :: 0 <= i < j < |entries| && MatchesJsonGlob(entries[i].name) && MatchesJsonGlob(entries[j].name)
      ==> OutputPath(entries[i].name) != OutputPath(entries[j].name)
  }

  /** The label files the matching entries write. */
  function Outputs(entries: seq<JsonFile>): set<Path>
  {
    set i | 0 <= i < |entries| && MatchesJsonGlob(entries[i].name) :: OutputPath(entries[i].name)
  }

  /**
   * A run without exceptions writes, for every matching entry, the text of its lines to its
   * label file, and changes no other file.
   */
  lemma {:induction false} ConvertAllSuccess(files: map<Path, string>, entries: seq<JsonFile>, fmt: real -> string)
    requires ConvertAllResult(files, entries, fmt).1 == None
    requires DistinctOutputs(entries)
    decreases |entries|
    ensures forall i :: 0 <= i < |entries| && MatchesJsonGlob(entries[i].name) ==>
      var a := entries[i].data;
      && ConvertShapes(a.shapes, a.imageWidth, a.imageHeight).Ok?
      && OutputPath(entries[i].name) in ConvertAllResult(files, entries, fmt).0
      && ConvertAllResult(files, entries, fmt).0[OutputPath(entries[i].name)]
         == FileText(ConvertShapes(a.shapes, a.imageWidth, a.imageHeight).value, fmt)
    ensures forall p :: p !in Outputs(entries) ==> SameAt(ConvertAllResult(files, entries, fmt).0, files, p)
  {
    if entries != [] {
      var rest := entries[1..];
      assert DistinctOutputs(rest) by {
        forall i, j | 0 <= i < j < |rest| && MatchesJsonGlob(rest[i].name) && MatchesJsonGlob(rest[j].name)
          ensures OutputPath(rest[i].name) != OutputPath(rest[j].name)
        {
          assert rest[i] == entries[i + 1] && rest[j] == entries[j + 1];
        }
      }
      assert forall i :: 1 <= i < |entries| ==> entries[i] == rest[i - 1];
      assert Outputs(rest) <= Outputs(entries) by {
        forall p | p in Outputs(rest) ensures p in Outputs(entries) {
          var i :| 0 <= i < |rest| && MatchesJsonGlob(rest[i].name) && p == OutputPath(rest[i].name);
          assert entries[i + 1] == rest[i];
        }
      }
      if !MatchesJsonGlob(entries[0].name) {
        ConvertAllSuccess(files, rest, fmt);
      } else {
        var a := entries[0].data;
        var lines := ConvertShapes(a.shapes, a.imageWidth, a.imageHeight).value;
        var out := OutputPath(entries[0].name);
        var f1 := files[out := FileText(lines, fmt)];
        ConvertAllSuccess(f1, rest, fmt);
        assert out !in Outputs(rest);
        assert out in Outputs(entries);
        forall p | p !in Outputs(entries) ensures SameAt(ConvertAllResult(files, entries, fmt).0, files, p) {
          assert SameAt(ConvertAllResult(f1, rest, fmt).0, f1, p);
        }
      }
    }
  }

  /** The loop over the `*.json` files: convert each in turn and write its label file; an exception stops the loop. */
  method ConvertAll(fs: FileSystem, entries: seq<JsonFile>, fmt: real -> string) returns (err: Option<ConvertError>)
    modifies fs
    ensures (fs.files, err) == ConvertAllResult(old(fs.files), entries, fmt)
  {
    for i := 0 to |entries|
      invariant ConvertAllResult(old(fs.files), entries, fmt) == ConvertAllResult(fs.files, entries[i..], fmt)
    {
      assert entries[i..][0] == entries[i] && entries[i..][1..] == entries[i + 1..];
      var entry := entries[i];
      if MatchesJsonGlob(entry.name) {
        var lines := ConvertAnnotation(entry.data);
        if lines.Err? {
          return Some(lines.error);
        }
        fs.Write(OutputPath(entry.name), FileText(lines.value, fmt));
      }
    }
    assert entries[|entries|..] == [];
    return None;
  }
}
