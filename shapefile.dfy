/** The .shapefile text format and its parser, parseShapeFile in index.js.
    A file is split into lines; each line loses everything from its first
    "//" and is trimmed; a non-empty line is split on ';' into definitions;
    a non-blank definition is split on ',' into trimmed fields and becomes
    a Rectangle or a Triangle record, or is dropped. */
module Shapefile {
  import opened Strings
  import opened Numbers

  datatype Option<T> = None | Some(value: T)

  /** A parsed shape. The numeric fields hold what parseInt read; the
      colour holds the last field of the definition, untouched. */
  datatype ShapeRecord =
    | Rectangle(x: Num, y: Num, zIndex: Num, width: Num, height: Num, color: string)
    | Triangle(x: Num, y: Num, zIndex: Num, size: Num, color: string)

  /** The record's `type` property. */
  function TypeName(r: ShapeRecord): (t: string)
    ensures r.Rectangle? <==> t == "Rectangle"
    ensures r.Triangle? <==> t == "Triangle"
  {
    if r.Rectangle? then "Rectangle" else "Triangle"
  }

  /** The trimmed comma-separated fields of a definition. */
  function Fields(def: string): (parts: seq<string>)
    ensures |parts| == |Split(def, ',')| >= 1
    ensures forall i :: 0 <= i < |parts| ==>
      parts[i] == [] || (!IsWhitespace(parts[i][0]) && !IsWhitespace(parts[i][|parts[i]| - 1]))
    ensures forall i :: 0 <= i < |parts| ==> (parts[i] == [] <==> AllWhitespace(Split(def, ',')[i]))
  {
    var pieces := Split(def, ',');
    seq(|pieces|, i requires 0 <= i < |pieces| => Trim(pieces[i]))
  }

  /** One definition as the parser reads it: a record, or None when it has
      fewer than five fields, an unknown type, or is a five-field Rectangle. */
  function ParseDefinition(def: string): (r: Option<ShapeRecord>)
    ensures r.Some? <==> |Fields(def)| >= 5 && (Fields(def)[0] == "Triangle"
                         || (Fields(def)[0] == "Rectangle" && |Fields(def)| >= 6))
    ensures r.Some? ==> TypeName(r.value) == Fields(def)[0]
  {
    var parts := Fields(def);
    if |parts| < 5 then None
    else
      var x := ParseInt(parts[1]);
      var y := ParseInt(parts[2]);
      var zIndex := ParseInt(parts[3]);
      var color := parts[|parts| - 1];
      if parts[0] == "Rectangle" && |parts| >= 6 then
        Some(Rectangle(x, y, zIndex, ParseInt(parts[4]), ParseInt(parts[5]), color))
      else if parts[0] == "Triangle" then
        Some(Triangle(x, y, zIndex, ParseInt(parts[4]), color))
      else None
  }

  function Records(o: Option<ShapeRecord>): (rs: seq<ShapeRecord>)
    ensures |rs| <= 1
  {
    if o.Some? then [o.value] else []
  }

  /** The records of a line's definitions, in order; blank ones are skipped. */
  function ParseDefinitions(defs: seq<string>): seq<ShapeRecord> {
    if defs == [] then []
    else
      var last := defs[|defs| - 1];
      ParseDefinitions(defs[..|defs| - 1]) + DefinitionRecords(last)
  }

  /** A line without its comment, trimmed. */
  function CleanLine(line: string): (r: string)
    ensures r == [] || (!IsWhitespace(r[0]) && !IsWhitespace(r[|r| - 1]))
    ensures |r| <= |line|
  {
    var k := IndexOfComment(line);
    if k >= 0 then Trim(line[..k]) else Trim(line)
  }

  function ParseLine(line: string): seq<ShapeRecord> {
    var clean := CleanLine(line);
    if clean == [] then [] else ParseDefinitions(Split(clean, ';'))
  }

  function ParseLines(lines: seq<string>): seq<ShapeRecord> {
    if lines == [] then []
    else ParseLines(lines[..|lines| - 1]) + ParseLine(lines[|lines| - 1])
  }

  /** What parseShapeFile returns for a file's text. */
  function ParseText(text: string): seq<ShapeRecord> {
    ParseLines(Split(text, '\n'))
  }

  /** parseShapeFile: walks the lines, pushing the records of each. */
  method ParseShapeFile(fileContent: string) returns (shapes: seq<ShapeRecord>)
    ensures shapes == ParseText(fileContent)
  {
    shapes := [];
    var lines := Split(fileContent, '\n');
    var i := 0;
    while i < |lines|
      invariant 0 <= i <= |lines|
      invariant shapes == ParseLines(lines[..i])
    {
      shapes := PushLineRecords(shapes, lines[i]);
      ParseLinesSnoc(lines, i);
      i := i + 1;
    }
    assert lines[..i] == lines;
  }

  /** The per-line callback of parseShapeFile: strips the comment, trims,
      and pushes one record per accepted definition onto shapes. */
  method PushLineRecords(shapes: seq<ShapeRecord>, line: string) returns (result: seq<ShapeRecord>)
    ensures result == shapes + ParseLine(line)
  {
    result := shapes;
    var commentIndex := IndexOfComment(line);
    var cleanLine := if commentIndex >= 0 then Trim(line[..commentIndex]) else Trim(line);
    if cleanLine == [] {
      return;
    }
    var shapeDefs := Split(cleanLine, ';');
    var j := 0;
    while j < |shapeDefs|
      invariant 0 <= j <= |shapeDefs|
      invariant result == shapes + ParseDefinitions(shapeDefs[..j])
    {
      result := PushDefinitionRecord(result, shapeDefs[j]);
      ParseDefinitionsSnoc(shapeDefs, j);
      AppendAssociative(shapes, ParseDefinitions(shapeDefs[..j]), DefinitionRecords(shapeDefs[j]));
      j := j + 1;
    }
    assert shapeDefs[..j] == shapeDefs;
  }

  /** The per-definition callback of parseShapeFile: a blank definition
      or one the format does not accept pushes nothing; otherwise the
      Rectangle or Triangle it describes is pushed. */
  method PushDefinitionRecord(shapes: seq<ShapeRecord>, shapeDef: string) returns (result: seq<ShapeRecord>)
    ensures result == shapes + DefinitionRecords(shapeDef)
  {
    result := shapes;
    if Trim(shapeDef) == [] {
      return;
    }
    var parts := Fields(shapeDef);
    if |parts| < 5 {
      return;
    }
    var shapeType := parts[0];
    var x := ParseInt(parts[1]);
    var y := ParseInt(parts[2]);
    var zIndex := ParseInt(parts[3]);
    var color := parts[|parts| - 1];
    if shapeType == "Rectangle" && |parts| >= 6 {
      var width := ParseInt(parts[4]);
      var height := ParseInt(parts[5]);
      result := result + [Rectangle(x, y, zIndex, width, height, color)];
      RectangleOf(shapeDef);
    } else if shapeType == "Triangle" && |parts| >= 5 {
      var size := ParseInt(parts[4]);
      result := result + [Triangle(x, y, zIndex, size, color)];
      TriangleOf(shapeDef);
    }
  }

  lemma AppendAssociative(a: seq<ShapeRecord>, b: seq<ShapeRecord>, c: seq<ShapeRecord>)
    ensures (a + b) + c == a + (b + c)
  {
  }

  /** The records of one definition, as the inner loop pushes them. */
  function DefinitionRecords(def: string): (rs: seq<ShapeRecord>)
    ensures |rs| <= 1
  {
    if Trim(def) == [] then [] else Records(ParseDefinition(def))
  }

  lemma ParseDefinitionsSnoc(defs: seq<string>, j: nat)
    requires j < |defs|
    ensures ParseDefinitions(defs[..j + 1]) == ParseDefinitions(defs[..j]) + DefinitionRecords(defs[j])
  {
    assert defs[..j + 1][..j] == defs[..j];
  }

  lemma ParseLinesSnoc(lines: seq<string>, i: nat)
    requires i < |lines|
    ensures ParseLines(lines[..i + 1]) == ParseLines(lines[..i]) + ParseLine(lines[i])
  {
    assert lines[..i + 1][..i] == lines[..i];
  }

  // ---------------------------------------------------------------------
  // Definitions

  /** The definitions the parser drops: fewer than five fields, a type
      other than exactly Rectangle or Triangle, a Rectangle with five. */
  lemma DroppedDefinitions(def: string)
    ensures |Fields(def)| < 5 ==> ParseDefinition(def) == None
    ensures Fields(def)[0] != "Rectangle" && Fields(def)[0] != "Triangle" ==> ParseDefinition(def) == None
    ensures Fields(def)[0] == "Rectangle" && |Fields(def)| == 5 ==> ParseDefinition(def) == None
  {
  }

  /** Field k is piece k of the comma split with only its outer
      whitespace removed. */
  lemma FieldsSlice(def: string, k: nat) returns (i: nat, j: nat)
    requires k < |Fields(def)|
    ensures var piece := Split(def, ',')[k];
      && i <= j <= |piece| && Fields(def)[k] == piece[i..j]
      && AllWhitespace(piece[..i]) && AllWhitespace(piece[j..])
  {
    var piece := Split(def, ',')[k];
    assert Fields(def)[k] == Trim(piece);
    i, j := TrimSlice(piece);
  }

  /** What an accepted definition's record holds: its type is the first
      field, x, y and zIndex are read from fields 1 to 3, a Rectangle's
      width and height from fields 4 and 5, a Triangle's size from field 4,
      and the colour is the last field. */
  lemma AcceptedDefinition(def: string)
    requires ParseDefinition(def).Some?
    ensures var parts, r := Fields(def), ParseDefinition(def).value;
      && |parts| >= 5
      && TypeName(r) == parts[0]
      && r.x == ParseInt(parts[1]) && r.y == ParseInt(parts[2]) && r.zIndex == ParseInt(parts[3])
      && r.color == parts[|parts| - 1]
      && (r.Rectangle? ==> |parts| >= 6 && r.width == ParseInt(parts[4]) && r.height == ParseInt(parts[5]))
      && (r.Triangle? ==> r.size == ParseInt(parts[4]))
  {
  }

  /** Fields are the comma-separated pieces of a definition, trimmed. */
  lemma FieldsOfJoin(fields: seq<string>)
    requires |fields| >= 1
    requires forall i :: 0 <= i < |fields| ==> ',' !in fields[i]
    ensures Fields(Join(fields, ',')) == seq(|fields|, i requires 0 <= i < |fields| => Trim(fields[i]))
  {
    SplitJoin(fields, ',');
  }

  /** The quirk of a six-field Rectangle: the colour is always the last
      field, so the sixth field is read both as the height and as the colour. */
  lemma SixFieldRectangle(x: string, y: string, z: string, w: string, c: string)
    requires ',' !in x && ',' !in y && ',' !in z && ',' !in w && ',' !in c
    ensures ParseDefinition(Join(["Rectangle", x, y, z, w, c], ',')) ==
      Some(Rectangle(ParseInt(Trim(x)), ParseInt(Trim(y)), ParseInt(Trim(z)),
                     ParseInt(Trim(w)), ParseInt(Trim(c)), Trim(c)))
  {
    var fields := ["Rectangle", x, y, z, w, c];
    FieldsOfJoin(fields);
    TrimUnchanged("Rectangle");
  }

  /** A Triangle written with width and height (seven fields) is read with
      the width as its size; the height is ignored. */
  lemma SevenFieldTriangle(x: string, y: string, z: string, w: string, h: string, c: string)
    requires ',' !in x && ',' !in y && ',' !in z && ',' !in w && ',' !in h && ',' !in c
    ensures ParseDefinition(Join(["Triangle", x, y, z, w, h, c], ',')) ==
      Some(Triangle(ParseInt(Trim(x)), ParseInt(Trim(y)), ParseInt(Trim(z)),
                    ParseInt(Trim(w)), Trim(c)))
  {
    var fields := ["Triangle", x, y, z, w, h, c];
    var def := Join(fields, ',');
    FieldsOfJoin(fields);
    TrimUnchanged("Triangle");
    var fs := Fields(def);
    assert |fs| == 7 && fs[0] == "Triangle";
    TriangleOf(def);
    assert fs[1] == Trim(x) && fs[2] == Trim(y) && fs[3] == Trim(z) && fs[4] == Trim(w) && fs[6] == Trim(c);
  }

  /** A definition of at least six fields whose type is Rectangle. */
  lemma RectangleOf(def: string)
    requires |Fields(def)| >= 6 && Fields(def)[0] == "Rectangle"
    ensures var fs := Fields(def);
      ParseDefinition(def) ==
        Some(Rectangle(ParseInt(fs[1]), ParseInt(fs[2]), ParseInt(fs[3]), ParseInt(fs[4]), ParseInt(fs[5]), fs[|fs| - 1]))
  {
  }

  /** A definition of at least five fields whose type is Triangle. */
  lemma TriangleOf(def: string)
    requires |Fields(def)| >= 5 && Fields(def)[0] == "Triangle"
    ensures var fs := Fields(def);
      ParseDefinition(def) ==
        Some(Triangle(ParseInt(fs[1]), ParseInt(fs[2]), ParseInt(fs[3]), ParseInt(fs[4]), fs[|fs| - 1]))
  {
  }

  /** Definitions are read independently and in order. */
  lemma ParseDefinitionsAppend(a: seq<string>, b: seq<string>)
    ensures ParseDefinitions(a + b) == ParseDefinitions(a) + ParseDefinitions(b)
  {
    ParseDefinitionsConcat(a + b);
    ParseDefinitionsConcat(a);
    ParseDefinitionsConcat(b);
    ConcatAppend(DefinitionRecords, a, b);
  }

  lemma {:induction false} ParseDefinitionsConcat(defs: seq<string>)
    ensures ParseDefinitions(defs) == Concat(DefinitionRecords, defs)
  {
    if defs != [] {
      ParseDefinitionsConcat(defs[..|defs| - 1]);
    }
  }

  function CountNonBlank(defs: seq<string>): nat {
    if defs == [] then 0
    else CountNonBlank(defs[..|defs| - 1]) + (if Trim(defs[|defs| - 1]) == [] then 0 else 1)
  }

  /** Each non-blank definition gives at most one record. */
  lemma {:induction false} ParseDefinitionsBound(defs: seq<string>)
    ensures |ParseDefinitions(defs)| <= CountNonBlank(defs)
  {
    if defs != [] {
      ParseDefinitionsBound(defs[..|defs| - 1]);
    }
  }

  // ---------------------------------------------------------------------
  // Lines and comments

  /** A cleaned line is the slice of the line before its first "//" (or
      of the whole line when there is none) with only its outer
      whitespace removed. */
  lemma CleanLineSlice(line: string) returns (i: nat, j: nat)
    ensures var k := IndexOfComment(line);
      var cut := if k >= 0 then k else |line|;
      && i <= j <= cut <= |line| && CleanLine(line) == line[i..j]
      && AllWhitespace(line[..i]) && AllWhitespace(line[j..cut])
  {
    var k := IndexOfComment(line);
    var cut := if k >= 0 then k else |line|;
    var before := line[..cut];
    assert k < 0 ==> before == line;
    assert CleanLine(line) == Trim(before);
    i, j := TrimSlice(before);
    assert before[i..j] == line[i..j];
    assert before[..i] == line[..i];
    assert before[j..] == line[j..cut];
  }

  /** A cleaned line holds no comment marker: everything from the first
      "//" is gone, and trimming cannot create a new one. */
  lemma CleanLineNoComment(line: string)
    ensures IndexOfComment(CleanLine(line)) == -1
  {
    var k := IndexOfComment(line);
    var before := if k >= 0 then line[..k] else line;
    forall m | k >= 0 && 0 <= m < k - 1 ensures !CommentAt(before, m) {
      assert !CommentAt(line, m);
    }
    var i, j := TrimSlice(before);
    NoCommentInSlice(before, i, j);
  }

  /** Text after the first "//" of a line never affects its records. */
  lemma CommentTailIgnored(line: string, tail: string)
    requires IndexOfComment(line) >= 0
    ensures var k := IndexOfComment(line);
      ParseLine(line[..k + 2] + tail) == ParseLine(line)
  {
    var k := IndexOfComment(line);
    var other := line[..k + 2] + tail;
    assert CleanLine(other) == CleanLine(line) by {
      CommentKept(line, tail);
      assert other[..k] == line[..k];
    }
    SameCleanLine(other, line);
  }

  lemma CommentKept(line: string, tail: string)
    requires IndexOfComment(line) >= 0
    ensures IndexOfComment(line[..IndexOfComment(line) + 2] + tail) == IndexOfComment(line)
  {
    var k := IndexOfComment(line);
    var other := line[..k + 2] + tail;
    assert forall j :: 0 <= j < k ==> (CommentAt(other, j) <==> CommentAt(line, j));
    assert CommentAt(other, k);
    IndexOfCommentIs(other, k);
  }

  /** Appending a comment to a comment-free line leaves its records alone,
      unless the line ends with '/' (the marker would then start a
      character earlier). */
  lemma CommentAppended(a: string, comment: string)
    requires IndexOfComment(a) == -1
    requires a == [] || a[|a| - 1] != '/'
    requires '\n' !in a && '\n' !in comment
    ensures ParseText(a + "//" + comment) == ParseText(a)
  {
    CommentCleaned(a, comment);
    assert '\n' !in a + "//" + comment;
    SameOneLine(a + "//" + comment, a);
  }

  lemma CommentCleaned(a: string, comment: string)
    requires IndexOfComment(a) == -1
    requires a == [] || a[|a| - 1] != '/'
    ensures CleanLine(a + "//" + comment) == CleanLine(a)
  {
    var line := a + "//" + comment;
    CommentFound(a, comment);
    assert line[..|a|] == a;
    CleanBefore(line, |a|, a);
  }

  /** A line whose first comment marker is at k cleans as its first k
      characters do, when those hold no marker. */
  lemma CleanBefore(line: string, k: int, a: string)
    requires 0 <= k <= |line| && IndexOfComment(line) == k
    requires line[..k] == a && IndexOfComment(a) == -1
    ensures CleanLine(line) == CleanLine(a)
  {
  }

  /** Two one-line texts that are the same once cleaned have the same records. */
  lemma SameOneLine(l1: string, l2: string)
    requires '\n' !in l1 && '\n' !in l2
    requires CleanLine(l1) == CleanLine(l2)
    ensures ParseText(l1) == ParseText(l2)
  {
    SameCleanLine(l1, l2);
    ParseTextOneLine(l1);
    ParseTextOneLine(l2);
  }

  /** Two lines that are the same once cleaned have the same records. */
  lemma SameCleanLine(l1: string, l2: string)
    requires CleanLine(l1) == CleanLine(l2)
    ensures ParseLine(l1) == ParseLine(l2)
  {
  }

  lemma CommentFound(a: string, comment: string)
    requires IndexOfComment(a) == -1
    requires a == [] || a[|a| - 1] != '/'
    ensures IndexOfComment(a + "//" + comment) == |a|
  {
    var line := a + "//" + comment;
    assert forall j :: 0 <= j < |a| ==> !CommentAt(line, j) by {
      forall j | 0 <= j < |a| ensures !CommentAt(line, j) {
        if j < |a| - 1 { assert !CommentAt(a, j); }
      }
    }
    assert CommentAt(line, |a|);
    IndexOfCommentIs(line, |a|);
  }

  /** A whitespace-only line yields no records. */
  lemma BlankLine(line: string)
    requires AllWhitespace(line)
    ensures ParseLine(line) == []
  {
    var k := IndexOfComment(line);
    if k >= 0 {
      assert AllWhitespace(line[..k]);
    }
  }

  // ---------------------------------------------------------------------
  // Files

  lemma ParseLinesAppend(a: seq<string>, b: seq<string>)
    ensures ParseLines(a + b) == ParseLines(a) + ParseLines(b)
  {
    ParseLinesConcat(a + b);
    ParseLinesConcat(a);
    ParseLinesConcat(b);
    ConcatAppend(ParseLine, a, b);
  }

  /** The concatenation of f over xs, in order. */
  function Concat(f: string -> seq<ShapeRecord>, xs: seq<string>): seq<ShapeRecord> {
    if xs == [] then [] else Concat(f, xs[..|xs| - 1]) + f(xs[|xs| - 1])
  }

  lemma {:induction false} ConcatAppend(f: string -> seq<ShapeRecord>, a: seq<string>, b: seq<string>)
    ensures Concat(f, a + b) == Concat(f, a) + Concat(f, b)
  {
    if b == [] {
      assert a + b == a;
    } else {
      ConcatAppend(f, a, b[..|b| - 1]);
      assert (a + b)[..|a + b| - 1] == a + b[..|b| - 1];
    }
  }

  lemma {:induction false} ParseLinesConcat(lines: seq<string>)
    ensures ParseLines(lines) == Concat(ParseLine, lines)
  {
    if lines != [] {
      ParseLinesConcat(lines[..|lines| - 1]);
    }
  }

  /** Lines are read independently and in order: the records of two texts
      joined by a newline are those of the first followed by those of the
      second. */
  lemma ParseTextAppend(a: string, b: string)
    ensures ParseText(a + "\n" + b) == ParseText(a) + ParseText(b)
  {
    assert a + "\n" + b == a + ['\n'] + b;
    SplitAround(a, '\n', b);
    ParseLinesAppend(Split(a, '\n'), Split(b, '\n'));
  }

  /** A text of one line yields that line's records. */
  lemma ParseTextOneLine(line: string)
    requires '\n' !in line
    ensures ParseText(line) == ParseLine(line)
  {
    SplitNoSeparator(line, '\n');
    assert [line][..0] == [];
  }

  lemma {:induction false} BlankLines(lines: seq<string>)
    requires forall i :: 0 <= i < |lines| ==> AllWhitespace(lines[i])
    ensures ParseLines(lines) == []
  {
    if lines != [] {
      BlankLines(lines[..|lines| - 1]);
      BlankLine(lines[|lines| - 1]);
    }
  }

  /** A whitespace-only text (empty lines included) yields no records. */
  lemma BlankText(text: string)
    requires AllWhitespace(text)
    ensures ParseText(text) == []
  {
    SplitWhitespace(text, '\n');
    BlankLines(Split(text, '\n'));
  }

  // ---------------------------------------------------------------------
  // Round trip against the canonical text of a record

  /** A record that text can carry exactly: every number read, and a colour
      of six hex digits. */
  predicate WellFormed(r: ShapeRecord) {
    && r.x.Int? && r.y.Int? && r.zIndex.Int? && IsHexColor(r.color)
    && (r.Rectangle? ==> r.width.Int? && r.height.Int?)
    && (r.Triangle? ==> r.size.Int?)
  }

  /** The fields of the canonical definition of a record, in the layout
      type, x, y, zIndex, the shape's own dimensions, then the colour. */
  function FormatFields(r: ShapeRecord): seq<string>
    requires WellFormed(r)
  {
    match r
    case Rectangle(x, y, z, w, h, c) =>
      ["Rectangle", ShowInt(x.value), ShowInt(y.value), ShowInt(z.value), ShowInt(w.value), ShowInt(h.value), c]
    case Triangle(x, y, z, size, c) =>
      ["Triangle", ShowInt(x.value), ShowInt(y.value), ShowInt(z.value), ShowInt(size.value), c]
  }

  /** The canonical text of a file holding the records, one definition
      per line, each closed by ';'. */
  function FormatText(rs: seq<ShapeRecord>): string
    requires forall i :: 0 <= i < |rs| ==> WellFormed(rs[i])
  {
    if rs == [] then []
    else Join(FormatFields(rs[0]), ',') + ";" + "\n" + FormatText(rs[1..])
  }

  /** A field as the canonical text writes it: non-empty, not padded with
      whitespace, and free of the separators and of the comment marker. */
  predicate CanonicalField(f: string) {
    && |f| >= 1 && !IsWhitespace(f[0]) && !IsWhitespace(f[|f| - 1])
    && ',' !in f && ';' !in f && '/' !in f && '\n' !in f
  }

  lemma ShowIntCanonical(n: int)
    ensures CanonicalField(ShowInt(n))
    ensures ParseInt(ShowInt(n)) == Int(n)
  {
    var f := ShowInt(n);
    assert forall i :: 0 <= i < |f| ==> IsDecimalDigit(f[i]) || f[i] == '-' by {
      if n < 0 {
        var d := ShowNat(-n);
        assert f == "-" + d;
        forall i | 1 <= i < |f| ensures IsDecimalDigit(f[i]) {
          assert f[i] == d[i - 1];
        }
      }
    }
    ShowIntLast(n);
    SignedDigitsCanonical(f);
    ParseIntShowInt(n, []);
    assert f + [] == f;
  }

  lemma ShowIntLast(n: int)
    ensures IsDecimalDigit(ShowInt(n)[|ShowInt(n)| - 1])
  {
    if n < 0 {
      var d := ShowNat(-n);
      assert ShowInt(n)[|ShowInt(n)| - 1] == d[|d| - 1];
    }
  }

  lemma SignedDigitsCanonical(f: string)
    requires |f| >= 1 && IsDecimalDigit(f[|f| - 1])
    requires forall i :: 0 <= i < |f| ==> IsDecimalDigit(f[i]) || f[i] == '-'
    ensures CanonicalField(f)
  {
  }

  lemma HexColorCanonical(c: string)
    requires IsHexColor(c)
    ensures CanonicalField(c)
  {
    assert forall i :: 0 <= i < |c| ==> IsHexDigit(c[i]);
  }

  lemma FormatFieldsCanonical(r: ShapeRecord)
    requires WellFormed(r)
    ensures forall i :: 0 <= i < |FormatFields(r)| ==> CanonicalField(FormatFields(r)[i])
  {
    var fs := FormatFields(r);
    TypeNameCanonical(r);
    HexColorCanonical(r.color);
    forall i | 1 <= i < |fs| - 1 ensures CanonicalField(fs[i]) {
      NumberFieldCanonical(r, i);
    }
  }

  lemma TypeNameCanonical(r: ShapeRecord)
    ensures CanonicalField(TypeName(r))
  {
  }

  /** Every field between the type and the colour is a numeral. */
  lemma NumberFieldCanonical(r: ShapeRecord, i: nat)
    requires WellFormed(r)
    requires 1 <= i < |FormatFields(r)| - 1
    ensures CanonicalField(FormatFields(r)[i])
  {
    var n := if i == 1 then r.x.value else if i == 2 then r.y.value
      else if i == 3 then r.zIndex.value else if r.Triangle? then r.size.value
      else if i == 4 then r.width.value else r.height.value;
    assert FormatFields(r)[i] == ShowInt(n);
    ShowIntCanonical(n);
  }

  /** The canonical definition of a well-formed record reads back as it. */
  lemma DefinitionRoundTrip(r: ShapeRecord)
    requires WellFormed(r)
    ensures ParseDefinition(Join(FormatFields(r), ',')) == Some(r)
  {
    var fs := FormatFields(r);
    FormatFieldsCanonical(r);
    CanonicalFieldsRead(fs);
    if r.Rectangle? {
      RectangleFromFields(Join(fs, ','), r);
    } else {
      TriangleFromFields(Join(fs, ','), r);
    }
  }

  lemma RectangleFromFields(def: string, r: ShapeRecord)
    requires WellFormed(r) && r.Rectangle?
    requires Fields(def) == FormatFields(r)
    ensures ParseDefinition(def) == Some(r)
  {
    ShowIntCanonical(r.x.value);
    ShowIntCanonical(r.y.value);
    ShowIntCanonical(r.zIndex.value);
    ShowIntCanonical(r.width.value);
    ShowIntCanonical(r.height.value);
  }

  lemma TriangleFromFields(def: string, r: ShapeRecord)
    requires WellFormed(r) && r.Triangle?
    requires Fields(def) == FormatFields(r)
    ensures ParseDefinition(def) == Some(r)
  {
    ShowIntCanonical(r.x.value);
    ShowIntCanonical(r.y.value);
    ShowIntCanonical(r.zIndex.value);
    ShowIntCanonical(r.size.value);
  }

  lemma CanonicalFieldsRead(fs: seq<string>)
    requires |fs| >= 1
    requires forall i :: 0 <= i < |fs| ==> CanonicalField(fs[i])
    ensures Fields(Join(fs, ',')) == fs
  {
    assert forall i :: 0 <= i < |fs| ==> ',' !in fs[i];
    FieldsOfJoin(fs);
    TrimmedCanonical(fs);
  }

  lemma TrimmedCanonical(fs: seq<string>)
    requires forall i :: 0 <= i < |fs| ==> CanonicalField(fs[i])
    ensures seq(|fs|, i requires 0 <= i < |fs| => Trim(fs[i])) == fs
  {
    var trimmed := seq(|fs|, i requires 0 <= i < |fs| => Trim(fs[i]));
    forall i | 0 <= i < |fs| ensures trimmed[i] == fs[i] {
      TrimUnchanged(fs[i]);
    }
  }

  lemma {:induction false} JoinCanonical(fs: seq<string>)
    requires |fs| >= 1
    requires forall i :: 0 <= i < |fs| ==> CanonicalField(fs[i])
    ensures var d := Join(fs, ',');
      |d| >= 1 && !IsWhitespace(d[0]) && !IsWhitespace(d[|d| - 1])
      && ';' !in d && '/' !in d && '\n' !in d
  {
    if |fs| > 1 {
      JoinCanonical(fs[1..]);
    }
  }

  lemma NoSlashNoComment(s: string)
    requires '/' !in s
    ensures IndexOfComment(s) == -1
  {
  }

  /** A definition closed by ';' is the line's only non-blank definition. */
  lemma ClosedDefinition(d: string)
    requires |d| >= 1 && !IsWhitespace(d[0]) && !IsWhitespace(d[|d| - 1])
    requires ';' !in d && '/' !in d
    ensures ParseLine(d + ";") == Records(ParseDefinition(d))
  {
    ClosedClean(d);
    ClosedSplit(d);
    TrimUnchanged(d);
    OneDefinition(d);
  }

  lemma ClosedClean(d: string)
    requires |d| >= 1 && !IsWhitespace(d[0])
    requires '/' !in d
    ensures CleanLine(d + ";") == d + ";"
  {
    var line := d + ";";
    assert '/' !in line;
    NoSlashNoComment(line);
    TrimUnchanged(line);
  }

  lemma ClosedSplit(d: string)
    requires ';' !in d
    ensures Split(d + ";", ';') == [d, []]
  {
    assert d + ";" == d + [';'] + [];
    SplitAround(d, ';', []);
    SplitNoSeparator(d, ';');
  }

  /** A definition followed by an empty one yields the definition's records. */
  lemma OneDefinition(d: string)
    requires Trim(d) != []
    ensures ParseDefinitions([d, []]) == Records(ParseDefinition(d))
  {
    assert [d, []][..1] == [d];
    assert [d][..0] == [];
    assert DefinitionRecords([]) == [];
    assert ParseDefinitions([d, []]) == ParseDefinitions([d]) + DefinitionRecords([]);
    assert ParseDefinitions([d]) == ParseDefinitions([]) + DefinitionRecords(d);
  }

  /** The canonical line of a well-formed record reads back as that record. */
  lemma LineRoundTrip(r: ShapeRecord)
    requires WellFormed(r)
    ensures ParseLine(Join(FormatFields(r), ',') + ";") == [r]
    ensures '\n' !in Join(FormatFields(r), ',') + ";"
  {
    FormatFieldsCanonical(r);
    JoinCanonical(FormatFields(r));
    ClosedDefinition(Join(FormatFields(r), ','));
    DefinitionRoundTrip(r);
  }

  /** Parsing the canonical text of well-formed records gives them back,
      in order. */
  lemma {:induction false} TextRoundTrip(rs: seq<ShapeRecord>)
    requires forall i :: 0 <= i < |rs| ==> WellFormed(rs[i])
    ensures ParseText(FormatText(rs)) == rs
  {
    if rs == [] {
      ParseTextOneLine([]);
    } else {
      TextRoundTrip(rs[1..]);
      HeadTail(rs);
      TextStep(FormatText(rs), rs[0], FormatText(rs[1..]), rs[1..]);
    }
  }

  lemma HeadTail(rs: seq<ShapeRecord>)
    requires rs != []
    ensures rs == [rs[0]] + rs[1..]
  {
  }

  /** The step of TextRoundTrip: a record's line in front of text that
      reads back as the other records. */
  lemma TextStep(s: string, r: ShapeRecord, rest: string, rs: seq<ShapeRecord>)
    requires WellFormed(r)
    requires s == Join(FormatFields(r), ',') + ";" + "\n" + rest
    requires ParseText(rest) == rs
    ensures ParseText(s) == [r] + rs
  {
    var line := Join(FormatFields(r), ',') + ";";
    LineText(r);
    TextOfTwo(s, line, rest, r, rs);
  }

  lemma LineText(r: ShapeRecord)
    requires WellFormed(r)
    ensures ParseText(Join(FormatFields(r), ',') + ";") == [r]
  {
    LineRoundTrip(r);
    ParseTextOneLine(Join(FormatFields(r), ',') + ";");
  }

  lemma TextOfTwo(s: string, a: string, b: string, r: ShapeRecord, rs: seq<ShapeRecord>)
    requires s == a + "\n" + b
    requires ParseText(a) == [r] && ParseText(b) == rs
    ensures ParseText(s) == [r] + rs
  {
    ParseTextAppend(a, b);
  }
}
