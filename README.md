# Shape viewer: parser and render order

This project models the data core of a small browser viewer for
`.shapefile` text files (`index.js`). It has four parts.

1. **The parser.** `parseShapeFile` splits the text on newlines and strips
   each line from its first `//`. It trims the line and splits it on `;`
   into definitions. It splits each non-blank definition on `,` into
   trimmed fields, then reads it as a `Rectangle` or a `Triangle`. The
   numeric fields are read with `parseInt`. The colour is the last field.
   `parseInt` is modelled in full on integers: leading whitespace, an
   optional `+` or `-`, leading zeros, and a `0x` or `0X` prefix, which
   selects hexadecimal even without a radix (`"0x1F"` reads as 31).
2. **The renderer's list of shapes.** `ShapeRenderer.shapes` is emptied by
   `clear`, and `addShape` appends to it. `render` sorts it in place with
   `(a, b) => a.zIndex - b.zIndex`.
3. **Opening a file.** This parses the file's text, clears the renderer,
   adds the records in order and renders.
4. **The colour decode.** `parseInt("0x" + color, 16)` turns the colour
   field into the number given to the material.

Modules:

- `Strings` (`strings.dfy`) models the JavaScript string built-ins the
  parser uses: `trim`, `split` with one character, and `indexOf("//")`.
  It also defines `Join`, which the parser does not use. `Join` is a proof
  helper: it is the inverse of `Split` in `JoinSplit` and `SplitJoin`, and
  `FormatText` writes fields and definitions with it.
- `Numbers` (`numbers.dfy`) models ECMAScript `parseInt`, with or without
  radix 16, on the values it returns. A result is an integer or `NaN`.
  This module also holds the colour decode.
- `Shapefile` (`shapefile.dfy`) has the record datatype and the parser.
  - The parser is a method with the source's nested loops. It is proved
    equal to the specification function `ParseText`.
  - The lemmas state the format's rules: which definitions are dropped,
    which field goes where, comments, blank lines, and how lines and
    definitions compose.
  - `FormatText` writes records as canonical text. It is a reference
    inverse written for the proofs, not code from the viewer. The
    round-trip lemma `TextRoundTrip` says the parser reads back every
    well-formed record list from it.
- `ZOrder` (`zorder.dfy`) models the render-order sort.
  - `SortByZ` specifies it as a stable insertion sort under the source's
    comparator. A difference that is `NaN` counts as 0, as in ECMAScript's
    SortCompare.
  - The loop methods `InsertByZ` and `SortByZIndex` are proved equal to
    `SortByZ`.
  - The lemmas prove permutation, order, stability and idempotence. They
    also prove that when every zIndex is a number, `SortByZ` is the only
    result a stable sort can give.
- `Renderer` (`renderer.dfy`) has the `ShapeRenderer` class with its
  `shapes` field, and `OpenShapeFile`.

Later versions of the `.shapefile` format have Polygon records, and
Triangles given by width and height. This code reads neither, and the
model follows the code.

- The code reads a Triangle from `size` only. In a seven-field Triangle
  (`width, height` form), the width is read as the size and the height is
  ignored (`SevenFieldTriangle`).
- The code has no `Polygon` type, so a Polygon definition is dropped.

## Model

| member | source | states |
|---|---|---|
| Shapefile.ParseShapeFile | index.js:161-221 | The records returned are exactly `ParseText` of the file: the lines in order, and each line's records in order. |
| Shapefile.PushLineRecords | index.js:165-219 | Processing one line appends that line's records, and only those, to the records collected so far. |
| Shapefile.PushDefinitionRecord | index.js:179-217 | Processing one definition appends no record if it is dropped, or else the one record it denotes. |
| Shapefile.DroppedDefinitions | index.js:182-215 | A definition is dropped if it has fewer than five fields, if its type is neither exactly `Rectangle` nor exactly `Triangle`, or if it is a five-field Rectangle. The converse, that every other definition yields a record, is in `ParseDefinition`'s contract. |
| Shapefile.ParseDefinition | index.js:182-216 | A definition yields a record exactly when it has at least five fields and its type is `Triangle`, or at least six and its type is `Rectangle`. The record's type is the definition's first field. |
| Shapefile.Fields | index.js:182 | There is one field per comma-separated piece. No field starts or ends with whitespace, and a field is empty exactly when its piece is all whitespace. |
| Shapefile.FieldsSlice | index.js:182 | Field k is a slice of piece k of the comma split, with only whitespace before and after the slice. |
| Shapefile.TypeName | index.js:186 | A record's `type` is `Rectangle` for a Rectangle and `Triangle` for a Triangle. |
| Shapefile.RectangleOf | index.js:192-204 | A definition of at least six fields whose type is `Rectangle` reads as a Rectangle: x, y and zIndex from fields 1-3, width and height from fields 4-5, and the last field as its colour. |
| Shapefile.TriangleOf | index.js:205-214 | A definition of at least five fields whose type is `Triangle` reads as a Triangle with x, y, zIndex and size from fields 1-4 and the last field as its colour. |
| Shapefile.CleanLine | index.js:167-171 | A cleaned line neither starts nor ends with whitespace, and is no longer than the line. |
| Shapefile.CleanLineSlice | index.js:167-171 | A cleaned line is a slice of the text before the first `//` (the whole line when there is none), with only whitespace before and after the slice. |
| Shapefile.CleanLineNoComment | index.js:167-171 | A cleaned line contains no `//`: the first marker and all after it are gone, and trimming cannot create one. |
| Shapefile.AcceptedDefinition | index.js:182-214 | In an accepted record, the type is field 0 and x, y, zIndex are `parseInt` of fields 1-3. A Rectangle's width and height come from fields 4-5, a Triangle's size from field 4, and the colour is the last field. |
| Shapefile.SixFieldRectangle | index.js:190-194 | In a six-field Rectangle, the sixth field is read both as the height and as the colour. |
| Shapefile.SevenFieldTriangle | index.js:205-206 | A seven-field Triangle takes its fifth field as the size and ignores the sixth. |
| Shapefile.ParseDefinitionsAppend | index.js:177-179 | A line's definitions are read independently and in order. |
| Shapefile.ParseDefinitionsBound | index.js:179-217 | A line yields at most one record per non-blank definition. |
| Shapefile.CommentTailIgnored | index.js:167-171 | Text after the first `//` of a line has no effect on the records read. |
| Shapefile.CommentAppended | index.js:167-171 | Appending a `//` comment to a comment-free line that does not end in `/` leaves the records unchanged. |
| Shapefile.BlankLine | index.js:167-173 | A whitespace-only line yields no records. |
| Shapefile.BlankText | index.js:163-173 | A whitespace-only text, including the empty text, yields no records. |
| Shapefile.ParseTextAppend | index.js:163-165 | The records of `a + "\n" + b` are the records of `a` followed by those of `b`, for all texts `a` and `b`. |
| Shapefile.ParseTextOneLine | index.js:163 | A text with no newline is read as a single line. |
| Shapefile.LineRoundTrip | index.js:177-217 | The canonical `;`-terminated definition of a well-formed record parses back to exactly that record. |
| Shapefile.TextRoundTrip | index.js:161-221 | The parser reads back every list of well-formed records from its canonical text. |
| Strings.Trim | index.js:170 | The result neither starts nor ends with whitespace. It is empty exactly when the input is all whitespace. |
| Strings.TrimStartSuffix | index.js:170 | Trimming leading whitespace leaves a suffix of the input. |
| Strings.TrimEndPrefix | index.js:170 | Trimming trailing whitespace leaves a prefix of the input. |
| Strings.TrimSlice | index.js:170 | The trim of a string is one slice of it, with only whitespace before and after the slice. |
| Strings.TrimUnchanged | index.js:182 | A string with no whitespace at either end is its own trim. |
| Strings.IndexOfComment | index.js:167 | The result is the first index where `//` starts, or -1 when `//` does not occur. |
| Strings.IndexOfCommentIs | index.js:167 | The position of a `//` with none before it is what the marker search returns. |
| Strings.Split | index.js:163 | Splitting always gives at least one piece, and no piece contains the separator. |
| Strings.JoinSplit | index.js:163 | Joining the pieces of a split with the separator restores the string. |
| Strings.SplitJoin | index.js:182 | Splitting the join of separator-free pieces gives the pieces back. |
| Strings.SplitAround | index.js:163 | Splitting at one separator splits the two sides independently. |
| Strings.SplitNoSeparator | index.js:177 | A string with no separator splits into itself alone. |
| Strings.SplitWhitespace | index.js:163 | Every piece of a whitespace-only string is whitespace-only. |
| Numbers.ParseIntRadix | index.js:102 | The result is a number exactly when, after the leading whitespace and an optional sign, a digit of the radix follows and, after a `0x` or `0X` prefix, a hex digit as well. Otherwise it is NaN. A negative number is read only after a `-`. |
| Numbers.ParseInt | index.js:187-189 | A numeric field reads as a number exactly when, after the leading whitespace and an optional sign, a decimal digit follows and, after a `0x` or `0X` prefix, a hex digit as well. So `0x` alone, a sign before a blank, and two signs read as NaN. A negative number is read only after a `-`. |
| Numbers.NaNExamples | index.js:187 | `"0x"`, `"0xZZ"`, `"- 5"` and `"+-5"` read as NaN. |
| Numbers.StartsPlus | index.js:187 | A leading `+` changes nothing, when the rest starts with neither whitespace nor a sign. |
| Numbers.HexPrefixReads | index.js:187 | Without a radix, `0x` or `0X` followed by a hex digit reads the hex digits after it as a hexadecimal number. |
| Numbers.PlusExample | index.js:187 | `"+5"` reads as 5. |
| Numbers.ZerosExample | index.js:187 | `"007"` reads as 7. |
| Numbers.HexExample | index.js:187 | `"0x1F"` reads as 31. |
| Numbers.DigitRun | index.js:187 | This is the longest run of digits at the start of the text, the run `parseInt` reads. |
| Numbers.ParseIntShowInt | index.js:187-189 | `parseInt` reads back the decimal numeral of every integer. Trailing text is ignored unless it starts with a digit, or with `x` after a lone `0`. |
| Numbers.StartsUnsigned | index.js:187 | A leading `-` negates what the rest of the text reads as, when the rest starts with neither whitespace nor a sign. |
| Numbers.ParseIntNoDigit | index.js:187 | A field that is empty, or that starts with neither whitespace, a sign nor a digit, reads as NaN. |
| Numbers.ColorToInt | index.js:102 | The decode is NaN exactly when the colour does not start with a hex digit. A six-hex-digit colour decodes to its hexadecimal value, which is below 0x1000000. |
| Numbers.ColorRoundTrip | index.js:139 | Every colour value below 0x1000000, written as six hex digits, decodes to itself. |
| ZOrder.InsertByZ | index.js:84 | The loop puts a record before the first record that compares greater than it, as `Insert` does. |
| ZOrder.SortByZIndex | index.js:84 | The insertion-sort loop returns `SortByZ` of its input. |
| ZOrder.Greater | index.js:84 | `a` goes after `b` exactly when the comparator's value `a.zIndex - b.zIndex` is a positive number. A NaN difference counts as 0, so a record whose zIndex is NaN never compares greater. |
| ZOrder.GreaterStrictOrder | index.js:84 | The comparator is irreflexive, asymmetric and transitive. Two records tie exactly when their zIndex values are equal or either is NaN. |
| ZOrder.Insert | index.js:84 | Inserting a record adds exactly one element, and the records present afterwards are the inserted one and those already there. `InsertPermutes` states the multiset. |
| ZOrder.SortByZ | index.js:84 | Sorting keeps the length and the set of records. `SortPermutes`, `SortSorted` and `SortStable` state the multiset, the order and the stability. |
| ZOrder.InsertAt | index.js:84 | Inserting a record places it at the first index whose record compares greater. |
| ZOrder.SortPermutes | index.js:84 | The sort returns the same multiset of records. |
| ZOrder.SortSorted | index.js:84 | After the sort, no record follows one with a greater zIndex. |
| ZOrder.SortStable | index.js:84 | For every zIndex value, the records with that zIndex keep their relative order. |
| ZOrder.SortSortedUnchanged | index.js:84 | Sorting records that are already in zIndex order leaves them unchanged. |
| ZOrder.SortIdempotent | index.js:84 | Rendering twice gives the same order as rendering once. |
| ZOrder.StableSortUnique | index.js:84 | When every zIndex is a number, any stable ordering by zIndex equals `SortByZ`. So the model's order is the one `Array.prototype.sort` must produce. |
| ZOrder.StableExample | index.js:84 | Records added with zIndex 2, 1, 1, 0 are painted 0, 1, 1, 2, and the two zIndex-1 records keep the order they were added in. |
| Renderer.ShapeRenderer.constructor | index.js:10 | A new renderer holds no shapes. |
| Renderer.ShapeRenderer.Clear | index.js:67-72 | After `clear`, the renderer holds no shapes. |
| Renderer.ShapeRenderer.AddShape | index.js:74-76 | The new list is the old one with the record appended, so the records already held are unchanged. |
| Renderer.ShapeRenderer.Render | index.js:78-84 | The shapes become `SortByZ` of what they were: the same records, in zIndex order, with each zIndex's records in the order they were added. |
| Renderer.OpenShapeFile | index.js:229-237 | After opening a file, the renderer holds exactly the file's parsed records in render order. Whatever it held before is gone. |

## Left out

- Three.js is not modelled: the scene, the camera, meshes, geometry, materials, window resizing and `requestAnimationFrame` are left out. Their numbers are floating point, and they change nothing in the shape list. This is why `clear` and `render` are modelled only for `shapes`, without `meshes`.
- `renderRectangle` and `renderTriangle` are left out except for their colour decode. Their positions and vertices are floating-point geometry.
- The `FileReader`, the file input, the DOM buttons and the `file.name` label are I/O. `OpenShapeFile` takes the text that `FileReader` delivers as a parameter.
- The serializer, the Polygon type, `moveShape` and form validation are not part of this model. They are not in `index.js`.
- Numbers.ParseIntRadix: JavaScript numbers are IEEE doubles. The model's integers are exact, so numerals beyond 2^53 (rounded in JavaScript) or near the double range (Infinity in JavaScript) are not modelled. The sign of `-0` is not kept.
- Strings.Trim: JavaScript strings are UTF-16 code units, and the model's `char` is a Unicode scalar value. Unpaired surrogates are not represented.
- ZOrder.SortByZIndex: when a zIndex is NaN, the comparator is not consistent. ECMAScript then leaves the order implementation-defined. The model's insertion sort gives one such order. Only the permutation property is promised by JavaScript in that case. `StableSortUnique` applies only when every zIndex is a number.
- Renderer.ShapeRenderer.Render: the sort is modelled on the sequence value of `shapes`, replaced as a whole. The list is owned by the renderer and not shared, so aliasing through it is not modelled.
- Renderer.ShapeRenderer.AddShape: the model copies records as values. In JavaScript, the renderer holds the same objects the parser created.
