/** The data side of ShapeRenderer: the list of shape records it holds,
    and how opening a file replaces that list with the file's records in
    paint order. The Three.js scene, camera and meshes are not modelled. */
module Renderer {
  import opened Shapefile
  import opened ZOrder

  class ShapeRenderer {
    /** The records to paint, in the order they are painted after render. */
    var shapes: seq<ShapeRecord>

    /** A new renderer holds no shapes. */
    constructor ()
      ensures shapes == []
    {
      shapes := [];
    }

    /** Forgets every shape. */
    method Clear()
      modifies this
      ensures shapes == []
    {
      shapes := [];
    }

    /** Appends one record; the records already held stay as they were. */
    method AddShape(shapeData: ShapeRecord)
      modifies this
      ensures shapes == old(shapes) + [shapeData]
    {
      shapes := shapes + [shapeData];
    }

    /** Sorts the held records by zIndex, stably, before painting them: the
      same records, none after a record with a greater zIndex, and the
      records of each zIndex in the order they were added. */
    method Render()
      modifies this
      ensures shapes == SortByZ(old(shapes))
      ensures multiset(shapes) == multiset(old(shapes))
      ensures ZSorted(shapes)
      ensures forall z :: WithZ(shapes, z) == WithZ(old(shapes), z)
    {
      ghost var before := shapes;
      shapes := SortByZIndex(shapes);
      SortPermutes(before);
      SortSorted(before);
      forall z ensures WithZ(shapes, z) == WithZ(before, z) {
        SortStable(before, z);
      }
    }
  }

  /** What opening a file does to the renderer: its shapes become the
      records parsed from the file's text, sorted into paint order; the
      records held before are gone. */
  method OpenShapeFile(renderer: ShapeRenderer, content: string)
    modifies renderer
    ensures renderer.shapes == SortByZ(ParseText(content))
  {
    var shapes := ParseShapeFile(content);
    renderer.Clear();
    var i := 0;
    while i < |shapes|
      invariant 0 <= i <= |shapes|
      invariant renderer.shapes == shapes[..i]
    {
      renderer.AddShape(shapes[i]);
      PrefixSnoc(shapes, i);
      i := i + 1;
    }
    assert shapes[..i] == shapes;
    renderer.Render();
  }

  lemma PrefixSnoc(s: seq<ShapeRecord>, i: nat)
    requires i < |s|
    ensures s[..i + 1] == s[..i] + [s[i]]
  {
  }
}
