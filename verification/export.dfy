/**
 * What the export writes for the committed polygons: one closed ring per
 * polygon for the shapefile, and a flat table of the stored world vertices.
 */
module Export {
  import opened Wrappers
  import opened Affine
  import opened Polygons

  /**
   * Vertex equality as the ring test sees it: NaN equals nothing, so an undefined
   * vertex never matches, not even another undefined one.
   */
  predicate SameVertex(a: Option<World>, b: Option<World>) {
    a.Some? && b.Some? && a.value == b.value
  }

  /**
   * Closes a ring for the shapefile: the first vertex is appended when it differs
   * from the last one. The input sequence itself is left as it was. A committed
   * polygon has at least three vertices, so the first and the last are always
   * two separately mapped vertices.
   */
  function CloseRing(pts: seq<Option<World>>): (ring: seq<Option<World>>)
    requires |pts| > 1
    ensures |ring| == |pts| || |ring| == |pts| + 1
    ensures ring[..|pts|] == pts
    ensures |ring| == |pts| + 1 <==> !SameVertex(pts[0], pts[|pts| - 1])
    ensures ring[|ring| - 1] == pts[0] || SameVertex(pts[0], ring[|ring| - 1])
  {
    if SameVertex(pts[0], pts[|pts| - 1]) then pts else pts + [pts[0]]
  }

  /** Every vertex is defined. */
  predicate Defined(pts: seq<Option<World>>) {
    forall i :: 0 <= i < |pts| ==> pts[i].Some?
  }

  /** For a ring of defined vertices the result is closed, and closing it again changes nothing. */
  lemma CloseRingIdempotent(pts: seq<Option<World>>)
    requires |pts| > 1 && Defined(pts)
    ensures SameVertex(CloseRing(pts)[0], CloseRing(pts)[|CloseRing(pts)| - 1])
    ensures CloseRing(CloseRing(pts)) == CloseRing(pts)
  {
    var ring := CloseRing(pts);
    assert ring[0] == pts[0];
  }

  /**
   * A ring of two or more vertices whose first vertex is undefined is always
   * closed by appending: the NaN pairs of two separately mapped vertices never
   * compare equal.
   */
  lemma CloseRingUndefinedStart(pts: seq<Option<World>>)
    requires |pts| > 1 && pts[0].None?
    ensures |CloseRing(pts)| == |pts| + 1 && CloseRing(pts)[|pts|] == None
  {
  }

  /** One shape of the shapefile: the single closed ring and the ID and NAME attributes. */
  datatype ShapeRecord = ShapeRecord(id: int, name: string, ring: seq<Option<World>>)

  /** Every polygon has a first and a distinct last vertex to close the ring with. */
  predicate Closable(polys: seq<DigitizedPolygon>) {
    forall k :: 0 <= k < |polys| ==> |polys[k].world| > 1
  }

  /** The shape written for one polygon. */
  function ShapeOf(p: DigitizedPolygon): (shape: ShapeRecord)
    requires |p.world| > 1
    ensures shape.id == p.id && shape.name == p.name
    ensures |shape.ring| == |p.world| || |shape.ring| == |p.world| + 1
    ensures shape.ring[..|p.world|] == p.world
    ensures |shape.ring| == |p.world| + 1 <==> !SameVertex(p.world[0], p.world[|p.world| - 1])
  {
    ShapeRecord(p.id, p.name, CloseRing(p.world))
  }

  /** The shapes in polygon order. */
  function Shapes(polys: seq<DigitizedPolygon>): (shapes: seq<ShapeRecord>)
    requires Closable(polys)
    ensures |shapes| == |polys|
    ensures forall k :: 0 <= k < |polys| ==> shapes[k] == ShapeOf(polys[k])
  {
    seq(|polys|, k requires 0 <= k < |polys| => ShapeOf(polys[k]))
  }

  /** The header row of the vertex table. */
  const VertexHeader: seq<string> := ["poly_id", "name", "vertex_index", "x", "y"]

  /** One data row of the vertex table: poly_id, name, vertex_index, then x and y. */
  datatype VertexRow = VertexRow(polyId: int, name: string, vertexIndex: nat, pos: Option<World>)

  /** The rows of one polygon, over its stored (unclosed) world vertices. */
  function RowsOf(p: DigitizedPolygon): (rows: seq<VertexRow>)
    ensures |rows| == |p.world|
  {
    seq(|p.world|, i requires 0 <= i < |p.world| => VertexRow(p.id, p.name, i, p.world[i]))
  }

  /** The data rows of the vertex table: polygon order, then vertex order. */
  function VertexRows(polys: seq<DigitizedPolygon>): (rows: seq<VertexRow>)
    ensures |rows| == TotalVertices(polys)
    decreases |polys|
  {
    if polys == [] then [] else VertexRows(polys[..|polys| - 1]) + RowsOf(polys[|polys| - 1])
  }

  /** Number of stored world vertices over all polygons. */
  function TotalVertices(polys: seq<DigitizedPolygon>): nat
    decreases |polys|
  {
    if polys == [] then 0 else TotalVertices(polys[..|polys| - 1]) + |polys[|polys| - 1].world|
  }

  /**
   * The table layout: one row per stored world vertex, and the rows of polygon k
   * start after the vertices of the polygons before it, with vertex_index counting
   * from 0 within the polygon.
   */
  lemma {:induction false} VertexRowsLayout(polys: seq<DigitizedPolygon>)
    ensures |VertexRows(polys)| == TotalVertices(polys)
    ensures forall k :: 0 <= k < |polys| ==> TotalVertices(polys[..k]) + |polys[k].world| <= TotalVertices(polys)
    ensures forall k, i :: 0 <= k < |polys| && 0 <= i < |polys[k].world| ==>
      VertexRows(polys)[TotalVertices(polys[..k]) + i] == VertexRow(polys[k].id, polys[k].name, i, polys[k].world[i])
  {
    forall k | 0 <= k < |polys|
      ensures TotalVertices(polys[..k]) + |polys[k].world| <= TotalVertices(polys)
    {
      TotalVerticesPrefix(polys, k);
    }
    forall k, i | 0 <= k < |polys| && 0 <= i < |polys[k].world|
      ensures VertexRows(polys)[TotalVertices(polys[..k]) + i] == VertexRow(polys[k].id, polys[k].name, i, polys[k].world[i])
    {
      VertexRowAt(polys, k, i);
    }
  }

  /** The row of vertex i of polygon k sits after the vertices of the polygons before k. */
  lemma {:induction false} VertexRowAt(polys: seq<DigitizedPolygon>, k: nat, i: nat)
    requires k < |polys| && i < |polys[k].world|
    ensures TotalVertices(polys[..k]) + i < |VertexRows(polys)|
    ensures VertexRows(polys)[TotalVertices(polys[..k]) + i] == VertexRow(polys[k].id, polys[k].name, i, polys[k].world[i])
    decreases |polys|
  {
    var n := |polys| - 1;
    var init := polys[..n];
    TotalVerticesPrefix(polys, k);
    assert VertexRows(polys) == VertexRows(init) + RowsOf(polys[n]);
    if k < n {
      assert polys[..k] == init[..k];
      assert init[k] == polys[k];
      VertexRowAt(init, k, i);
    } else {
      assert polys[..k] == init;
      assert RowsOf(polys[n])[i] == VertexRow(polys[k].id, polys[k].name, i, polys[k].world[i]);
    }
  }

  /** The vertices before polygon k are no more than the vertices of the whole list. */
  lemma {:induction false} TotalVerticesPrefix(polys: seq<DigitizedPolygon>, k: nat)
    requires k < |polys|
    ensures TotalVertices(polys[..k]) + |polys[k].world| <= TotalVertices(polys)
    decreases |polys|
  {
    var n := |polys| - 1;
    assert polys[..n][..k] == polys[..k] by {
      if k < n {
        assert polys[..n][..k] == polys[..k];
      }
    }
    if k < n {
      TotalVerticesPrefix(polys[..n], k);
      assert polys[..n][k] == polys[k];
    } else {
      assert polys[..k] == polys[..n];
    }
  }

  /** The shapefile loop: one shape per polygon, in order. */
  method WriteShapes(polys: seq<DigitizedPolygon>) returns (shapes: seq<ShapeRecord>)
    requires Closable(polys)
    ensures shapes == Shapes(polys)
  {
    shapes := [];
    var k := 0;
    while k < |polys|
      invariant 0 <= k <= |polys|
      invariant |shapes| == k
      invariant forall j :: 0 <= j < k ==> shapes[j] == ShapeOf(polys[j])
    {
      var pts := polys[k].world;
      if !SameVertex(pts[0], pts[|pts| - 1]) {
        pts := pts + [pts[0]];
      }
      shapes := shapes + [ShapeRecord(polys[k].id, polys[k].name, pts)];
      k := k + 1;
    }
  }

  /** The vertex CSV loop: for each polygon, one row per stored world vertex. */
  method WriteVertexRows(polys: seq<DigitizedPolygon>) returns (rows: seq<VertexRow>)
    ensures rows == VertexRows(polys)
  {
    rows := [];
    var k := 0;
    while k < |polys|
      invariant 0 <= k <= |polys|
      invariant rows == VertexRows(polys[..k])
    {
      var p := polys[k];
      var i := 0;
      while i < |p.world|
        invariant 0 <= i <= |p.world|
        invariant rows == VertexRows(polys[..k]) + RowsOf(p)[..i]
      {
        rows := rows + [VertexRow(p.id, p.name, i, p.world[i])];
        i := i + 1;
      }
      assert polys[..k + 1][..k] == polys[..k];
      k := k + 1;
    }
    assert polys[..|polys|] == polys;
  }
}
