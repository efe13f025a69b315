/**
 * The georeferencing session: the state the application window keeps between
 * user actions, and one method per action. The widgets, the drawing and the
 * dialogs are gone; what a dialog answered arrives as a parameter.
 */
module GeoRef {
  import opened Wrappers
  import opened Affine
  import opened ControlPoints
  import opened Fitting
  import opened Polygons
  import opened Export

  /** Stage 1 collects control points; stage 2 digitizes polygons. */
  datatype Stage = PointStage | PolygonStage

  /** A snapshot of every field of the session, to say what an action changes and what it keeps. */
  datatype SessionState = SessionState(
    imagePath: Option<string>,
    points: seq<ControlPoint>,
    transform: Option<Transform>,
    stage: Stage,
    drawing: bool,
    mousePressed: bool,
    rectStart: Option<Pixel>,
    buffer: seq<Pixel>,
    polygons: seq<DigitizedPolygon>,
    nextPolyId: int)

  /**
   * The polygon list and its id counter agree: the counter is at least 1, every
   * polygon is well formed, ids strictly increase along the list and all of them
   * lie below the counter.
   */
  predicate IdsValid(polys: seq<DigitizedPolygon>, nextId: int) {
    nextId >= 1 &&
    (forall k :: 0 <= k < |polys| ==> WellFormed(polys[k]) && 1 <= polys[k].id < nextId) &&
    (forall j, k :: 0 <= j < k < |polys| ==> polys[j].id < polys[k].id)
  }

  /**
   * What finishing the buffer does to the session: a commit when the buffer has
   * more than two vertices, taking the counter as id and advancing it; in both
   * cases the buffer is emptied and drawing stops.
   */
  function Finished(s: SessionState, typed: Option<string>): (r: SessionState)
    requires s.nextPolyId >= 0
    ensures r.buffer == [] && !r.drawing
    ensures |s.buffer| > MinCommitVertices ==>
      |r.polygons| == |s.polygons| + 1 && r.polygons[..|s.polygons|] == s.polygons &&
      r.polygons[|s.polygons|].id == s.nextPolyId && r.polygons[|s.polygons|].pixels == s.buffer &&
      r.polygons[|s.polygons|].name == PolygonName(typed, s.nextPolyId) &&
      r.polygons[|s.polygons|].world == MapToWorld(s.transform, s.buffer) &&
      r.nextPolyId == s.nextPolyId + 1
    ensures |s.buffer| <= MinCommitVertices ==> r.polygons == s.polygons && r.nextPolyId == s.nextPolyId
    ensures r.(buffer := s.buffer, drawing := s.drawing, polygons := s.polygons, nextPolyId := s.nextPolyId) == s
  {
    var c := Commit(s.buffer, typed, s.nextPolyId, s.transform);
    s.(polygons := if c.Some? then s.polygons + [c.value] else s.polygons,
       nextPolyId := if c.Some? then s.nextPolyId + 1 else s.nextPolyId,
       buffer := [],
       drawing := false)
  }

  /**
   * Finishing keeps the id invariant, and a committed polygon's id is larger than
   * every id already in the list.
   */
  lemma FinishedKeepsIdsValid(s: SessionState, typed: Option<string>)
    requires IdsValid(s.polygons, s.nextPolyId)
    ensures IdsValid(Finished(s, typed).polygons, Finished(s, typed).nextPolyId)
    ensures Finished(s, typed).nextPolyId >= s.nextPolyId
    ensures |Finished(s, typed).polygons| == |s.polygons| + 1 ==>
      forall k :: 0 <= k < |s.polygons| ==> s.polygons[k].id < Finished(s, typed).polygons[|s.polygons|].id
  {
  }

  /**
   * The ids handed out so far: every listed polygon's id among them, and all of
   * them below the counter, on top of the id invariant.
   */
  predicate Accounted(polys: seq<DigitizedPolygon>, issued: set<int>, nextId: int) {
    IdsValid(polys, nextId) &&
    (forall k :: 0 <= k < |polys| ==> polys[k].id in issued) &&
    (forall id :: id in issued ==> id < nextId)
  }

  /**
   * Appending a well-formed polygon under the counter and advancing the counter
   * keeps the accounting, and the id it takes had never been handed out.
   */
  lemma {:induction false} IssueKeepsAccounted(polys: seq<DigitizedPolygon>, issued: set<int>, nextId: int, p: DigitizedPolygon)
    requires Accounted(polys, issued, nextId)
    requires WellFormed(p) && p.id == nextId
    ensures nextId !in issued
    ensures Accounted(polys + [p], issued + {nextId}, nextId + 1)
  {
    var ps := polys + [p];
    forall k | 0 <= k < |ps|
      ensures WellFormed(ps[k]) && 1 <= ps[k].id < nextId + 1 && ps[k].id in issued + {nextId}
    {
      if k < |polys| {
        assert ps[k] == polys[k];
      }
    }
    forall j, k | 0 <= j < k < |ps|
      ensures ps[j].id < ps[k].id
    {
      assert ps[j] == polys[j];
      if k < |polys| {
        assert ps[k] == polys[k];
      }
    }
  }

  /** Removing the last polygon keeps the id invariant without touching the counter. */
  lemma DropLastKeepsIdsValid(polys: seq<DigitizedPolygon>, nextId: int)
    requires IdsValid(polys, nextId) && |polys| > 0
    ensures IdsValid(polys[..|polys| - 1], nextId)
  {
  }

  /** What the export produced, or why nothing was written. */
  datatype ExportOutcome =
    | NoPolygons
    | Cancelled
    | WriterMissing
    | Written(shapes: seq<ShapeRecord>, header: seq<string>, rows: seq<VertexRow>)

  /** The application's session state. */
  class Session {
    var imagePath: Option<string>
    var points: seq<ControlPoint>
    var transform: Option<Transform>
    var stage: Stage
    var drawing: bool
    var mousePressed: bool
    var rectStart: Option<Pixel>
    var buffer: seq<Pixel>
    var polygons: seq<DigitizedPolygon>
    var nextPolyId: int
    /** Every id handed out since the last image was loaded, deleted polygons included. */
    ghost var issued: set<int>

    /** The current field values. */
    ghost function State(): SessionState
      reads this
    {
      SessionState(imagePath, points, transform, stage, drawing, mousePressed, rectStart, buffer, polygons, nextPolyId)
    }

    /** The id invariant, and every listed id was issued and every issued id lies below the counter. */
    ghost predicate Valid()
      reads this
    {
      Accounted(polygons, issued, nextPolyId)
    }

    /** A fresh window: no image, no points, no transform, stage 1, counter at 1. */
    constructor ()
      ensures Valid()
      ensures State() == SessionState(None, [], None, PointStage, false, false, None, [], [], 1)
      ensures issued == {}
    {
      imagePath := None;
      points := [];
      transform := None;
      stage := PointStage;
      drawing := false;
      mousePressed := false;
      rectStart := None;
      buffer := [];
      polygons := [];
      nextPolyId := 1;
      issued := {};
    }

    /**
     * Loading an image (an empty path is a cancelled dialog; `readable` is false when
     * the image could not be read). A loaded image clears the points, the transform
     * and the polygons and restarts the counter at 1; the stage, the drawing flags
     * and the buffer are kept.
     */
    method LoadImage(path: string, readable: bool)
      requires Valid()
      modifies this
      ensures Valid()
      ensures path == "" || !readable ==> State() == old(State()) && issued == old(issued)
      ensures path != "" && readable ==>
        State() == old(State()).(imagePath := Some(path), points := [], transform := None, polygons := [], nextPolyId := 1) &&
        issued == {}
    {
      if path == "" || !readable {
        return;
      }
      imagePath := Some(path);
      points := [];
      transform := None;
      polygons := [];
      nextPolyId := 1;
      issued := {};
    }

    /**
     * The commit step shared by the rectangle click and the freehand release. A
     * committed polygon takes an id that was never issued before in this session.
     */
    method FinishPolygon(typed: Option<string>)
      requires Valid()
      modifies this
      ensures Valid()
      ensures State() == Finished(old(State()), typed)
      ensures |old(buffer)| > MinCommitVertices ==>
        old(nextPolyId) !in old(issued) && issued == old(issued) + {old(nextPolyId)}
      ensures |old(buffer)| <= MinCommitVertices ==> issued == old(issued)
    {
      if |buffer| > MinCommitVertices {
        var poly := DigitizedPolygon(PolygonName(typed, nextPolyId), buffer, MapToWorld(transform, buffer), nextPolyId);
        assert Commit(buffer, typed, nextPolyId, transform) == Some(poly);
        IssueKeepsAccounted(polygons, issued, nextPolyId, poly);
        polygons := polygons + [poly];
        issued := issued + {nextPolyId};
        nextPolyId := nextPolyId + 1;
      }
      buffer := [];
      drawing := false;
    }

    /**
     * A click on the image. Stage 1 appends a control point with no world
     * coordinates once an image is loaded. Stage 2 while drawing: freehand marks the
     * press and appends the position; rectangle takes the first corner, or on the
     * second click builds the four-corner buffer and finishes the polygon.
     */
    method Click(mode: DrawMode, p: Pixel, typed: Option<string>)
      requires Valid()
      modifies this
      ensures Valid()
      ensures old(stage) == PolygonStage && old(drawing) && mode == Rectangle && old(rectStart).Some? ==>
        old(nextPolyId) !in old(issued) && issued == old(issued) + {old(nextPolyId)}
      ensures !(old(stage) == PolygonStage && old(drawing) && mode == Rectangle && old(rectStart).Some?) ==>
        issued == old(issued)
      ensures old(stage) == PointStage ==>
        State() == old(State()).(points := if old(imagePath).Some? then old(points) + [ControlPoint(p.col, p.row, None, None)] else old(points))
      ensures old(stage) == PolygonStage && !old(drawing) ==> State() == old(State())
      ensures old(stage) == PolygonStage && old(drawing) && mode == Freehand ==>
        State() == old(State()).(mousePressed := true, buffer := old(buffer) + [p])
      ensures old(stage) == PolygonStage && old(drawing) && mode == Rectangle && old(rectStart).None? ==>
        State() == old(State()).(rectStart := Some(p))
      ensures old(stage) == PolygonStage && old(drawing) && mode == Rectangle && old(rectStart).Some? ==>
        State() == Finished(old(State()).(buffer := RectangleRing(old(rectStart).value, p), rectStart := None), typed)
    {
      if stage == PointStage {
        if imagePath.None? {
          return;
        }
        points := points + [ControlPoint(p.col, p.row, None, None)];
      } else if drawing {
        if mode == Freehand {
          mousePressed := true;
          buffer := buffer + [p];
        } else if rectStart.None? {
          rectStart := Some(p);
        } else {
          buffer := RectangleRing(rectStart.value, p);
          rectStart := None;
          FinishPolygon(typed);
        }
      }
    }

    /** Mouse motion in stage 2: while a freehand stroke is pressed the sample is decimated into the buffer. */
    method Motion(mode: DrawMode, p: Pixel)
      requires Valid()
      modifies this
      ensures Valid()
      ensures issued == old(issued)
      ensures old(stage) == PolygonStage && old(drawing) && mode == Freehand && old(mousePressed) ==>
        State() == old(State()).(buffer := AppendSample(old(buffer), p))
      ensures !(old(stage) == PolygonStage && old(drawing) && mode == Freehand && old(mousePressed)) ==>
        State() == old(State())
    {
      if stage != PolygonStage || !drawing {
        return;
      }
      if mode == Freehand && mousePressed {
        if buffer == [] || FarFrom(buffer[|buffer| - 1], p) {
          buffer := buffer + [p];
        }
      }
    }

    /** Mouse release in stage 2: the end of a freehand stroke finishes the polygon. */
    method Release(mode: DrawMode, typed: Option<string>)
      requires Valid()
      modifies this
      ensures Valid()
      ensures old(stage) == PolygonStage && old(drawing) && mode == Freehand && old(mousePressed) ==>
        if |old(buffer)| > MinCommitVertices then
          old(nextPolyId) !in old(issued) && issued == old(issued) + {old(nextPolyId)}
        else issued == old(issued)
      ensures !(old(stage) == PolygonStage && old(drawing) && mode == Freehand && old(mousePressed)) ==>
        issued == old(issued)
      ensures old(stage) == PolygonStage && old(drawing) && mode == Freehand && old(mousePressed) ==>
        State() == Finished(old(State()).(mousePressed := false), typed)
      ensures !(old(stage) == PolygonStage && old(drawing) && mode == Freehand && old(mousePressed)) ==>
        State() == old(State())
    {
      if stage == PolygonStage && drawing && mode == Freehand && mousePressed {
        mousePressed := false;
        FinishPolygon(typed);
      }
    }

    /**
     * Manual coordinates for the selected point. Nothing happens without a
     * selection or when either value dialog is cancelled.
     */
    method AssignCoord(selection: Option<nat>, x: Option<real>, y: Option<real>)
      requires Valid()
      requires selection.Some? ==> selection.value < |points|
      modifies this
      ensures Valid()
      ensures issued == old(issued)
      ensures selection.Some? && x.Some? && y.Some? ==>
        State() == old(State()).(points := old(points)[selection.value := old(points)[selection.value].(x := x, y := y)])
      ensures !(selection.Some? && x.Some? && y.Some?) ==> State() == old(State())
    {
      if selection.None? || x.None? || y.None? {
        return;
      }
      var idx := selection.value;
      points := points[idx := points[idx].(x := x, y := y)];
    }

    /**
     * Removes the last control point once confirmed. The transform is dropped when
     * fewer than three points remain, complete or not.
     */
    method DeleteLastPoint(confirmed: bool)
      requires Valid()
      modifies this
      ensures Valid()
      ensures issued == old(issued)
      ensures old(points) == [] || !confirmed ==> State() == old(State())
      ensures old(points) != [] && confirmed ==>
        State() == old(State()).(points := old(points)[..|old(points)| - 1],
                                 transform := if |old(points)| - 1 < MinFitPoints then None else old(transform))
    {
      if points == [] || !confirmed {
        return;
      }
      points := points[..|points| - 1];
      if |points| < MinFitPoints {
        transform := None;
      }
    }

    /** Removes every control point once confirmed, and the transform with them. */
    method ClearAllPoints(confirmed: bool)
      requires Valid()
      modifies this
      ensures Valid()
      ensures issued == old(issued)
      ensures old(points) == [] || !confirmed ==> State() == old(State())
      ensures old(points) != [] && confirmed ==> State() == old(State()).(points := [], transform := None)
    {
      if points == [] || !confirmed {
        return;
      }
      points := [];
      transform := None;
    }

    /**
     * Imports world coordinates from a parsed table: the refusals first, then one
     * pass over the rows in the mode the header selects. A refusal changes nothing.
     */
    method ImportControlCsv(table: CsvTable) returns (refused: Option<ImportError>)
      requires Valid()
      modifies this
      ensures Valid()
      ensures issued == old(issued)
      ensures refused.Some? <==> Import(old(points), table).Failure?
      ensures refused.Some? ==> refused.value == Import(old(points), table).error && State() == old(State())
      ensures refused.None? ==> State() == old(State()).(points := Import(old(points), table).value)
    {
      if |points| == 0 {
        return Some(NoPoints);
      }
      if |table.rows| == 0 {
        return Some(EmptyTable);
      }
      if !HasWorldColumns(table) {
        return Some(MissingXY);
      }
      if HasPixelColumns(table) {
        points := ApplyNearestRows(points, table.rows);
      } else {
        if |table.rows| != |points| {
          return Some(CountMismatch);
        }
        points := ApplyPositionalRows(points, table.rows);
      }
      refused := None;
    }

    /**
     * Fits the transform to the complete points. With fewer than three of them
     * nothing changes; otherwise the assembled transform is stored and the mean
     * squared residual (the square of the reported RMSE) is returned.
     */
    method ComputeTransform(solve: Solver) returns (meanSq: Option<real>)
      requires Valid()
      modifies this
      ensures Valid()
      ensures issued == old(issued)
      ensures Fit(old(points), solve).Failure? ==> meanSq.None? && State() == old(State())
      ensures Fit(old(points), solve).Success? ==>
        State() == old(State()).(transform := Some(Fit(old(points), solve).value)) &&
        |CompletePoints(old(points))| > 0 &&
        meanSq == Some(MeanSquaredResidual(Fit(old(points), solve).value, CompletePoints(old(points))))
    {
      var complete := CompletePoints(points);
      if |complete| < MinFitPoints {
        return None;
      }
      var v := solve(complete);
      var t := Assemble(v.0, v.1);
      transform := Some(t);
      meanSq := Some(MeanSquaredResidual(t, complete));
    }

    /**
     * The six world-file values, in the order A, D, B, E, C, F; nothing is written
     * without a transform, without a loaded image or when the save dialog is cancelled.
     */
    method SaveWorldFile(pathChosen: bool) returns (lines: Option<seq<real>>)
      ensures lines.Some? <==> transform.Some? && imagePath.Some? && imagePath.value != "" && pathChosen
      ensures lines.Some? ==> |lines.value| == 6 && ReadWorldFile(lines.value) == transform
      ensures lines.Some? ==> forall p :: Some(EsriEvaluate(lines.value, p)) == PixelToWorld(transform, p)
    {
      if transform.None? || imagePath.None? || imagePath.value == "" {
        return None;
      }
      if !pathChosen {
        return None;
      }
      var t := transform.value;
      lines := Some(WorldFileLines(t));
      WorldFileRoundTrip(t, lines.value);
      forall p {
        WorldFileAgreesWithTransform(t, p);
      }
    }

    /** Moves to stage 2, once a transform exists. */
    method GoToPolygons()
      requires Valid()
      modifies this
      ensures Valid()
      ensures issued == old(issued)
      ensures State() == if old(transform).Some? then old(State()).(stage := PolygonStage) else old(State())
    {
      if transform.None? {
        return;
      }
      stage := PolygonStage;
    }

    /** Starts a new polygon, once a transform exists: drawing on, press and first corner reset, buffer empty. */
    method StartPolygon()
      requires Valid()
      modifies this
      ensures Valid()
      ensures issued == old(issued)
      ensures State() == if old(transform).Some? then
          old(State()).(drawing := true, mousePressed := false, rectStart := None, buffer := [])
        else old(State())
    {
      if transform.None? {
        return;
      }
      drawing := true;
      mousePressed := false;
      rectStart := None;
      buffer := [];
    }

    /** Removes the most recent polygon. The id counter is not rolled back. */
    method DeleteLastPolygon()
      requires Valid()
      modifies this
      ensures Valid()
      ensures issued == old(issued)
      ensures State() == if old(polygons) == [] then old(State())
        else old(State()).(polygons := old(polygons)[..|old(polygons)| - 1])
    {
      if polygons == [] {
        return;
      }
      DropLastKeepsIdsValid(polygons, nextPolyId);
      polygons := polygons[..|polygons| - 1];
    }

    /**
     * Exports the polygons: nothing without polygons, without a chosen path or
     * without the shapefile writer; otherwise the closed shapes and the vertex table.
     */
    method ExportPolygons(pathChosen: bool, writerAvailable: bool) returns (outcome: ExportOutcome)
      requires Valid()
      ensures polygons == [] ==> outcome == NoPolygons
      ensures polygons != [] && !pathChosen ==> outcome == Cancelled
      ensures polygons != [] && pathChosen && !writerAvailable ==> outcome == WriterMissing
      ensures polygons != [] && pathChosen && writerAvailable ==>
        Closable(polygons) && outcome == Written(Shapes(polygons), VertexHeader, VertexRows(polygons))
    {
      if polygons == [] {
        return NoPolygons;
      }
      if !pathChosen {
        return Cancelled;
      }
      if !writerAvailable {
        return WriterMissing;
      }
      var shapes := WriteShapes(polygons);
      var rows := WriteVertexRows(polygons);
      outcome := Written(shapes, VertexHeader, rows);
    }
  }
}
