# GeoRefImg in Dafny

GeoRefImg is a desktop tool for georeferencing a PNG image and digitizing
polygons on it. The user works in two stages:

- **Stage 1.** The user clicks control points on the image. Each point gets
  world coordinates, either typed in or imported from a CSV table. A
  six-parameter affine transform (the ESRI world-file parameters A–F) is then
  fitted by least squares to the complete points. The transform can be saved
  as a world file.
- **Stage 2.** The user digitizes polygons, either as freehand strokes or as
  two-corner rectangles. Each polygon is mapped through the transform and
  exported as a shapefile plus a CSV table of its vertices.

This project models the arithmetic, the data and the session logic of the
application, and proves what they promise.

The modules, one per file:

- `Wrappers` (`wrappers.dfy`): `Option` and `Result`.
- `Affine` (`affine.dfy`):
  - pixel → world and world → pixel, where world → pixel has no answer when the
    2×2 part is singular;
  - both round trips;
  - the world-file line order A, D, B, E, C, F, and how a world-file reader
    evaluates it.
- `ControlPoints` (`control_points.dfy`):
  - control points with optional world coordinates;
  - the nearest-pixel search;
  - the two CSV import modes (positional and nearest-pixel) and the order of
    the refusals.
- `Fitting` (`fitting.dfy`):
  - the gate of at least three complete points;
  - the parameter layout `[A, B, C, D, E, F]` assembled from the two
    least-squares solutions `[C, A, B]` and `[F, D, E]`;
  - the residuals and the mean squared residual (the square of the RMSE that
    is displayed).
- `Polygons` (`polygons.dfy`):
  - freehand decimation (a sample is kept only when it lies more than 2
    pixels from the last kept vertex);
  - the rectangle ring;
  - the default name `Poly_<id>`;
  - the world image of a buffer;
  - the commit rule: more than two vertices.
- `Export` (`export.dfy`):
  - ring closure for the shapefile;
  - the vertex table, with header `poly_id,name,vertex_index,x,y`.
- `GeoRef` (`session.dfy`):
  - the application state as a class `Session`, with one method per user
    action;
  - a ghost `State()` snapshot, so that each action states its whole new state;
  - a `Valid()` invariant on polygon ids. Every action keeps it. Ids strictly
    increase along the list, lie below `next_poly_id`, and are never handed out
    twice between two image loads, including after a polygon is deleted.

Decisions about the model:

- A NaN coordinate pair is modelled as `None`. The application produces one
  when `pixel_to_world` is called without a transform. Each call makes fresh
  NaN objects, so the NaN pairs of two separately mapped vertices never compare
  equal. The ring-closure test therefore treats `None` as different from every
  other vertex, and a ring of two or more vertices that starts with a NaN pair
  is always closed by appending.
- The least-squares solver is a parameter (`Solver`). The model proves what
  the application does with its answer, not how `numpy.linalg.lstsq`
  computes it.
- Dialog answers are parameters of the session methods:
  - the chosen file;
  - the typed name;
  - the typed coordinates;
  - the yes/no confirmation;
  - whether the image could be read;
  - whether the shapefile writer is installed.
- A behaviour worth knowing that the model keeps as written: `load_image`
  resets the transform, the points and the polygons, but not the stage, the
  drawing flag or the pixel buffer. If a new image is loaded during stage 2,
  a polygon can still be committed afterwards. `MapToWorld` then gives it
  `None` for every vertex (`MapToWorldUndefined`).

## Model

| member | source | states |
|---|---|---|
| Affine.PixelToWorld | georefimg.py:753-759 | there is a world point exactly when there is a transform |
| Affine.WorldToPixel | georefimg.py:761-773 | no answer without a transform or when the 2×2 part is singular; otherwise an answer |
| Affine.InverseAfterForward | georefimg.py:753-773 | with an invertible transform, world_to_pixel(pixel_to_world(p)) gives p back |
| Affine.ForwardAfterInverse | georefimg.py:753-773 | with an invertible transform, pixel_to_world(world_to_pixel(w)) gives w back |
| Affine.SingularIsNotInjective | georefimg.py:761-773 | a singular transform maps a nonzero pixel offset to the same point as the origin, and its inverse is refused |
| Affine.WorldFileLines | georefimg.py:657-664 | the world file has six values |
| Affine.ReadWorldFile | georefimg.py:657-664 | six lines read back into a transform; any other count gives none |
| Affine.WorldFileAgreesWithTransform | georefimg.py:653-668 | an ESRI reader of the lines A, D, B, E, C, F computes the same world point as pixel_to_world |
| Affine.WorldFileRoundTrip | georefimg.py:657-664 | reading the written lines gives the transform back, and only the written lines read as that transform |
| ControlPoints.ControlPoint.IsComplete | georefimg.py:72-74 | both world coordinates are present |
| ControlPoints.SqPixelDist | georefimg.py:610 | the key of the nearest-point minimum: the squared pixel distance (col′ − col)² + (row′ − row)², which ignores x and y |
| ControlPoints.NearestIndex | georefimg.py:609-611 | the chosen index is within the list |
| ControlPoints.NearestIsFirstMinimum | georefimg.py:610 | the chosen point minimises the squared pixel distance, and it is the first point that does so |
| ControlPoints.NearestPoint | georefimg.py:610 | the loop returns the first point at minimum squared pixel distance |
| ControlPoints.NearestDependsOnlyOnPixels | georefimg.py:610 | the choice ignores world coordinates, so earlier rows of the import cannot change later choices |
| ControlPoints.HasPixelColumns | georefimg.py:596 | the header has both `col` and `row`, which selects nearest-pixel mode |
| ControlPoints.HasWorldColumns | georefimg.py:597 | the header has both `x` and `y`, without which every import is refused |
| ControlPoints.AssignPositional | georefimg.py:616-620 | pixels kept; x is written when it parses; y is written only when x and y both parse |
| ControlPoints.ImportPositional | georefimg.py:612-620 | row i goes to point i; pixels unchanged |
| ControlPoints.ApplyPositionalRows | georefimg.py:616-620 | the positional loop computes the positional import |
| ControlPoints.FullyParsed | georefimg.py:604-608 | all four of col, row, x and y parse as numbers; a row failing any of them is skipped and changes nothing |
| ControlPoints.ApplyNearestRow | georefimg.py:603-611 | a fully parsed row overwrites x and y of the nearest point only; other rows change nothing |
| ControlPoints.ImportNearest | georefimg.py:601-611 | nearest-pixel mode never adds, removes or moves a point |
| ControlPoints.ApplyNearestRows | georefimg.py:603-611 | the nearest-pixel loop computes the nearest-pixel import |
| ControlPoints.ImportNearestLastWriteWins | georefimg.py:601-611 | each point takes x and y from the last fully parsed row that lands on it; a point that no row lands on is unchanged |
| ControlPoints.Import | georefimg.py:578-622 | each refusal (no points, empty table, missing x/y columns, row count mismatch in positional mode) happens exactly under its condition, in that order; with col/row columns the result is the nearest-pixel import, otherwise, with matching counts, the positional import; pixels never change |
| Fitting.CompletePoints | georefimg.py:625 | keeps the complete points only, in order |
| Fitting.CompletePointsIdempotent | georefimg.py:625 | filtering twice equals filtering once |
| Fitting.CompletePointsAppend | georefimg.py:625 | the filter distributes over concatenation |
| Fitting.Assemble | georefimg.py:640-642 | the stored [A, B, C, D, E, F] gives back p_x as (C, A, B) and p_y as (F, D, E) |
| Fitting.AssembleEvaluatesDesignRows | georefimg.py:636-645 | the stored transform evaluates [1, col, row]·[C, A, B] and [1, col, row]·[F, D, E], the design rows of the fit |
| Fitting.SquaredLength | georefimg.py:646 | a squared error is non-negative, and zero exactly for a zero offset |
| Fitting.SquaredResidual | georefimg.py:644-646 | a point's squared residual is non-negative, and zero exactly when the prediction equals its coordinates |
| Fitting.SquaredResidualZeroIffExact | georefimg.py:644-646 | zero residual if and only if the point reprojects exactly |
| Fitting.ResidualSum | georefimg.py:646-647 | the sum of squared residuals is non-negative |
| Fitting.ResidualSumZeroIffExact | georefimg.py:644-647 | the sum is zero if and only if every point reprojects exactly |
| Fitting.ResidualSumAppend | georefimg.py:646-647 | the sum is additive over concatenation |
| Fitting.ResidualSumPermutation | georefimg.py:646-647 | the sum does not depend on the order of the points |
| Fitting.Fit | georefimg.py:624-642 | refused exactly when fewer than three points are complete; otherwise the transform assembled from the two solutions |
| Fitting.FitSeesOnlyCompletePoints | georefimg.py:625-639 | incomplete points have no influence on the fit |
| Fitting.FitEvaluatesSolution | georefimg.py:636-645 | the fitted transform's pixel_to_world is the design-row prediction xs_pred, ys_pred |
| Fitting.MeanSquaredResidual | georefimg.py:643-647 | RMSE² is non-negative, and zero exactly when every complete point reprojects exactly |
| Polygons.FarFrom | georefimg.py:829-831 | the decimation test `_dist(a, b) > 2` of line 441: hypot(Δcol, Δrow) > 2, stated as squared distance > 4 |
| Polygons.AppendSample | georefimg.py:441-442 | a sample is appended if and only if the buffer is empty or the sample lies more than 2 pixels from the last vertex; spacing is kept |
| Polygons.StrokeShape | georefimg.py:439-442 | a stroke starts at the press position, is spaced, is no longer than its samples and keeps a subsequence of them in order |
| Polygons.RectangleRing | georefimg.py:394-399 | four vertices, starting at the first corner, with the opposite corner third, each vertex taking its coordinates from the two corners |
| Polygons.RectangleSidesAxisAligned | georefimg.py:398 | consecutive corners share a row or a column |
| Polygons.Decimal | georefimg.py:513 | decimal digits with no leading zero |
| Polygons.DefaultName | georefimg.py:513 | the default name is `Poly_` followed by the decimal digits of the id |
| Polygons.DecimalRoundTrip | georefimg.py:513 | the digits read back as the id |
| Polygons.DefaultNamesDistinct | georefimg.py:513 | different ids give different default names |
| Polygons.PolygonName | georefimg.py:511-513 | the typed name unless none or empty was typed, then `Poly_<id>` |
| Polygons.MapToWorld | georefimg.py:514 | one world vertex per pixel vertex, each the pixel_to_world image |
| Polygons.MapToWorldInverts | georefimg.py:514 | with an invertible transform every world vertex maps back to its pixel vertex |
| Polygons.MapToWorldUndefined | georefimg.py:753-755 | without a transform every world vertex is the NaN pair |
| Polygons.Commit | georefimg.py:508-517 | a polygon exactly when the buffer has more than two vertices, with the given id, the buffer, its world image and its name |
| Export.SameVertex | georefimg.py:732 | two defined vertices with equal x and y; a NaN pair equals no vertex |
| Export.CloseRing | georefimg.py:731-733 | for a ring of two or more vertices, the first vertex is appended exactly when it differs from the last; the original vertices stay in front |
| Export.CloseRingIdempotent | georefimg.py:731-733 | a defined ring comes out closed, and closing it again changes nothing |
| Export.CloseRingUndefinedStart | georefimg.py:731-733 | a ring of two or more vertices starting at a NaN pair is closed by appending that first vertex |
| Export.ShapeOf | georefimg.py:731-735 | the shape carries the polygon's id and name, and its ring is the stored world vertices followed by the first one exactly when it differs from the last |
| Export.Shapes | georefimg.py:729-735 | one shape per polygon, in order, each the ShapeOf of its polygon |
| Export.VertexHeader | georefimg.py:743 | the header row `poly_id,name,vertex_index,x,y` |
| Export.RowsOf | georefimg.py:745-746 | one row per stored vertex of a polygon |
| Export.VertexRows | georefimg.py:744-746 | one data row per stored world vertex over all polygons |
| Export.VertexRowsLayout | georefimg.py:741-746 | one row per stored vertex over all polygons; polygon k's rows follow those of the polygons before it, with vertex_index counting from 0 |
| Export.VertexRowAt | georefimg.py:744-746 | the row of vertex i of polygon k carries that polygon's id and name, index i and the stored vertex, after the rows of the polygons before k |
| Export.TotalVerticesPrefix | georefimg.py:744-746 | the vertices of the polygons before k, plus those of k, fit within the table |
| Export.WriteShapes | georefimg.py:724-735 | the shapefile loop writes the closed shape of each polygon in order |
| Export.WriteVertexRows | georefimg.py:740-746 | the CSV loop writes exactly the vertex table |
| GeoRef.Finished | georefimg.py:508-525 | the buffer is emptied and drawing stops; with more than two vertices one polygon with the counter's id and the buffer, named by the typed name or `Poly_<id>` and with the buffer's world image, is appended and the counter advances, otherwise the list and counter are kept; no other field changes |
| GeoRef.FinishedKeepsIdsValid | georefimg.py:508-525 | finishing keeps ids increasing and below the counter; a new polygon's id exceeds every earlier one |
| GeoRef.IssueKeepsAccounted | georefimg.py:515-517 | committing with the counter as id and then advancing it never reuses an issued id |
| GeoRef.DropLastKeepsIdsValid | georefimg.py:703-709 | removing the last polygon keeps the id invariant |
| GeoRef.Session.constructor | georefimg.py:86-101 | no image, points, transform or polygons; stage 1; not drawing; counter 1 |
| GeoRef.Session.LoadImage | georefimg.py:326-356 | a cancelled or unreadable load changes nothing; otherwise the points, transform and polygons are cleared and the counter restarts at 1; stage, drawing and buffer are kept |
| GeoRef.Session.FinishPolygon | georefimg.py:508-525 | the state becomes Finished; a committed polygon takes an id never issued before |
| GeoRef.Session.Click | georefimg.py:363-400 | stage 1 appends a point without coordinates once an image is loaded; stage 2 handles freehand press and the two rectangle clicks as described; only the second rectangle click issues an id, a fresh one |
| GeoRef.Session.Motion | georefimg.py:402-447 | only a pressed freehand stroke changes, by one decimated sample |
| GeoRef.Session.Release | georefimg.py:448-462 | releasing a pressed freehand stroke finishes the polygon, issuing a fresh id when it commits; nothing else changes |
| GeoRef.Session.AssignCoord | georefimg.py:527-541 | with a selection and both values, x and y of that point are replaced; otherwise nothing changes |
| GeoRef.Session.DeleteLastPoint | georefimg.py:543-560 | a confirmed delete drops the last point and drops the transform when fewer than three points remain |
| GeoRef.Session.ClearAllPoints | georefimg.py:562-576 | a confirmed clear removes every point and the transform |
| GeoRef.Session.ImportControlCsv | georefimg.py:578-622 | refused exactly when Import refuses, with the same reason and no change; otherwise the points become Import's result |
| GeoRef.Session.ComputeTransform | georefimg.py:624-651 | with fewer than three complete points nothing changes; otherwise the fitted transform is stored and RMSE² is returned |
| GeoRef.Session.SaveWorldFile | georefimg.py:653-668 | written exactly with a transform, a loaded image and a chosen path; the lines read back as the transform and evaluate like it |
| GeoRef.Session.GoToPolygons | georefimg.py:670-678 | stage 2 only once a transform exists |
| GeoRef.Session.StartPolygon | georefimg.py:681-701 | with a transform, drawing starts with an empty buffer and no press or corner; otherwise nothing changes |
| GeoRef.Session.DeleteLastPolygon | georefimg.py:703-709 | drops the last polygon, if any; the counter is not rolled back, so its id is not reused |
| GeoRef.Session.ExportPolygons | georefimg.py:711-750 | nothing without polygons, a path or the writer; otherwise the closed shapes, the header and the vertex table |

## Second variant

`georefimg_fixed.py` holds the same application without pan and zoom, and
without the delete-last-point and clear-all-points actions. Each of its
operations below matches the one in `georefimg.py` line for line, apart from
the pan checks. The same members model it:

| operation | georefimg_fixed.py | member |
|---|---|---|
| load_image | 167-197 | GeoRef.Session.LoadImage |
| on_click | 200-226 | GeoRef.Session.Click |
| on_motion | 228-247 | GeoRef.Session.Motion |
| on_release | 249-256 | GeoRef.Session.Release |
| _finish_polygon | 258-275 | GeoRef.Session.FinishPolygon, Polygons.Commit |
| assign_coord | 277-291 | GeoRef.Session.AssignCoord |
| import_control_csv | 293-337 | GeoRef.Session.ImportControlCsv, ControlPoints.Import |
| compute_transform | 339-366 | GeoRef.Session.ComputeTransform, Fitting.Fit |
| save_world_file | 368-383 | GeoRef.Session.SaveWorldFile |
| go_to_polygons | 385-393 | GeoRef.Session.GoToPolygons |
| start_polygon | 396-412 | GeoRef.Session.StartPolygon |
| delete_last_polygon | 414-420 | GeoRef.Session.DeleteLastPolygon |
| export_polygons | 422-461 | GeoRef.Session.ExportPolygons, Export.CloseRing |
| pixel_to_world / world_to_pixel | 464-484 | Affine.PixelToWorld, Affine.WorldToPixel |
| _dist | 541-543 | Polygons.FarFrom |

## Left out

- The Tk widgets, the matplotlib drawing, the status bar, the list boxes,
  the button states and the redraw previews: display only.
- Pan and zoom (`zoom_in`, `zoom_out`, `zoom_at_point`, `reset_view`,
  `navigate_arrow`, `toggle_pan`, `on_scroll`), and the pan branches of the
  mouse handlers. They only move the view. The model takes pan mode to be off.
- The keyboard shortcuts in `on_key_press`: they call the modelled actions.
- Events outside the axes or without data coordinates: `on_click` and
  `on_motion` ignore them. `on_release` does not look at the position, and
  `Release` models every release.
- The `drawing_mode` field: it is a copy of the mode selector, which the model
  passes to each handler as `mode`.
- File I/O, the file dialogs, CSV text parsing and the UTF-8 BOM. A parsed
  table arrives as a `CsvTable` in which a field that does not parse as a
  number is `None`.
- ImportControlCsv: a cancelled file dialog and an unreadable file return
  before any change; they are not modelled.
- CSV fields that parse to NaN or infinity. Fields are reals in the model.
- Exceptions from the shapefile and CSV writers. Those writes have no effect
  on the session state.
- The internals of `numpy.linalg.lstsq`. The solver is a parameter, and the
  model does not prove that its answer minimises the residual.
- ComputeTransform: returns the mean squared residual rather than its square
  root, the displayed RMSE. Square roots of reals are not modelled.
- Floating-point rounding: coordinates are exact reals. NaN appears only as
  the `None` pair that `pixel_to_world` returns without a transform.
- In-place mutation of shared `ControlPoint` objects. Points are values in a
  sequence that the session reassigns, and the source holds no second alias
  to them.
- The optional `shapely` import, and `temp_method.py`, which is not part of
  this model.
- Multi-ring polygons: the application writes one ring per shape.
- Export.CloseRing: defined for rings of two or more vertices only. A
  one-vertex ring would compare its single vertex object with itself, which
  Python's identity shortcut treats as equal even for a NaN pair; no committed
  polygon has fewer than three vertices, so that case does not arise.
