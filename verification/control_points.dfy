/**
 * Control points and the two ways a table of coordinates is imported onto them.
 *
 * A control point's pixel position is fixed when it is clicked; its world
 * coordinates x and y are optional and are written by manual assignment or by
 * an import. None of the operations here adds, removes or moves a point.
 */
module ControlPoints {
  import opened Wrappers

  /** A clicked pixel (col, row) with optional world coordinates (x, y). */
  datatype ControlPoint = ControlPoint(col: real, row: real, x: Option<real>, y: Option<real>) {
    /** Both world coordinates are known. */
    predicate IsComplete() {
      x.Some? && y.Some?
    }
  }

  /** Two lists hold the same number of points at the same pixel positions. */
  predicate SamePixels(a: seq<ControlPoint>, b: seq<ControlPoint>) {
    |a| == |b| && forall i :: 0 <= i < |a| ==> a[i].col == b[i].col && a[i].row == b[i].row
  }

  /** The key by which the nearest point is chosen: (col' - col)^2 + (row' - row)^2. */
  function SqPixelDist(cp: ControlPoint, col: real, row: real): real {
    (cp.col - col) * (cp.col - col) + (cp.row - row) * (cp.row - row)
  }

  /**
   * The point chosen by a minimum over the list keyed by squared pixel distance:
   * the list is scanned left to right and a later point replaces the best so far
   * only when it is strictly closer.
   */
  function NearestIndex(cps: seq<ControlPoint>, col: real, row: real): (k: nat)
    requires |cps| > 0
    ensures k < |cps|
    decreases |cps|
  {
    if |cps| == 1 then 0
    else
      var k := NearestIndex(cps[..|cps| - 1], col, row);
      if SqPixelDist(cps[|cps| - 1], col, row) < SqPixelDist(cps[k], col, row) then |cps| - 1 else k
  }

  /** The chosen point is at least as close as every point, and strictly closer than every earlier one. */
  lemma {:induction false} NearestIsFirstMinimum(cps: seq<ControlPoint>, col: real, row: real)
    requires |cps| > 0
    ensures forall j :: 0 <= j < |cps| ==>
      SqPixelDist(cps[NearestIndex(cps, col, row)], col, row) <= SqPixelDist(cps[j], col, row)
    ensures forall j :: 0 <= j < NearestIndex(cps, col, row) ==>
      SqPixelDist(cps[j], col, row) > SqPixelDist(cps[NearestIndex(cps, col, row)], col, row)
  {
    if |cps| > 1 {
      var init := cps[..|cps| - 1];
      NearestIsFirstMinimum(init, col, row);
      assert forall j :: 0 <= j < |init| ==> init[j] == cps[j];
    }
  }

  /** The minimum search itself: one pass over the list keeping the first strictly closer point. */
  method NearestPoint(cps: seq<ControlPoint>, col: real, row: real) returns (k: nat)
    requires |cps| > 0
    ensures k == NearestIndex(cps, col, row)
  {
    k := 0;
    var best := SqPixelDist(cps[0], col, row);
    var j := 1;
    while j < |cps|
      invariant 1 <= j <= |cps|
      invariant k == NearestIndex(cps[..j], col, row)
      invariant best == SqPixelDist(cps[k], col, row)
    {
      assert cps[..j + 1][..j] == cps[..j];
      var d := SqPixelDist(cps[j], col, row);
      if d < best {
        k := j;
        best := d;
      }
      j := j + 1;
    }
    assert cps[..|cps|] == cps;
  }

  /** Two points at the same pixel are equally far from any position. */
  lemma SamePixelSameDistance(c1: ControlPoint, c2: ControlPoint, col: real, row: real)
    requires c1.col == c2.col && c1.row == c2.row
    ensures SqPixelDist(c1, col, row) == SqPixelDist(c2, col, row)
  {
  }

  /** The choice depends only on the pixel positions, never on the world coordinates. */
  lemma {:induction false} NearestDependsOnlyOnPixels(a: seq<ControlPoint>, b: seq<ControlPoint>, col: real, row: real)
    requires |a| > 0 && SamePixels(a, b)
    ensures NearestIndex(a, col, row) == NearestIndex(b, col, row)
  {
    if |a| > 1 {
      var n := |a| - 1;
      NearestDependsOnlyOnPixels(a[..n], b[..n], col, row);
      var k := NearestIndex(a[..n], col, row);
      assert a[k] == a[..n][k] && b[k] == b[..n][k];
      SamePixelSameDistance(a[k], b[k], col, row);
      SamePixelSameDistance(a[n], b[n], col, row);
    }
  }

  /** One data row of the imported table; a field is None when it is missing or not a number. */
  datatype CsvRow = CsvRow(col: Option<real>, row: Option<real>, x: Option<real>, y: Option<real>)

  /** The header's column names and the data rows. */
  datatype CsvTable = CsvTable(columns: set<string>, rows: seq<CsvRow>)

  /** Why an import was refused without changing any point. */
  datatype ImportError = NoPoints | EmptyTable | MissingXY | CountMismatch

  /** The table carries pixel columns, which selects nearest-pixel mode. */
  predicate HasPixelColumns(t: CsvTable) {
    "col" in t.columns && "row" in t.columns
  }

  /** The table carries the world columns that every import needs. */
  predicate HasWorldColumns(t: CsvTable) {
    "x" in t.columns && "y" in t.columns
  }

  /** Positional mode, one row onto one point: x is written before y is parsed. */
  function AssignPositional(cp: ControlPoint, r: CsvRow): (c: ControlPoint)
    ensures c.col == cp.col && c.row == cp.row
    ensures c.x == (if r.x.Some? then r.x else cp.x)
    ensures c.y == (if r.x.Some? && r.y.Some? then r.y else cp.y)
  {
    match r.x
    case None => cp
    case Some(x) =>
      match r.y
      case None => cp.(x := Some(x))
      case Some(y) => cp.(x := Some(x), y := Some(y))
  }

  /** Positional mode: row i is assigned to point i. */
  function ImportPositional(cps: seq<ControlPoint>, rows: seq<CsvRow>): (r: seq<ControlPoint>)
    requires |rows| == |cps|
    ensures SamePixels(r, cps)
    ensures forall i :: 0 <= i < |r| ==> r[i] == AssignPositional(cps[i], rows[i])
  {
    seq(|cps|, i requires 0 <= i < |cps| => AssignPositional(cps[i], rows[i]))
  }

  /** The positional pass: x is written when it parses, then y when it parses too. */
  method ApplyPositionalRows(cps: seq<ControlPoint>, rows: seq<CsvRow>) returns (res: seq<ControlPoint>)
    requires |rows| == |cps|
    ensures res == ImportPositional(cps, rows)
  {
    res := cps;
    var i := 0;
    while i < |res|
      invariant 0 <= i <= |res| && |res| == |cps|
      invariant forall j :: 0 <= j < i ==> res[j] == AssignPositional(cps[j], rows[j])
      invariant forall j :: i <= j < |res| ==> res[j] == cps[j]
    {
      var r := rows[i];
      if r.x.Some? {
        res := res[i := res[i].(x := r.x)];
        if r.y.Some? {
          res := res[i := res[i].(y := r.y)];
        }
      }
      i := i + 1;
    }
  }

  /** Nearest-pixel mode skips a row unless all four of its fields are numbers. */
  predicate FullyParsed(r: CsvRow) {
    r.col.Some? && r.row.Some? && r.x.Some? && r.y.Some?
  }

  /** Nearest-pixel mode, one row: overwrite x and y of the nearest point; nothing else changes. */
  function ApplyNearestRow(cps: seq<ControlPoint>, r: CsvRow): (res: seq<ControlPoint>)
    requires |cps| > 0
    ensures SamePixels(res, cps)
    ensures !FullyParsed(r) ==> res == cps
    ensures FullyParsed(r) ==>
      var k := NearestIndex(cps, r.col.value, r.row.value);
      res[k].x == r.x && res[k].y == r.y &&
      forall j :: 0 <= j < |cps| && j != k ==> res[j] == cps[j]
  {
    if !FullyParsed(r) then cps
    else
      var k := NearestIndex(cps, r.col.value, r.row.value);
      cps[k := cps[k].(x := r.x, y := r.y)]
  }

  /** Nearest-pixel mode: the rows are applied one after another, in table order. */
  function ImportNearest(cps: seq<ControlPoint>, rows: seq<CsvRow>): (res: seq<ControlPoint>)
    requires |cps| > 0
    ensures SamePixels(res, cps)
    decreases |rows|
  {
    if rows == [] then cps
    else ApplyNearestRow(ImportNearest(cps, rows[..|rows| - 1]), rows[|rows| - 1])
  }

  /** The nearest-pixel pass over the rows, one row at a time in table order. */
  method ApplyNearestRows(cps: seq<ControlPoint>, rows: seq<CsvRow>) returns (res: seq<ControlPoint>)
    requires |cps| > 0
    ensures res == ImportNearest(cps, rows)
  {
    res := cps;
    var i := 0;
    while i < |rows|
      invariant 0 <= i <= |rows|
      invariant res == ImportNearest(cps, rows[..i])
    {
      assert rows[..i + 1][..i] == rows[..i];
      var r := rows[i];
      if FullyParsed(r) {
        var k := NearestPoint(res, r.col.value, r.row.value);
        res := res[k := res[k].(x := r.x, y := r.y)];
      }
      i := i + 1;
    }
    assert rows[..|rows|] == rows;
  }

  /** Row r is fully parsed and lands on point i. */
  predicate Hits(cps: seq<ControlPoint>, r: CsvRow, i: nat)
    requires |cps| > 0
  {
    FullyParsed(r) && NearestIndex(cps, r.col.value, r.row.value) == i
  }

  /** The last row of the table that lands on point i, if any. */
  function LastHit(cps: seq<ControlPoint>, rows: seq<CsvRow>, i: nat): (h: Option<CsvRow>)
    requires |cps| > 0
    decreases |rows|
  {
    if rows == [] then None
    else if Hits(cps, rows[|rows| - 1], i) then Some(rows[|rows| - 1])
    else LastHit(cps, rows[..|rows| - 1], i)
  }

  /**
   * Point by point, nearest-pixel mode is "last write wins": a point takes x and y
   * from the last fully parsed row whose nearest point it is, and a point that no
   * such row lands on keeps its old coordinates.
   */
  lemma {:induction false} ImportNearestLastWriteWins(cps: seq<ControlPoint>, rows: seq<CsvRow>, i: nat)
    requires |cps| > 0 && i < |cps|
    ensures ImportNearest(cps, rows)[i] ==
      match LastHit(cps, rows, i)
      case None => cps[i]
      case Some(r) => cps[i].(x := r.x, y := r.y)
  {
    if rows != [] {
      var init := rows[..|rows| - 1];
      var last := rows[|rows| - 1];
      var mid := ImportNearest(cps, init);
      ImportNearestLastWriteWins(cps, init, i);
      if FullyParsed(last) {
        NearestDependsOnlyOnPixels(mid, cps, last.col.value, last.row.value);
      }
    }
  }

  /**
   * The whole import of a table onto the current points: the refusals in the
   * order they are checked, then the mode chosen by the header.
   */
  function Import(cps: seq<ControlPoint>, t: CsvTable): (r: Result<seq<ControlPoint>, ImportError>)
    ensures r.Success? ==> SamePixels(r.value, cps)
    ensures r == Failure(NoPoints) <==> |cps| == 0
    ensures r == Failure(EmptyTable) <==> |cps| > 0 && |t.rows| == 0
    ensures r == Failure(MissingXY) <==> |cps| > 0 && |t.rows| > 0 && !HasWorldColumns(t)
    ensures r == Failure(CountMismatch) <==>
      |cps| > 0 && |t.rows| > 0 && HasWorldColumns(t) && !HasPixelColumns(t) && |t.rows| != |cps|
    ensures |cps| > 0 && |t.rows| > 0 && HasWorldColumns(t) && HasPixelColumns(t) ==>
      r == Success(ImportNearest(cps, t.rows))
    ensures |cps| > 0 && |t.rows| == |cps| && HasWorldColumns(t) && !HasPixelColumns(t) ==>
      r == Success(ImportPositional(cps, t.rows))
  {
    if |cps| == 0 then Failure(NoPoints)
    else if |t.rows| == 0 then Failure(EmptyTable)
    else if !HasWorldColumns(t) then Failure(MissingXY)
    else if HasPixelColumns(t) then Success(ImportNearest(cps, t.rows))
    else if |t.rows| != |cps| then Failure(CountMismatch)
    else Success(ImportPositional(cps, t.rows))
  }
}
