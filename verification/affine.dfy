/**
 * The affine pixel-to-world transform of a georeferenced image.
 *
 * The six parameters are stored in the order [A, B, C, D, E, F] and mean
 *   x = C + A*col + B*row
 *   y = F + D*col + E*row
 * Coordinates are exact reals. Where the application would produce the pair
 * (NaN, NaN) the model produces `None`.
 */
module Affine {
  import opened Wrappers

  /** A position on the image: column and row, in pixels. */
  datatype Pixel = Pixel(col: real, row: real)

  /** A position in world coordinates. */
  datatype World = World(x: real, y: real)

  /** The stored parameter vector [A, B, C, D, E, F]. */
  datatype Transform = Transform(a: real, b: real, c: real, d: real, e: real, f: real)

  /** Determinant of the linear part [[A, B], [D, E]]. */
  function Det(t: Transform): real {
    t.a * t.e - t.b * t.d
  }

  /** Forward evaluation; without a transform the result is the NaN pair. */
  function PixelToWorld(t: Option<Transform>, p: Pixel): (w: Option<World>)
    ensures w.Some? <==> t.Some?
  {
    match t
    case None => None
    case Some(m) => Some(World(m.c + m.a * p.col + m.b * p.row, m.f + m.d * p.col + m.e * p.row))
  }

  /**
   * Inverse evaluation: solves [[A, B], [D, E]] * [col, row] = [x - C, y - F].
   * The linear solver refuses a singular matrix, and so does this function.
   */
  function WorldToPixel(t: Option<Transform>, w: World): (p: Option<Pixel>)
    ensures p.Some? <==> t.Some? && Det(t.value) != 0.0
  {
    match t
    case None => None
    case Some(m) =>
      var det := Det(m);
      if det == 0.0 then None
      else
        var u := w.x - m.c;
        var v := w.y - m.f;
        Some(Pixel((m.e * u - m.b * v) / det, (m.a * v - m.d * u) / det))
  }

  /** Mapping a pixel to the world and back returns the pixel whenever A*E - B*D is not zero. */
  lemma InverseAfterForward(t: Transform, p: Pixel)
    requires Det(t) != 0.0
    ensures PixelToWorld(Some(t), p).Some?
    ensures WorldToPixel(Some(t), PixelToWorld(Some(t), p).value) == Some(p)
  {
    var w := PixelToWorld(Some(t), p).value;
    var det := Det(t);
    var u := w.x - t.c;
    var v := w.y - t.f;
    assert u == t.a * p.col + t.b * p.row;
    assert v == t.d * p.col + t.e * p.row;
    calc {
      t.e * u - t.b * v;
      t.e * (t.a * p.col + t.b * p.row) - t.b * (t.d * p.col + t.e * p.row);
      (t.a * t.e - t.b * t.d) * p.col;
      det * p.col;
    }
    calc {
      t.a * v - t.d * u;
      t.a * (t.d * p.col + t.e * p.row) - t.d * (t.a * p.col + t.b * p.row);
      (t.a * t.e - t.b * t.d) * p.row;
      det * p.row;
    }
    assert (t.e * u - t.b * v) / det == p.col;
    assert (t.a * v - t.d * u) / det == p.row;
    assert WorldToPixel(Some(t), w).value == Pixel((t.e * u - t.b * v) / det, (t.a * v - t.d * u) / det);
  }

  /** Mapping a world position to its pixel and forward again returns the world position. */
  lemma ForwardAfterInverse(t: Transform, w: World)
    requires Det(t) != 0.0
    ensures WorldToPixel(Some(t), w).Some?
    ensures PixelToWorld(Some(t), WorldToPixel(Some(t), w).value) == Some(w)
  {
    var det := Det(t);
    var u := w.x - t.c;
    var v := w.y - t.f;
    var col := (t.e * u - t.b * v) / det;
    var row := (t.a * v - t.d * u) / det;
    assert WorldToPixel(Some(t), w).value == Pixel(col, row);
    assert det * col == t.e * u - t.b * v;
    assert det * row == t.a * v - t.d * u;
    calc {
      det * (t.a * col + t.b * row);
      t.a * (det * col) + t.b * (det * row);
      t.a * (t.e * u - t.b * v) + t.b * (t.a * v - t.d * u);
      det * u;
    }
    calc {
      det * (t.d * col + t.e * row);
      t.d * (det * col) + t.e * (det * row);
      t.d * (t.e * u - t.b * v) + t.e * (t.a * v - t.d * u);
      det * v;
    }
    assert t.a * col + t.b * row == u;
    assert t.d * col + t.e * row == v;
    assert PixelToWorld(Some(t), Pixel(col, row)).value == World(t.c + t.a * col + t.b * row, t.f + t.d * col + t.e * row);
  }

  /**
   * A non-zero pixel offset that a singular linear part sends to zero: when
   * A*E - B*D = 0 two different pixels share one world position, so no inverse exists.
   */
  function KernelDirection(t: Transform): (k: Pixel)
  {
    if t.a != 0.0 || t.b != 0.0 then Pixel(t.b, -t.a)
    else if t.d != 0.0 || t.e != 0.0 then Pixel(t.e, -t.d)
    else Pixel(1.0, 0.0)
  }

  /** With a singular linear part the forward map is not injective, which is why inversion fails. */
  lemma SingularIsNotInjective(t: Transform)
    requires Det(t) == 0.0
    ensures KernelDirection(t) != Pixel(0.0, 0.0)
    ensures PixelToWorld(Some(t), KernelDirection(t)) == PixelToWorld(Some(t), Pixel(0.0, 0.0))
    ensures WorldToPixel(Some(t), World(t.c, t.f)) == None
  {
    var k := KernelDirection(t);
    if t.a != 0.0 || t.b != 0.0 {
      assert t.a * t.b + t.b * (-t.a) == 0.0;
      assert t.d * t.b + t.e * (-t.a) == -(Det(t));
    } else if t.d != 0.0 || t.e != 0.0 {
      assert t.a * t.e + t.b * (-t.d) == Det(t);
      assert t.d * t.e + t.e * (-t.d) == 0.0;
    }
    assert PixelToWorld(Some(t), k).value == World(t.c, t.f);
    assert PixelToWorld(Some(t), Pixel(0.0, 0.0)).value == World(t.c, t.f);
  }

  /** The six lines of an ESRI world file, in the order A, D, B, E, C, F. */
  function WorldFileLines(t: Transform): (lines: seq<real>)
    ensures |lines| == 6
  {
    [t.a, t.d, t.b, t.e, t.c, t.f]
  }

  /**
   * How a reader of an ESRI world file evaluates it: line 1 is the x scale, line 2
   * the y skew, line 3 the x skew, line 4 the y scale, lines 5 and 6 the origin.
   */
  function EsriEvaluate(lines: seq<real>, p: Pixel): World
    requires |lines| == 6
  {
    World(lines[0] * p.col + lines[2] * p.row + lines[4], lines[1] * p.col + lines[3] * p.row + lines[5])
  }

  /** Reading six world-file lines back into the stored parameter order. */
  function ReadWorldFile(lines: seq<real>): (t: Option<Transform>)
    ensures t.Some? <==> |lines| == 6
  {
    if |lines| != 6 then None
    else Some(Transform(lines[0], lines[2], lines[4], lines[1], lines[3], lines[5]))
  }

  /** A world-file reader computes exactly the transform that was written. */
  lemma WorldFileAgreesWithTransform(t: Transform, p: Pixel)
    ensures Some(EsriEvaluate(WorldFileLines(t), p)) == PixelToWorld(Some(t), p)
  {
    var lines := WorldFileLines(t);
    assert lines[0] == t.a && lines[2] == t.b && lines[4] == t.c;
    assert lines[1] == t.d && lines[3] == t.e && lines[5] == t.f;
    assert PixelToWorld(Some(t), p).value == EsriEvaluate(lines, p);
  }

  /** Writing then reading the world file gives back the parameters, and the lines are determined by them. */
  lemma WorldFileRoundTrip(t: Transform, lines: seq<real>)
    ensures ReadWorldFile(WorldFileLines(t)) == Some(t)
    ensures ReadWorldFile(lines) == Some(t) ==> WorldFileLines(t) == lines
  {
  }
}
