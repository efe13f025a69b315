/**
 * Polygon digitizing: the pixel buffer filled by a freehand stroke or by two
 * rectangle corners, and what a committed polygon records.
 */
module Polygons {
  import opened Wrappers
  import opened Affine

  /** How the buffer is being filled: by dragging, or by two clicks at opposite corners. */
  datatype DrawMode = Freehand | Rectangle

  /**
   * A committed polygon: its name, the clicked pixel vertices, their world images
   * (None where the application holds the NaN pair) and its id.
   */
  datatype DigitizedPolygon = DigitizedPolygon(name: string, pixels: seq<Pixel>, world: seq<Option<World>>, id: int)

  /** A buffer is committed only when it holds more than this many vertices. */
  const MinCommitVertices: nat := 2

  /** The decimation distance of a freehand stroke, squared: hypot(dcol, drow) > 2. */
  const SqSpacing: real := 4.0

  /** b lies further than the decimation distance from a. */
  predicate FarFrom(a: Pixel, b: Pixel) {
    (b.col - a.col) * (b.col - a.col) + (b.row - a.row) * (b.row - a.row) > SqSpacing
  }

  /** Consecutive vertices of the buffer are further apart than the decimation distance. */
  predicate Spaced(buf: seq<Pixel>) {
    forall i :: 0 < i < |buf| ==> FarFrom(buf[i - 1], buf[i])
  }

  /**
   * One motion sample of a freehand stroke: it is kept when the buffer is empty or
   * when it lies far enough from the last kept vertex, and dropped otherwise.
   */
  function AppendSample(buf: seq<Pixel>, p: Pixel): (r: seq<Pixel>)
    ensures r == buf || r == buf + [p]
    ensures r == buf + [p] <==> buf == [] || FarFrom(buf[|buf| - 1], p)
    ensures Spaced(buf) ==> Spaced(r)
  {
    if buf == [] || FarFrom(buf[|buf| - 1], p) then buf + [p] else buf
  }

  /** The buffer left by a stroke whose press and motion samples were `samples`, from an empty buffer. */
  function Stroke(samples: seq<Pixel>): seq<Pixel>
    decreases |samples|
  {
    if samples == [] then [] else AppendSample(Stroke(samples[..|samples| - 1]), samples[|samples| - 1])
  }

  /** `sub` keeps some of the elements of `s`, in their order. */
  predicate Subsequence(sub: seq<Pixel>, s: seq<Pixel>)
    decreases |s|
  {
    if sub == [] then true
    else if s == [] then false
    else if sub[|sub| - 1] == s[|s| - 1] then Subsequence(sub[..|sub| - 1], s[..|s| - 1])
    else Subsequence(sub, s[..|s| - 1])
  }

  /**
   * A decimated stroke is spaced, starts at the press position, never grows longer
   * than its samples, and keeps a subsequence of them in order.
   */
  lemma {:induction false} StrokeShape(samples: seq<Pixel>)
    ensures Spaced(Stroke(samples))
    ensures |Stroke(samples)| <= |samples|
    ensures samples != [] ==> |Stroke(samples)| > 0 && Stroke(samples)[0] == samples[0]
    ensures Subsequence(Stroke(samples), samples)
    decreases |samples|
  {
    if samples != [] {
      var init := samples[..|samples| - 1];
      StrokeShape(init);
      if init != [] {
        assert init[0] == samples[0];
      }
      var prev := Stroke(init);
      var last := samples[|samples| - 1];
      if Stroke(samples) == prev + [last] {
        assert (prev + [last])[..|prev + [last]| - 1] == prev;
      } else {
        SubsequenceOfLonger(prev, init, last);
      }
    }
  }

  /** A subsequence of s is also a subsequence of s with one element appended. */
  lemma {:induction false} SubsequenceOfLonger(sub: seq<Pixel>, s: seq<Pixel>, x: Pixel)
    requires Subsequence(sub, s)
    ensures Subsequence(sub, s + [x])
    decreases |s|, 1
  {
    var t := s + [x];
    assert t[..|t| - 1] == s;
    if sub != [] && sub[|sub| - 1] == x {
      SubsequenceOfPrefix(sub[..|sub| - 1], sub, s);
    }
  }

  /** Dropping the last element of a subsequence keeps it a subsequence. */
  lemma {:induction false} SubsequenceOfPrefix(pre: seq<Pixel>, sub: seq<Pixel>, s: seq<Pixel>)
    requires sub != [] && pre == sub[..|sub| - 1]
    requires Subsequence(sub, s)
    ensures Subsequence(pre, s)
    decreases |s|, 0
  {
    if pre != [] {
      assert s != [];
      var init := s[..|s| - 1];
      if sub[|sub| - 1] == s[|s| - 1] {
        assert Subsequence(pre, init);
        SubsequenceOfLonger(pre, init, s[|s| - 1]);
        assert init + [s[|s| - 1]] == s;
      } else {
        SubsequenceOfPrefix(pre, sub, init);
        SubsequenceOfLonger(pre, init, s[|s| - 1]);
        assert init + [s[|s| - 1]] == s;
      }
    }
  }

  /**
   * The buffer built from two rectangle corners, clockwise from the first click:
   * (x1, y1), (x2, y1), (x2, y2), (x1, y2).
   */
  function RectangleRing(p1: Pixel, p2: Pixel): (r: seq<Pixel>)
    ensures |r| == 4 && |r| > MinCommitVertices
    ensures r[0] == p1 && r[2] == p2
    ensures forall i :: 0 <= i < 4 ==>
      (r[i].col == p1.col || r[i].col == p2.col) && (r[i].row == p1.row || r[i].row == p2.row)
  {
    [p1, Pixel(p2.col, p1.row), p2, Pixel(p1.col, p2.row)]
  }

  /** Each side of the rectangle is axis-aligned: consecutive corners share a row or a column. */
  lemma RectangleSidesAxisAligned(p1: Pixel, p2: Pixel)
    ensures var r := RectangleRing(p1, p2);
      r[0].row == r[1].row && r[1].col == r[2].col && r[2].row == r[3].row && r[3].col == r[0].col
  {
  }

  /** The decimal digit character for d. */
  function DigitChar(d: nat): char
    requires d < 10
  {
    ('0' as int + d) as char
  }

  /** The decimal text of a natural number, as Python's str() writes it: no sign, no leading zero. */
  function Decimal(n: nat): (s: string)
    ensures |s| > 0
    ensures forall i :: 0 <= i < |s| ==> '0' <= s[i] <= '9'
    ensures |s| > 1 ==> s[0] != '0'
  {
    if n < 10 then [DigitChar(n)] else Decimal(n / 10) + [DigitChar(n % 10)]
  }

  /** Reads a string of decimal digits back as a number. */
  function ParseDecimal(s: string): nat
    requires forall i :: 0 <= i < |s| ==> '0' <= s[i] <= '9'
    decreases |s|
  {
    if s == [] then 0 else ParseDecimal(s[..|s| - 1]) * 10 + (s[|s| - 1] as int - '0' as int)
  }

  /** Reading the decimal text gives the number back. */
  lemma {:induction false} DecimalRoundTrip(n: nat)
    ensures ParseDecimal(Decimal(n)) == n
  {
    if n >= 10 {
      DecimalRoundTrip(n / 10);
      var s := Decimal(n);
      assert s[..|s| - 1] == Decimal(n / 10);
    }
  }

  /** The name given when the typed name is absent or empty: "Poly_" and the id. */
  function DefaultName(id: nat): string {
    "Poly_" + Decimal(id)
  }

  /** Different ids give different default names. */
  lemma DefaultNamesDistinct(i: nat, j: nat)
    requires i != j
    ensures DefaultName(i) != DefaultName(j)
  {
    DecimalRoundTrip(i);
    DecimalRoundTrip(j);
    assert DefaultName(i)[5..] == Decimal(i);
    assert DefaultName(j)[5..] == Decimal(j);
  }

  /** The polygon's name: the typed text unless the dialog was cancelled or left empty. */
  function PolygonName(typed: Option<string>, id: nat): (name: string)
    ensures |name| > 0
    ensures typed.Some? && typed.value != "" ==> name == typed.value
    ensures typed.None? || typed.value == "" ==> name == DefaultName(id)
  {
    if typed.Some? && typed.value != "" then typed.value else DefaultName(id)
  }

  /** The world image of each buffer vertex under the current transform. */
  function MapToWorld(t: Option<Transform>, ps: seq<Pixel>): (ws: seq<Option<World>>)
    ensures |ws| == |ps|
    ensures forall i :: 0 <= i < |ps| ==> ws[i] == PixelToWorld(t, ps[i])
  {
    seq(|ps|, i requires 0 <= i < |ps| => PixelToWorld(t, ps[i]))
  }

  /** With an invertible transform every world vertex maps back to its pixel vertex. */
  lemma MapToWorldInverts(t: Transform, ps: seq<Pixel>)
    requires Det(t) != 0.0
    ensures forall i :: 0 <= i < |ps| ==>
      MapToWorld(Some(t), ps)[i].Some? && WorldToPixel(Some(t), MapToWorld(Some(t), ps)[i].value) == Some(ps[i])
  {
    forall i | 0 <= i < |ps|
      ensures MapToWorld(Some(t), ps)[i].Some? && WorldToPixel(Some(t), MapToWorld(Some(t), ps)[i].value) == Some(ps[i])
    {
      InverseAfterForward(t, ps[i]);
    }
  }

  /** Without a transform every world vertex is the NaN pair. */
  lemma MapToWorldUndefined(ps: seq<Pixel>)
    ensures forall i :: 0 <= i < |ps| ==> MapToWorld(None, ps)[i] == None
  {
  }

  /** A polygon as committed: more than two vertices, and one world image per vertex. */
  predicate WellFormed(p: DigitizedPolygon) {
    |p.pixels| > MinCommitVertices && |p.world| == |p.pixels|
  }

  /**
   * Committing the buffer: nothing when it has two vertices or fewer; otherwise a
   * polygon with the given id, the buffer as its pixels and their world images.
   */
  function Commit(buf: seq<Pixel>, typed: Option<string>, id: nat, t: Option<Transform>): (r: Option<DigitizedPolygon>)
    ensures r.Some? <==> |buf| > MinCommitVertices
    ensures r.Some? ==> WellFormed(r.value) && r.value.id == id && r.value.pixels == buf
    ensures r.Some? ==> r.value.name == PolygonName(typed, id) && r.value.world == MapToWorld(t, buf)
  {
    if |buf| > MinCommitVertices then Some(DigitizedPolygon(PolygonName(typed, id), buf, MapToWorld(t, buf), id))
    else None
  }
}
