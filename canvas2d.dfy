/**
 * The part of the HTML canvas 2D context that the drawing handlers drive:
 * the current default path (beginPath, moveTo, lineTo, closePath) and the
 * raster (fillRect over the whole canvas, stroke of the current path).
 *
 * The raster is kept abstractly: a background colour and the sequence of
 * stroked line segments painted over it since the last full fill, oldest
 * first. Which pixels a 3px round-capped line touches is not modelled; it
 * is a parameter `covers` of the visible-colour function, so every property
 * stated over all coverage relations holds whatever pixels each segment
 * covers. Stroking paints each segment on its own, with opaque paint: the
 * joins a path stroke adds at interior vertices, and anti-aliased blending,
 * are outside this abstraction.
 */
module Canvas2D {
  import opened Geometry

  /** A straight line from one backing pixel position to another. */
  datatype Segment = Segment(from: Point, to: Point)

  /** Where the path's pen is: no sub-path yet, or the first and current point of the last sub-path. */
  datatype Cursor = NoSubpath | At(start: Point, current: Point)

  /** The context's current default path: its line segments since beginPath, and the pen. */
  datatype Path = Path(segments: seq<Segment>, cursor: Cursor)

  /** beginPath: an empty path with no sub-path. */
  function BeginPath(): Path {
    Path([], NoSubpath)
  }

  /** moveTo: starts a new sub-path at `pt` without adding a segment. */
  function MoveTo(path: Path, pt: Point): Path {
    Path(path.segments, At(pt, pt))
  }

  /** lineTo: a line from the current point to `pt`; with no sub-path it acts as moveTo. */
  function LineTo(path: Path, pt: Point): Path {
    match path.cursor
    case NoSubpath => MoveTo(path, pt)
    case At(s, cur) => Path(path.segments + [Segment(cur, pt)], At(s, pt))
  }

  /** closePath: a line back to the sub-path's first point, which becomes current; nothing without a sub-path. */
  function ClosePath(path: Path): Path {
    match path.cursor
    case NoSubpath => path
    case At(s, cur) => Path(path.segments + [Segment(cur, s)], At(s, s))
  }

  /** `segs` is one connected polyline from `a` to `b`. */
  ghost predicate Polyline(segs: seq<Segment>, a: Point, b: Point)
    decreases |segs|
  {
    if segs == [] then a == b
    else segs[0].from == a && Polyline(segs[1..], segs[0].to, b)
  }

  lemma {:induction false} PolylineExtend(segs: seq<Segment>, a: Point, b: Point, c: Point)
    requires Polyline(segs, a, b)
    ensures Polyline(segs + [Segment(b, c)], a, c)
    decreases |segs|
  {
    var t := segs + [Segment(b, c)];
    if segs == [] {
      assert t[1..] == [];
    } else {
      assert t[1..] == segs[1..] + [Segment(b, c)];
      PolylineExtend(segs[1..], segs[0].to, b, c);
    }
  }

  /**
   * On an open polyline, lineTo adds exactly one segment, from the current
   * point to `pt`, and the path stays one polyline from its start to `pt`.
   */
  lemma LineToExtendsPolyline(path: Path, pt: Point)
    requires path.cursor.At? && Polyline(path.segments, path.cursor.start, path.cursor.current)
    ensures LineTo(path, pt).segments == path.segments + [Segment(path.cursor.current, pt)]
    ensures LineTo(path, pt).cursor == At(path.cursor.start, pt)
    ensures Polyline(LineTo(path, pt).segments, path.cursor.start, pt)
  {
    PolylineExtend(path.segments, path.cursor.start, path.cursor.current, pt);
  }

  /** closePath turns an open polyline into a closed loop through its start point. */
  lemma ClosePathClosesLoop(path: Path)
    requires path.cursor.At? && Polyline(path.segments, path.cursor.start, path.cursor.current)
    ensures ClosePath(path).segments == path.segments + [Segment(path.cursor.current, path.cursor.start)]
    ensures ClosePath(path).cursor == At(path.cursor.start, path.cursor.start)
    ensures Polyline(ClosePath(path).segments, path.cursor.start, path.cursor.start)
  {
    PolylineExtend(path.segments, path.cursor.start, path.cursor.current, path.cursor.start);
  }

  /** The background fill the page paints. */
  const WHITE: string := "#FFFFFF"

  /** A newly sized canvas bitmap is transparent black. */
  const TRANSPARENT: string := "rgba(0, 0, 0, 0)"

  /** One stroked line segment and the stroke style it was painted in. */
  datatype Mark = Mark(segment: Segment, colour: string)

  /** A canvas bitmap: backing size, background and the ink stroked over it, oldest first. */
  datatype Raster = Raster(width: real, height: real, background: string, ink: seq<Mark>)

  /** Which backing pixels a stroked segment paints on its own: the rasteriser, not modelled. */
  type Coverage = (Segment, Point) -> bool

  /** The bitmap a canvas gets when its width and height are assigned. */
  function Blank(width: real, height: real): Raster {
    Raster(width, height, TRANSPARENT, [])
  }

  /** The colour `px` shows: that of the newest mark covering it, else `under`. */
  function Visible(ink: seq<Mark>, covers: Coverage, px: Point, under: string): string
    decreases |ink|
  {
    if ink == [] then under
    else if covers(ink[|ink| - 1].segment, px) then ink[|ink| - 1].colour
    else Visible(ink[..|ink| - 1], covers, px, under)
  }

  /** The colour a raster shows at a backing pixel. */
  function ColourAt(r: Raster, covers: Coverage, px: Point): string {
    Visible(r.ink, covers, px, r.background)
  }

  /** Two rasters of one size that show the same colour everywhere, whatever the rasteriser. */
  ghost predicate LooksSame(r1: Raster, r2: Raster) {
    r1.width == r2.width && r1.height == r2.height &&
    forall covers: Coverage, px: Point :: ColourAt(r1, covers, px) == ColourAt(r2, covers, px)
  }

  /** fillRect(0, 0, width, height) in white: every pixel of the raster shows white. */
  function FillWhite(r: Raster): (r': Raster)
    ensures r'.width == r.width && r'.height == r.height
    ensures forall covers: Coverage, px: Point :: ColourAt(r', covers, px) == WHITE
  {
    Raster(r.width, r.height, WHITE, [])
  }

  /** A second full white fill changes nothing: clearing is idempotent. */
  lemma FillWhiteIdempotent(r: Raster)
    ensures FillWhite(FillWhite(r)) == FillWhite(r)
  {
  }

  /** The marks left by stroking `segs` in colour `c`. */
  function Marks(segs: seq<Segment>, c: string): (ms: seq<Mark>)
    ensures |ms| == |segs|
    ensures forall i :: 0 <= i < |segs| ==> ms[i] == Mark(segs[i], c)
  {
    seq(|segs|, i requires 0 <= i < |segs| => Mark(segs[i], c))
  }

  /** stroke(): paints every segment of the current path in the current stroke style. */
  function Stroke(r: Raster, segs: seq<Segment>, c: string): Raster {
    r.(ink := r.ink + Marks(segs, c))
  }

  /** Some segment of `segs` paints `px`. */
  ghost predicate Covered(segs: seq<Segment>, covers: Coverage, px: Point) {
    exists i :: 0 <= i < |segs| && covers(segs[i], px)
  }

  /** Painting `a` then `b` shows `b` where `b` covers and `a` over `under` elsewhere. */
  lemma {:induction false} VisibleAppend(a: seq<Mark>, b: seq<Mark>, covers: Coverage, px: Point, under: string)
    ensures Visible(a + b, covers, px, under) == Visible(b, covers, px, Visible(a, covers, px, under))
    decreases |b|
  {
    if b == [] {
      assert a + b == a;
    } else {
      var n := |b| - 1;
      assert (a + b)[..|a + b| - 1] == a + b[..n];
      assert (a + b)[|a + b| - 1] == b[n];
      VisibleAppend(a, b[..n], covers, px, under);
    }
  }

  /** A run of one-colour marks shows that colour exactly where one of its segments covers. */
  lemma {:induction false} VisibleMarks(segs: seq<Segment>, c: string, covers: Coverage, px: Point, under: string)
    ensures Visible(Marks(segs, c), covers, px, under) == if Covered(segs, covers, px) then c else under
    decreases |segs|
  {
    if segs != [] {
      var n := |segs| - 1;
      assert Marks(segs, c)[..n] == Marks(segs[..n], c);
      VisibleMarks(segs[..n], c, covers, px, under);
      if Covered(segs, covers, px) && !covers(segs[n], px) {
        var i :| 0 <= i < |segs| && covers(segs[i], px);
        assert segs[..n][i] == segs[i];
      }
      if Covered(segs[..n], covers, px) {
        var i :| 0 <= i < n && covers(segs[..n][i], px);
        assert segs[i] == segs[..n][i];
      }
    }
  }

  /** After a stroke, a pixel shows the stroke colour where the path covers it and is unchanged elsewhere. */
  lemma StrokeColourAt(r: Raster, segs: seq<Segment>, c: string, covers: Coverage, px: Point)
    ensures ColourAt(Stroke(r, segs, c), covers, px) == if Covered(segs, covers, px) then c else ColourAt(r, covers, px)
  {
    VisibleAppend(r.ink, Marks(segs, c), covers, px, r.background);
    VisibleMarks(segs, c, covers, px, ColourAt(r, covers, px));
  }

  /** The newest ink on `r` is the path `segs` stroked in colour `c`. */
  ghost predicate EndsWithStroke(r: Raster, segs: seq<Segment>, c: string) {
    |segs| <= |r.ink| &&
    forall i :: 0 <= i < |segs| ==> r.ink[|r.ink| - |segs| + i] == Mark(segs[i], c)
  }

  /** A raster whose newest ink is `segs` in `c` is some earlier raster with `segs` stroked in `c`. */
  lemma EndsWithStrokeSplit(r: Raster, segs: seq<Segment>, c: string) returns (base: Raster)
    requires EndsWithStroke(r, segs, c)
    ensures r == Stroke(base, segs, c)
  {
    var prefix := r.ink[..|r.ink| - |segs|];
    assert r.ink == prefix + Marks(segs, c);
    base := r.(ink := prefix);
  }

  lemma CoveredAppend(segs: seq<Segment>, s: Segment, covers: Coverage, px: Point)
    ensures Covered(segs + [s], covers, px) <==> Covered(segs, covers, px) || covers(s, px)
  {
    var t := segs + [s];
    if covers(s, px) {
      assert t[|segs|] == s;
    }
    if Covered(segs, covers, px) {
      var i :| 0 <= i < |segs| && covers(segs[i], px);
      assert t[i] == segs[i];
    }
    if Covered(t, covers, px) {
      var i :| 0 <= i < |t| && covers(t[i], px);
      if i < |segs| { assert t[i] == segs[i]; }
    }
  }

  /** After stroking `segs` in `c`, the newest ink is exactly that stroke. */
  lemma StrokeEndsWithStroke(r: Raster, segs: seq<Segment>, c: string)
    ensures EndsWithStroke(Stroke(r, segs, c), segs, c)
  {
    var ms := Marks(segs, c);
    var ink := r.ink + ms;
    assert |ink| - |segs| == |r.ink|;
    forall i | 0 <= i < |segs|
      ensures ink[|r.ink| + i] == Mark(segs[i], c)
    {
      assert ink[|r.ink| + i] == ms[i];
    }
  }

  /**
   * Re-stroking an extended path: when the newest ink is the path `segs` in
   * `c`, stroking `segs + [s]` in `c` looks exactly like painting the one new
   * segment `s`, and afterwards the newest ink is the extended path.
   */
  lemma RestrokeShowsOnlyNewSegment(r: Raster, segs: seq<Segment>, s: Segment, c: string)
    requires EndsWithStroke(r, segs, c)
    ensures LooksSame(Stroke(r, segs + [s], c), Stroke(r, [s], c))
    ensures EndsWithStroke(Stroke(r, segs + [s], c), segs + [s], c)
  {
    var base := EndsWithStrokeSplit(r, segs, c);
    RestrokeOverStroke(base, segs, s, c);
    StrokeEndsWithStroke(r, segs + [s], c);
  }

  lemma RestrokeOverStroke(base: Raster, segs: seq<Segment>, s: Segment, c: string)
    ensures LooksSame(Stroke(Stroke(base, segs, c), segs + [s], c), Stroke(Stroke(base, segs, c), [s], c))
  {
    var r := Stroke(base, segs, c);
    forall covers: Coverage, px: Point
      ensures ColourAt(Stroke(r, segs + [s], c), covers, px) == ColourAt(Stroke(r, [s], c), covers, px)
    {
      StrokeColourAt(r, segs + [s], c, covers, px);
      StrokeColourAt(r, [s], c, covers, px);
      StrokeColourAt(base, segs, c, covers, px);
      CoveredAppend(segs, s, covers, px);
      assert Covered([s], covers, px) <==> covers(s, px) by {
        if covers(s, px) { assert [s][0] == s; }
      }
    }
  }

  /**
   * One pointer move on an open polyline: lineTo then stroke. The path gains
   * one segment, the newest ink is the extended path, and when the newest
   * ink was the old path the result looks like painting the new segment alone.
   */
  lemma LineToThenStroke(path: Path, r: Raster, pt: Point, c: string)
    requires path.cursor.At? && Polyline(path.segments, path.cursor.start, path.cursor.current)
    ensures var s := Segment(path.cursor.current, pt);
      var after := Stroke(r, LineTo(path, pt).segments, c);
      && LineTo(path, pt).segments == path.segments + [s]
      && LineTo(path, pt).cursor == At(path.cursor.start, pt)
      && Polyline(LineTo(path, pt).segments, path.cursor.start, pt)
      && EndsWithStroke(after, LineTo(path, pt).segments, c)
      && (EndsWithStroke(r, path.segments, c) ==> LooksSame(after, Stroke(r, [s], c)))
  {
    LineToExtendsPolyline(path, pt);
    StrokeEndsWithStroke(r, LineTo(path, pt).segments, c);
    if EndsWithStroke(r, path.segments, c) {
      RestrokeShowsOnlyNewSegment(r, path.segments, Segment(path.cursor.current, pt), c);
    }
  }

  /** Stroking the same path in the same colour keeps two look-alike rasters look-alike. */
  lemma StrokeKeepsLooksSame(r1: Raster, r2: Raster, segs: seq<Segment>, c: string)
    requires LooksSame(r1, r2)
    ensures LooksSame(Stroke(r1, segs, c), Stroke(r2, segs, c))
  {
    forall covers: Coverage, px: Point
      ensures ColourAt(Stroke(r1, segs, c), covers, px) == ColourAt(Stroke(r2, segs, c), covers, px)
    {
      StrokeColourAt(r1, segs, c, covers, px);
      StrokeColourAt(r2, segs, c, covers, px);
    }
  }

  lemma LooksSameTransitive(r1: Raster, r2: Raster, r3: Raster)
    requires LooksSame(r1, r2) && LooksSame(r2, r3)
    ensures LooksSame(r1, r3)
  {
    forall covers: Coverage, px: Point
      ensures ColourAt(r1, covers, px) == ColourAt(r3, covers, px)
    {
      assert ColourAt(r1, covers, px) == ColourAt(r2, covers, px);
    }
  }

  /** Stroking `a` then `b` leaves the same ink as stroking `a + b` once. */
  lemma StrokeConcat(r: Raster, a: seq<Segment>, b: seq<Segment>, c: string)
    ensures Stroke(Stroke(r, a, c), b, c) == Stroke(r, a + b, c)
  {
    assert Marks(a, c) + Marks(b, c) == Marks(a + b, c);
  }

  /**
   * The raster after a pointer stroke along `segs`: one stroke() after each
   * lineTo, each repainting the whole path drawn so far.
   */
  function Redrawn(r: Raster, segs: seq<Segment>, c: string): Raster
    decreases |segs|
  {
    if segs == [] then r else Stroke(Redrawn(r, segs[..|segs| - 1], c), segs, c)
  }

  /**
   * However often the open path is re-stroked, the result looks as if each
   * of its segments had been painted exactly once, and its newest ink is the
   * whole path.
   */
  lemma {:induction false} RedrawnLooksPaintedOnce(r: Raster, segs: seq<Segment>, c: string)
    ensures LooksSame(Redrawn(r, segs, c), Stroke(r, segs, c))
    ensures EndsWithStroke(Redrawn(r, segs, c), segs, c)
    decreases |segs|
  {
    if segs == [] {
      assert Stroke(r, segs, c) == r;
      StrokeEndsWithStroke(r, [], c);
    } else {
      var pre, s := segs[..|segs| - 1], segs[|segs| - 1];
      assert segs == pre + [s];
      var prev := Redrawn(r, pre, c);
      RedrawnLooksPaintedOnce(r, pre, c);
      RestrokeShowsOnlyNewSegment(prev, pre, s, c);
      StrokeKeepsLooksSame(prev, Stroke(r, pre, c), [s], c);
      StrokeConcat(r, pre, [s], c);
      LooksSameTransitive(Redrawn(r, segs, c), Stroke(prev, [s], c), Stroke(r, segs, c));
    }
  }

  /**
   * A full white fill in the middle of an open stroke is not a clean break:
   * the next stroke of the extended path repaints every pixel under any
   * segment drawn before the fill.
   */
  lemma FillMidStrokeRepaintsEarlierSegments(r: Raster, segs: seq<Segment>, s: Segment, c: string, covers: Coverage, px: Point)
    requires Covered(segs, covers, px)
    ensures ColourAt(FillWhite(r), covers, px) == WHITE
    ensures ColourAt(Stroke(FillWhite(r), segs + [s], c), covers, px) == c
  {
    StrokeColourAt(FillWhite(r), segs + [s], c, covers, px);
    CoveredAppend(segs, s, covers, px);
  }

  /**
   * A stroke-style change in the middle of an open stroke is retroactive at
   * the next stroke: segments already painted in `c1` are repainted in `c2`.
   */
  lemma RestyleMidStrokeRecolours(r: Raster, segs: seq<Segment>, s: Segment, c1: string, c2: string, covers: Coverage, px: Point)
    requires EndsWithStroke(r, segs, c1)
    requires Covered(segs, covers, px)
    ensures ColourAt(r, covers, px) == c1
    ensures ColourAt(Stroke(r, segs + [s], c2), covers, px) == c2
  {
    var base := EndsWithStrokeSplit(r, segs, c1);
    StrokeColourAt(base, segs, c1, covers, px);
    StrokeColourAt(r, segs + [s], c2, covers, px);
    CoveredAppend(segs, s, covers, px);
  }

}
