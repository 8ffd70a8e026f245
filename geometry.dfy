/**
 * Coordinate mapping of the RSVP page: a pointer or touch event's viewport
 * position is turned into a position on the canvas's backing raster,
 * compensating for the difference between the size the canvas is displayed
 * at (its bounding box, in CSS pixels) and the size of its backing store.
 *
 * Coordinates are exact reals; the browser's floating-point arithmetic is
 * not modelled.
 */
module Geometry {
  import opened Wrappers

  /** A position, in viewport CSS pixels or in backing-raster pixels. */
  datatype Point = Point(x: real, y: real)

  /** The canvas element's on-screen bounding box, as reported by the layout. */
  datatype Rect = Rect(left: real, top: real, width: real, height: real)

  /**
   * The two event shapes the drawing handlers receive: a mouse event carries
   * one viewport position, a touch event the list of active touch points.
   */
  datatype PointerEvent =
    | Mouse(clientX: real, clientY: real)
    | Touch(touches: seq<Point>)

  /** A mounted canvas element: where it is displayed and its backing size. */
  datatype CanvasBox = CanvasBox(rect: Rect, width: real, height: real)

  /** Touch events delivered to start and move handlers have at least one touch. */
  predicate Locatable(ev: PointerEvent) {
    ev.Touch? ==> |ev.touches| > 0
  }

  /** A canvas that is laid out has a bounding box of positive size. */
  predicate Measurable(c: CanvasBox) {
    c.rect.width > 0.0 && c.rect.height > 0.0
  }

  /** The viewport position an event reports: the first touch for touch events. */
  function ClientPoint(ev: PointerEvent): Point
    requires Locatable(ev)
  {
    match ev
    case Mouse(cx, cy) => Point(cx, cy)
    case Touch(ts) => ts[0]
  }

  lemma ScaledBack(d: real, target: real, shown: real)
    requires shown != 0.0
    ensures d * (target / shown) * shown == d * target
  {
  }

  /**
   * Maps an event to backing-raster coordinates. An unmounted canvas gives the
   * origin. Otherwise the event's offset inside the bounding box is scaled by
   * backing size over displayed size, so the point keeps its relative place:
   * x / width == (clientX - left) / rect.width, and likewise for y.
   */
  function EventPosition(ev: PointerEvent, canvas: Option<CanvasBox>): (p: Point)
    requires canvas.Some? ==> Measurable(canvas.value) && Locatable(ev)
    ensures canvas.None? ==> p == Point(0.0, 0.0)
    ensures canvas.Some? ==>
      p.x * canvas.value.rect.width == (ClientPoint(ev).x - canvas.value.rect.left) * canvas.value.width
    ensures canvas.Some? ==>
      p.y * canvas.value.rect.height == (ClientPoint(ev).y - canvas.value.rect.top) * canvas.value.height
  {
    if canvas.None? then Point(0.0, 0.0)
    else
      var c := canvas.value;
      var scaleX := c.width / c.rect.width;
      var scaleY := c.height / c.rect.height;
      var q := ClientPoint(ev);
      ScaledBack(q.x - c.rect.left, c.width, c.rect.width);
      ScaledBack(q.y - c.rect.top, c.height, c.rect.height);
      Point((q.x - c.rect.left) * scaleX, (q.y - c.rect.top) * scaleY)
  }

  /** The inverse mapping, from backing-raster pixels back to the viewport. */
  function ToViewport(p: Point, c: CanvasBox): Point
    requires c.width > 0.0 && c.height > 0.0
  {
    Point(c.rect.left + p.x * c.rect.width / c.width, c.rect.top + p.y * c.rect.height / c.height)
  }

  /** Mapping an event and mapping the result back gives the event's own viewport position. */
  lemma ViewportRoundTrip(ev: PointerEvent, c: CanvasBox)
    requires Measurable(c) && Locatable(ev)
    requires c.width > 0.0 && c.height > 0.0
    ensures ToViewport(EventPosition(ev, Some(c)), c) == ClientPoint(ev)
  {
    var p := EventPosition(ev, Some(c));
    var q := ClientPoint(ev);
    assert p.x * c.rect.width / c.width == q.x - c.rect.left by {
      assert p.x * c.rect.width == (q.x - c.rect.left) * c.width;
    }
    assert p.y * c.rect.height / c.height == q.y - c.rect.top by {
      assert p.y * c.rect.height == (q.y - c.rect.top) * c.height;
    }
  }

  /**
   * Right after mount the backing size equals the displayed size, so the
   * mapping is a pure translation: one backing pixel per CSS pixel.
   */
  lemma MountedScaleIsTranslation(ev: PointerEvent, c: CanvasBox)
    requires Measurable(c) && Locatable(ev)
    requires c.width == c.rect.width && c.height == c.rect.height
    ensures EventPosition(ev, Some(c)) == Point(ClientPoint(ev).x - c.rect.left, ClientPoint(ev).y - c.rect.top)
  {
    var p := EventPosition(ev, Some(c));
    var q := ClientPoint(ev);
    assert p.x * c.rect.width == (q.x - c.rect.left) * c.rect.width;
    assert p.y * c.rect.height == (q.y - c.rect.top) * c.rect.height;
  }

  /** Inside the bounding box. */
  predicate InRect(q: Point, r: Rect) {
    r.left <= q.x <= r.left + r.width && r.top <= q.y <= r.top + r.height
  }

  /** Events inside the displayed box land inside the backing raster. */
  lemma InsideMapsIntoRaster(ev: PointerEvent, c: CanvasBox)
    requires Measurable(c) && Locatable(ev)
    requires c.width >= 0.0 && c.height >= 0.0
    requires InRect(ClientPoint(ev), c.rect)
    ensures var p := EventPosition(ev, Some(c));
      0.0 <= p.x <= c.width && 0.0 <= p.y <= c.height
  {
    var p := EventPosition(ev, Some(c));
    var q := ClientPoint(ev);
    var dx, dy := q.x - c.rect.left, q.y - c.rect.top;
    assert 0.0 <= dx * c.width <= c.rect.width * c.width;
    assert 0.0 <= dy * c.height <= c.rect.height * c.height;
    assert p.x * c.rect.width == dx * c.width;
    assert p.y * c.rect.height == dy * c.height;
  }

  /** The mapping preserves left-to-right and top-to-bottom order of events. */
  lemma MappingIsMonotone(e1: PointerEvent, e2: PointerEvent, c: CanvasBox)
    requires Measurable(c) && Locatable(e1) && Locatable(e2)
    requires c.width >= 0.0 && c.height >= 0.0
    requires ClientPoint(e1).x <= ClientPoint(e2).x && ClientPoint(e1).y <= ClientPoint(e2).y
    ensures EventPosition(e1, Some(c)).x <= EventPosition(e2, Some(c)).x
    ensures EventPosition(e1, Some(c)).y <= EventPosition(e2, Some(c)).y
  {
    var p1, p2 := EventPosition(e1, Some(c)), EventPosition(e2, Some(c));
    var q1, q2 := ClientPoint(e1), ClientPoint(e2);
    assert (p2.x - p1.x) * c.rect.width == (q2.x - q1.x) * c.width;
    assert (p2.y - p1.y) * c.rect.height == (q2.y - q1.y) * c.height;
    assert 0.0 <= (q2.x - q1.x) * c.width;
    assert 0.0 <= (q2.y - q1.y) * c.height;
  }

  /** A touch event maps exactly like a mouse event at its first touch point; later touches are ignored. */
  lemma FirstTouchOnly(ts: seq<Point>, c: CanvasBox)
    requires Measurable(c) && |ts| > 0
    ensures EventPosition(Touch(ts), Some(c)) == EventPosition(Mouse(ts[0].x, ts[0].y), Some(c))
  {
  }
}
