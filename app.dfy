/**
 * The RSVP page component: its React state (name, colour, isDrawing,
 * submissions), the canvas element and its 2D context, and the event
 * handlers that change them. Each React state setter is an immediate field
 * update. Network responses are inputs to the handlers; the requests the
 * page sends are recorded, oldest first, in `requests`.
 */
module RsvpPage {
  import opened Wrappers
  import opened Geometry
  import opened Canvas2D
  import opened JsString
  import opened Rsvp

  /** The initial stroke colour, also the first entry of the palette. */
  const DEFAULT_COLOUR: string := "#000000"

  /** The palette the colour buttons offer. */
  const PALETTE: seq<string> := ["#000000", "#FF0000", "#0000FF", "#FF00FF", "#FFA500", "#800080", "#008000"]

  /**
   * A placeholder backing size for the state with no canvas element (300×150
   * is the size of a canvas nobody sized). It is never read: every use of the
   * canvas first checks `attached`.
   */
  const DEFAULT_CANVAS_WIDTH: real := 300.0
  const DEFAULT_CANVAS_HEIGHT: real := 150.0

  class RsvpApp {
    // React state
    var name: string
    var color: string
    var isDrawing: bool
    var submissions: seq<Submission>

    // the canvas element (canvasRef) and its 2D context (contextRef)
    const attached: bool
    const hasContext: bool
    const backingWidth: real
    const backingHeight: real
    var strokeStyle: string
    var path: Path
    var raster: Raster

    // the network boundary
    var requests: seq<Request>
    var pendingFetches: nat

    /** canvas.toDataURL("image/png"): the PNG encoding of a raster, not modelled. */
    const toDataUrl: Raster -> string

    /**
     * The object invariant: a context exists only on an attached canvas, it
     * strokes in the selected colour over a white background, the backing
     * size is the one fixed at mount, and an open stroke is one polyline.
     */
    ghost predicate Valid()
      reads this
    {
      (hasContext ==> attached && strokeStyle == color && raster.background == WHITE) &&
      raster.width == backingWidth && raster.height == backingHeight &&
      (isDrawing ==>
        hasContext && path.cursor.At? && Polyline(path.segments, path.cursor.start, path.cursor.current))
    }

    /** The newest ink on the raster is the current path in the current stroke style. */
    ghost predicate StrokeIntact()
      reads this
    {
      EndsWithStroke(raster, path.segments, strokeStyle)
    }

    /** What a pointer handler may assume of its event when it maps it. */
    predicate CanLocate(ev: PointerEvent, rect: Rect) {
      attached ==> rect.width > 0.0 && rect.height > 0.0 && Locatable(ev)
    }

    /** getEventPosition for the canvas laid out at `rect`. */
    function Position(ev: PointerEvent, rect: Rect): Point
      requires CanLocate(ev, rect)
    {
      EventPosition(ev, if attached then Some(CanvasBox(rect, backingWidth, backingHeight)) else None)
    }

    /**
     * The first render followed by the two mount effects. The first sizes the
     * backing store to the displayed `rect` and, when a 2D context is
     * available, sets the stroke style and fills the raster white; the second
     * issues one list request.
     */
    constructor (attached: bool, rect: Rect, supports2d: bool, toDataUrl: Raster -> string)
      ensures Valid()
      ensures name == "" && color == DEFAULT_COLOUR && !isDrawing && submissions == []
      ensures this.attached == attached && hasContext == (attached && supports2d)
      ensures attached ==> backingWidth == rect.width && backingHeight == rect.height
      ensures !attached ==> backingWidth == DEFAULT_CANVAS_WIDTH && backingHeight == DEFAULT_CANVAS_HEIGHT
      ensures raster == Raster(backingWidth, backingHeight, if hasContext then WHITE else TRANSPARENT, [])
      ensures hasContext ==> forall covers: Coverage, px: Point :: ColourAt(raster, covers, px) == WHITE
      ensures strokeStyle == DEFAULT_COLOUR && path == BeginPath()
      ensures requests == [ListRsvps] && pendingFetches == 1
      ensures this.toDataUrl == toDataUrl
    {
      var w := if attached then rect.width else DEFAULT_CANVAS_WIDTH;
      var h := if attached then rect.height else DEFAULT_CANVAS_HEIGHT;
      name, color, isDrawing, submissions := "", DEFAULT_COLOUR, false, [];
      this.attached := attached;
      hasContext := attached && supports2d;
      backingWidth, backingHeight := w, h;
      // a context's initial strokeStyle is black, and the effect sets it to the initial colour
      strokeStyle := DEFAULT_COLOUR;
      path := BeginPath();
      // assigning the size leaves a blank bitmap, which the context fills white
      raster := if attached && supports2d then FillWhite(Blank(w, h)) else Blank(w, h);
      requests, pendingFetches := [], 0;
      this.toDataUrl := toDataUrl;
      new;
      FetchSubmissions();
    }

    /** The name input's change handler. */
    method SetName(value: string)
      requires Valid()
      modifies this`name
      ensures Valid()
      ensures name == value
    {
      name := value;
    }

    /**
     * Pointer down or touch start: with a context, opens a fresh path at the
     * mapped point and enters the drawing state; adds no ink. Without a
     * context nothing changes.
     */
    method StartDrawing(ev: PointerEvent, rect: Rect)
      requires Valid() && CanLocate(ev, rect)
      modifies this`path, this`isDrawing
      ensures Valid()
      ensures hasContext ==> isDrawing && path == Path([], At(Position(ev, rect), Position(ev, rect)))
      ensures hasContext ==> StrokeIntact()
      ensures !hasContext ==> isDrawing == old(isDrawing) && path == old(path)
    {
      var p := Position(ev, rect);
      if !hasContext {
        return;
      }
      path := MoveTo(BeginPath(), p);
      isDrawing := true;
    }

    /**
     * Pointer or touch move: ignored unless a stroke is open and a context
     * exists. Otherwise the path gains exactly one segment, from its current
     * point to the mapped point, and the whole path is stroked in the current
     * style. When the stroke was intact, the raster then looks exactly as if
     * only the new segment had been painted.
     */
    method Draw(ev: PointerEvent, rect: Rect)
      requires Valid()
      requires isDrawing && hasContext ==> CanLocate(ev, rect)
      modifies this`path, this`raster
      ensures Valid()
      ensures !(isDrawing && hasContext) ==> path == old(path) && raster == old(raster)
      ensures isDrawing && hasContext ==>
        var p := Position(ev, rect);
        var s := Segment(old(path.cursor.current), p);
        && path.segments == old(path.segments) + [s]
        && path.cursor == At(old(path.cursor.start), p)
        && raster == Stroke(old(raster), path.segments, strokeStyle)
        && StrokeIntact()
        && (old(StrokeIntact()) ==> LooksSame(raster, Stroke(old(raster), [s], strokeStyle)))
    {
      if !isDrawing || !hasContext {
        return;
      }
      var p := Position(ev, rect);
      LineToThenStroke(path, raster, p, strokeStyle);
      path := LineTo(path, p);
      raster := Stroke(raster, path.segments, strokeStyle);
    }

    /**
     * Pointer up, pointer leave or touch end: with a context, closes the path
     * and leaves the drawing state; never adds ink, so stopping with no open
     * stroke is harmless. Without a context nothing changes.
     */
    method StopDrawing()
      requires Valid()
      modifies this`path, this`isDrawing
      ensures Valid()
      ensures hasContext ==> !isDrawing && path == ClosePath(old(path))
      ensures old(isDrawing) ==>
        path.cursor == At(old(path.cursor.start), old(path.cursor.start)) &&
        Polyline(path.segments, path.cursor.start, path.cursor.start)
      ensures !hasContext ==> isDrawing == old(isDrawing) && path == old(path)
    {
      if !hasContext {
        return;
      }
      if isDrawing {
        ClosePathClosesLoop(path);
      }
      path := ClosePath(path);
      isDrawing := false;
    }

    /**
     * The clear button: with a context, fills the raster white, discarding all
     * ink; the drawing state, colour and path are untouched.
     */
    method ClearCanvas()
      requires Valid()
      modifies this`raster
      ensures Valid()
      ensures raster == if attached && hasContext then FillWhite(old(raster)) else old(raster)
    {
      if !attached || !hasContext {
        return;
      }
      raster := FillWhite(raster);
    }

    /**
     * A palette button: selects one of the palette's colours, and the
     * context's stroke style when there is a context. Ink already on the
     * raster is untouched.
     */
    method ChangeColour(c: string)
      requires Valid() && c in PALETTE
      modifies this`color, this`strokeStyle
      ensures Valid()
      ensures color == c
      ensures strokeStyle == if hasContext then c else old(strokeStyle)
    {
      color := c;
      if hasContext {
        strokeStyle := c;
      }
    }

    /** fetchSubmissions, up to the request: one list request is sent and awaits its response. */
    method FetchSubmissions()
      requires Valid()
      modifies this`requests, this`pendingFetches
      ensures Valid()
      ensures requests == old(requests) + [ListRsvps]
      ensures pendingFetches == old(pendingFetches) + 1
    {
      requests := requests + [ListRsvps];
      pendingFetches := pendingFetches + 1;
    }

    /**
     * fetchSubmissions, from the response on: an ok response with a JSON body
     * replaces the list wholesale; any failure leaves it exactly as it was.
     */
    method ReceiveSubmissions(response: ListOutcome)
      requires Valid() && pendingFetches > 0
      modifies this`submissions, this`pendingFetches
      ensures Valid()
      ensures pendingFetches == old(pendingFetches) - 1
      ensures submissions == if response.ListOk? then response.data else old(submissions)
    {
      pendingFetches := pendingFetches - 1;
      match response {
        case ListOk(data) => submissions := data;
        case _ =>
      }
    }

    /**
     * The submit button. A blank name or a missing canvas is rejected before
     * anything is sent. Otherwise one POST carries the untrimmed name and the
     * exported raster; on an ok response a list request follows, the name is
     * emptied and the canvas is cleared, and on any failure the name and the
     * drawing are kept for a retry.
     */
    method Submit(created: CreateOutcome) returns (outcome: SubmitOutcome)
      requires Valid()
      modifies this`name, this`raster, this`requests, this`pendingFetches
      ensures Valid()
      ensures outcome == ValidationError <==> IsBlank(old(name)) || !attached
      ensures outcome == ValidationError ==>
        name == old(name) && raster == old(raster) &&
        requests == old(requests) && pendingFetches == old(pendingFetches)
      ensures outcome == Submitted <==> outcome != ValidationError && created == CreateOk
      ensures outcome == Submitted ==>
        && requests == old(requests) + [CreateRsvp(old(name), toDataUrl(old(raster))), ListRsvps]
        && pendingFetches == old(pendingFetches) + 1
        && name == ""
        && raster == if hasContext then FillWhite(old(raster)) else old(raster)
      ensures outcome == SubmissionError ==>
        && requests == old(requests) + [CreateRsvp(old(name), toDataUrl(old(raster)))]
        && pendingFetches == old(pendingFetches)
        && name == old(name) && raster == old(raster)
    {
      if Trim(name) == [] || !attached {
        return ValidationError;
      }
      var drawing := toDataUrl(raster);
      requests := requests + [CreateRsvp(name, drawing)];
      if created != CreateOk {
        return SubmissionError;
      }
      FetchSubmissions();
      name := "";
      ClearCanvas();
      outcome := Submitted;
    }
  }
}
