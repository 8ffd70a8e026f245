# RSVP page: a verified model of the drawing and submission logic

This project models the client component of a small party-RSVP web page
(`src/components/RSVPApp.tsx`). A guest types a name, draws on a canvas with
the mouse or a finger, picks stroke colours from a palette, clears the
drawing, and submits the name together with the drawing, exported as a PNG
data URL, to `/api/rsvp`. The page keeps the list of submissions it last
fetched from that endpoint and shows it as a gallery.

Modules:

- `Geometry` (geometry.dfy): pointer events and the mapping from viewport
  coordinates to backing-pixel coordinates (`getEventPosition`).
- `Canvas2D` (canvas2d.dfy): the part of the canvas 2D context the page uses.
  - The path operations are beginPath, moveTo, lineTo and closePath.
  - The raster is a background colour plus the strokes painted over it, oldest first.
  - fillRect and stroke change the raster.
  - The pixels a 3px line touches are not fixed. The model takes them as a parameter, `covers`, which says which pixels each segment paints on its own.
  - Paint is opaque and all-or-nothing: a segment either covers a pixel and sets its colour, or leaves it alone. Every look-alike property holds for every per-segment coverage relation, under that assumption. Anti-aliased blending and the joins between segments are not modelled; see "Left out".
- `JsString` (jsstring.dfy): ECMAScript `String.prototype.trim`, over the WhiteSpace and LineTerminator characters of ECMA-262.
- `Rsvp` (rsvp.dfy): the request and response values exchanged with `/api/rsvp`, and the gallery rendered from the list.
- `RsvpPage` (app.dfy): the component as a class.
  - Its fields are the React state: name, color, isDrawing and submissions.
  - It also holds the canvas element, its 2D context, and the requests sent so far.
  - Each event handler is a method.
  - The object invariant `Valid` says the following:
    - a context exists only on a mounted canvas;
    - the context strokes in the selected colour, over a white background;
    - the raster keeps the size fixed at mount;
    - an open stroke is one connected polyline.
- `Scenarios` (scenarios.dfy): two sessions proved from the handlers' contracts alone.
  - The first is a three-move touch stroke.
  - The second is a submission that is rejected, then fails, then succeeds, followed by a failed and a successful list fetch.

Network responses are inputs to the handlers. `CreateOutcome` stands for the POST's result, and `ListOutcome` for the GET's result. Each request the page sends is appended to `requests`. A response to a list request is delivered by a separate call, `ReceiveSubmissions`, as the code does not await that fetch.

`toDataURL("image/png")` is an opaque function of the raster. It is a constructor parameter, as is whether the browser supplies a 2D context.

### Where the code differs from what a user would expect

A user would expect a colour change to affect only segments drawn afterwards, and a clear to give a fresh start. In the code, `draw` calls `stroke()` after every `lineTo` (src/components/RSVPApp.tsx:128-129). `stroke()` repaints the whole current path since the last `beginPath`, and only `startDrawing` calls `beginPath`. So a clear or a colour change in the middle of an open stroke is not a clean break. The state is rarely reached. With a mouse, getting to the Clear button or a palette button means leaving the canvas, and `onMouseLeave={stopDrawing}` (line 268) ends the stroke first. Only a second finger on a touch screen, or a button pressed from the keyboard while the mouse button is held on the canvas, gets there. At the next move, every earlier segment of that stroke is painted again, in the current colour and over the white fill. The model follows the code:

- `Canvas2D.FillMidStrokeRepaintsEarlierSegments` proves the repaint after a fill.
- `Canvas2D.RestyleMidStrokeRecolours` proves the recolouring after a style change.
- The expected behaviour does hold in the normal case, with opaque all-or-nothing paint and segments painted independently: a move on an intact stroke looks exactly like painting its one new segment (`RsvpPage.RsvpApp.Draw`).

## Model

| member | source | states |
|---|---|---|
| Geometry.EventPosition | src/components/RSVPApp.tsx:34-60 | An unmounted canvas gives (0,0). Otherwise the result keeps the event's relative place in the box: x·rect.width = (clientX − left)·canvas.width, and the same for y. A touch event uses its first touch. |
| Geometry.ViewportRoundTrip | src/components/RSVPApp.tsx:42-57 | Mapping an event to backing pixels and back through the bounding box gives the event's own viewport position, so the mapping loses nothing. |
| Geometry.MountedScaleIsTranslation | src/components/RSVPApp.tsx:43-44 | When the backing size equals the displayed size, as right after mount, both scales are 1. The mapping is then a pure translation by the box's top-left corner. |
| Geometry.InsideMapsIntoRaster | src/components/RSVPApp.tsx:42-57 | An event inside the displayed box maps to a point inside the backing raster. |
| Geometry.MappingIsMonotone | src/components/RSVPApp.tsx:42-57 | The mapping keeps the left-to-right and top-to-bottom order of events. |
| Geometry.FirstTouchOnly | src/components/RSVPApp.tsx:48-52 | A touch event maps exactly like a mouse event at its first touch point. Further touches are ignored. |
| Canvas2D.PolylineExtend | src/components/RSVPApp.tsx:128 | Appending a segment from a polyline's end to c gives one polyline ending at c. |
| Canvas2D.LineToExtendsPolyline | src/components/RSVPApp.tsx:128 | On an open polyline, lineTo adds exactly one segment, from the current point to the new point, and advances the current point. The path stays one polyline from its start. |
| Canvas2D.ClosePathClosesLoop | src/components/RSVPApp.tsx:135 | closePath keeps every segment and appends exactly one, from the current point back to the sub-path's first point, which becomes current. The path is then a closed loop through that point. |
| Canvas2D.FillWhite | src/components/RSVPApp.tsx:89-90 | Filling the whole canvas white keeps its size, and every pixel then shows white, whatever was drawn before. |
| Canvas2D.FillWhiteIdempotent | src/components/RSVPApp.tsx:144-145 | Filling twice gives the same raster as filling once. |
| Canvas2D.VisibleAppend | src/components/RSVPApp.tsx:129 | Ink painted later lies on top: a pixel shows the newer ink where that covers it, and the older picture elsewhere. |
| Canvas2D.VisibleMarks | src/components/RSVPApp.tsx:129 | A stroke in colour c shows c exactly where one of its segments covers the pixel, and the picture underneath elsewhere. |
| Canvas2D.StrokeColourAt | src/components/RSVPApp.tsx:128-129 | After a stroke, a pixel shows the stroke colour iff some segment of the path covers it. Otherwise it keeps its previous colour. |
| Canvas2D.EndsWithStrokeSplit | src/components/RSVPApp.tsx:129 | A raster whose newest ink is a given path in a given colour is some earlier raster with that path stroked over it. |
| Canvas2D.StrokeEndsWithStroke | src/components/RSVPApp.tsx:129 | After a stroke, the newest ink is exactly that stroke. |
| Canvas2D.CoveredAppend | src/components/RSVPApp.tsx:128 | The extended path covers a pixel iff the old path or the new segment does. |
| Canvas2D.RestrokeOverStroke | src/components/RSVPApp.tsx:128-129 | Re-stroking an extended path over its own earlier stroke, in the same colour, looks the same as painting only the new segment. |
| Canvas2D.RestrokeShowsOnlyNewSegment | src/components/RSVPApp.tsx:128-129 | Assume the newest ink is the current path in the current colour. Then, with opaque paint, stroking the path extended by one segment looks the same as painting that one segment, and afterwards the newest ink is the extended path. |
| Canvas2D.LineToThenStroke | src/components/RSVPApp.tsx:128-129 | One move on an open polyline (lineTo, then stroke) adds exactly one segment and leaves one polyline. The newest ink is then the extended path. If the newest ink was the old path, the raster looks like painting only the new segment. |
| Canvas2D.StrokeConcat | src/components/RSVPApp.tsx:129 | Stroking a then b leaves the same ink as stroking a + b once. |
| Canvas2D.RedrawnLooksPaintedOnce | src/components/RSVPApp.tsx:116-130 | A whole pointer stroke, one stroke() of the entire path after each lineTo, looks, with opaque paint, as if each segment had been painted exactly once. Its newest ink is the whole path. |
| Canvas2D.StrokeKeepsLooksSame | src/components/RSVPApp.tsx:129 | Stroking the same path in the same colour keeps two look-alike rasters look-alike. |
| Canvas2D.FillMidStrokeRepaintsEarlierSegments | src/components/RSVPApp.tsx:139-146 | A white fill leaves a pixel white. But if the fill comes while a stroke is open, the next stroke paints that pixel again wherever any earlier segment of the open path covers it. |
| Canvas2D.RestyleMidStrokeRecolours | src/components/RSVPApp.tsx:148-153 | A pixel painted in c1 by any segment of the open path is painted in c2 at the next stroke after the style changes to c2. |
| JsString.SkipLeading | src/components/RSVPApp.tsx:156 | Returns the first index at or after lo that is not white space, or the length. Everything skipped is white space. |
| JsString.SkipTrailing | src/components/RSVPApp.tsx:156 | Returns the end of the last character before hi that is not white space, or lo. Everything skipped is white space. |
| JsString.Trim | src/components/RSVPApp.tsx:156 | The result is a slice of the input between a white-space prefix and a white-space suffix. When non-empty it starts and ends with non-white-space. It is empty iff the input is all white space. |
| Rsvp.GalleryView | src/components/RSVPApp.tsx:295-322 | The gallery renders iff the list is non-empty. It has one card per submission, in list order, with the submission's name as heading and its drawing as image source. |
| RsvpPage.RsvpApp.constructor | src/components/RSVPApp.tsx:62-97 | Mount gives an empty name, colour #000000, isDrawing false and no submissions. With a canvas, the backing size equals the measured display size. With no canvas element the size is an unused placeholder. With a context, the stroke style is the initial colour and every pixel shows white. Exactly one list request is issued (the effect at lines 197-199). |
| RsvpPage.RsvpApp.SetName | src/components/RSVPApp.tsx:239 | The name becomes the input's value. Nothing else changes. |
| RsvpPage.RsvpApp.StartDrawing | src/components/RSVPApp.tsx:99-114 | With a context: isDrawing is set, the path is emptied and anchored at the mapped point, and no ink is added. Without a context nothing changes. |
| RsvpPage.RsvpApp.Draw | src/components/RSVPApp.tsx:116-130 | Unless drawing with a context, nothing changes. Otherwise the path gains exactly one segment, from the previous point to the mapped point, and the anchor advances. The whole path is stroked in the current style. On an intact stroke, with opaque all-or-nothing paint, the raster looks exactly as if only the new segment had been painted. |
| RsvpPage.RsvpApp.StopDrawing | src/components/RSVPApp.tsx:132-137 | With a context, isDrawing becomes false and the path is closed. An open stroke becomes a loop through its start. No ink is added. Without a context nothing changes. |
| RsvpPage.RsvpApp.ClearCanvas | src/components/RSVPApp.tsx:139-146 | With a canvas and a context, the raster becomes all white at the same size. isDrawing, the colour, the stroke style and the path are unchanged. |
| RsvpPage.RsvpApp.ChangeColour | src/components/RSVPApp.tsx:148-153 | A palette colour is selected, and the stroke style too when a context exists. Existing ink is unchanged. |
| RsvpPage.RsvpApp.FetchSubmissions | src/components/RSVPApp.tsx:186-188 | Exactly one list request is issued and awaits its response. |
| RsvpPage.RsvpApp.ReceiveSubmissions | src/components/RSVPApp.tsx:188-194 | An ok response with a parsed body replaces the list wholesale. A non-ok status, a transport error or an unparsable body leaves it exactly as it was. |
| RsvpPage.RsvpApp.Submit | src/components/RSVPApp.tsx:155-184 | A blank trimmed name or an unmounted canvas is rejected, with no request and nothing changed. Otherwise exactly one create request is sent, carrying the untrimmed name and the exported raster. On ok, one list request follows, the name becomes "" and the raster all white. On a non-ok status or a thrown error, the name and the raster are kept. |

## Left out

- The document-level `touchmove` listener, its removal on unmount, and the `preventDefault` calls (src/components/RSVPApp.tsx:68-73, 94-96, 104-106, 121-123): browser event plumbing with no state the model observes.
- `document.title`, the `Head` font link, JSX markup, styling, the palette buttons' highlight, `alert` and `console.error`: presentation only.
- Line width and round line caps (lines 85-86), and the fill style as context state: which pixels a line covers is the abstract `covers` parameter.
- The PNG encoding behind `toDataURL`: an opaque function supplied to the constructor.
- `Geometry.EventPosition`: coordinates are exact reals; IEEE rounding of the division is not modelled.
  - The displayed box must have positive width and height. The code divides without a guard and would produce Infinity or NaN.
  - A touch event must carry at least one touch. The code would throw a TypeError reading `clientX` of the missing first touch (line 51).
- JsString.Trim: a name is modelled as a sequence of Unicode scalar values. A JavaScript string is a sequence of UTF-16 code units and may hold a lone surrogate, which this model cannot represent. Lone surrogates are not white space, so trim treats them like any other non-white-space character.
- RsvpPage.RsvpApp.Draw: paint is modelled as opaque and all-or-nothing. A browser anti-aliases the 3px line, and `draw` re-strokes the whole path after each `lineTo` (lines 128-129). So on a real canvas the partly covered edge pixels of earlier segments are blended again on every move and grow darker. This build-up is not captured: the look-alike results of this method, of `Canvas2D.RestrokeShowsOnlyNewSegment` and of `Canvas2D.RedrawnLooksPaintedOnce` hold only under the opaque-paint assumption.
- RsvpPage.RsvpApp.Draw: stroke() is modelled as painting each segment independently. A real path stroke also paints a join at every interior vertex, and the page sets only `lineCap` (lines 84-86), so `lineJoin` stays at its default, miter. A miter join depends on two neighbouring segments and cannot be expressed by a per-segment coverage relation. So re-stroking `segs + [s]` also paints the join where `s` meets the last old segment, which painting `s` alone does not. The look-alike results of this method, of `Canvas2D.RestrokeShowsOnlyNewSegment` and of `Canvas2D.RedrawnLooksPaintedOnce` hold for per-segment coverage only. So does the "iff some segment covers it" of `Canvas2D.StrokeColourAt`.
- RsvpPage.RsvpApp.ChangeColour: the colour must be one of the palette's entries, which is all the only call site (line 256) passes. What a canvas does with an invalid `strokeStyle` string (it ignores it) is not modelled.
- RsvpPage.RsvpApp.constructor: assigning `rect.width` to `canvas.width` truncates to an integer in the browser. The model keeps the exact measured size.
- Asynchrony: the responses to the create and list requests are inputs in program order, and the fetch after a successful submit is not awaited. Interleavings of requests in flight, and the order in which their responses arrive, are not modelled.
- React state batching and stale closures: each setter is an immediate field update.
- The server route `app/api/rsvp/route.ts`: it is not part of this model. So neither are its newest-first ordering, the `id` and `createdAt` fields it adds to each record, or a list body that parses but is not an array.
- `app/layout.tsx`: page scaffold and metadata with no logic; not part of this model.
