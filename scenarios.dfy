/**
 * Two sessions of the page, proved from the handlers' contracts alone: a
 * touch stroke of three moves, and a submission that is first rejected,
 * then fails, then succeeds.
 */
module Scenarios {
  import opened Wrappers
  import opened Geometry
  import opened Canvas2D
  import opened JsString
  import opened Rsvp
  import opened RsvpPage

  /** A touch stroke of three moves: the path, the drawing state, and a stray move after the end. */
  method TouchStroke() {
    var rect := Rect(0.0, 0.0, 100.0, 50.0);
    var app := new RsvpApp(true, rect, true, r => "data:image/png;base64,");
    var p0, p1, p2, p3 := Point(10.0, 10.0), Point(20.0, 15.0), Point(30.0, 5.0), Point(40.0, 40.0);
    var e0, e1, e2, e3 := Touch([p0]), Touch([p1, p3]), Touch([p2]), Touch([p3]);
    // the backing size is the displayed size, so the mapping is the identity here
    assert app.Position(e0, rect) == p0 && app.Position(e1, rect) == p1;
    assert app.Position(e2, rect) == p2 && app.Position(e3, rect) == p3;
    app.StartDrawing(e0, rect);
    app.Draw(e1, rect);   // the second finger is ignored
    app.Draw(e2, rect);
    app.Draw(e3, rect);
    assert app.path.segments == [Segment(p0, p1), Segment(p1, p2), Segment(p2, p3)];
    var drawn := app.raster;
    app.StopDrawing();
    assert !app.isDrawing && |app.path.segments| == 4 && app.raster == drawn;
    // a stray move after the stroke ended changes nothing
    app.Draw(Mouse(70.0, 20.0), rect);
    assert app.raster == drawn;
  }

  method SubmitThreeTimes(png: Raster -> string) {
    var rect := Rect(0.0, 0.0, 100.0, 50.0);
    var app := new RsvpApp(true, rect, true, png);
    app.SetName("  ");
    var drawn := app.raster;
    var outcome := app.Submit(CreateOk);
    assert outcome == ValidationError && app.requests == [ListRsvps];
    app.SetName("Sam ");
    assert !IsBlank(app.name) by { assert !IsWhiteSpace(app.name[0]); }
    outcome := app.Submit(CreateFailed);
    assert outcome == SubmissionError && app.name == "Sam " && app.raster == drawn;
    outcome := app.Submit(CreateOk);
    assert outcome == Submitted && app.name == "";
    assert app.requests == [ListRsvps, CreateRsvp("Sam ", png(drawn)), CreateRsvp("Sam ", png(drawn)), ListRsvps];
    app.ReceiveSubmissions(ListFailed);
    assert app.submissions == [] && GalleryView(app.submissions) == None;
    app.ReceiveSubmissions(ListOk([Submission("Sam ", png(drawn))]));
    assert GalleryView(app.submissions).Some?;
  }
}
