/**
 * The values exchanged between the RSVP page and its `/api/rsvp` endpoint,
 * and the gallery the page renders from the list it last fetched.
 */
module Rsvp {
  import opened Wrappers

  /** A submission as the page keeps it: the name and the drawing as a data URL. */
  datatype Submission = Submission(name: string, drawing: string)

  /**
   * A request the page sends: POST with the JSON body `{name, drawing}`, or
   * GET of the whole list.
   */
  datatype Request =
    | CreateRsvp(name: string, drawing: string)
    | ListRsvps

  /** How the POST ended: with an ok status, with another status, or by throwing. */
  datatype CreateOutcome = CreateOk | CreateNotOk | CreateFailed

  /**
   * How the GET ended: an ok status whose body parsed to a list, another
   * status, a thrown transport error, or a body that is not JSON.
   */
  datatype ListOutcome =
    | ListOk(data: seq<Submission>)
    | ListNotOk
    | ListFailed
    | ListBadBody

  /** What the submit handler reports: rejected before sending, the POST failed, or accepted. */
  datatype SubmitOutcome = ValidationError | SubmissionError | Submitted

  /** One entry of the gallery: the heading, the image source and its alt text. */
  datatype Card = Card(heading: string, src: string, alt: string)

  /**
   * The gallery section: absent while the list is empty, otherwise one card
   * per submission, in list order, headed by its name and showing its
   * drawing directly from the data URL.
   */
  function GalleryView(submissions: seq<Submission>): (v: Option<seq<Card>>)
    ensures v.Some? <==> |submissions| > 0
    ensures v.Some? ==> |v.value| == |submissions|
    ensures v.Some? ==> forall i :: 0 <= i < |submissions| ==>
      v.value[i].heading == submissions[i].name && v.value[i].src == submissions[i].drawing
  {
    if |submissions| > 0 then
      Some(seq(|submissions|, i requires 0 <= i < |submissions| =>
        Card(submissions[i].name, submissions[i].drawing, "Drawing by " + submissions[i].name)))
    else
      None
  }
}
