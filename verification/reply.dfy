/**
 * What the handler does with a resolved request: a refused request becomes an
 * HTTP 400 reply whose message reports the offending numbers, an accepted one
 * becomes the `crop=w:h:x:y` filter argument handed to the transcoder. The
 * readers below show that each text carries its numbers without loss.
 */
module Reply {
  import opened Results
  import opened Decimal
  import opened Crop

  /** The HTTP status of both validation failures. */
  const BadRequest := 400

  /** The handler's observable reaction to a request. */
  datatype Response =
    | Rejected(status: int, message: string)
    | Cropping(filter: string)

  const InvalidPrefix := "Invalid crop values. Resulting dimensions would be "
  const BoundsPrefix := "Crop region exceeds video boundaries. Video is "

  const FilterSeps: seq<string> := [":", ":", ":", ""]
  const InvalidSeps: seq<string> := ["x", " at (", ", ", ")."]
  const BoundsSeps: seq<string> := ["x", ", crop would extend to ", "x", "."]

  /** The crop filter argument: size first, then origin. */
  function FilterSpec(r: Rect): string {
    "crop=" + RenderFields([r.width, r.height, r.x, r.y], FilterSeps)
  }

  /** The message of an `InvalidDimensions` rejection: size, then position. */
  function InvalidMessage(r: Rect): string {
    InvalidPrefix + RenderFields([r.width, r.height, r.x, r.y], InvalidSeps)
  }

  /** The message of an `OutOfBounds` rejection: the frame, then how far the crop would reach. */
  function BoundsMessage(W: int, H: int, extentX: int, extentY: int): string {
    BoundsPrefix + RenderFields([W, H, extentX, extentY], BoundsSeps)
  }

  function Message(e: CropError): string {
    match e
    case InvalidDimensions(r) => InvalidMessage(r)
    case OutOfBounds(_, W, H, ex, ey) => BoundsMessage(W, H, ex, ey)
  }

  /** The rectangle a filter argument describes. */
  function ParseFilter(s: string): Option<Rect> {
    var body :- ReadLit("crop=", s);
    var ns :- ReadFields(body, FilterSeps);
    Some(Rect(ns[2], ns[3], ns[0], ns[1]))
  }

  /** The size and position an `InvalidDimensions` message reports. */
  function ParseInvalidMessage(s: string): Option<Rect> {
    var body :- ReadLit(InvalidPrefix, s);
    var ns :- ReadFields(body, InvalidSeps);
    Some(Rect(ns[2], ns[3], ns[0], ns[1]))
  }

  /** The frame size and crop extent an `OutOfBounds` message reports. */
  function ParseBoundsMessage(s: string): Option<(int, int, int, int)> {
    var body :- ReadLit(BoundsPrefix, s);
    var ns :- ReadFields(body, BoundsSeps);
    Some((ns[0], ns[1], ns[2], ns[3]))
  }

  /** The handler's reply to a request against a `W` x `H` video. */
  function Handle(W: int, H: int, req: CropRequest): (resp: Response)
    requires W > 0 && H > 0
    ensures resp.Rejected? <==> Resolve(W, H, req).Err?
    ensures resp.Rejected? ==> resp.status == BadRequest
  {
    match Resolve(W, H, req)
    case Ok(r) => Cropping(FilterSpec(r))
    case Err(e) => Rejected(BadRequest, Message(e))
  }

  /** The filter argument names exactly the rectangle it was built from. */
  lemma FilterRoundTrip(r: Rect)
    ensures ParseFilter(FilterSpec(r)) == Some(r)
  {
    var body := RenderFields([r.width, r.height, r.x, r.y], FilterSeps);
    ReadLitRoundTrip("crop=", body);
    FieldsRoundTrip([r.width, r.height, r.x, r.y], FilterSeps);
  }

  /** An `InvalidDimensions` message reports the size and position of the refused rectangle. */
  lemma InvalidMessageRoundTrip(r: Rect)
    ensures ParseInvalidMessage(InvalidMessage(r)) == Some(r)
  {
    var body := RenderFields([r.width, r.height, r.x, r.y], InvalidSeps);
    ReadLitRoundTrip(InvalidPrefix, body);
    FieldsRoundTrip([r.width, r.height, r.x, r.y], InvalidSeps);
  }

  /** An `OutOfBounds` message reports the frame size and the extent the crop would reach. */
  lemma BoundsMessageRoundTrip(W: int, H: int, extentX: int, extentY: int)
    ensures ParseBoundsMessage(BoundsMessage(W, H, extentX, extentY)) == Some((W, H, extentX, extentY))
  {
    var body := RenderFields([W, H, extentX, extentY], BoundsSeps);
    ReadLitRoundTrip(BoundsPrefix, body);
    FieldsRoundTrip([W, H, extentX, extentY], BoundsSeps);
  }

  /** An accepted request hands the transcoder a filter naming its rectangle, which lies in the frame. */
  lemma AcceptedFilterFaithful(W: int, H: int, req: CropRequest)
    requires W > 0 && H > 0
    requires Handle(W, H, req).Cropping?
    ensures ParseFilter(Handle(W, H, req).filter) == Some(Candidate(W, H, req))
    ensures PixelsInFrame(W, H, Candidate(W, H, req))
  {
    var r := Candidate(W, H, req);
    assert Handle(W, H, req).filter == FilterSpec(r);
    ChecksMatchPixels(W, H, r);
    FilterRoundTrip(r);
  }

  /** A request refused for its dimensions answers 400 with a message reporting its rectangle. */
  lemma InvalidReplyFaithful(W: int, H: int, req: CropRequest)
    requires W > 0 && H > 0
    requires !WellFormed(Candidate(W, H, req))
    ensures Handle(W, H, req).Rejected? && Handle(W, H, req).status == BadRequest
    ensures ParseInvalidMessage(Handle(W, H, req).message) == Some(Candidate(W, H, req))
  {
    var r := Candidate(W, H, req);
    assert Handle(W, H, req).message == InvalidMessage(r);
    InvalidMessageRoundTrip(r);
  }

  /**
   * A well-formed request refused by the bounds check answers 400 with a
   * message reporting the frame and the extent the crop would reach.
   */
  lemma BoundsReplyFaithful(W: int, H: int, req: CropRequest)
    requires W > 0 && H > 0
    requires WellFormed(Candidate(W, H, req)) && Resolve(W, H, req).Err?
    ensures Handle(W, H, req).Rejected? && Handle(W, H, req).status == BadRequest
    ensures var e := Resolve(W, H, req).error;
            ParseBoundsMessage(Handle(W, H, req).message) == Some((W, H, e.extentX, e.extentY))
  {
    var e := Resolve(W, H, req).error;
    BoundsMessageRoundTrip(W, H, e.extentX, e.extentY);
  }
}
