/**
 * Crop-rectangle resolution and validation of the `/api/crop-video` handler.
 *
 * The handler receives the probed frame size `W` x `H` and the request body.
 * Region mode (both `cropWidth` and `cropHeight` sent) crops to an absolute
 * rectangle; otherwise edge mode removes `top`/`bottom`/`left`/`right` pixels
 * from the sides. The resulting rectangle is then checked in two ordered
 * stages: a non-positive size or negative origin is rejected first, a
 * rectangle reaching past the frame second.
 */
module Crop {
  import opened Results

  /** The request fields the handler reads; `None` is a form field the request did not send. */
  datatype CropRequest = CropRequest(
    top: Option<int>, bottom: Option<int>, left: Option<int>, right: Option<int>,
    cropX: Option<int>, cropY: Option<int>, cropWidth: Option<int>, cropHeight: Option<int>)

  /** The rectangle handed to the crop filter: origin `(x, y)` and size `width` x `height`. */
  datatype Rect = Rect(x: int, y: int, width: int, height: int)

  /** The two rejections; each carries what its message reports. */
  datatype CropError =
    | InvalidDimensions(rect: Rect)
    | OutOfBounds(rect: Rect, frameWidth: int, frameHeight: int, extentX: int, extentY: int)

  datatype Mode = Region | Edge

  /** Region mode needs both sizes; origin fields alone do not select it. */
  function ModeOf(req: CropRequest): Mode {
    if req.cropWidth.Some? && req.cropHeight.Some? then Region else Edge
  }

  /** Unsent fields count as 0: the `= 0` defaults of the edges, the `|| 0` of the origin. */
  function OrZero(field: Option<int>): int {
    match field
    case Some(v) => v
    case None => 0
  }

  /** The first stage: a positive size at a non-negative origin. */
  predicate WellFormed(r: Rect) {
    r.width > 0 && r.height > 0 && r.x >= 0 && r.y >= 0
  }

  /** The second stage: the far edges do not pass the frame's. */
  predicate WithinFrame(W: int, H: int, r: Rect) {
    r.x + r.width <= W && r.y + r.height <= H
  }

  /** Pixel `(i, j)` belongs to `r`. */
  ghost predicate Covers(r: Rect, i: int, j: int) {
    r.x <= i < r.x + r.width && r.y <= j < r.y + r.height
  }

  /** Reference meaning of a valid crop: a non-empty set of pixels, every one of them in the frame. */
  ghost predicate PixelsInFrame(W: int, H: int, r: Rect) {
    && r.width > 0 && r.height > 0
    && forall i, j :: Covers(r, i, j) ==> 0 <= i < W && 0 <= j < H
  }

  /**
   * The rectangle a request describes, before validation. In edge mode each
   * margin between the rectangle and the frame is exactly the edge requested.
   */
  function Candidate(W: int, H: int, req: CropRequest): (r: Rect)
    ensures ModeOf(req) == Region ==>
      r == Rect(OrZero(req.cropX), OrZero(req.cropY), req.cropWidth.value, req.cropHeight.value)
    ensures ModeOf(req) == Edge ==>
      && r.x == OrZero(req.left) && W - (r.x + r.width) == OrZero(req.right)
      && r.y == OrZero(req.top) && H - (r.y + r.height) == OrZero(req.bottom)
  {
    if req.cropWidth.Some? && req.cropHeight.Some? then
      Rect(OrZero(req.cropX), OrZero(req.cropY), req.cropWidth.value, req.cropHeight.value)
    else
      var left, right := OrZero(req.left), OrZero(req.right);
      var top, bottom := OrZero(req.top), OrZero(req.bottom);
      Rect(left, top, W - left - right, H - top - bottom)
  }

  /** The two ordered checks applied to a computed rectangle. */
  function Validate(W: int, H: int, r: Rect): (res: Result<Rect, CropError>)
    ensures res.Ok? <==> WellFormed(r) && WithinFrame(W, H, r)
    ensures res.Ok? ==> res.value == r
    ensures res.Err? ==> res.error.rect == r
    ensures res.Err? && res.error.InvalidDimensions? <==> !WellFormed(r)
    ensures res.Err? && res.error.OutOfBounds? ==>
      res.error.frameWidth == W && res.error.frameHeight == H &&
      res.error.extentX == r.x + r.width && res.error.extentY == r.y + r.height
  {
    if r.width <= 0 || r.height <= 0 || r.x < 0 || r.y < 0 then
      Err(InvalidDimensions(r))
    else if r.x + r.width > W || r.y + r.height > H then
      Err(OutOfBounds(r, W, H, r.x + r.width, r.y + r.height))
    else
      Ok(r)
  }

  /** The rectangle the crop filter receives for frame `W` x `H`, or why the request is refused. */
  function Resolve(W: int, H: int, req: CropRequest): (res: Result<Rect, CropError>)
    requires W > 0 && H > 0
    ensures res.Ok? ==> res.value == Candidate(W, H, req)
    ensures res.Ok? ==> WellFormed(res.value) && WithinFrame(W, H, res.value)
    ensures res.Err? ==> res.error.rect == Candidate(W, H, req)
  {
    Validate(W, H, Candidate(W, H, req))
  }

  /** The two checks accept exactly the rectangles whose pixels all lie in the frame. */
  lemma ChecksMatchPixels(W: int, H: int, r: Rect)
    ensures WellFormed(r) && WithinFrame(W, H, r) <==> PixelsInFrame(W, H, r)
  {
    if PixelsInFrame(W, H, r) {
      assert Covers(r, r.x, r.y);
      assert Covers(r, r.x + r.width - 1, r.y + r.height - 1);
    }
  }

  /** A request succeeds exactly when its rectangle is non-empty and lies inside the frame. */
  lemma ResolveOkIffInFrame(W: int, H: int, req: CropRequest)
    requires W > 0 && H > 0
    ensures Resolve(W, H, req).Ok? <==> PixelsInFrame(W, H, Candidate(W, H, req))
  {
    ChecksMatchPixels(W, H, Candidate(W, H, req));
  }

  /** Without both region sizes the region fields have no influence: edge mode applies. */
  lemma RegionNeedsBothSizes(W: int, H: int, req: CropRequest)
    requires W > 0 && H > 0
    requires req.cropWidth.None? || req.cropHeight.None?
    ensures Resolve(W, H, req)
         == Resolve(W, H, req.(cropX := None, cropY := None, cropWidth := None, cropHeight := None))
  {
  }

  /** In region mode the edge fields have no influence. */
  lemma RegionIgnoresEdges(W: int, H: int, req: CropRequest)
    requires W > 0 && H > 0
    requires ModeOf(req) == Region
    ensures Resolve(W, H, req)
         == Resolve(W, H, req.(top := None, bottom := None, left := None, right := None))
  {
  }

  /** Region mode succeeds exactly on a positive-size rectangle at a non-negative origin inside the frame. */
  lemma RegionOutcome(W: int, H: int, req: CropRequest)
    requires W > 0 && H > 0
    requires ModeOf(req) == Region
    ensures var x, y := OrZero(req.cropX), OrZero(req.cropY);
            var w, h := req.cropWidth.value, req.cropHeight.value;
            && (Resolve(W, H, req).Ok? <==> 0 <= x && 0 <= y && 0 < w && 0 < h && x + w <= W && y + h <= H)
            && (Resolve(W, H, req).Ok? ==> Resolve(W, H, req).value == Rect(x, y, w, h))
  {
  }

  /** Edge mode succeeds exactly when no edge is negative and opposite edges leave a pixel. */
  lemma EdgeOutcome(W: int, H: int, req: CropRequest)
    requires W > 0 && H > 0
    requires ModeOf(req) == Edge
    ensures var t, b, l, r := OrZero(req.top), OrZero(req.bottom), OrZero(req.left), OrZero(req.right);
            && (Resolve(W, H, req).Ok? <==> 0 <= t && 0 <= b && 0 <= l && 0 <= r && l + r < W && t + b < H)
            && (Resolve(W, H, req).Ok? ==> Resolve(W, H, req).value == Rect(l, t, W - l - r, H - t - b))
  {
  }

  /** With no edge removed, edge mode yields the full frame. */
  lemma EdgeFullFrame(W: int, H: int, req: CropRequest)
    requires W > 0 && H > 0
    requires ModeOf(req) == Edge
    requires OrZero(req.top) == 0 && OrZero(req.bottom) == 0
    requires OrZero(req.left) == 0 && OrZero(req.right) == 0
    ensures Resolve(W, H, req) == Ok(Rect(0, 0, W, H))
  {
  }

  /** A malformed rectangle is reported as such, never as out of bounds, whatever its extent. */
  lemma InvalidBeforeBounds(W: int, H: int, req: CropRequest)
    requires W > 0 && H > 0
    ensures !WellFormed(Candidate(W, H, req)) <==>
            Resolve(W, H, req) == Err(InvalidDimensions(Candidate(W, H, req)))
  {
  }

  /**
   * In edge mode a well-formed rectangle reaches to `W - right` and `H - bottom`,
   * so it passes the frame exactly when the right or bottom edge is negative.
   */
  lemma EdgeOutOfBounds(W: int, H: int, req: CropRequest)
    requires W > 0 && H > 0
    requires ModeOf(req) == Edge
    requires WellFormed(Candidate(W, H, req))
    ensures Resolve(W, H, req).Err? <==> OrZero(req.right) < 0 || OrZero(req.bottom) < 0
    ensures Resolve(W, H, req).Err? ==>
            Resolve(W, H, req).error
            == OutOfBounds(Candidate(W, H, req), W, H, W - OrZero(req.right), H - OrZero(req.bottom))
  {
  }

  /** The frame boundary is inclusive: reaching it is accepted, one pixel past it is not. */
  lemma BoundaryInclusive(W: int, H: int, x: int, y: int)
    requires W > 0 && H > 0
    requires 0 <= x < W && 0 <= y < H
    ensures var req := CropRequest(None, None, None, None, Some(x), Some(y), Some(W - x), Some(H - y));
            Resolve(W, H, req) == Ok(Rect(x, y, W - x, H - y))
    ensures var req := CropRequest(None, None, None, None, Some(x), Some(y), Some(W - x + 1), Some(H - y));
            Resolve(W, H, req).Err? && Resolve(W, H, req).error.OutOfBounds?
            && Resolve(W, H, req).error.extentX == W + 1
  {
  }

  /** Worked requests against 1920x1080 and 640x480 frames. */
  lemma Scenarios()
    ensures Resolve(1920, 1080, CropRequest(Some(100), Some(100), Some(0), Some(0), None, None, None, None))
         == Ok(Rect(0, 100, 1920, 880))
    ensures Resolve(1920, 1080, CropRequest(None, None, None, None, Some(500), Some(200), Some(800), Some(600)))
         == Ok(Rect(500, 200, 800, 600))
    ensures Resolve(640, 480, CropRequest(None, None, None, None, Some(0), Some(0), Some(700), Some(480)))
         == Err(OutOfBounds(Rect(0, 0, 700, 480), 640, 480, 700, 480))
    ensures Resolve(640, 480, CropRequest(Some(300), Some(300), Some(0), Some(0), None, None, None, None))
         == Err(InvalidDimensions(Rect(0, 300, 640, -120)))
  {
  }
}
