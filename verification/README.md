# Crop-rectangle resolution of the video-trimmer service

The service's `/api/crop-video` endpoint accepts an uploaded video and a
request body, probes the video's frame size `W` x `H`, turns the body into a
crop rectangle, validates it, and hands `crop=w:h:x:y` to the transcoder. This
project models that decision procedure and the texts it produces, as pure
Dafny functions, and proves what the handler promises about them.

- `results.dfy` (`Results`): `Option` (a body field sent or left undefined) and `Result`.
- `crop.dfy` (`Crop`): the request, rectangle and error datatypes; mode
  selection (`ModeOf`), rectangle arithmetic (`Candidate`), the two ordered
  checks (`Validate`) and their composition `Resolve`. A reference meaning of
  a valid crop, "a non-empty set of pixels all inside the frame"
  (`PixelsInFrame`), is proved equal to what the two checks accept.
- `decimal.dfy` (`Decimal`): integers rendered the way a template literal
  renders them, templates of numbers and separators, and readers that invert
  them.
- `reply.dfy` (`Reply`): the 400 messages, the filter argument, the handler's
  response, and proofs that each text reports exactly the numbers it was made from.

Request fields are `Option<int>`: `None` is a form field the request did
not send. The edge defaults (`top = 0` etc.) apply to undefined fields and
the origin uses `cropX || 0`; on integers both amount to "absent means 0"
(`OrZero`). Region mode needs both `cropWidth` and `cropHeight`; otherwise
edge mode applies whatever else was sent. The probed frame size is taken as
positive (`W > 0 && H > 0`), since the handler only uses a stream whose width
and height are both set.

Three behaviours of the code are easy to misread, and the model keeps them:
region mode requires both sizes, not either one; negative edges are not rejected
as such (a negative `left`/`top` fails the first check, a negative
`right`/`bottom` grows the rectangle and fails the bounds check); and
non-numeric input is not rejected (see "Left out").

## Model

| member | source | states |
|---|---|---|
| Crop.Candidate | server.js:58-77 | region mode takes `(cropX or 0, cropY or 0, cropWidth, cropHeight)`; in edge mode the four margins between rectangle and frame are exactly `left`, `right`, `top`, `bottom` (absent = 0) |
| Crop.Validate | server.js:79-92 | success iff size positive, origin non-negative and far edges within the frame; `InvalidDimensions` exactly when the first check fails; `OutOfBounds` carries the frame and the extent `(x+w, y+h)`; every error carries the computed rectangle |
| Crop.Resolve | server.js:42-92 | an accepted rectangle is the one the request describes and satisfies `0 <= x`, `0 <= y`, `w > 0`, `h > 0`, `x+w <= W`, `y+h <= H`; a refusal carries that same rectangle |
| Crop.ChecksMatchPixels | server.js:80-87 | the two checks together accept exactly the rectangles that are non-empty and whose every pixel lies in the frame |
| Crop.ResolveOkIffInFrame | server.js:42-92 | a request is accepted iff the rectangle it describes is non-empty and lies entirely inside the frame |
| Crop.RegionNeedsBothSizes | server.js:61-77 | with `cropWidth` or `cropHeight` missing, the region fields (origin included) have no influence: the outcome is the edge-mode outcome |
| Crop.RegionIgnoresEdges | server.js:61-66 | in region mode the edge fields have no influence on the outcome |
| Crop.RegionOutcome | server.js:61-92 | region mode succeeds iff `0 <= x`, `0 <= y`, `0 < w`, `0 < h`, `x+w <= W`, `y+h <= H`, and then yields exactly `(x, y, w, h)` |
| Crop.EdgeOutcome | server.js:69-92 | edge mode succeeds iff no edge is negative, `left+right < W` and `top+bottom < H`, and then yields `(left, top, W-left-right, H-top-bottom)` |
| Crop.EdgeFullFrame | server.js:42-74 | edge mode with every edge absent or 0 yields the full frame `(0, 0, W, H)` |
| Crop.InvalidBeforeBounds | server.js:79-92 | a rectangle with non-positive size or negative origin is refused as `InvalidDimensions`, never `OutOfBounds`, and only such rectangles are |
| Crop.EdgeOutOfBounds | server.js:71-92 | in edge mode, once the first check passes, the request is refused iff `right < 0` or `bottom < 0`, with extent `(W-right, H-bottom)` |
| Crop.BoundaryInclusive | server.js:87-92 | a region reaching exactly to the frame's far edges is accepted; one pixel further is `OutOfBounds` with extent `W+1` |
| Crop.Scenarios | server.js:42-92 | worked requests: 1920x1080 edge `top=bottom=100` gives `(0,100,1920,880)`; region `(500,200,800,600)` is accepted unchanged; 640x480 region width 700 is out of bounds; edge `top=bottom=300` is invalid with height -120 |
| Decimal.NatToString | server.js:83 | a rendered natural number is a non-empty string of digits without a leading zero |
| Decimal.IntToString | server.js:83 | a rendered integer starts with `-` exactly when it is negative, followed by digits |
| Decimal.NatToStringValue | server.js:83 | the rendered digits denote the number rendered |
| Decimal.ReadNatRoundTrip | server.js:83 | reading a rendered natural number back yields it and leaves the following text untouched |
| Decimal.ReadIntRoundTrip | server.js:83 | reading a rendered integer (sign included) back yields it and leaves the following text untouched |
| Decimal.FieldsRoundTrip | server.js:83-98 | a template of numbers each followed by a separator that cannot continue a number reads back to the same numbers |
| Crop.ModeOf | server.js:61 | no contract of its own; `RegionNeedsBothSizes` and `RegionIgnoresEdges` show that region mode is chosen only with both sizes sent, and that the other mode's fields then have no effect |
| Crop.OrZero | server.js:42-66 | no contract of its own; `EdgeFullFrame` and `RegionOutcome` show that an unsent edge (the `= 0` defaults) or origin (`|| 0`) acts as 0 |
| Reply.FilterSpec | server.js:98 | no contract of its own; `FilterRoundTrip` shows that it names `(w, h, x, y)`, size first |
| Reply.InvalidMessage | server.js:83 | no contract of its own; `InvalidMessageRoundTrip` shows that it reports the rectangle's size and position |
| Reply.BoundsMessage | server.js:90 | no contract of its own; `BoundsMessageRoundTrip` shows that it reports the frame size and the extent |
| Reply.Handle | server.js:79-98 | the handler refuses, with status 400, exactly the requests `Resolve` refuses, and otherwise crops |
| Reply.FilterRoundTrip | server.js:96-98 | the `crop=w:h:x:y` argument names exactly the rectangle it was built from, size first |
| Reply.InvalidMessageRoundTrip | server.js:83 | the invalid-dimensions message reports the rectangle's size and position |
| Reply.BoundsMessageRoundTrip | server.js:90 | the out-of-bounds message reports the frame size and the extent the crop would reach |
| Reply.AcceptedFilterFaithful | server.js:87-98 | an accepted request hands the transcoder a filter naming the request's rectangle, which lies inside the frame |
| Reply.InvalidReplyFaithful | server.js:79-85 | a malformed rectangle is answered with 400 and a message reporting that rectangle |
| Reply.BoundsReplyFaithful | server.js:87-92 | a well-formed rectangle refused by the bounds check is answered with 400 and a message reporting the frame and the extent its error carries |

## Left out

- HTTP wiring (app setup, routing, JSON parsing, static serving, listening, server.js:9-13, 33-35, 121) and the JSON envelope `{ error: ... }` around a message: plumbing.
- Upload storage, timestamped names and directory creation (server.js:15-24): filesystem I/O.
- Probing the video (server.js:49-57) and its two 500 replies: a foreign call; the model starts from the probed `W` and `H`.
- Running the transcoder and its success/failure callbacks (server.js:94-113), the download URL (server.js:104) and the catch-all 500 reply (server.js:115-118): foreign calls and I/O; the model stops at the filter argument.
- Deleting the uploaded and output files on every path: side-effecting cleanup.
- Logging: no observable effect on the result.
- `parseInt` on strings, decimals and `NaN`: fields are modelled as integers already. In the source a non-numeric field gives `NaN`, which passes both checks because every comparison with `NaN` is false; that input is outside this model.
- Empty form fields: an empty `cropWidth` or `cropHeight` is still present, so it selects region mode and parses to `NaN`; an empty `cropX` or `cropY` becomes 0 through `|| 0`. Both are string inputs, outside this model for the same reason.
- JavaScript numbers are doubles: the arithmetic is exact only up to 2^53, and integers of 10^21 or more render in exponent notation. The model uses unbounded integers and plain decimal rendering.
- Crop.Resolve: requires a positive frame size, which the source does not check itself but receives from a stream whose width and height are both set.
