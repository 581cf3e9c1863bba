# Upload filter and inpainting mask of the image-editing front-end

The repository is a small Flask application: a user uploads a PNG or JPEG,
marks a region of it, types a prompt, and the server sends the image, a
black-and-white mask and the prompt to a hosted inpainting model. The
server expects the marked region as `mask_data`, a JSON rectangle
`{left, top, width, height}`, and draws the mask itself; the shipped
browser client instead sends a free-hand drawing as a PNG data URL, which
the server cannot parse (see Left out). Two pieces of that server are pure logic, and this
project models and proves them in Dafny:

- **The upload filter** `allowed_file` (module `FileNames`, `filenames.dfy`):
  a file name is accepted when the text after its last `.`, lower-cased,
  is `png`, `jpg` or `jpeg`. The model follows the code's
  `'.' in filename and filename.rsplit('.', 1)[1].lower() in ...` step by
  step: `LastDot` finds the last dot, `RSplitDot` is Python's
  `rsplit('.', 1)` (one part when there is no dot, two otherwise),
  `Lower` lower-cases, and `AllowedFile` is the check itself.
- **The mask rasterizer** in `process_image` (module `MaskRaster`,
  `mask.dfy`): a single-channel canvas the size of the original image is
  created with every pixel 255 (`NewMask`), and the polygon through the
  rectangle's four corners `(left, top) … (left + width, top + height)` is
  filled with 0 (`FillRect`); `Rasterize` is the two steps together. The
  image is represented only by its dimensions (`Size`) and the mask by
  `seq<seq<int>>`, one row per image line. Width and height may be
  negative; `Rect.XLo`/`XHi`/`YLo`/`YHi` normalise each span with min/max.
  The drawing library decides on its own which pixels lying exactly on the
  rectangle's border get painted, so that rule is a parameter
  (`BorderRule`) of every rasterizer function, and every property below is
  proved for all border rules. `Admissible` is the independent description
  of a correct mask: right dimensions, only 0 and 255, 255 outside the
  closed rectangle, 0 strictly inside it. `Rasterize` always produces an
  admissible mask, and `AdmissibleIsRasterized` shows every admissible
  mask is produced under some border rule, so the border is the only
  freedom left. `SameRegionSameMask`, `NegativeExtent` and
  `ClipPreservesMask` compare two rectangles under one shared border rule;
  since a rule is a function of the pixel alone, these lemmas assume the
  library's choice on border pixels does not depend on how the rectangle's
  corners are listed or on vertices lying off the canvas.

The mask of a rectangle inside the image need not have exactly
`width * height` zero pixels, and a zero-sized rectangle need not leave the
mask all 255: both depend on how the drawing library treats the polygon's
border (`ZeroAreaAllowsBlank` shows the all-255 mask is one correct
rendering).

## Model

| member | source | states |
|---|---|---|
| FileNames.LastDot | app.py:33 | The returned index holds a `.` and no later character is a `.`; no index is returned only when the name contains no `.` — the split point `rsplit('.', 1)` uses. |
| FileNames.LowerChar | app.py:33 | One character of `.lower()`: an ASCII capital becomes its lower-case letter (code point plus 32), every other character is kept, and only `.` maps to `.`. |
| FileNames.Lower | app.py:33 | `.lower()` keeps the length, leaves no ASCII capital, maps each character as `LowerChar` does and keeps every non-capital. |
| FileNames.AllowedFile | app.py:31-33 | An accepted name contains a `.`, has at least four characters and ends in `g` or `G`, since every allowed extension ends in `g`. |
| FileNames.RSplitDot | app.py:33 | `rsplit('.', 1)` yields one part, the whole name, exactly when there is no `.`; otherwise two parts that rejoin with a `.` to the name, the second part containing no `.`. |
| FileNames.RSplitJoin | app.py:33 | Round trip: splitting `p + "." + e` with a dot-free `e` gives back exactly `[p, e]`, whatever `p` contains. |
| FileNames.NoDotRejected | app.py:33 | A name that contains no `.` is never accepted. |
| FileNames.LastExtensionDecides | app.py:31-33 | Only the text after the last `.` matters: `p.e` with dot-free `e` is accepted exactly when lower-cased `e` is in {png, jpg, jpeg}, for every prefix `p`. |
| FileNames.AllowedFileIff | app.py:31-33 | Both directions: a name is accepted exactly when it can be written as prefix, `.`, dot-free extension whose lower-case form is an allowed extension. |
| FileNames.LowerInvariant | app.py:33 | Lower-casing the whole name beforehand never changes the verdict. |
| FileNames.CaseInsensitive | app.py:33 | Two names with the same lower-case form get the same verdict (`X.PNG`, `X.Png`, `X.png`). |
| FileNames.StemIgnoredExamples | app.py:17-33 | `a.b.png` (a dot inside the stem) and the bare `.png` (empty stem) are accepted. |
| FileNames.UpperCaseExamples | app.py:17-33 | `X.PNG` and `X.Png` are accepted. |
| FileNames.JpegExamples | app.py:17-33 | `photo.jpeg` and `photo.JPG` are accepted. |
| FileNames.RejectedExamples | app.py:17-33 | `a.png.exe`, the trailing-dot name `a.`, the dot-free `png` and `photo.gif` are rejected. |
| MaskRaster.NewMask | app.py:75 | The fresh canvas has the requested width and height and every pixel equals the fill value. |
| MaskRaster.FillRect | app.py:79-87 | Painting keeps the canvas dimensions, turns every pixel strictly inside the rectangle to 0, leaves every pixel outside the closed rectangle unchanged, and never writes any value but 0. |
| MaskRaster.Rasterize | app.py:72-87 | The mask has exactly the original image's width and height, holds only 0 and 255, is 255 outside the closed normalised rectangle and 0 strictly inside it. |
| MaskRaster.AdmissibleIsRasterized | app.py:74-87 | Every mask meeting that description is what the rasterizer draws under some border rule, so only border pixels are left open. |
| MaskRaster.SameRegionSameMask | app.py:79-87 | Two rectangles spanning the same normalised region draw the same mask. |
| MaskRaster.NegativeExtent | app.py:79-87 | A negative width (or height) describes the same mask as the positive extent measured from the opposite corner. |
| MaskRaster.ClipPreservesMask | app.py:79-87 | Clamping the rectangle to one pixel beyond the canvas on each side leaves the mask unchanged: for coordinates the drawing call can represent, out-of-range parts have no effect and need not be rejected. |
| MaskRaster.OffCanvasIgnored | app.py:79-87 | For coordinates the drawing call can represent, a rectangle lying wholly outside the canvas is accepted and leaves the mask all 255. |
| MaskRaster.ZeroAreaAllowsBlank | app.py:75-87 | For a rectangle of zero width or height, the all-255 mask is a correct rendering. |

## Left out

- FileNames.Lower, FileNames.LowerChar: lower-case ASCII letters only, where Python's `str.lower` covers all of Unicode; no non-ASCII character lower-cases to any of the letters of `png`, `jpg`, `jpeg`, so the verdict is the same.
- MaskRaster.Rasterize: pixels exactly on the rectangle's border are given by the `BorderRule` parameter, because the drawing library's scan-conversion rule is not part of this model; for the same reason no exact count of zero pixels is stated.
- MaskRaster.Rasterize: rectangle coordinates are integers; the code accepts any JSON number (including fractions), and JSON `true`/`false`, which Python adds as 1/0 and the drawing call draws; other non-numeric values raise and end in the catch-all error response.
- MaskRaster.Rasterize: coordinates are unbounded integers, whereas the drawing library must convert them to machine numbers; the model assumes coordinates the library can represent. Outside that range the conversion raises, which ends in the catch-all error response (app.py:125-131), or the values are not drawn as modelled.
- Parsing `mask_data` as JSON and reading its four keys (app.py:68, app.py:81-84): a call into the standard `json` library; a missing key becomes the catch-all error response.
- Flask routes, redirects, templates and static file serving (app.py:35-57, app.py:134-153): HTTP plumbing whose only logic is the call to `allowed_file`.
- `secure_filename` (app.py:49): a library function whose source is not part of this model.
- Image I/O: opening and converting the upload, saving the `init_`/`mask_` copies and writing the generated output (app.py:72, app.py:90-93, app.py:115-117); the model uses only the image's dimensions.
- The call to the hosted model and the check of its result type (app.py:95-123), and sample.py: a network client and file writes.
- The catch-all exception-to-500 mapping (app.py:125-131) and the start-up token check and logging (app.py:20-29): environment and error plumbing.
- static/js/scripts.js: the browser canvas UI; it posts a PNG data URL as `maskData`, not the `{left, top, width, height}` JSON the server parses, so there is no consistent client/server contract to model.
