# Bengali character cropper: the extractor

This project models `crop_and_resize` from `bengali_cropper.py` in Dafny. That function turns
one scanned character image into a 100x100 thumbnail. It finds the foreground contours and keeps
the one with the largest area. It gives up with a warning when no contour exists, or when the
largest one is smaller than 100 area units. Otherwise it takes that contour's bounding rectangle
and pads it by 5 pixels on every side. The padded box is clamped to the image. The image is
cropped to that box and resized to exactly 100x100, whatever the box's aspect ratio.

The model is pure: a few datatypes, functions and lemmas in two modules.

- `Wrappers` (`Wrappers.dfy`): a `Result`/`Option` pair.
- `Cropper` (`Cropper.dfy`): the extractor.

The model takes the image as its size only (`Image(width, height)`). It takes the output of
OpenCV's contour detection as a sequence of `Contour(area, bound)` records. `area` is the value
of `contourArea`, modelled as a `real`. `bound` is the `(x, y, w, h)` of `boundingRect`.
Contour detection guarantees that every bounding rectangle lies inside the image. `WellFormed`
states this, and it is the extractor's only precondition. A successful result is a `Thumbnail`.
It holds PIL's crop box `(left, upper, right, lower)` and the size the crop is resized to.

`Extract` tells the two "not found" outcomes apart with a `Warning`:

- `NoCharacterFound` is the first pop-up.
- `ContourTooSmall` is the second.

`CropAndResize` is the function as its callers see it. It returns the thumbnail or `None`.

Python's `max(contours, key=cv2.contourArea)` scans from the left and replaces its candidate
only when it finds a strictly larger key. It therefore returns the *first* contour of maximal
area. `Largest` models exactly that tie-break. The lemmas `SmallerPrefixKeepsChoice` and
`NoLargerSuffixKeepsChoice` state what the tie-break means: strictly smaller contours before the
winner, or no-larger contours after it, never change which contour is chosen.

The padding step clamps the box's width against the already-clamped origin
(`bengali_cropper.py:40-43`). Take a character that starts fewer than 5 pixels from the left edge
(`0 <= x < 5`). Its box starts at column 0. It keeps the full width `w + 10` when the image is at
least that wide; otherwise the width is cut to the image width. In the first case the padding lost
on the left reappears on the right (`LeftClampMovesPaddingRight`). The same happens vertically
(`TopClampMovesPaddingDown`). At `x = 5` the origin is 0 without any clamping, and no padding
moves. In every case the box covers the character and stays inside the image.

## Model

| member | source | states |
|---|---|---|
| `Cropper.Largest` | bengali_cropper.py:25 | the chosen index holds a contour whose area is at least every contour's area, and every earlier contour's area is strictly smaller (Python's `max` returns the first maximum) |
| `Cropper.FirstMaximumIsUnique` | bengali_cropper.py:25 | an index is the first maximum exactly when it is the one `Largest` returns, so its contract determines the choice |
| `Cropper.SmallerPrefixKeepsChoice` | bengali_cropper.py:25 | prepending contours that are all strictly smaller than the chosen one keeps the same contour chosen (its index shifts by their number) |
| `Cropper.NoLargerSuffixKeepsChoice` | bengali_cropper.py:25 | appending contours that are no larger than the chosen one keeps the same index: on a tie the earlier contour wins |
| `Cropper.PadAndClamp` | bengali_cropper.py:39-43 | the padded box has a non-negative origin, grows at most 5 pixels left/up and at most 10 in size, and never passes the right or bottom edge; each side either keeps its full 5-pixel padding (origin `x - 5`, size `w + 10`) or stops at the image edge (origin 0, or reaching the width/height); for a rectangle inside the image it is inside the image, covers the rectangle and is at least as large |
| `Cropper.PaddedBoxIsUnique` | bengali_cropper.py:39-43 | a box is padded as far as the image allows (each side keeps full padding or stops at the edge, never past it) exactly when it equals the padded box, so these properties determine `x' = max(0, x - 5)`, `w' = min(w + 10, width - x')` and likewise for y/h |
| `Cropper.InteriorBoxPaddedExactly` | bengali_cropper.py:39-43 | a rectangle at least 5 pixels clear of every edge becomes exactly `(x - 5, y - 5, w + 10, h + 10)` |
| `Cropper.EdgeBoxClampedToZero` | bengali_cropper.py:40-41 | the padded origin is 0 on an axis exactly when the rectangle starts within 5 pixels of that edge, never negative |
| `Cropper.LeftClampMovesPaddingRight` | bengali_cropper.py:40-42 | when the left edge is clamped and the image is wide enough, the box spans columns 0 to `w + 10`, so the right padding becomes `10 - x` |
| `Cropper.TopClampMovesPaddingDown` | bengali_cropper.py:41-43 | the same as the left edge, for the top edge and the height |
| `Cropper.ToCropBox` | bengali_cropper.py:46 | the crop box starts at the padded origin, spans the padded width and height, and contains a pixel exactly when the padded rectangle does |
| `Cropper.Extract` | bengali_cropper.py:11-49 | "no character" exactly when there is no contour; "too small" exactly when there are contours and all are below 100; a thumbnail exactly when some contour reaches 100. A thumbnail is always 100x100 and comes from the largest contour, which reaches 100. Its crop box is non-empty, inside the image, covers that contour's bounding rectangle and exceeds it by at most 10 pixels per axis; the cropped region is that rectangle padded as far as the image allows |
| `Cropper.CropAndResize` | bengali_cropper.py:19-47 | returns `None` exactly when there is no contour or every contour is below 100; otherwise a 100x100 thumbnail of the largest contour's rectangle padded as far as the image allows |
| `Cropper.OnlyLargestContourMatters` | bengali_cropper.py:25-47 | the outcome equals the outcome for the chosen contour alone |
| `Cropper.SingleBlobThumbnail` | bengali_cropper.py:28-47 | one contour of area at least 100 yields its padded and clamped rectangle at size 100x100 |
| `Cropper.TrailingNoiseIgnored` | bengali_cropper.py:25-47 | an extra contour after the others, no larger than the chosen one, does not change the outcome |
| `Cropper.SquareOnCanvas` | bengali_cropper.py:36-47 | a 20x20 square at (50, 50) on a 200x200 image is cropped to (45, 45)-(75, 75) and resized to 100x100 |
| `Cropper.BlankCanvas` | bengali_cropper.py:19-22 | an image in which detection finds no contour yields `None` |
| `Wrappers.Result.ToOption` | bengali_cropper.py:22 | a failure becomes `None` and a success keeps its value: both warnings are the same `None` to the caller |

## Left out

- Grayscale conversion, Otsu thresholding and `findContours` (`bengali_cropper.py:13-17`): these are OpenCV calls. The model takes their result as the input sequence of contour records.
- Failure of the grayscale conversion (`bengali_cropper.py:13`): `cv2.cvtColor(..., COLOR_RGB2GRAY)` accepts only 3- or 4-channel arrays. A single-channel image (PIL modes such as `L`, `P`, `1`, `I;16`) makes `crop_and_resize` raise. The call at `bengali_cropper.py:67` has no guard, so that error ends the rest of the batch. The model covers only the case where the conversion succeeds. It cannot express the raised error.
- Which images yield no contour: this depends on OpenCV's thresholding and contour detection. The model starts from the contour sequence, so it does not decide this.
- The computation of `contourArea` and `boundingRect`: the model takes both as given fields of each record. The area is a `real` and is not checked for being non-negative.
- The `messagebox` pop-ups (`bengali_cropper.py:21, 32`): these are UI side effects. The model only records which warning would be shown.
- Pixel data, `Image.crop` and Lanczos resampling (`bengali_cropper.py:46-47`): these are PIL calls and floating-point numerics. The model keeps only the crop box and the 100x100 target size.
- `process_images` (`bengali_cropper.py:52-73`) and `create_zip` (`bengali_cropper.py:76-99`): file dialogs, image loading, JPEG saving, ZIP writing and directory clean-up are filesystem I/O.
- The Tkinter window (`bengali_cropper.py:102-138`): this is UI.
- Determinism: the model has no separate idempotence lemma. `Extract` is a mathematical function, so two calls on the same image always give the same result.
