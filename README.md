# Face blurring: a verified model

This project models the core of a small face-anonymising web application. Its
`FaceBlurrer` finds faces in a still image or in each frame of a video. It blurs
or pixelates each face box on a copy of the frame and writes the result. The
Flask front end accepts an upload only when its extension names an image or a
video format. It stores the upload under a random hex name and names the result
after it.

Four modules:

- `Outcomes` (outcomes.dfy): `Option` and `Result` values that stand in for the source's exceptions.
- `Regions` (regions.dfy): frames as values. A frame is a rectangular grid of BGR pixels, and a face box is `(x, y, w, h)`. It defines `Crop` (reading `frame[y:y+h, x:x+w]`), `Paste` (assigning to it) and `Rewrite`. `Rewrite` handles a list of boxes one after another on a working copy. Its lemmas state locality, the order in which boxes take effect, and composition.
- `FaceBlur` (face_blur.dfy): the pipeline. Frames in memory are `array2<Pixel>` buffers. Each face region is written back in place by a nested loop. `BlurFaces` and `PixelateFaces` copy the input and loop over the detected boxes. They are proved to produce `Rewrite` of the input with the matching region filter. `ProcessImage` and `ProcessVideo` are the two drivers. The video loop is proved to write one frame per frame read, in read order. It is also proved to return the face count sampled on every tenth frame.
- `Uploads` (uploads.dfy): the filename rules. These are the extension after the last `.`, lower-cased, tested against two disjoint extension sets, plus the stored and processed names built from a UUID's hex digits.

OpenCV is opaque. The face cascade (run on the grey-scale frame with scale
factor 1.1 and 4 neighbours), `GaussianBlur` and the two `resize` calls are
function fields of a `Vision` value. That value is passed to every operation and
stands for the `FaceBlurrer` instance, whose only state is the loaded cascade.
`Vision.Valid()` is everything the model assumes about these calls:

- detected boxes are non-empty and lie inside the frame;
- a blur returns a region of the size it was given;
- a resize to `w` by `h` returns `h` rows of `w` pixels.

File and video I/O are parameters and results:

- `imread` becomes an `Option<Grid>`, where `None` means the image could not be loaded;
- an opened `VideoCapture` becomes the `Option` of its finite frame sequence;
- `imwrite` and `VideoWriter.write` become the returned written frames.

The uploaded name after `secure_filename`, and the UUID's hex digits, are inputs.

Python semantics written out:

- `//` rounds toward negative infinity (`FloorDiv`), so a negative `pixel_size` gives a 1 by 1 shrunken region;
- a `pixel_size` of 0 raises `ZeroDivisionError` on the first box, and only when a face was found;
- OpenCV's Gaussian blur rejects a kernel size that is not positive and odd (with sigma 0), also on the first box;
- both drivers always use the defaults 51 and 20, so neither error can occur in them;
- the image path fails on an unknown effect before anything is written;
- the video path writes each frame unchanged for an unknown effect.

## Model

| member | source | states |
|---|---|---|
| `Regions.Crop` | face_blur.py:23 | the region read for a box has the box's height and width, and its pixel (i, j) is the frame's pixel (y + i, x + j) |
| `Regions.Paste` | face_blur.py:27 | writing a region back keeps the frame's dimensions; pixels inside the box take the region's values and all others keep theirs |
| `Regions.Rewrite` | face_blur.py:19-27 | handling the boxes one by one on a copy yields a frame of the input's dimensions, for any filter that keeps region dimensions |
| `Regions.RewriteOutsideBoxes` | face_blur.py:21-27 | a pixel covered by no detected box is identical in the result and the input |
| `Regions.RewriteLastWriterWins` | face_blur.py:36-51 | a pixel holds the value written by the last box covering it; that box's region was read from the copy as the earlier boxes left it |
| `Regions.RewriteAppend` | face_blur.py:36-51 | boxes are applied in detection order: handling `front + back` equals handling `back` on the result of `front` |
| `Regions.DisjointBoxesCommute` | face_blur.py:21-27 | two non-overlapping boxes give the same frame in either order |
| `Regions.PatchAtPrefix` | face_blur.py:21-27 | the region written for box `k` does not depend on the boxes detected after it |
| `Regions.CropUnderDisjointPaste` | face_blur.py:23-27 | writing one box does not change what is read for a box that does not overlap it |
| `Regions.PastesCommute` | face_blur.py:27 | writes to two non-overlapping boxes can be made in either order |
| `FaceBlur.DetectFaces` | face_blur.py:10-14 | the detected boxes lie within the frame they were detected in |
| `FaceBlur.FloorDiv` | face_blur.py:42-43 | Python's floor division: `b*q <= a < b*q + b` for positive `b`, and the mirror image for negative `b` |
| `FaceBlur.FloorDivSign` | face_blur.py:42-43 | for a positive divisor and a non-negative dividend the quotient lies between 0 and the dividend, and is at least 1 once the dividend reaches the divisor; for a negative divisor and non-negative dividend it is at most 0 |
| `FaceBlur.SmallDim` | face_blur.py:41-43 | `max(1, n // p)` is at least 1; for `p >= 1` and `n >= 1` at most `n`; for negative `p` it is 1 |
| `FaceBlur.SmallDimCountsBlocks` | face_blur.py:41-43 | for `n >= p >= 1`, `max(1, n // p)` is the number of whole blocks of `p` that fit in `n` |
| `FaceBlur.PixelateBlock` | face_blur.py:41-48 | the pixelated block, shrunk with bilinear and grown back with nearest-neighbour interpolation, has exactly the extracted region's height and width |
| `FaceBlur.BlurRegion` | face_blur.py:25 | the Gaussian-blur region filter keeps region dimensions |
| `FaceBlur.PixelateRegion` | face_blur.py:38-48 | the pixelation region filter keeps region dimensions |
| `FaceBlur.ApplyEffect` | face_blur.py:94-99 | the frame written for an effect has the input frame's dimensions, and an unknown effect passes the frame through unchanged |
| `FaceBlur.Decode` | face_blur.py:57 | a decoded frame is a fresh buffer holding exactly the source's pixels |
| `FaceBlur.Copy` | face_blur.py:19 | `image.copy()` is a fresh buffer with the same pixels |
| `FaceBlur.WriteRegion` | face_blur.py:27 | the in-place slice assignment leaves the buffer equal to `Paste` of its old contents; nothing outside the box changes |
| `FaceBlur.BlurBox` | face_blur.py:22-27 | for a positive odd kernel size (the only one `GaussianBlur` accepts), one pass of the blur loop leaves the working copy equal to its old contents with the box's blurred region pasted in |
| `FaceBlur.BlurBoxes` | face_blur.py:21-27 | the blur loop completes exactly when there is no box or the kernel size is positive and odd; when it raises the copy is untouched, and otherwise it is `Rewrite` of its old contents with the blur filter |
| `FaceBlur.PixelateBox` | face_blur.py:37-51 | one pass of the pixelation loop leaves the working copy equal to its old contents with the box's pixelated region pasted in |
| `FaceBlur.PixelateBoxes` | face_blur.py:36-51 | the pixelation loop completes exactly when there is no box or `pixel_size` is not 0; when it raises the copy is untouched, and otherwise it is `Rewrite` of its old contents with the pixelation filter |
| `FaceBlur.BlurFaces` | face_blur.py:16-29 | fails exactly when a face was detected and the kernel size is not positive and odd; otherwise returns a fresh frame equal to blurring every detected box in order; the input is unchanged |
| `FaceBlur.PixelateFaces` | face_blur.py:31-53 | fails with a division by zero exactly when a face was detected and `pixel_size` is 0; otherwise returns a fresh frame equal to pixelating every detected box in order; the input is unchanged |
| `FaceBlur.ProcessFrame` | face_blur.py:94-99 | the frame handed to the writer is the effect applied to the frame read |
| `FaceBlur.ProcessImage` | face_blur.py:55-69 | an unreadable image fails; an unknown effect fails with nothing written; otherwise the processed frame is written and the count of faces detected on the original is returned |
| `FaceBlur.ProcessVideo` | face_blur.py:71-112 | an unopenable video fails; otherwise exactly one frame is written per frame read, in read order, each frame passes through unchanged for an unknown effect, and the result is the face count over frames 0, 10, 20, ... |
| `FaceBlur.SampledAtMostTotal` | face_blur.py:103-105 | the sampled face count never exceeds the count over all frames |
| `FaceBlur.SampledCountIgnoresUnsampled` | face_blur.py:103-105 | only frames whose 0-based index is divisible by 10 affect the count |
| `FaceBlur.SampledCountUniform` | face_blur.py:86-107 | with `c` faces in every one of `n` frames the count is `c * ceil(n / 10)` |
| `FaceBlur.TotalCountUniform` | face_blur.py:86-107 | with `c` faces in every one of `n` frames the exhaustive count would be `c * n` |
| `FaceBlur.TwentyFiveFramesOneFaceEach` | face_blur.py:103-105 | 25 frames with one face each report 3 faces, not 25 |
| `FaceBlur.NoFacesNoChange` | face_blur.py:19-21 | with no detected face the written frame equals the input |
| `FaceBlur.EffectOutsideFaces` | face_blur.py:94-99 | under either effect, a pixel outside every detected box is unchanged in the written frame |
| `Uploads.LastDot` | app.py:22 | finds the last `.`: none exactly when the name has no `.`, otherwise a `.` with no `.` after it |
| `Uploads.NoDotRejected` | app.py:20-30 | a name with no `.` is not allowed, not an image and not a video |
| `Uploads.ExtensionAfterLastDot` | app.py:22 | the extension is exactly the text after the last `.`, whatever precedes it |
| `Uploads.TrailingDotRejected` | app.py:20-30 | a name ending in `.` has an empty extension and is rejected by all three checks |
| `Uploads.DoubleExtensionUpperCase` | app.py:24-26 | `a.b.JPG` is an allowed image and not a video |
| `Uploads.AllowedIffImageOrVideo` | app.py:13-30 | `allowed_file` holds exactly when `is_image_file` or `is_video_file` holds |
| `Uploads.ImageAndVideoExclusive` | app.py:13-30 | no name is both an image and a video |
| `Uploads.KindOfJoin` | app.py:22 | a name ending in `.` and a dot-free lower-case extension is classified by that extension |
| `Uploads.KindIsLowerDotFree` | app.py:66 | the lower-cased extension of a name with a `.` contains no `.` and is already lower-case |
| `Uploads.StoredNamesKeepKind` | app.py:65-74 | for an allowed name the stored name is `hex + "." + lowercased extension` and the processed name is `"processed_"` followed by it; both are classified as the original is |

## Left out

- Flask routing, request parsing, `file.save`, `send_from_directory`, clean-up with `os.remove`, and `uuid.uuid4()` (app.py:32-125): HTTP and file-system I/O. The hex digits are an input.
- The `upload_file` flow as a whole is not modelled. As written it calls `FaceBlurrer(model_type=..., blur_strength=..., pixel_size=...)` (app.py:62) and passes five arguments to three-parameter methods (app.py:78, app.py:81), although `FaceBlurrer.__init__` takes none (face_blur.py:6). Python rejects both calls.
- `werkzeug.utils.secure_filename`: foreign code. Its output is taken as the `original` input of `StoredName`. app.py:57 checks the raw name but app.py:66 splits the sanitised one, so a name whose sanitising drops the last `.` (a non-ASCII stem, say) passes the check and then raises `IndexError`. `StoredNamesKeepKind` assumes the sanitised name is allowed and does not cover that case.
- Model choice, blur-strength and pixel-size settings: the front end reads `model_type`, `blur_strength` and `pixel_size` from the form (app.py:43-45) and passes them to `FaceBlurrer` (app.py:62). face_blur.py has no such parameters: one fixed cascade (face_blur.py:6-8), fixed detector settings (face_blur.py:13), no normalisation of the kernel size (face_blur.py:25) and no clamp on `pixel_size` (face_blur.py:42-43). The model follows face_blur.py, so model choice is not modelled, and an invalid kernel size or a zero `pixel_size` is an error.
- OpenCV internals: the cascade classifier, `cvtColor`, the Gaussian kernel and both interpolations are floating-point numerics in a foreign library. `Vision.Valid()` states only what the pipeline relies on.
- Boxes reaching past the frame edge, which numpy slicing would clip: the detector is assumed to return boxes inside the frame (`Vision.Valid()`).
- Video container metadata: the frame rate, width and height read with `cap.get` and the `mp4v` writer set-up (face_blur.py:77-84), and `cap.release()`/`out.release()`. `ApplyEffect` does prove that every written frame has its input frame's dimensions.
- Write failures: the model treats writing as infallible. `cv2.imwrite` raises `cv2.error` when no encoder matches the output path's extension (face_blur.py:68), and `ProcessImage` then returns `Success` where the source raises. `VideoWriter.write` reports failure without raising, and the source ignores it.
- `Uploads.Lower`: lowers ASCII letters only, because Python's full Unicode `str.lower` is not modelled.
- static/script.js: browser UI.
