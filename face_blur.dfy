/**
 * The face-blurring pipeline of face_blur.py: detect faces, rewrite each detected
 * box of a working copy of the frame with a blur or a pixelation, and drive that
 * over one image or over every frame of a video.
 *
 * OpenCV is opaque here. The cascade detector (after the grey-scale conversion),
 * the Gaussian blur and the two resizes are function fields of a `Vision` value;
 * all the model knows of them is `Vision.Valid()`.
 */
module FaceBlur {
  import opened Outcomes
  import opened Regions

  /** Kernel size `blur_faces` uses when none is given, and the one the drivers use. */
  const DefaultBlurStrength: int := 51
  /** Block size `pixelate_faces` uses when none is given, and the one the drivers use. */
  const DefaultPixelSize: int := 20
  /** Faces are counted on frames 0, 10, 20, ... of a video. */
  const SampleEvery: nat := 10

  /**
   * The library calls the pipeline makes. `detect` is the loaded frontal-face cascade
   * run on the grey-scale frame with scale factor 1.1 and 4 minimum neighbours;
   * `gaussianBlur(region, k)` is a `k` by `k` Gaussian blur with sigma 0;
   * `resizeLinear(region, w, h)` and `resizeNearest(region, w, h)` resize to `w`
   * columns and `h` rows with bilinear and nearest-neighbour interpolation.
   */
  datatype Vision = Vision(
    detect: Grid -> seq<Box>,
    gaussianBlur: (Grid, int) -> Grid,
    resizeLinear: (Grid, int, int) -> Grid,
    resizeNearest: (Grid, int, int) -> Grid)
  {
    /**
     * What the pipeline relies on: detected boxes are non-empty and lie within the
     * frame, the blur keeps a region's dimensions, and a resize to `w` by `h` yields
     * `h` rows of `w` pixels.
     */
    ghost predicate Valid() {
      (forall g, k {:trigger detect(g)[k]} | IsRect(g) && 0 <= k < |detect(g)| :: Inside(detect(g)[k], g)) &&
      (forall g, k {:trigger gaussianBlur(g, k)} | IsRect(g) && Height(g) >= 1 && Width(g) >= 1 ::
        SameShape(gaussianBlur(g, k), g)) &&
      (forall g, w, h {:trigger resizeLinear(g, w, h)} | IsRect(g) && Height(g) >= 1 && Width(g) >= 1 && w >= 1 && h >= 1 ::
        HasShape(resizeLinear(g, w, h), h, w)) &&
      (forall g, w, h {:trigger resizeNearest(g, w, h)} | IsRect(g) && Height(g) >= 1 && Width(g) >= 1 && w >= 1 && h >= 1 ::
        HasShape(resizeNearest(g, w, h), h, w))
    }
  }

  /** The exceptions the pipeline raises. */
  datatype MediaError =
    | CouldNotLoad            // the image or video could not be opened
    | UnknownEffect(effect: string)
    | BadKernelSize(size: int) // OpenCV rejects a Gaussian kernel that is not positive and odd
    | DivisionByZero          // `temp_height // pixel_size` with `pixel_size == 0`

  /** OpenCV accepts a Gaussian kernel size (with sigma 0) only when it is positive and odd. */
  predicate ValidKernel(k: int) {
    k > 0 && k % 2 == 1
  }

  predicate KnownEffect(effect: string) {
    effect == "blur" || effect == "pixelate"
  }

  // ---------------------------------------------------------------------------
  // Pixelation arithmetic

  /** Python's `a // b`, which rounds toward negative infinity. */
  function FloorDiv(a: int, b: int): (q: int)
    requires b != 0
    ensures b > 0 ==> b * q <= a < b * q + b
    ensures b < 0 ==> b * q + b < a <= b * q
  {
    if b > 0 then a / b else (-a) / (-b)
  }

  lemma FloorDivSign(a: int, b: int)
    requires b != 0
    ensures b >= 1 && a >= 0 ==> 0 <= FloorDiv(a, b) <= a
    ensures b >= 1 && a >= b ==> FloorDiv(a, b) >= 1
    ensures b < 0 && a >= 0 ==> FloorDiv(a, b) <= 0
  {
    var q := FloorDiv(a, b);
    if b >= 1 && a >= 0 {
      PositiveFactor(b, q + 1);
      MulMonotone(q, 1, b);
    }
    if b >= 1 && a >= b {
      PositiveFactor(b, q);
    }
    if b < 0 && a >= 0 {
      NegativeFactor(b, q);
    }
  }

  lemma PositiveFactor(m: int, x: int)
    requires m >= 1
    ensures m * x > 0 ==> x >= 1
  {
  }

  lemma NegativeFactor(m: int, x: int)
    requires m < 0
    ensures m * x >= 0 ==> x <= 0
  {
  }

  lemma MulMonotone(m: int, x: int, y: int)
    requires m >= 0 && x <= y
    ensures m * x <= m * y
  {
  }

  /** `max(1, n // pixel_size)`: the size of one side of the shrunken region. */
  function SmallDim(n: int, pixelSize: int): (r: int)
    requires pixelSize != 0
    ensures r >= 1
    ensures pixelSize >= 1 && n >= 1 ==> r <= n
    ensures pixelSize < 0 && n >= 0 ==> r == 1
  {
    FloorDivSign(n, pixelSize);
    var q := FloorDiv(n, pixelSize);
    if q > 1 then q else 1
  }

  /** For `n >= p >= 1` the shrunken side counts the whole blocks of `p` pixels in `n`. */
  lemma SmallDimCountsBlocks(n: int, pixelSize: int)
    requires 1 <= pixelSize <= n
    ensures SmallDim(n, pixelSize) * pixelSize <= n < (SmallDim(n, pixelSize) + 1) * pixelSize
  {
    FloorDivSign(n, pixelSize);
    var q := FloorDiv(n, pixelSize);
    assert SmallDim(n, pixelSize) == q;
    assert pixelSize * q <= n < pixelSize * q + pixelSize;
    assert (q + 1) * pixelSize == pixelSize * q + pixelSize;
  }

  // ---------------------------------------------------------------------------
  // Region filters and what a whole frame becomes

  /** `cv2.GaussianBlur(region, (k, k), 0)`. */
  function BlurRegion(cv: Vision, k: int): (t: Grid -> Grid)
    requires cv.Valid()
    ensures Preserving(t)
  {
    region => cv.gaussianBlur(region, k)
  }

  /**
   * Shrink the region to `max(1, h // p)` rows and `max(1, w // p)` columns with
   * bilinear interpolation, then grow it back to `h` by `w` with nearest-neighbour
   * interpolation: the block written back has the region's own dimensions.
   */
  function PixelateBlock(cv: Vision, pixelSize: int, region: Grid): (block: Grid)
    requires cv.Valid() && pixelSize != 0
    requires IsRect(region) && Height(region) >= 1 && Width(region) >= 1
    ensures SameShape(block, region)
  {
    var small := cv.resizeLinear(region, SmallDim(Width(region), pixelSize), SmallDim(Height(region), pixelSize));
    cv.resizeNearest(small, Width(region), Height(region))
  }

  /**
   * The filter `pixelate_faces` applies to each face region. Face regions are
   * non-empty rectangles, and a pixel size of 0 raises before any region is
   * filtered, so the region is never handed back unfiltered.
   */
  function PixelateRegion(cv: Vision, pixelSize: int): (t: Grid -> Grid)
    requires cv.Valid()
    ensures Preserving(t)
  {
    region => PixelateOrKeep(cv, pixelSize, region)
  }

  /** Pixelate a non-empty region; anything else is handed back as it is. */
  function PixelateOrKeep(cv: Vision, pixelSize: int, region: Grid): (block: Grid)
    requires cv.Valid()
    ensures IsRect(region) && Height(region) >= 1 && Width(region) >= 1 ==> SameShape(block, region)
  {
    if pixelSize != 0 && IsRect(region) && Height(region) >= 1 && Width(region) >= 1 then
      PixelateBlock(cv, pixelSize, region)
    else region
  }

  function Blurred(cv: Vision, g: Grid, k: int): (r: Grid)
    requires cv.Valid() && IsRect(g)
    ensures SameShape(r, g)
  {
    Rewrite(g, cv.detect(g), BlurRegion(cv, k))
  }

  function Pixelated(cv: Vision, g: Grid, pixelSize: int): (r: Grid)
    requires cv.Valid() && IsRect(g) && pixelSize != 0
    ensures SameShape(r, g)
  {
    Rewrite(g, cv.detect(g), PixelateRegion(cv, pixelSize))
  }

  /** The frame a driver writes for `effect`; an unknown effect leaves the frame as it is. */
  function ApplyEffect(cv: Vision, effect: string, g: Grid): (r: Grid)
    requires cv.Valid() && IsRect(g)
    ensures SameShape(r, g)
    ensures !KnownEffect(effect) ==> r == g
  {
    if effect == "blur" then Blurred(cv, g, DefaultBlurStrength)
    else if effect == "pixelate" then Pixelated(cv, g, DefaultPixelSize)
    else g
  }

  // ---------------------------------------------------------------------------
  // Frames in memory

  /** The pixels of a frame buffer, row by row. */
  function Contents(a: array2<Pixel>): (r: Grid)
    reads a
    ensures IsRect(r) && Height(r) == a.Length0 && (a.Length0 > 0 ==> Width(r) == a.Length1)
    ensures forall i, j :: 0 <= i < a.Length0 && 0 <= j < a.Length1 ==> r[i][j] == a[i, j]
  {
    seq(a.Length0, i requires 0 <= i < a.Length0 reads a =>
      seq(a.Length1, j requires 0 <= j < a.Length1 reads a => a[i, j]))
  }

  /** A freshly decoded frame buffer holding `g` (what `imread` and `VideoCapture.read` hand back). */
  method Decode(g: Grid) returns (a: array2<Pixel>)
    requires IsRect(g)
    ensures fresh(a) && Contents(a) == g
  {
    a := new Pixel[Height(g), Width(g)]((i, j) requires 0 <= i < Height(g) && 0 <= j < Width(g) => g[i][j]);
    GridsEqual(Contents(a), g);
  }

  /** `image.copy()`. */
  method Copy(image: array2<Pixel>) returns (c: array2<Pixel>)
    ensures fresh(c) && Contents(c) == Contents(image)
  {
    c := new Pixel[image.Length0, image.Length1]((i, j) reads image
      requires 0 <= i < image.Length0 && 0 <= j < image.Length1 => image[i, j]);
    GridsEqual(Contents(c), Contents(image));
  }

  /** `result[y:y+h, x:x+w] = patch`, one pixel at a time; nothing outside the box changes. */
  method WriteRegion(a: array2<Pixel>, b: Box, patch: Grid)
    requires Inside(b, Contents(a)) && HasShape(patch, b.h, b.w)
    modifies a
    ensures Contents(a) == Paste(old(Contents(a)), b, patch)
  {
    ghost var before := Contents(a);
    for i := 0 to b.h
      invariant forall r, c :: 0 <= r < a.Length0 && 0 <= c < a.Length1 ==>
        a[r, c] == if b.y <= r < b.y + i && b.x <= c < b.x + b.w then patch[r - b.y][c - b.x] else before[r][c]
    {
      for j := 0 to b.w
        invariant forall r, c :: 0 <= r < a.Length0 && 0 <= c < a.Length1 ==>
          a[r, c] == if (b.y <= r < b.y + i && b.x <= c < b.x + b.w) || (r == b.y + i && b.x <= c < b.x + j)
                     then patch[r - b.y][c - b.x] else before[r][c]
      {
        a[b.y + i, b.x + j] := patch[i][j];
      }
    }
    GridsEqual(Contents(a), Paste(before, b, patch));
  }

  /** `detect_faces`: the boxes the cascade finds in the frame; they lie within it. */
  function DetectFaces(cv: Vision, image: array2<Pixel>): (faces: seq<Box>)
    requires cv.Valid()
    reads image
    ensures AllInside(faces, Contents(image))
  {
    cv.detect(Contents(image))
  }

  // ---------------------------------------------------------------------------
  // The two filters over a whole frame

  /** One pass of the loop in `blur_faces`: read box `b` of the working copy, blur it, write it back. */
  method BlurBox(cv: Vision, result: array2<Pixel>, b: Box, strength: int)
    requires cv.Valid() && ValidKernel(strength) && Inside(b, Contents(result))
    modifies result
    ensures Contents(result) == Paste(old(Contents(result)), b, BlurRegion(cv, strength)(Crop(old(Contents(result)), b)))
  {
    var faceRegion := Crop(Contents(result), b);
    var blurredFace := cv.gaussianBlur(faceRegion, strength);
    WriteRegion(result, b, blurredFace);
  }

  /**
   * One pass of the loop in `pixelate_faces`: read box `b` of the working copy,
   * shrink it and grow it back, write it back.
   */
  method PixelateBox(cv: Vision, result: array2<Pixel>, b: Box, pixelSize: int)
    requires cv.Valid() && pixelSize != 0 && Inside(b, Contents(result))
    modifies result
    ensures Contents(result) == Paste(old(Contents(result)), b, PixelateRegion(cv, pixelSize)(Crop(old(Contents(result)), b)))
  {
    var faceRegion := Crop(Contents(result), b);
    var tempHeight, tempWidth := Height(faceRegion), Width(faceRegion);
    var smallHeight := SmallDim(tempHeight, pixelSize);
    var smallWidth := SmallDim(tempWidth, pixelSize);
    var smallFace := cv.resizeLinear(faceRegion, smallWidth, smallHeight);
    var pixelatedFace := cv.resizeNearest(smallFace, tempWidth, tempHeight);
    WriteRegion(result, b, pixelatedFace);
  }

  /**
   * `blur_faces`: blur every detected box of a copy of `image`, in detection order.
   * OpenCV raises on the first box when the kernel size is not positive and odd.
   */
  method BlurFaces(cv: Vision, image: array2<Pixel>, strength: int) returns (r: Result<array2<Pixel>, MediaError>)
    requires cv.Valid()
    ensures r.Failure? <==> cv.detect(Contents(image)) != [] && !ValidKernel(strength)
    ensures r.Failure? ==> r.error == BadKernelSize(strength)
    ensures unchanged(image)
    ensures r.Success? ==> fresh(r.value) && Contents(r.value) == Blurred(cv, Contents(image), strength)
  {
    var faces := DetectFaces(cv, image);
    var result := Copy(image);
    var done := BlurBoxes(cv, result, faces, strength);
    if !done {
      return Failure(BadKernelSize(strength));
    }
    return Success(result);
  }

  /** The loop of `blur_faces` over the working copy; false when it raises. */
  method BlurBoxes(cv: Vision, result: array2<Pixel>, faces: seq<Box>, strength: int) returns (done: bool)
    requires cv.Valid() && IsRect(Contents(result)) && AllInside(faces, Contents(result))
    modifies result
    ensures done <==> faces == [] || ValidKernel(strength)
    ensures !done ==> Contents(result) == old(Contents(result))
    ensures done ==> Contents(result) == Rewrite(old(Contents(result)), faces, BlurRegion(cv, strength))
  {
    ghost var g := Contents(result);
    var n := 0;
    while n < |faces|
      invariant 0 <= n <= |faces|
      invariant n > 0 ==> ValidKernel(strength)
      invariant Contents(result) == Rewrite(g, faces[..n], BlurRegion(cv, strength))
    {
      if !ValidKernel(strength) {
        return false;
      }
      BlurBox(cv, result, faces[n], strength);
      RewriteNext(g, faces, BlurRegion(cv, strength), n);
      n := n + 1;
    }
    assert faces[..n] == faces;
    return true;
  }

  /**
   * `pixelate_faces`: pixelate every detected box of a copy of `image`, in detection
   * order. `temp_height // pixel_size` raises on the first box when `pixel_size` is 0.
   */
  method PixelateFaces(cv: Vision, image: array2<Pixel>, pixelSize: int) returns (r: Result<array2<Pixel>, MediaError>)
    requires cv.Valid()
    ensures r.Failure? <==> cv.detect(Contents(image)) != [] && pixelSize == 0
    ensures r.Failure? ==> r.error == DivisionByZero
    ensures unchanged(image)
    ensures r.Success? && pixelSize != 0 ==> fresh(r.value) && Contents(r.value) == Pixelated(cv, Contents(image), pixelSize)
    ensures r.Success? && pixelSize == 0 ==> fresh(r.value) && Contents(r.value) == Contents(image)
  {
    var faces := DetectFaces(cv, image);
    var result := Copy(image);
    var done := PixelateBoxes(cv, result, faces, pixelSize);
    if !done {
      return Failure(DivisionByZero);
    }
    return Success(result);
  }

  /** The loop of `pixelate_faces` over the working copy; false when it raises. */
  method PixelateBoxes(cv: Vision, result: array2<Pixel>, faces: seq<Box>, pixelSize: int) returns (done: bool)
    requires cv.Valid() && IsRect(Contents(result)) && AllInside(faces, Contents(result))
    modifies result
    ensures done <==> faces == [] || pixelSize != 0
    ensures !done ==> Contents(result) == old(Contents(result))
    ensures done ==> Contents(result) == Rewrite(old(Contents(result)), faces, PixelateRegion(cv, pixelSize))
  {
    ghost var g := Contents(result);
    var n := 0;
    while n < |faces|
      invariant 0 <= n <= |faces|
      invariant n > 0 ==> pixelSize != 0
      invariant Contents(result) == Rewrite(g, faces[..n], PixelateRegion(cv, pixelSize))
    {
      if pixelSize == 0 {
        return false;
      }
      PixelateBox(cv, result, faces[n], pixelSize);
      RewriteNext(g, faces, PixelateRegion(cv, pixelSize), n);
      n := n + 1;
    }
    assert faces[..n] == faces;
    return true;
  }

  // ---------------------------------------------------------------------------
  // Drivers

  /**
   * `process_image`: load, dispatch on the effect, write, and return the number of
   * faces detected on the original image. Loading failures and unknown effects
   * raise before anything is written.
   */
  method ProcessImage(cv: Vision, source: Option<Grid>, effect: string)
    returns (r: Result<nat, MediaError>, written: Option<Grid>)
    requires cv.Valid()
    requires source.Some? ==> IsRect(source.value)
    ensures source.None? ==> r == Failure(CouldNotLoad) && written == None
    ensures source.Some? && !KnownEffect(effect) ==> r == Failure(UnknownEffect(effect)) && written == None
    ensures source.Some? && KnownEffect(effect) ==>
      r == Success(|cv.detect(source.value)|) && written == Some(ApplyEffect(cv, effect, source.value))
  {
    if source.None? {
      return Failure(CouldNotLoad), None;
    }
    var image := Decode(source.value);
    var processed: array2<Pixel>;
    if effect == "blur" {
      var res := BlurFaces(cv, image, DefaultBlurStrength);
      processed := res.value;
    } else if effect == "pixelate" {
      var res := PixelateFaces(cv, image, DefaultPixelSize);
      processed := res.value;
    } else {
      return Failure(UnknownEffect(effect)), None;
    }
    written := Some(Contents(processed));
    r := Success(|DetectFaces(cv, image)|);
  }

  /**
   * One iteration's dispatch in `process_video`: blur or pixelate with the default
   * strength, or pass the frame through for any other effect. The frame is not modified.
   */
  method ProcessFrame(cv: Vision, frame: array2<Pixel>, effect: string) returns (processed: Grid)
    requires cv.Valid()
    ensures processed == ApplyEffect(cv, effect, Contents(frame))
  {
    if effect == "blur" {
      var res := BlurFaces(cv, frame, DefaultBlurStrength);
      processed := Contents(res.value);
    } else if effect == "pixelate" {
      var res := PixelateFaces(cv, frame, DefaultPixelSize);
      processed := Contents(res.value);
    } else {
      processed := Contents(frame);
    }
  }

  /** Faces counted over the frames at indices 0, 10, 20, ... only. */
  function SampledFaceCount(cv: Vision, frames: seq<Grid>): nat
  {
    if frames == [] then 0
    else
      var n := |frames| - 1;
      SampledFaceCount(cv, frames[..n]) + (if n % SampleEvery == 0 then |cv.detect(frames[n])| else 0)
  }

  /** Reading one more frame adds its faces to the count exactly when its index is sampled. */
  lemma SampledCountNext(cv: Vision, frames: seq<Grid>, n: nat)
    requires n < |frames|
    ensures SampledFaceCount(cv, frames[..n + 1]) ==
      SampledFaceCount(cv, frames[..n]) + (if n % SampleEvery == 0 then |cv.detect(frames[n])| else 0)
  {
    assert frames[..n + 1][..n] == frames[..n];
  }

  /**
   * `process_video`: every frame read is processed and written, once and in read
   * order; an unknown effect writes each frame as it was read. The result is the
   * face count sampled on every tenth frame.
   */
  method ProcessVideo(cv: Vision, source: Option<seq<Grid>>, effect: string)
    returns (r: Result<nat, MediaError>, written: seq<Grid>)
    requires cv.Valid()
    requires source.Some? ==> forall k :: 0 <= k < |source.value| ==> IsRect(source.value[k])
    ensures source.None? ==> r == Failure(CouldNotLoad) && written == []
    ensures source.Some? ==> r == Success(SampledFaceCount(cv, source.value))
    ensures source.Some? ==> |written| == |source.value|
    ensures source.Some? ==> forall k :: 0 <= k < |written| ==> written[k] == ApplyEffect(cv, effect, source.value[k])
    ensures source.Some? && !KnownEffect(effect) ==> written == source.value
  {
    if source.None? {
      return Failure(CouldNotLoad), [];
    }
    var frames := source.value;
    var totalFaces := 0;
    var frameCount := 0;
    written := [];
    while frameCount < |frames|
      invariant 0 <= frameCount <= |frames|
      invariant totalFaces == SampledFaceCount(cv, frames[..frameCount])
      invariant |written| == frameCount
      invariant forall k :: 0 <= k < frameCount ==> written[k] == ApplyEffect(cv, effect, frames[k])
    {
      var frame := Decode(frames[frameCount]);
      var processed := ProcessFrame(cv, frame, effect);
      assert processed == ApplyEffect(cv, effect, frames[frameCount]);
      written := written + [processed];
      if frameCount % SampleEvery == 0 {
        totalFaces := totalFaces + |DetectFaces(cv, frame)|;
      }
      SampledCountNext(cv, frames, frameCount);
      frameCount := frameCount + 1;
    }
    assert frames[..frameCount] == frames;
    r := Success(totalFaces);
  }

  /** Every face detected on every frame, the exhaustive count the sampling estimates. */
  function TotalFaceCount(cv: Vision, frames: seq<Grid>): nat
  {
    if frames == [] then 0 else TotalFaceCount(cv, frames[..|frames| - 1]) + |cv.detect(frames[|frames| - 1])|
  }

  /** The sampled count never exceeds the exhaustive one. */
  lemma {:induction false} SampledAtMostTotal(cv: Vision, frames: seq<Grid>)
    ensures SampledFaceCount(cv, frames) <= TotalFaceCount(cv, frames)
  {
    if frames != [] {
      SampledAtMostTotal(cv, frames[..|frames| - 1]);
    }
  }

  /** Frames off the sampling cadence do not affect the count. */
  lemma {:induction false} SampledCountIgnoresUnsampled(cv: Vision, a: seq<Grid>, b: seq<Grid>)
    requires |a| == |b|
    requires forall k :: 0 <= k < |a| && k % SampleEvery == 0 ==> |cv.detect(a[k])| == |cv.detect(b[k])|
    ensures SampledFaceCount(cv, a) == SampledFaceCount(cv, b)
  {
    if a != [] {
      var n := |a| - 1;
      SampledCountIgnoresUnsampled(cv, a[..n], b[..n]);
    }
  }

  /** With `c` faces on every frame, `n` frames report `c * ceil(n / 10)` faces. */
  lemma {:induction false} SampledCountUniform(cv: Vision, frames: seq<Grid>, c: nat)
    requires forall k :: 0 <= k < |frames| ==> |cv.detect(frames[k])| == c
    ensures SampledFaceCount(cv, frames) == c * ((|frames| + SampleEvery - 1) / SampleEvery)
  {
    if frames != [] {
      var n := |frames| - 1;
      SampledCountUniform(cv, frames[..n], c);
      SampledFramesStep(n);
      var before := (n + SampleEvery - 1) / SampleEvery;
      assert c * (before + 1) == c * before + c;
    }
  }

  /** Frame `n` is sampled exactly when it raises the number of sampled frames among the first `n + 1`. */
  lemma SampledFramesStep(n: nat)
    ensures (n + SampleEvery) / SampleEvery ==
      (n + SampleEvery - 1) / SampleEvery + (if n % SampleEvery == 0 then 1 else 0)
  {
  }

  /** Twenty-five frames with one face each report 3 faces (frames 0, 10 and 20), not 25. */
  lemma TwentyFiveFramesOneFaceEach(cv: Vision, frames: seq<Grid>)
    requires |frames| == 25
    requires forall k :: 0 <= k < |frames| ==> |cv.detect(frames[k])| == 1
    ensures SampledFaceCount(cv, frames) == 3
    ensures TotalFaceCount(cv, frames) == 25
  {
    SampledCountUniform(cv, frames, 1);
    TotalCountUniform(cv, frames, 1);
  }

  lemma {:induction false} TotalCountUniform(cv: Vision, frames: seq<Grid>, c: nat)
    requires forall k :: 0 <= k < |frames| ==> |cv.detect(frames[k])| == c
    ensures TotalFaceCount(cv, frames) == c * |frames|
  {
    if frames != [] {
      TotalCountUniform(cv, frames[..|frames| - 1], c);
    }
  }

  // ---------------------------------------------------------------------------
  // Properties of the frame rewrite under either filter

  /** With no face detected, both filters give back the frame unchanged. */
  lemma NoFacesNoChange(cv: Vision, effect: string, g: Grid)
    requires cv.Valid() && IsRect(g) && cv.detect(g) == []
    ensures ApplyEffect(cv, effect, g) == g
  {
  }

  /** A pixel outside every detected box is the same in the written frame as in the input. */
  lemma EffectOutsideFaces(cv: Vision, effect: string, g: Grid, i: int, j: int)
    requires cv.Valid() && IsRect(g)
    requires 0 <= i < Height(g) && 0 <= j < Width(g)
    requires forall k :: 0 <= k < |cv.detect(g)| ==> !Covers(cv.detect(g)[k], i, j)
    ensures ApplyEffect(cv, effect, g)[i][j] == g[i][j]
  {
    if effect == "blur" {
      RewriteOutsideBoxes(g, cv.detect(g), BlurRegion(cv, DefaultBlurStrength), i, j);
    } else if effect == "pixelate" {
      RewriteOutsideBoxes(g, cv.detect(g), PixelateRegion(cv, DefaultPixelSize), i, j);
    }
  }
}
