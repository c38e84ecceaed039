/**
 * Frames as values: a frame is a rectangular grid of BGR pixels, a face box is an
 * axis-aligned rectangle in it, and rewriting a list of boxes with a region filter
 * is the value-level meaning of the per-box loops in face_blur.py.
 */
module Regions {

  newtype Byte = x: int | 0 <= x < 256

  /** One pixel of a decoded colour frame, in OpenCV's blue-green-red channel order. */
  datatype Pixel = Bgr(b: Byte, g: Byte, r: Byte)

  /** A grid of pixels, row by row (row index first, as in numpy's `image[y, x]`). */
  type Grid = seq<seq<Pixel>>

  function Height(g: Grid): nat { |g| }

  function Width(g: Grid): nat { if |g| == 0 then 0 else |g[0]| }

  /** Every row has the same length. */
  predicate IsRect(g: Grid) {
    forall i :: 0 <= i < |g| ==> |g[i]| == Width(g)
  }

  predicate HasShape(g: Grid, h: int, w: int) {
    IsRect(g) && Height(g) == h && Width(g) == w
  }

  predicate SameShape(a: Grid, b: Grid) {
    HasShape(a, Height(b), Width(b))
  }

  /** A face box `(x, y, w, h)` as the detector reports it: column, row, width, height. */
  datatype Box = Box(x: int, y: int, w: int, h: int)

  /** The box is non-empty and lies within the frame (the detector's promise). */
  predicate Inside(b: Box, g: Grid) {
    0 <= b.x && 0 <= b.y && 1 <= b.w && 1 <= b.h &&
    b.y + b.h <= Height(g) && b.x + b.w <= Width(g)
  }

  predicate AllInside(boxes: seq<Box>, g: Grid) {
    forall k :: 0 <= k < |boxes| ==> Inside(boxes[k], g)
  }

  /** Pixel (i, j) (row i, column j) lies in the box. */
  predicate Covers(b: Box, i: int, j: int) {
    b.y <= i < b.y + b.h && b.x <= j < b.x + b.w
  }

  /** No pixel lies in both boxes. */
  predicate Disjoint(a: Box, b: Box) {
    a.x + a.w <= b.x || b.x + b.w <= a.x || a.y + a.h <= b.y || b.y + b.h <= a.y
  }

  /** A region filter that returns a region of the dimensions it was given. */
  ghost predicate Preserving(t: Grid -> Grid) {
    forall g {:trigger t(g)} | IsRect(g) && Height(g) >= 1 && Width(g) >= 1 :: SameShape(t(g), g)
  }

  /** The sub-rectangle `g[y:y+h, x:x+w]`. */
  function Crop(g: Grid, b: Box): (r: Grid)
    requires IsRect(g) && Inside(b, g)
    ensures HasShape(r, b.h, b.w)
    ensures forall i, j :: 0 <= i < b.h && 0 <= j < b.w ==> r[i][j] == g[b.y + i][b.x + j]
  {
    seq(b.h, i requires 0 <= i < b.h => g[b.y + i][b.x .. b.x + b.w])
  }

  /** The slice assignment `g[y:y+h, x:x+w] = patch`. */
  function Paste(g: Grid, b: Box, patch: Grid): (r: Grid)
    requires IsRect(g) && Inside(b, g) && HasShape(patch, b.h, b.w)
    ensures SameShape(r, g)
    ensures forall i, j :: 0 <= i < Height(g) && 0 <= j < Width(g) ==>
      r[i][j] == if Covers(b, i, j) then patch[i - b.y][j - b.x] else g[i][j]
  {
    seq(|g|, i requires 0 <= i < |g| =>
      seq(Width(g), j requires 0 <= j < Width(g) =>
        if Covers(b, i, j) then patch[i - b.y][j - b.x] else g[i][j]))
  }

  /**
   * The frame after the boxes have been handled one after another on a working copy:
   * each box's region is read from the copy as it stands after the earlier boxes,
   * filtered, and written back.
   */
  function Rewrite(g: Grid, boxes: seq<Box>, t: Grid -> Grid): (r: Grid)
    requires IsRect(g) && AllInside(boxes, g) && Preserving(t)
    ensures SameShape(r, g)
    decreases |boxes|
  {
    if boxes == [] then g
    else
      var prev := Rewrite(g, boxes[..|boxes| - 1], t);
      var b := boxes[|boxes| - 1];
      Paste(prev, b, t(Crop(prev, b)))
  }

  /** The region written for box `k`: the filter applied to what the copy held there just before. */
  function PatchAt(g: Grid, boxes: seq<Box>, t: Grid -> Grid, k: nat): (r: Grid)
    requires IsRect(g) && AllInside(boxes, g) && Preserving(t) && k < |boxes|
    ensures HasShape(r, boxes[k].h, boxes[k].w)
  {
    t(Crop(Rewrite(g, boxes[..k], t), boxes[k]))
  }

  lemma GridsEqual(a: Grid, b: Grid)
    requires IsRect(a) && IsRect(b) && Height(a) == Height(b) && Width(a) == Width(b)
    requires forall i, j :: 0 <= i < Height(a) && 0 <= j < Width(a) ==> a[i][j] == b[i][j]
    ensures a == b
  {
    forall i | 0 <= i < |a|
      ensures a[i] == b[i]
    {
      assert |a[i]| == |b[i]|;
    }
  }

  /** Locality: a pixel that no box covers keeps its value. */
  lemma {:induction false} RewriteOutsideBoxes(g: Grid, boxes: seq<Box>, t: Grid -> Grid, i: int, j: int)
    requires IsRect(g) && AllInside(boxes, g) && Preserving(t)
    requires 0 <= i < Height(g) && 0 <= j < Width(g)
    requires forall k :: 0 <= k < |boxes| ==> !Covers(boxes[k], i, j)
    ensures Rewrite(g, boxes, t)[i][j] == g[i][j]
  {
    if boxes != [] {
      RewriteOutsideBoxes(g, boxes[..|boxes| - 1], t, i, j);
    }
  }

  /**
   * The last box covering a pixel decides it: the pixel holds what that box's
   * filtered region holds there, and that region was cut from the copy as the
   * earlier boxes had left it.
   */
  lemma {:induction false} RewriteLastWriterWins(g: Grid, boxes: seq<Box>, t: Grid -> Grid, k: nat, i: int, j: int)
    requires IsRect(g) && AllInside(boxes, g) && Preserving(t)
    requires k < |boxes| && Covers(boxes[k], i, j)
    requires forall m :: k < m < |boxes| ==> !Covers(boxes[m], i, j)
    ensures 0 <= i < Height(g) && 0 <= j < Width(g)
    ensures Rewrite(g, boxes, t)[i][j] == PatchAt(g, boxes, t, k)[i - boxes[k].y][j - boxes[k].x]
  {
    var n := |boxes| - 1;
    RewriteLastPixel(g, boxes, t, i, j);
    if k < n {
      var init := boxes[..n];
      assert !Covers(boxes[n], i, j) && init[k] == boxes[k];
      RewriteLastWriterWins(g, init, t, k, i, j);
      PatchAtPrefix(g, boxes, t, k, n);
      calc {
        Rewrite(g, boxes, t)[i][j];
      ==  // the last box does not cover (i, j)
        Rewrite(g, init, t)[i][j];
      ==  // induction on the earlier boxes
        PatchAt(g, init, t, k)[i - boxes[k].y][j - boxes[k].x];
      ==  // box k's patch ignores the boxes after it
        PatchAt(g, boxes, t, k)[i - boxes[k].y][j - boxes[k].x];
      }
    }
  }

  /** The region written for box `k` does not depend on the boxes after it. */
  lemma PatchAtPrefix(g: Grid, boxes: seq<Box>, t: Grid -> Grid, k: nat, n: nat)
    requires IsRect(g) && AllInside(boxes, g) && Preserving(t) && k < n <= |boxes|
    ensures AllInside(boxes[..n], g)
    ensures PatchAt(g, boxes[..n], t, k) == PatchAt(g, boxes, t, k)
  {
    assert boxes[..n][..k] == boxes[..k];
  }

  /** One pixel after the last box: from that box's filtered region if it covers the pixel, else as before it. */
  lemma RewriteLastPixel(g: Grid, boxes: seq<Box>, t: Grid -> Grid, i: int, j: int)
    requires IsRect(g) && AllInside(boxes, g) && Preserving(t) && boxes != []
    requires 0 <= i < Height(g) && 0 <= j < Width(g)
    ensures var n := |boxes| - 1;
      Rewrite(g, boxes, t)[i][j] ==
        if Covers(boxes[n], i, j) then PatchAt(g, boxes, t, n)[i - boxes[n].y][j - boxes[n].x]
        else Rewrite(g, boxes[..n], t)[i][j]
  {
  }

  lemma RewriteSnoc(g: Grid, boxes: seq<Box>, b: Box, t: Grid -> Grid)
    requires IsRect(g) && AllInside(boxes, g) && Inside(b, g) && Preserving(t)
    ensures AllInside(boxes + [b], g)
    ensures Rewrite(g, boxes + [b], t) == Paste(Rewrite(g, boxes, t), b, t(Crop(Rewrite(g, boxes, t), b)))
  {
  }

  /** The step the per-box loop takes: box `n` rewrites the copy the first `n` boxes left. */
  lemma RewriteNext(g: Grid, boxes: seq<Box>, t: Grid -> Grid, n: nat)
    requires IsRect(g) && AllInside(boxes, g) && Preserving(t) && n < |boxes|
    ensures Rewrite(g, boxes[..n + 1], t) == Paste(Rewrite(g, boxes[..n], t), boxes[n], PatchAt(g, boxes, t, n))
  {
    assert boxes[..n + 1][..n] == boxes[..n];
  }

  /** Boxes are applied in sequence: handling `front + back` is handling `back` on the result of `front`. */
  lemma {:induction false} RewriteAppend(g: Grid, front: seq<Box>, back: seq<Box>, t: Grid -> Grid)
    requires IsRect(g) && AllInside(front + back, g) && Preserving(t)
    ensures AllInside(front, g) && AllInside(back, Rewrite(g, front, t))
    ensures Rewrite(g, front + back, t) == Rewrite(Rewrite(g, front, t), back, t)
  {
    if back == [] {
      assert front + back == front;
    } else {
      var n := |back| - 1;
      var rest := back[..n];
      var b := back[n];
      assert back == rest + [b];
      assert front + back == (front + rest) + [b];
      assert Inside(b, g) by {
        assert (front + back)[|front| + n] == b;
      }
      assert AllInside(front + rest, g) by {
        assert front + rest == (front + back)[..|front| + n];
      }
      RewriteSnoc(g, front + rest, b, t);
      RewriteAppend(g, front, rest, t);
      RewriteSnoc(Rewrite(g, front, t), rest, b, t);
    }
  }

  lemma CropUnderDisjointPaste(g: Grid, a: Box, patch: Grid, b: Box)
    requires IsRect(g) && Inside(a, g) && Inside(b, g) && HasShape(patch, a.h, a.w)
    requires Disjoint(a, b)
    ensures Crop(Paste(g, a, patch), b) == Crop(g, b)
  {
    GridsEqual(Crop(Paste(g, a, patch), b), Crop(g, b));
  }

  lemma PastesCommute(g: Grid, a: Box, pa: Grid, b: Box, pb: Grid)
    requires IsRect(g) && Inside(a, g) && Inside(b, g) && Disjoint(a, b)
    requires HasShape(pa, a.h, a.w) && HasShape(pb, b.h, b.w)
    ensures Paste(Paste(g, a, pa), b, pb) == Paste(Paste(g, b, pb), a, pa)
  {
    GridsEqual(Paste(Paste(g, a, pa), b, pb), Paste(Paste(g, b, pb), a, pa));
  }

  /** Two boxes: the second box's region is read after the first box was written. */
  lemma RewriteTwo(g: Grid, a: Box, b: Box, t: Grid -> Grid)
    requires IsRect(g) && Inside(a, g) && Inside(b, g) && Preserving(t)
    ensures Inside(b, Paste(g, a, t(Crop(g, a))))
    ensures Rewrite(g, [a, b], t) ==
      var ga := Paste(g, a, t(Crop(g, a)));
      Paste(ga, b, t(Crop(ga, b)))
  {
    assert [] + [a] == [a];
    RewriteSnoc(g, [], a, t);
    assert Rewrite(g, [a], t) == Paste(g, a, t(Crop(g, a)));
    assert [a] + [b] == [a, b];
    RewriteSnoc(g, [a], b, t);
  }

  /** Two boxes that do not overlap can be handled in either order. */
  lemma DisjointBoxesCommute(g: Grid, a: Box, b: Box, t: Grid -> Grid)
    requires IsRect(g) && Inside(a, g) && Inside(b, g) && Preserving(t)
    requires Disjoint(a, b)
    ensures Rewrite(g, [a, b], t) == Rewrite(g, [b, a], t)
  {
    RewriteTwo(g, a, b, t);
    RewriteTwo(g, b, a, t);
    var pa := t(Crop(g, a));
    var pb := t(Crop(g, b));
    CropUnderDisjointPaste(g, a, pa, b);
    CropUnderDisjointPaste(g, b, pb, a);
    PastesCommute(g, a, pa, b, pb);
  }
}
