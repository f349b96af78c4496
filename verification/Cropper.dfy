/**
 * The character extractor of the Bengali character cropper: pick the largest
 * foreground contour of an image, reject it when it is missing or too small,
 * pad its bounding rectangle by a few pixels without leaving the image, and
 * crop and resize that box to a fixed 100x100 thumbnail.
 *
 * Pixel data, thresholding, contour detection and resampling belong to
 * OpenCV and PIL; here an image is only its size, and each detected contour
 * is only its area and its bounding rectangle.
 */
module Cropper {
  import opened Wrappers

  /** Pixels added on every side of the bounding rectangle. */
  const PADDING: int := 5
  /** Contours whose area is below this are treated as noise. */
  const MIN_AREA: real := 100.0
  /** Side of the square thumbnail every successful extraction yields. */
  const OUTPUT_SIZE: nat := 100

  /** A decoded source image, reduced to its dimensions. */
  datatype Image = Image(width: nat, height: nat)

  /** An axis-aligned rectangle: origin (x, y), width w, height h, in pixels. */
  datatype Rect = Rect(x: int, y: int, w: int, h: int)

  /** One detected contour: its enclosed area and its bounding rectangle. */
  datatype Contour = Contour(area: real, bound: Rect)

  /** PIL's crop box: left, upper, right and lower edges (right and lower exclusive). */
  datatype CropBox = CropBox(left: int, upper: int, right: int, lower: int)

  /** The outcome of a successful extraction: the region cropped and the size it is resized to. */
  datatype Thumbnail = Thumbnail(crop: CropBox, width: nat, height: nat)

  /** Why no thumbnail was produced: which warning the extractor raises. */
  datatype Warning = NoCharacterFound | ContourTooSmall

  /** A non-empty rectangle lying entirely inside the image. */
  predicate InImage(r: Rect, img: Image) {
    && 0 <= r.x && 0 <= r.y
    && 1 <= r.w && 1 <= r.h
    && r.x + r.w <= img.width
    && r.y + r.h <= img.height
  }

  /** Rectangle `outer` covers every pixel of rectangle `inner`. */
  predicate Covers(outer: Rect, inner: Rect) {
    && outer.x <= inner.x && inner.x + inner.w <= outer.x + outer.w
    && outer.y <= inner.y && inner.y + inner.h <= outer.y + outer.h
  }

  /** What contour detection guarantees: every bounding rectangle lies inside the image. */
  predicate WellFormed(img: Image, cs: seq<Contour>) {
    forall i :: 0 <= i < |cs| ==> InImage(cs[i].bound, img)
  }

  /** Index k holds a contour of maximal area, and no earlier contour reaches that area. */
  predicate IsFirstMaximum(cs: seq<Contour>, k: int) {
    && 0 <= k < |cs|
    && (forall j :: 0 <= j < |cs| ==> cs[j].area <= cs[k].area)
    && (forall j :: 0 <= j < k ==> cs[j].area < cs[k].area)
  }

  /**
   * The index of the contour `max(contours, key=contourArea)` returns: a scan
   * from the left that replaces its candidate only on a strictly larger area.
   */
  function Largest(cs: seq<Contour>): (k: nat)
    requires |cs| > 0
    ensures IsFirstMaximum(cs, k)
    decreases |cs|
  {
    if |cs| == 1 then 0
    else
      var k := Largest(cs[..|cs| - 1]);
      if cs[|cs| - 1].area > cs[k].area then |cs| - 1 else k
  }

  /** The first maximum is unique, so `Largest` is the only index that satisfies its contract. */
  lemma FirstMaximumIsUnique(cs: seq<Contour>, k: int)
    requires |cs| > 0
    ensures IsFirstMaximum(cs, k) <==> k == Largest(cs)
  {
  }

  /**
   * Contours that come before the character and are all strictly smaller do
   * not change which contour is chosen; they only shift its index.
   */
  lemma SmallerPrefixKeepsChoice(pre: seq<Contour>, cs: seq<Contour>)
    requires |cs| > 0
    requires forall j :: 0 <= j < |pre| ==> pre[j].area < cs[Largest(cs)].area
    ensures Largest(pre + cs) == |pre| + Largest(cs)
  {
    var k := Largest(cs);
    var all := pre + cs;
    assert forall j :: 0 <= j < |all| ==> all[j].area <= all[|pre| + k].area by {
      forall j | 0 <= j < |all| ensures all[j].area <= all[|pre| + k].area {
        if j >= |pre| { assert all[j] == cs[j - |pre|]; }
      }
    }
    assert forall j :: 0 <= j < |pre| + k ==> all[j].area < all[|pre| + k].area by {
      forall j | 0 <= j < |pre| + k ensures all[j].area < all[|pre| + k].area {
        if j >= |pre| { assert all[j] == cs[j - |pre|]; }
      }
    }
    FirstMaximumIsUnique(all, |pre| + k);
  }

  /**
   * Contours that come after the character and are no larger do not change
   * which contour is chosen: on a tie the earlier contour wins.
   */
  lemma {:induction false} NoLargerSuffixKeepsChoice(cs: seq<Contour>, post: seq<Contour>)
    requires |cs| > 0
    requires forall j :: 0 <= j < |post| ==> post[j].area <= cs[Largest(cs)].area
    ensures Largest(cs + post) == Largest(cs)
    decreases |post|
  {
    if |post| > 0 {
      var shorter := post[..|post| - 1];
      NoLargerSuffixKeepsChoice(cs, shorter);
      assert (cs + post)[..|cs + post| - 1] == cs + shorter;
    }
  }

  /**
   * The padded box: the bounding rectangle grown by PADDING on every side,
   * with its origin clamped at 0 and its size clamped at the image's right and
   * bottom edges. The size is clamped against the clamped origin.
   */
  function PadAndClamp(r: Rect, img: Image): (p: Rect)
    ensures IsPaddedBox(r, img, p)
    ensures InImage(r, img) ==> InImage(p, img) && Covers(p, r)
    ensures InImage(r, img) ==> r.w <= p.w && r.h <= p.h
  {
    var x := if r.x - PADDING > 0 then r.x - PADDING else 0;
    var y := if r.y - PADDING > 0 then r.y - PADDING else 0;
    var w := if r.w + PADDING * 2 < img.width - x then r.w + PADDING * 2 else img.width - x;
    var h := if r.h + PADDING * 2 < img.height - y then r.h + PADDING * 2 else img.height - y;
    Rect(x, y, w, h)
  }

  /**
   * `q` is `r` grown by PADDING on every side except where the image edge
   * stops it: each side either keeps its full padding or ends at that edge,
   * and none passes the edge.
   */
  predicate IsPaddedBox(r: Rect, img: Image, q: Rect) {
    && 0 <= q.x && r.x - PADDING <= q.x && (q.x == 0 || q.x == r.x - PADDING)
    && 0 <= q.y && r.y - PADDING <= q.y && (q.y == 0 || q.y == r.y - PADDING)
    && q.x + q.w <= img.width && q.w <= r.w + 2 * PADDING
    && (q.w == r.w + 2 * PADDING || q.x + q.w == img.width)
    && q.y + q.h <= img.height && q.h <= r.h + 2 * PADDING
    && (q.h == r.h + 2 * PADDING || q.y + q.h == img.height)
  }

  /** The padded box is the only box padded as far as the image allows. */
  lemma PaddedBoxIsUnique(r: Rect, img: Image, q: Rect)
    ensures IsPaddedBox(r, img, q) <==> q == PadAndClamp(r, img)
  {
  }

  /** A rectangle clear of every edge by PADDING is grown by exactly PADDING on each side. */
  lemma InteriorBoxPaddedExactly(r: Rect, img: Image)
    requires PADDING <= r.x && PADDING <= r.y
    requires r.x + r.w + PADDING <= img.width && r.y + r.h + PADDING <= img.height
    ensures PadAndClamp(r, img) == Rect(r.x - PADDING, r.y - PADDING, r.w + 2 * PADDING, r.h + 2 * PADDING)
  {
  }

  /** A rectangle within PADDING of the left or top edge gets origin 0 on that axis, never a negative one. */
  lemma EdgeBoxClampedToZero(r: Rect, img: Image)
    ensures r.x <= PADDING <==> PadAndClamp(r, img).x == 0
    ensures r.y <= PADDING <==> PadAndClamp(r, img).y == 0
  {
  }

  /**
   * Clamping the origin does not shrink the box: when the left edge is
   * clamped and the image is wide enough, the box keeps the full width
   * w + 2 * PADDING from column 0, so the padding lost on the left reappears
   * on the right. The same holds vertically.
   */
  lemma LeftClampMovesPaddingRight(r: Rect, img: Image)
    requires 0 <= r.x < PADDING
    requires r.w + 2 * PADDING <= img.width
    ensures PadAndClamp(r, img).x == 0
    ensures PadAndClamp(r, img).x + PadAndClamp(r, img).w == r.x + r.w + PADDING + (PADDING - r.x)
  {
  }

  /** The same as `LeftClampMovesPaddingRight`, for the top edge and the height. */
  lemma TopClampMovesPaddingDown(r: Rect, img: Image)
    requires 0 <= r.y < PADDING
    requires r.h + 2 * PADDING <= img.height
    ensures PadAndClamp(r, img).y == 0
    ensures PadAndClamp(r, img).y + PadAndClamp(r, img).h == r.y + r.h + PADDING + (PADDING - r.y)
  {
  }

  /** Pixel (i, j) lies in rectangle `r`. */
  predicate InRect(r: Rect, i: int, j: int) {
    r.x <= i < r.x + r.w && r.y <= j < r.y + r.h
  }

  /** Pixel (i, j) is one PIL copies when cropping to box `b` (right and lower edges excluded). */
  predicate InCropBox(b: CropBox, i: int, j: int) {
    b.left <= i < b.right && b.upper <= j < b.lower
  }

  /** PIL's box for cropping the rectangle `p`: it selects exactly the pixels of `p`. */
  function ToCropBox(p: Rect): (b: CropBox)
    ensures b.left == p.x && b.upper == p.y
    ensures b.right - b.left == p.w && b.lower - b.upper == p.h
    ensures forall i, j :: InCropBox(b, i, j) <==> InRect(p, i, j)
  {
    CropBox(p.x, p.y, p.x + p.w, p.y + p.h)
  }

  /** The rectangle a PIL crop box selects. */
  function BoxRect(b: CropBox): Rect {
    Rect(b.left, b.upper, b.right - b.left, b.lower - b.upper)
  }

  /**
   * The extractor: no contour gives NoCharacterFound; a largest contour of
   * area below MIN_AREA gives ContourTooSmall; otherwise the padded box of
   * the largest contour, resized to OUTPUT_SIZE x OUTPUT_SIZE.
   */
  function Extract(img: Image, cs: seq<Contour>): (r: Result<Thumbnail, Warning>)
    requires WellFormed(img, cs)
    ensures r == Failure(NoCharacterFound) <==> |cs| == 0
    ensures r == Failure(ContourTooSmall) <==> |cs| > 0 && forall i :: 0 <= i < |cs| ==> cs[i].area < MIN_AREA
    ensures r.Success? <==> exists i :: 0 <= i < |cs| && cs[i].area >= MIN_AREA
    ensures r.Success? ==> r.value.width == OUTPUT_SIZE && r.value.height == OUTPUT_SIZE
    ensures r.Success? ==>
      && 0 <= r.value.crop.left < r.value.crop.right <= img.width
      && 0 <= r.value.crop.upper < r.value.crop.lower <= img.height
    ensures r.Success? ==>
      var b := cs[Largest(cs)].bound;
      && cs[Largest(cs)].area >= MIN_AREA
      && r.value.crop.left <= b.x && b.x + b.w <= r.value.crop.right
      && r.value.crop.upper <= b.y && b.y + b.h <= r.value.crop.lower
      && r.value.crop.right - r.value.crop.left <= b.w + 2 * PADDING
      && r.value.crop.lower - r.value.crop.upper <= b.h + 2 * PADDING
    ensures r.Success? ==> IsPaddedBox(cs[Largest(cs)].bound, img, BoxRect(r.value.crop))
  {
    if |cs| == 0 then Failure(NoCharacterFound)
    else
      var largest := cs[Largest(cs)];
      if largest.area < MIN_AREA then Failure(ContourTooSmall)
      else
        var p := PadAndClamp(largest.bound, img);
        Success(Thumbnail(ToCropBox(p), OUTPUT_SIZE, OUTPUT_SIZE))
  }

  /** `crop_and_resize` as its callers see it: the thumbnail, or None. */
  function CropAndResize(img: Image, cs: seq<Contour>): (t: Option<Thumbnail>)
    requires WellFormed(img, cs)
    ensures t.None? <==> |cs| == 0 || forall i :: 0 <= i < |cs| ==> cs[i].area < MIN_AREA
    ensures t.Some? ==> t.value.width == OUTPUT_SIZE && t.value.height == OUTPUT_SIZE
    ensures t.Some? ==> IsPaddedBox(cs[Largest(cs)].bound, img, BoxRect(t.value.crop))
  {
    Extract(img, cs).ToOption()
  }

  /** Only the chosen contour matters: the result is what that contour alone would give. */
  lemma OnlyLargestContourMatters(img: Image, cs: seq<Contour>)
    requires |cs| > 0 && WellFormed(img, cs)
    ensures Extract(img, cs) == Extract(img, [cs[Largest(cs)]])
  {
  }

  /**
   * A single blob of area at least MIN_AREA yields its bounding rectangle
   * padded and clamped, at the fixed output size.
   */
  lemma SingleBlobThumbnail(img: Image, c: Contour)
    requires InImage(c.bound, img) && c.area >= MIN_AREA
    ensures Extract(img, [c]) == Success(Thumbnail(ToCropBox(PadAndClamp(c.bound, img)), OUTPUT_SIZE, OUTPUT_SIZE))
  {
  }

  /** Adding a noise contour no larger than the chosen one, after it, leaves the outcome unchanged. */
  lemma TrailingNoiseIgnored(img: Image, cs: seq<Contour>, noise: Contour)
    requires |cs| > 0 && WellFormed(img, cs) && InImage(noise.bound, img)
    requires noise.area <= cs[Largest(cs)].area
    ensures WellFormed(img, cs + [noise])
    ensures Extract(img, cs + [noise]) == Extract(img, cs)
  {
  }

  /** A 20x20 black square at (50, 50) on a 200x200 canvas is cropped to (45, 45)-(75, 75). */
  lemma SquareOnCanvas()
    ensures Extract(Image(200, 200), [Contour(361.0, Rect(50, 50, 20, 20))])
         == Success(Thumbnail(CropBox(45, 45, 75, 75), 100, 100))
  {
  }

  /** An image in which contour detection finds no contour yields no thumbnail. */
  lemma BlankCanvas()
    ensures CropAndResize(Image(50, 50), []) == None
  {
  }
}
