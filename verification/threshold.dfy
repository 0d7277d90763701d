/**
 Range thresholding and the final binarisation of percentage thresholding.

 Both write a fresh image of the input's size in which a pixel is black
 exactly when its intensity falls in an inclusive range, and white otherwise.
 */
module Thresholding {
  import opened Images

  ghost predicate IsBinary(img: Image)
    requires img.Valid()
  {
    forall x, y :: img.InBounds(x, y) ==> img.At(x, y) == Black || img.At(x, y) == White
  }

  /** `thresholding(in, min, max)`: black where min <= intensity <= max, white elsewhere. */
  function Threshold(img: Image, min: int, max: int): (out: Image)
    requires img.Valid()
    ensures out.Valid() && out.width == img.width && out.height == img.height
    ensures IsBinary(out)
    ensures forall x, y :: out.InBounds(x, y) ==> (out.At(x, y) == Black <==> min <= img.At(x, y) <= max)
  {
    Image(img.width, img.height,
      seq(img.height, y requires 0 <= y < img.height =>
        seq(img.width, x requires 0 <= x < img.width =>
          if min <= img.rows[y][x] <= max then Black else White)))
  }

  /**
   The output loop of `thresholding(in, percent)`, with the cut intensity that
   the histogram scan computed taken as a parameter. The cut can be -1 (the
   scan chooses `i - 1` at bucket 0) or 255 (its default).
   */
  function ThresholdAtCut(img: Image, threshold: int): (out: Image)
    requires img.Valid()
    ensures out.Valid() && out.width == img.width && out.height == img.height
    ensures IsBinary(out)
    ensures forall x, y :: out.InBounds(x, y) ==> (out.At(x, y) == Black <==> threshold <= img.At(x, y))
  {
    Image(img.width, img.height,
      seq(img.height, y requires 0 <= y < img.height =>
        seq(img.width, x requires 0 <= x < img.width =>
          if img.rows[y][x] >= threshold && img.rows[y][x] <= 255 then Black else White)))
  }

  /** The percentage variant's output is range thresholding with the range [threshold, 255]. */
  lemma CutIsRange(img: Image, threshold: int)
    requires img.Valid()
    ensures ThresholdAtCut(img, threshold) == Threshold(img, threshold, 255)
  {
    Extensional(ThresholdAtCut(img, threshold), Threshold(img, threshold, 255));
  }

  /** An empty range (min > max) whitens the whole image. */
  lemma EmptyRangeIsWhite(img: Image, min: int, max: int)
    requires img.Valid() && min > max
    ensures Threshold(img, min, max) == Blank(img.width, img.height)
  {
    Extensional(Threshold(img, min, max), Blank(img.width, img.height));
  }

  /**
   A black-and-white image is its own threshold under any range that holds
   black (0) but not white (255).
   */
  lemma BinaryIsFixed(img: Image, min: int, max: int)
    requires img.Valid() && IsBinary(img)
    requires min <= Black <= max < White
    ensures Threshold(img, min, max) == img
  {
    Extensional(Threshold(img, min, max), img);
  }

  /** Thresholding twice with the same range is thresholding once, whenever the range holds 0 but not 255. */
  lemma ThresholdIdempotent(img: Image, min: int, max: int)
    requires img.Valid()
    requires min <= Black <= max < White
    ensures Threshold(Threshold(img, min, max), min, max) == Threshold(img, min, max)
  {
    BinaryIsFixed(Threshold(img, min, max), min, max);
  }

  /** Every thresholded image is a fixed point of thresholding at [0, 0]. */
  lemma ThresholdFixedAtZero(img: Image, min: int, max: int)
    requires img.Valid()
    ensures Threshold(Threshold(img, min, max), 0, 0) == Threshold(img, min, max)
  {
    BinaryIsFixed(Threshold(img, min, max), 0, 0);
  }

  /** Raising the cut never blackens a pixel: the foreground of a higher cut lies inside that of a lower one. */
  lemma CutMonotone(img: Image, lo: int, hi: int)
    requires img.Valid() && lo <= hi
    ensures forall x, y :: img.InBounds(x, y) && ThresholdAtCut(img, hi).At(x, y) == Black ==>
      ThresholdAtCut(img, lo).At(x, y) == Black
  {
  }
}
