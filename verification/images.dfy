/**
 The intensity grid every operation of the toolkit reads and writes.

 A pixel of a `BufferedImage` is a packed RGB word, but only its blue byte
 (`getRGB(x, y) & 0xff`) is ever read, so an image is modelled as a
 rectangular grid of intensities in [0, 255]. The two words `ImageProcess`
 writes, `-1` and `-16777216`, have blue bytes 255 (white, background) and
 0 (black, foreground).
 */
module Images {

  /** White: the blue byte of the word `-1` (0xFFFFFFFF). */
  const White: int := 255
  /** Black: the blue byte of the word `-16777216` (0xFF000000). */
  const Black: int := 0

  predicate IsIntensity(v: int) {
    0 <= v <= 255
  }

  /** A width x height grid, stored row by row: pixel (x, y) is `rows[y][x]`. */
  datatype Image = Image(width: nat, height: nat, rows: seq<seq<int>>)
  {
    predicate Valid() {
      && |rows| == height
      && (forall y :: 0 <= y < height ==> |rows[y]| == width)
      && (forall y, x :: 0 <= y < height && 0 <= x < width ==> IsIntensity(rows[y][x]))
    }

    predicate InBounds(x: int, y: int) {
      0 <= x < width && 0 <= y < height
    }

    /** `getRGB(x, y) & 0xff` */
    function At(x: int, y: int): (v: int)
      requires Valid() && InBounds(x, y)
      ensures IsIntensity(v)
    {
      rows[y][x]
    }

    /** `setRGB(x, y, ...)`: only pixel (x, y) changes. */
    function Set(x: int, y: int, v: int): (r: Image)
      requires Valid() && InBounds(x, y) && IsIntensity(v)
      ensures r.Valid() && r.width == width && r.height == height
      ensures r.At(x, y) == v
      ensures forall x', y' :: r.InBounds(x', y') && (x' != x || y' != y) ==> r.At(x', y') == At(x', y')
    {
      Image(width, height, rows[y := rows[y][x := v]])
    }
  }

  /** Two valid images of the same size that agree on every pixel are equal. */
  lemma Extensional(a: Image, b: Image)
    requires a.Valid() && b.Valid()
    requires a.width == b.width && a.height == b.height
    requires forall x, y :: a.InBounds(x, y) ==> a.At(x, y) == b.At(x, y)
    ensures a == b
  {
    forall y | 0 <= y < a.height
      ensures a.rows[y] == b.rows[y]
    {
      assert |a.rows[y]| == |b.rows[y]|;
      assert forall x :: 0 <= x < a.width ==> a.rows[y][x] == a.At(x, y) == b.At(x, y) == b.rows[y][x];
    }
  }

  /** A freshly allocated canvas painted white, as the histogram renderer's first loop leaves it. */
  function Blank(width: nat, height: nat): (r: Image)
    ensures r.Valid() && r.width == width && r.height == height
    ensures forall x, y :: r.InBounds(x, y) ==> r.At(x, y) == White
  {
    Image(width, height, seq(height, _ => seq(width, _ => White)))
  }
}
