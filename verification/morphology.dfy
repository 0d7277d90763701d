/**
 Erosion and dilation with the 4-neighbour cross.

 Both are one pass over a frozen input that writes into a copy of it. A
 "seed" pixel of intensity v offers v to each of its four neighbours; a
 neighbour that passes the bounds test and still holds the opposite value
 255 - v in the copy takes v. Erosion seeds with white (it whitens black
 pixels next to white), dilation with black.

 The bounds test is `nX > 0 && nX < width && nY > 0 && nY < height`: the low
 side is strict, so no pixel of row 0 or column 0 is ever changed. The model
 keeps that.
 */
module Morphology {
  import opened Images

  /** The neighbour table, as (dx, dy): North, West, East, South. */
  const Offsets: seq<(int, int)> := [(0, -1), (-1, 0), (1, 0), (0, 1)]

  /** The bounds test a neighbour must pass before it is written. */
  predicate IsTarget(img: Image, nx: int, ny: int) {
    0 < nx < img.width && 0 < ny < img.height
  }

  /** Some in-bounds 4-neighbour of (x, y) has intensity v. */
  predicate NeighbourHas(img: Image, v: int, x: int, y: int)
    requires img.Valid()
  {
    || (img.InBounds(x, y - 1) && img.At(x, y - 1) == v)
    || (img.InBounds(x - 1, y) && img.At(x - 1, y) == v)
    || (img.InBounds(x + 1, y) && img.At(x + 1, y) == v)
    || (img.InBounds(x, y + 1) && img.At(x, y + 1) == v)
  }

  /** The value of pixel (x, y) after a whole pass seeded with v. */
  function PassPixel(img: Image, v: int, x: int, y: int): int
    requires img.Valid() && img.InBounds(x, y)
  {
    if img.At(x, y) == 255 - v && IsTarget(img, x, y) && NeighbourHas(img, v, x, y) then v else img.At(x, y)
  }

  /** The image a whole pass seeded with v produces, pixel by pixel. */
  function Pass(img: Image, v: int): (r: Image)
    requires img.Valid() && IsIntensity(v)
    ensures r.Valid() && r.width == img.width && r.height == img.height
    ensures forall x, y :: r.InBounds(x, y) ==> r.At(x, y) == PassPixel(img, v, x, y)
  {
    Image(img.width, img.height,
      seq(img.height, y requires 0 <= y < img.height =>
        seq(img.width, x requires 0 <= x < img.width => PassPixel(img, v, x, y))))
  }

  /** Erosion as a pixelwise definition. */
  function Eroded(img: Image): (r: Image)
    requires img.Valid()
    ensures r.Valid() && r.width == img.width && r.height == img.height
    ensures forall x, y :: r.InBounds(x, y) ==>
      (r.At(x, y) == White <==>
        img.At(x, y) == White || (img.At(x, y) == Black && x > 0 && y > 0 && NeighbourHas(img, White, x, y)))
    ensures forall x, y :: r.InBounds(x, y) && r.At(x, y) != White ==> r.At(x, y) == img.At(x, y)
  {
    Pass(img, White)
  }

  /** Dilation as a pixelwise definition. */
  function Dilated(img: Image): (r: Image)
    requires img.Valid()
    ensures r.Valid() && r.width == img.width && r.height == img.height
    ensures forall x, y :: r.InBounds(x, y) ==>
      (r.At(x, y) == Black <==>
        img.At(x, y) == Black || (img.At(x, y) == White && x > 0 && y > 0 && NeighbourHas(img, Black, x, y)))
    ensures forall x, y :: r.InBounds(x, y) && r.At(x, y) != Black ==> r.At(x, y) == img.At(x, y)
  {
    Pass(img, Black)
  }

  // ---------------------------------------------------------------------
  // The scan. Its state after visiting some prefix of the pixels (in
  // row-major order) is described by which offers have been made so far.

  /** Source pixel (sx, sy) has been fully visited when the scan stands at (x, y). */
  predicate Visited(sx: int, sy: int, x: int, y: int) {
    sy < y || (sy == y && sx < x)
  }

  /**
   Cell (cx, cy) has been offered v through neighbour-table entry k by the time
   the scan stands at pixel (x, y) about to try entry i.
   */
  predicate Offered(img: Image, v: int, cx: int, cy: int, k: int, x: int, y: int, i: int)
    requires img.Valid() && 0 <= k < 4
  {
    var sx := cx - Offsets[k].0;
    var sy := cy - Offsets[k].1;
    img.InBounds(sx, sy) && img.At(sx, sy) == v && (Visited(sx, sy, x, y) || (sx == x && sy == y && k < i))
  }

  predicate OfferedAny(img: Image, v: int, cx: int, cy: int, x: int, y: int, i: int)
    requires img.Valid()
  {
    || Offered(img, v, cx, cy, 0, x, y, i)
    || Offered(img, v, cx, cy, 1, x, y, i)
    || Offered(img, v, cx, cy, 2, x, y, i)
    || Offered(img, v, cx, cy, 3, x, y, i)
  }

  function PartialPixel(img: Image, v: int, cx: int, cy: int, x: int, y: int, i: int): int
    requires img.Valid() && img.InBounds(cx, cy)
  {
    if img.At(cx, cy) == 255 - v && IsTarget(img, cx, cy) && OfferedAny(img, v, cx, cy, x, y, i) then v
    else img.At(cx, cy)
  }

  /** The copy holds exactly the effect of every offer made before scan point (x, y, i). */
  ghost predicate PassedUpTo(img: Image, v: int, out: Image, x: int, y: int, i: int)
    requires img.Valid()
  {
    && out.Valid() && out.width == img.width && out.height == img.height
    && forall cx, cy :: img.InBounds(cx, cy) ==> out.At(cx, cy) == PartialPixel(img, v, cx, cy, x, y, i)
  }

  /** Once every pixel has been visited, every offer an in-bounds neighbour can make has been made. */
  lemma AllVisited(img: Image, v: int, out: Image)
    requires img.Valid() && IsIntensity(v)
    requires PassedUpTo(img, v, out, 0, img.height, 0)
    ensures out == Pass(img, v)
  {
    forall cx, cy | img.InBounds(cx, cy)
      ensures out.At(cx, cy) == Pass(img, v).At(cx, cy)
    {
      assert OfferedAny(img, v, cx, cy, 0, img.height, 0) <==> NeighbourHas(img, v, cx, cy);
    }
    Extensional(out, Pass(img, v));
  }

  /** One entry of the neighbour loop: the copy after offering v to (nx, ny). */
  function Offer(v: int, out: Image, nx: int, ny: int): (r: Image)
    requires out.Valid() && IsIntensity(v)
    ensures r.Valid() && r.width == out.width && r.height == out.height
  {
    if nx > 0 && nx < out.width && ny > 0 && ny < out.height && out.At(nx, ny) == 255 - v then out.Set(nx, ny, v)
    else out
  }

  /** Trying neighbour-table entry i of seed (x, y) makes exactly the offer through entry i. */
  lemma OfferStep(img: Image, v: int, out: Image, x: int, y: int, i: int)
    requires img.Valid() && (v == Black || v == White)
    requires img.InBounds(x, y) && img.At(x, y) == v && 0 <= i < 4
    requires PassedUpTo(img, v, out, x, y, i)
    ensures PassedUpTo(img, v, Offer(v, out, x + Offsets[i].0, y + Offsets[i].1), x, y, i + 1)
  {
    var nx, ny := x + Offsets[i].0, y + Offsets[i].1;
    var out' := Offer(v, out, nx, ny);
    forall cx, cy | img.InBounds(cx, cy)
      ensures out'.At(cx, cy) == PartialPixel(img, v, cx, cy, x, y, i + 1)
    {
      if cx == nx && cy == ny {
        assert Offered(img, v, cx, cy, i, x, y, i + 1);
      } else {
        forall k | 0 <= k < 4
          ensures Offered(img, v, cx, cy, k, x, y, i + 1) == Offered(img, v, cx, cy, k, x, y, i)
        {
        }
      }
    }
  }

  /** After the whole neighbour loop of (x, y), or at a pixel that is no seed, the scan moves on to (x + 1, y). */
  lemma NextPixel(img: Image, v: int, out: Image, x: int, y: int, i: int)
    requires img.Valid() && img.InBounds(x, y)
    requires i == 4 || (i == 0 && img.At(x, y) != v)
    requires PassedUpTo(img, v, out, x, y, i)
    ensures PassedUpTo(img, v, out, x + 1, y, 0)
  {
    forall cx, cy | img.InBounds(cx, cy)
      ensures PartialPixel(img, v, cx, cy, x + 1, y, 0) == PartialPixel(img, v, cx, cy, x, y, i)
    {
      forall k | 0 <= k < 4
        ensures Offered(img, v, cx, cy, k, x + 1, y, 0) == Offered(img, v, cx, cy, k, x, y, i)
      {
      }
    }
  }

  /** Standing past the end of row y is standing at the start of row y + 1. */
  lemma NextRow(img: Image, v: int, out: Image, y: int)
    requires img.Valid()
    requires PassedUpTo(img, v, out, img.width, y, 0)
    ensures PassedUpTo(img, v, out, 0, y + 1, 0)
  {
    forall cx, cy | img.InBounds(cx, cy)
      ensures PartialPixel(img, v, cx, cy, 0, y + 1, 0) == PartialPixel(img, v, cx, cy, img.width, y, 0)
    {
      forall k | 0 <= k < 4
        ensures Offered(img, v, cx, cy, k, 0, y + 1, 0) == Offered(img, v, cx, cy, k, img.width, y, 0)
      {
      }
    }
  }

  /**
   The neighbour loop for seed pixel (x, y): each of the four neighbours that
   passes the bounds test and still holds 255 - v in the copy is set to v.
   */
  method Spread(img: Image, v: int, out0: Image, x: int, y: int) returns (out: Image)
    requires img.Valid() && (v == Black || v == White)
    requires img.InBounds(x, y) && img.At(x, y) == v
    requires PassedUpTo(img, v, out0, x, y, 0)
    ensures PassedUpTo(img, v, out, x + 1, y, 0)
  {
    out := out0;
    for i := 0 to 4
      invariant PassedUpTo(img, v, out, x, y, i)
    {
      OfferStep(img, v, out, x, y, i);
      ghost var before := out;
      var nx := x + Offsets[i].0;
      var ny := y + Offsets[i].1;
      if nx > 0 && nx < img.width && ny > 0 && ny < img.height {
        if out.At(nx, ny) == 255 - v {
          out := out.Set(nx, ny, v);
        }
      }
      assert out == Offer(v, before, nx, ny);
    }
    NextPixel(img, v, out, x, y, 4);
  }

  /** The double scan shared by `erosion` and `dilation`, reading `img` and writing its copy. */
  method Scan(img: Image, v: int) returns (out: Image)
    requires img.Valid() && (v == Black || v == White)
    ensures out == Pass(img, v)
  {
    out := img;
    var y := 0;
    while y < img.height
      invariant 0 <= y <= img.height
      invariant PassedUpTo(img, v, out, 0, y, 0)
    {
      var x := 0;
      while x < img.width
        invariant 0 <= x <= img.width
        invariant PassedUpTo(img, v, out, x, y, 0)
      {
        if img.At(x, y) == v {
          out := Spread(img, v, out, x, y);
        } else {
          NextPixel(img, v, out, x, y, 0);
        }
        x := x + 1;
      }
      NextRow(img, v, out, y);
      y := y + 1;
    }
    AllVisited(img, v, out);
  }

  /** `erosion(in)` */
  method Erosion(img: Image) returns (out: Image)
    requires img.Valid()
    ensures out == Eroded(img)
  {
    out := Scan(img, White);
  }

  /** `dilation(in)` */
  method Dilation(img: Image) returns (out: Image)
    requires img.Valid()
    ensures out == Dilated(img)
  {
    out := Scan(img, Black);
  }

  // ---------------------------------------------------------------------
  // Properties of a pass.

  /** Erosion only ever turns black into white; row 0, column 0 and grey pixels keep their value. */
  lemma ErosionOnlyWhitens(img: Image)
    requires img.Valid()
    ensures forall x, y :: img.InBounds(x, y) && Eroded(img).At(x, y) != img.At(x, y) ==>
      img.At(x, y) == Black && Eroded(img).At(x, y) == White && x > 0 && y > 0
  {
  }

  /** Dilation only ever turns white into black; row 0, column 0 and grey pixels keep their value. */
  lemma DilationOnlyBlackens(img: Image)
    requires img.Valid()
    ensures forall x, y :: img.InBounds(x, y) && Dilated(img).At(x, y) != img.At(x, y) ==>
      img.At(x, y) == White && Dilated(img).At(x, y) == Black && x > 0 && y > 0
  {
  }

  /** Erosion and dilation are dual: dilating is eroding the photographic negative. */
  lemma Duality(img: Image)
    requires img.Valid()
    ensures Dilated(img) == Negative(Eroded(Negative(img)))
  {
    var n := Negative(img);
    forall x, y | img.InBounds(x, y)
      ensures Dilated(img).At(x, y) == Negative(Eroded(n)).At(x, y)
    {
      assert NeighbourHas(n, White, x, y) <==> NeighbourHas(img, Black, x, y);
    }
    Extensional(Dilated(img), Negative(Eroded(n)));
  }

  /** Every intensity v replaced by 255 - v. */
  function Negative(img: Image): (r: Image)
    requires img.Valid()
    ensures r.Valid() && r.width == img.width && r.height == img.height
    ensures forall x, y :: r.InBounds(x, y) ==> r.At(x, y) + img.At(x, y) == 255
  {
    Image(img.width, img.height,
      seq(img.height, y requires 0 <= y < img.height =>
        seq(img.width, x requires 0 <= x < img.width => 255 - img.rows[y][x])))
  }
}
