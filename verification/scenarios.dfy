module Scenarios {
  import opened Images
  import opened Morphology
  import opened Thresholding
  import opened Masks
  import opened Regions

  /** A 3 x 3 white image with a black centre. */
  function Dot(): (img: Image)
    ensures img.Valid()
  {
    Image(3, 3, [[255, 255, 255], [255, 0, 255], [255, 255, 255]])
  }

  /** Erosion removes the lone black centre pixel. */
  lemma ErodeDot()
    ensures Eroded(Dot()) == Blank(3, 3)
  {
    var img := Dot();
    assert NeighbourHas(img, White, 1, 1) by {
      assert img.At(1, 0) == White;
    }
    Extensional(Eroded(img), Blank(3, 3));
  }

  /**
   Dilation grows the centre only East and South: its North and West
   neighbours lie in row 0 and column 0, which the bounds test excludes, and
   the corners are not 4-neighbours.
   */
  lemma DilateDot()
    ensures Dilated(Dot()) == Image(3, 3, [[255, 255, 255], [255, 0, 0], [255, 0, 255]])
  {
    var img := Dot();
    var expected := Image(3, 3, [[255, 255, 255], [255, 0, 0], [255, 0, 255]]);
    assert expected.Valid();
    forall x, y | img.InBounds(x, y)
      ensures Dilated(img).At(x, y) == expected.At(x, y)
    {
      if (x, y) == (2, 1) {
        assert img.At(1, 1) == Black;
      } else if (x, y) == (1, 2) {
        assert img.At(1, 1) == Black;
      }
    }
    Extensional(Dilated(img), expected);
  }

  /** Range [100, 200] on a row holding 0 and 150: only the 150 pixel becomes black. */
  lemma ThresholdRow()
    ensures Threshold(Image(2, 1, [[150, 0]]), 100, 200) == Image(2, 1, [[0, 255]])
  {
    var img := Image(2, 1, [[150, 0]]);
    var expected := Image(2, 1, [[0, 255]]);
    assert img.Valid() && expected.Valid();
    Extensional(Threshold(img, 100, 200), expected);
  }

  /** Two black pixels that touch only at a corner. */
  function Corners(): (img: Image)
    ensures img.Valid()
  {
    Image(2, 2, [[0, 255], [255, 0]])
  }

  /** Diagonal contact does not connect: the corner pixels are separate regions. */
  lemma CornersApart()
    ensures !Connected(Binarize(Corners()), Point(0, 0), Point(1, 1))
  {
    var m := Binarize(Corners());
    assert Cell(m, Point(1, 0)) == 0 && Cell(m, Point(0, 1)) == 0;
    forall path | IsPath(m, path) && path[0] == Point(0, 0)
      ensures |path| == 1 || !Adjacent(path[0], path[1]) || !IsOne(m, path[1])
    {
    }
  }

  /** Every label in use marks one of the two corner pixels. */
  lemma CornerLabel(count: nat, mask: seq<seq<int>>, l: int)
    requires LabelsRegions(Corners(), count, mask)
    requires 2 <= l < count + 2
    ensures l == Cell(mask, Point(0, 0)) || l == Cell(mask, Point(1, 1))
  {
    var img := Corners();
    assert LabelUsed(mask, l);
    var w :| InMask(mask, w) && Cell(mask, w) == l;
    assert w == Point(0, 0) || w == Point(1, 1) || w == Point(1, 0) || w == Point(0, 1);
    assert img.At(1, 0) == White && img.At(0, 1) == White;
  }

  /** Whatever labels region detection hands back for the two corner pixels, it counts two regions. */
  lemma CornersCountTwo(count: nat, mask: seq<seq<int>>)
    requires LabelsRegions(Corners(), count, mask)
    ensures count == 2
  {
    var img := Corners();
    var a, b := Point(0, 0), Point(1, 1);
    CornersApart();
    assert img.At(0, 0) == Black && img.At(1, 1) == Black;
    assert Cell(mask, a) != Cell(mask, b);
    if count > 2 {
      CornerLabel(count, mask, 2);
      CornerLabel(count, mask, 3);
      CornerLabel(count, mask, 4);
      assert false;
    }
  }

  /** The black centre of the 3 x 3 dot is one region. */
  lemma DotCountsOne(count: nat, mask: seq<seq<int>>)
    requires LabelsRegions(Dot(), count, mask)
    ensures count == 1
  {
    var img := Dot();
    var c := Point(1, 1);
    forall p: Point | img.InBounds(p.x, p.y) && img.At(p.x, p.y) != White
      ensures p == c
    {
    }
    ConnectedReflexive(Binarize(img), c);
    OneBlobCountsOne(img, c, count, mask);
  }
}
