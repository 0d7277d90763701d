/**
 Region detection: count the 4-connected regions of non-white pixels by
 flood-filling each one with a fresh tag.
 */
module Regions {
  import opened Images
  import opened Masks

  /**
   The mask region detection starts from: white is 0, every other intensity is 1.
   A zero-width image has no `binaryMask[0]`, so `regionDetection` throws there; the
   model asks for at least one column instead.
   */
  function Binarize(img: Image): (m: seq<seq<int>>)
    requires img.Valid() && img.width >= 1
    ensures IsMask(m) && |m| == img.width && |m[0]| == img.height
    ensures forall p :: InMask(m, p) ==> Cell(m, p) == 0 || Cell(m, p) == 1
    ensures forall p :: InMask(m, p) ==> (Cell(m, p) == 0 <==> img.At(p.x, p.y) == White)
  {
    seq(img.width, x requires 0 <= x < img.width =>
      seq(img.height, y requires 0 <= y < img.height =>
        if img.rows[y][x] == White then 0 else 1))
  }

  /**
   The top of the stack after `floodfill` pushes the neighbours of p in the
   order West, North, East, South: South is popped first.
   */
  function Pushed(p: Point): (s: seq<Point>)
    ensures |s| == 4 && forall k :: 0 <= k < 4 ==> s[k] == Neighbours(p)[3 - k]
  {
    [Neighbours(p)[3], Neighbours(p)[2], Neighbours(p)[1], Neighbours(p)[0]]
  }

  /** The state of `floodfill` between two pops. */
  ghost predicate FloodState(mask: seq<seq<int>>, seed: Point, tag: int,
                             out: seq<seq<int>>, stack: seq<Point>, filled: set<Point>)
    requires IsMask(mask)
  {
    && SameShape(out, mask)
    && (forall p :: InMask(mask, p) ==> Cell(out, p) == if p in filled then tag else Cell(mask, p))
    && (forall p :: p in filled ==> InMask(mask, p) && Connected(mask, seed, p))
    && (forall k :: 0 <= k < |stack| && IsOne(mask, stack[k]) ==> Connected(mask, seed, stack[k]))
    && (IsOne(mask, seed) ==> seed in filled || seed in stack)
    && (forall c, k :: c in filled && 0 <= k < 4 && IsOne(mask, Neighbours(c)[k]) ==>
          Neighbours(c)[k] in filled || Neighbours(c)[k] in stack)
  }

  /** Popping p and labelling it, then pushing its four neighbours, keeps the state. */
  lemma FillStep(mask: seq<seq<int>>, seed: Point, tag: int,
                 out: seq<seq<int>>, stack: seq<Point>, filled: set<Point>)
    requires IsMask(mask) && tag != 1 && |stack| > 0
    requires FloodState(mask, seed, tag, out, stack, filled)
    requires InMask(mask, stack[0]) && Cell(out, stack[0]) == 1
    ensures var p := stack[0];
      FloodState(mask, seed, tag, Relabel(out, p, tag),
        Pushed(p) + stack[1..], filled + {p})
  {
    var p := stack[0];
    assert p !in filled && IsOne(mask, p);
    var out' := Relabel(out, p, tag);
    var filled' := filled + {p};
    var stack' := Pushed(p) + stack[1..];
    assert Connected(mask, seed, p);
    PushNeighbours(stack);
    assert forall q :: InMask(mask, q) ==> Cell(out', q) == if q in filled' then tag else Cell(mask, q);
    assert forall q :: q in filled' ==> InMask(mask, q) && Connected(mask, seed, q);
    forall k | 0 <= k < |stack'| && IsOne(mask, stack'[k])
      ensures Connected(mask, seed, stack'[k])
    {
      if k < 4 {
        ConnectedStep(mask, seed, p, stack'[k]);
      } else {
        assert stack'[k] == stack[k - 3];
      }
    }
    assert IsOne(mask, seed) ==> seed in filled' || seed in stack';
    forall c, k | c in filled' && 0 <= k < 4 && IsOne(mask, Neighbours(c)[k])
      ensures Neighbours(c)[k] in filled' || Neighbours(c)[k] in stack'
    {
      if c != p {
        assert Neighbours(c)[k] in filled || Neighbours(c)[k] in stack;
      }
    }
  }

  /** Replacing the top p of the stack by its four neighbours loses nothing else. */
  lemma PushNeighbours(stack: seq<Point>)
    requires |stack| > 0
    ensures var p := stack[0];
      var stack' := Pushed(p) + stack[1..];
      && (forall q :: q in stack && q != p ==> q in stack')
      && (forall k :: 0 <= k < 4 ==> Neighbours(p)[k] in stack')
      && (forall k :: 4 <= k < |stack'| ==> stack'[k] == stack[k - 3])
  {
    var p := stack[0];
    var stack' := Pushed(p) + stack[1..];
    forall q | q in stack && q != p
      ensures q in stack'
    {
      var k :| 0 <= k < |stack| && stack[k] == q;
      assert stack'[k + 3] == q;
    }
    forall k | 0 <= k < 4
      ensures Neighbours(p)[k] in stack'
    {
      assert stack'[3 - k] == Neighbours(p)[k];
    }
  }

  /** Popping p without labelling it keeps the state. */
  lemma SkipStep(mask: seq<seq<int>>, seed: Point, tag: int,
                 out: seq<seq<int>>, stack: seq<Point>, filled: set<Point>)
    requires IsMask(mask) && tag != 1 && |stack| > 0
    requires FloodState(mask, seed, tag, out, stack, filled)
    requires !InMask(mask, stack[0]) || Cell(out, stack[0]) != 1
    ensures FloodState(mask, seed, tag, out, stack[1..], filled)
  {
    var p := stack[0];
    forall q | q in stack && q != p
      ensures q in stack[1..]
    {
      var k :| 0 <= k < |stack| && stack[k] == q;
      assert stack[1..][k - 1] == q;
    }
  }

  /**
   `floodfill(x, y, tag, mask)`: every 1-cell 4-connected to (x, y) through
   1-cells takes `tag`; nothing else changes. Bounds and the cell's value
   are checked when a point is popped, not when it is pushed. The Java
   parameter `label` is a keyword in Dafny, hence `tag`.
   */
  method FloodFill(x: int, y: int, tag: int, mask: seq<seq<int>>) returns (out: seq<seq<int>>)
    requires IsMask(mask) && tag >= 2
    ensures SameShape(out, mask)
    ensures forall p :: InMask(mask, p) ==>
      Cell(out, p) == if Connected(mask, Point(x, y), p) then tag else Cell(mask, p)
  {
    var seed := Point(x, y);
    out := mask;
    var stack := [seed];
    ghost var filled: set<Point> := {};
    while |stack| > 0
      invariant FloodState(mask, seed, tag, out, stack, filled)
      decreases Ones(out), |stack|
    {
      var p := stack[0];
      if 0 <= p.x < |out| && 0 <= p.y < |out[0]| && 1 == out[p.x][p.y] {
        FillStep(mask, seed, tag, out, stack, filled);
        OnesRelabel(out, p, tag);
        out := Relabel(out, p, tag);
        filled := filled + {p};
        stack := Pushed(p) + stack[1..];
      } else {
        SkipStep(mask, seed, tag, out, stack, filled);
        stack := stack[1..];
      }
    }
    forall p | InMask(mask, p)
      ensures Connected(mask, seed, p) <==> p in filled
    {
      if Connected(mask, seed, p) {
        ConnectedEnds(mask, seed, p);
        ClosedContains(mask, filled, seed, p);
      }
    }
  }

  // ---------------------------------------------------------------------
  // `regionDetection`

  /** Every cell of m is 0 or 1. */
  ghost predicate IsBinaryMask(m: seq<seq<int>>)
    requires IsMask(m)
  {
    forall p :: InMask(m, p) ==> Cell(m, p) == 0 || Cell(m, p) == 1
  }

  /** Some cell of m carries label l. */
  ghost predicate LabelUsed(m: seq<seq<int>>, l: int)
    requires IsMask(m)
  {
    exists p :: InMask(m, p) && Cell(m, p) == l
  }

  /**
   Mask m labels regions of the binary mask `start`: white stays 0, each cell
   still 1 is foreground not yet reached, and the labels 2 .. next - 1 are all
   in use, each naming exactly one whole 4-connected region of `start`.
   */
  ghost predicate Labelling(start: seq<seq<int>>, m: seq<seq<int>>, next: int)
    requires IsMask(start)
  {
    && SameShape(m, start)
    && (forall p :: InMask(start, p) ==> (Cell(m, p) == 0 <==> Cell(start, p) == 0))
    && (forall p :: InMask(start, p) ==> Cell(m, p) == 0 || Cell(m, p) == 1 || 2 <= Cell(m, p) < next)
    && (forall p, q :: InMask(start, p) && InMask(start, q) && Cell(m, p) >= 2 ==>
          (Connected(start, p, q) <==> Cell(m, q) == Cell(m, p)))
    && (forall l :: 2 <= l < next ==> LabelUsed(m, l))
  }

  /**
   From a cell still holding 1, the region reached through the 1-cells of m
   is its whole region in `start`: no cell of that region has been labelled.
   */
  lemma UnlabelledRegion(start: seq<seq<int>>, m: seq<seq<int>>, next: int, s: Point, q: Point)
    requires IsMask(start) && IsBinaryMask(start) && Labelling(start, m, next)
    requires InMask(start, s) && Cell(m, s) == 1
    ensures Connected(m, s, q) <==> Connected(start, s, q)
  {
    if Connected(m, s, q) {
      ConnectedWithin(m, start, s, q);
    }
    if Connected(start, s, q) {
      var path :| IsPath(start, path) && path[0] == s && path[|path| - 1] == q;
      forall k | 0 <= k < |path|
        ensures IsOne(m, path[k])
      {
        ConnectedAlong(start, path, k);
        if Cell(m, path[k]) >= 2 {
          ConnectedSymmetric(start, s, path[k]);
          assert false;
        }
      }
      assert IsPath(m, path);
    }
  }

  /** After labelling the region C of s with `next`, labels still agree with connectivity for p and q. */
  lemma LabelPair(start: seq<seq<int>>, m: seq<seq<int>>, m': seq<seq<int>>, next: int, s: Point, p: Point, q: Point)
    requires IsMask(start) && IsBinaryMask(start) && Labelling(start, m, next)
    requires InMask(start, s) && Cell(m, s) == 1
    requires SameShape(m', m)
    requires forall c :: InMask(m, c) ==> Cell(m', c) == if Connected(start, s, c) then next else Cell(m, c)
    requires InMask(start, p) && InMask(start, q) && Cell(m', p) >= 2
    ensures Connected(start, p, q) <==> Cell(m', q) == Cell(m', p)
  {
    if Connected(start, s, p) {
      if Connected(start, p, q) {
        ConnectedTransitive(start, s, p, q);
      }
      if Connected(start, s, q) {
        ConnectedSymmetric(start, s, p);
        ConnectedTransitive(start, p, s, q);
      }
    } else {
      UnlabelledRegion(start, m, next, s, p);
      if Connected(start, s, q) {
        if Connected(start, p, q) {
          ConnectedSymmetric(start, p, q);
          ConnectedTransitive(start, s, q, p);
          assert false;
        }
      }
    }
  }

  /** Flood-filling an unreached 1-cell with label `next` yields a labelling with one more label. */
  lemma LabelRegion(start: seq<seq<int>>, m: seq<seq<int>>, next: int, s: Point, m': seq<seq<int>>)
    requires IsMask(start) && IsBinaryMask(start) && Labelling(start, m, next) && next >= 2
    requires InMask(start, s) && Cell(m, s) == 1
    requires SameShape(m', m)
    requires forall c :: InMask(m, c) ==> Cell(m', c) == if Connected(m, s, c) then next else Cell(m, c)
    ensures Labelling(start, m', next + 1)
    ensures Cell(m', s) == next
    ensures forall c :: InMask(m, c) && Cell(m', c) == 1 ==> Cell(m, c) == 1
    ensures Ones(m') < Ones(m)
  {
    forall c | InMask(m, c)
      ensures Cell(m', c) == if Connected(start, s, c) then next else Cell(m, c)
    {
      UnlabelledRegion(start, m, next, s, c);
    }
    ConnectedReflexive(m, s);
    forall p, q | InMask(start, p) && InMask(start, q) && Cell(m', p) >= 2
      ensures Connected(start, p, q) <==> Cell(m', q) == Cell(m', p)
    {
      LabelPair(start, m, m', next, s, p, q);
    }
    forall l | 2 <= l < next + 1
      ensures LabelUsed(m', l)
    {
      if l < next {
        assert LabelUsed(m, l);
        var w :| InMask(m, w) && Cell(m, w) == l;
        if Connected(m, s, w) {
          ConnectedEnds(m, s, w);
        }
        assert Cell(m', w) == l;
      } else {
        assert Cell(m', s) == l;
      }
    }
    forall x, y | 0 <= x < |m'| && 0 <= y < |m'[x]| && m'[x][y] == 1
      ensures m[x][y] == 1
    {
      assert Cell(m', Point(x, y)) == 1;
    }
    OnesShrink(m, m');
    assert m[s.x][s.y] == 1 && m'[s.x][s.y] != 1;
  }

  /** Cell p comes before scan point (x, y) in the row-by-row scan. */
  predicate Scanned(p: Point, x: int, y: int) {
    p.y < y || (p.y == y && p.x < x)
  }

  /** The state of `regionDetection`'s scan when it stands at cell (x, y). */
  ghost predicate ScanState(start: seq<seq<int>>, m: seq<seq<int>>, tag: int, count: int, x: int, y: int)
    requires IsMask(start)
  {
    && IsBinaryMask(start)
    && Labelling(start, m, tag)
    && (forall p :: InMask(start, p) && Scanned(p, x, y) ==> Cell(m, p) != 1)
    && 0 <= count == tag - 2
    && count + Ones(m) <= Ones(start)
  }

  /** A cell still holding 1 starts a new region: flood it with the next label and move on. */
  lemma ScanLabel(start: seq<seq<int>>, m: seq<seq<int>>, tag: int, count: int, x: int, y: int, m': seq<seq<int>>)
    requires IsMask(start) && ScanState(start, m, tag, count, x, y)
    requires InMask(start, Point(x, y)) && Cell(m, Point(x, y)) == 1
    requires SameShape(m', m)
    requires forall c :: InMask(m, c) ==> Cell(m', c) == if Connected(m, Point(x, y), c) then tag else Cell(m, c)
    ensures ScanState(start, m', tag + 1, count + 1, x + 1, y)
  {
    LabelRegion(start, m, tag, Point(x, y), m');
  }

  lemma ScanSkip(start: seq<seq<int>>, m: seq<seq<int>>, tag: int, count: int, x: int, y: int)
    requires IsMask(start) && ScanState(start, m, tag, count, x, y)
    requires InMask(start, Point(x, y)) && Cell(m, Point(x, y)) != 1
    ensures ScanState(start, m, tag, count, x + 1, y)
  {
  }

  lemma ScanRow(start: seq<seq<int>>, m: seq<seq<int>>, tag: int, count: int, y: int)
    requires IsMask(start) && ScanState(start, m, tag, count, |start|, y)
    ensures ScanState(start, m, tag, count, 0, y + 1)
  {
  }

  /**
   `mask` labels the 4-connected regions of the non-white pixels of img with
   2 .. count + 1: white pixels are 0, every label is in use, and two
   non-white pixels carry the same label exactly when they are connected.
   So `count` is the number of regions.
   */
  ghost predicate LabelsRegions(img: Image, count: nat, mask: seq<seq<int>>)
    requires img.Valid() && img.width >= 1
  {
    && IsMask(mask) && |mask| == img.width && |mask[0]| == img.height
    && (forall p :: InMask(mask, p) ==> (Cell(mask, p) == 0 <==> img.At(p.x, p.y) == White))
    && (forall p :: InMask(mask, p) && Cell(mask, p) != 0 ==> 2 <= Cell(mask, p) < count + 2)
    && (forall l :: 2 <= l < count + 2 ==> LabelUsed(mask, l))
    && (forall p, q :: InMask(mask, p) && InMask(mask, q) && Cell(mask, p) != 0 && Cell(mask, q) != 0 ==>
          (Cell(mask, p) == Cell(mask, q) <==> Connected(Binarize(img), p, q)))
  }

  /**
   `regionDetection(in)`: the number of 4-connected regions of non-white
   pixels, together with the final mask, in which each region carries its own
   label; there are no more regions than non-white pixels.
   */
  method RegionDetection(img: Image) returns (count: nat, mask: seq<seq<int>>)
    requires img.Valid() && img.width >= 1
    ensures LabelsRegions(img, count, mask)
    ensures count <= Ones(Binarize(img))
  {
    mask := Binarize(img);
    ghost var start := mask;
    var tag := 2;
    count := 0;
    var y := 0;
    while y < |mask[0]|
      invariant 0 <= y <= |start[0]|
      invariant ScanState(start, mask, tag, count, 0, y)
    {
      var x := 0;
      while x < |mask|
        invariant 0 <= x <= |start|
        invariant ScanState(start, mask, tag, count, x, y)
      {
        if 1 == mask[x][y] {
          var filled := FloodFill(x, y, tag, mask);
          ScanLabel(start, mask, tag, count, x, y, filled);
          mask := filled;
          tag := tag + 1;
          count := count + 1;
        } else {
          ScanSkip(start, mask, tag, count, x, y);
        }
        x := x + 1;
      }
      ScanRow(start, mask, tag, count, y);
      y := y + 1;
    }
    ScanDone(img, start, mask, tag, count);
  }

  /** An all-white image has no region. */
  lemma AllWhiteHasNoRegion(img: Image, count: nat, mask: seq<seq<int>>)
    requires img.Valid() && img.width >= 1
    requires forall x, y :: img.InBounds(x, y) ==> img.At(x, y) == White
    requires LabelsRegions(img, count, mask)
    ensures count == 0
  {
    if count > 0 {
      assert LabelUsed(mask, 2);
      var w :| InMask(mask, w) && Cell(mask, w) == 2;
      assert img.InBounds(w.x, w.y);
      assert false;
    }
  }

  /**
   An image whose non-white pixels form one 4-connected blob (and that has
   at least one, s) counts exactly one region.
   */
  lemma OneBlobCountsOne(img: Image, s: Point, count: nat, mask: seq<seq<int>>)
    requires img.Valid() && img.width >= 1
    requires img.InBounds(s.x, s.y) && img.At(s.x, s.y) != White
    requires forall p: Point, q: Point ::
      (img.InBounds(p.x, p.y) && img.InBounds(q.x, q.y) && img.At(p.x, p.y) != White && img.At(q.x, q.y) != White)
      ==> Connected(Binarize(img), p, q)
    requires LabelsRegions(img, count, mask)
    ensures count == 1
  {
    assert InMask(mask, s) && Cell(mask, s) != 0;
    if count > 1 {
      assert LabelUsed(mask, 2) && LabelUsed(mask, 3);
      var a :| InMask(mask, a) && Cell(mask, a) == 2;
      var b :| InMask(mask, b) && Cell(mask, b) == 3;
      assert img.InBounds(a.x, a.y) && img.InBounds(b.x, b.y);
      assert false;
    }
  }

  /** When every cell has been scanned, no cell holds 1 and the labels are the regions. */
  lemma ScanDone(img: Image, start: seq<seq<int>>, m: seq<seq<int>>, tag: int, count: nat)
    requires img.Valid() && img.width >= 1
    requires start == Binarize(img)
    requires ScanState(start, m, tag, count, 0, |start[0]|)
    ensures LabelsRegions(img, count, m)
    ensures count <= Ones(start)
  {
    forall p, q | InMask(m, p) && InMask(m, q) && Cell(m, p) != 0 && Cell(m, q) != 0
      ensures Cell(m, p) == Cell(m, q) <==> Connected(start, p, q)
    {
      assert Scanned(p, 0, |start[0]|);
      assert Cell(m, p) >= 2;
    }
  }
}
