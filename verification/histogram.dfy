/**
 Intensity histogram: the raw bucket counts and their bar-chart rendering.
 */
module Histogram {
  import opened Images

  /** `HistData`: the largest bucket, the number of pixels counted, and the 256 buckets. */
  datatype HistData = HistData(max: int, count: int, hist: seq<int>)

  // ---------------------------------------------------------------------
  // Reference definitions.

  /** How many entries of s equal v. */
  function CountIn(s: seq<int>, v: int): nat
  {
    if |s| == 0 then 0 else CountIn(s[..|s| - 1], v) + (if s[|s| - 1] == v then 1 else 0)
  }

  /** How many entries of the rows equal v. */
  function CountRows(rows: seq<seq<int>>, v: int): nat
  {
    if |rows| == 0 then 0 else CountRows(rows[..|rows| - 1], v) + CountIn(rows[|rows| - 1], v)
  }

  /** How many pixels of img have intensity v. */
  function Occurrences(img: Image, v: int): nat
    requires img.Valid()
  {
    CountRows(img.rows, v)
  }

  /** The 256 bucket counts of img, by definition. */
  function Buckets(img: Image): seq<int>
    requires img.Valid()
  {
    seq(256, v => Occurrences(img, v))
  }

  function Sum(s: seq<int>): int
  {
    if |s| == 0 then 0 else Sum(s[..|s| - 1]) + s[|s| - 1]
  }

  /** The largest entry of a non-empty sequence. */
  function MaxOf(s: seq<int>): (m: int)
    requires |s| > 0
    ensures m in s
    ensures forall k :: 0 <= k < |s| ==> s[k] <= m
  {
    if |s| == 1 then s[0]
    else
      var m' := MaxOf(s[..|s| - 1]);
      if s[|s| - 1] > m' then s[|s| - 1] else m'
  }

  /** `(int)Math.ceil((double)n / 4.0)` for a count n. */
  function CeilDiv4(n: nat): (r: nat)
    ensures 4 * r >= n && 4 * (r - 1) < n
  {
    (n + 3) / 4
  }

  lemma CeilDiv4Monotone(a: nat, b: nat)
    requires a <= b
    ensures CeilDiv4(a) <= CeilDiv4(b)
  {
  }

  // ---------------------------------------------------------------------
  // Facts about sums of buckets.

  lemma {:induction false} SumIncrement(s: seq<int>, a: int)
    requires 0 <= a < |s|
    ensures Sum(s[a := s[a] + 1]) == Sum(s) + 1
  {
    var t := s[a := s[a] + 1];
    if a == |s| - 1 {
      assert t[..|t| - 1] == s[..|s| - 1];
    } else {
      SumIncrement(s[..|s| - 1], a);
      assert t[..|t| - 1] == s[..|s| - 1][a := s[a] + 1];
    }
  }

  lemma {:induction false} SumOfZeros(n: nat)
    ensures Sum(seq(n, _ => 0)) == 0
  {
    if n > 0 {
      SumOfZeros(n - 1);
      assert seq(n, _ => 0)[..n - 1] == seq(n - 1, _ => 0);
    }
  }

  /** No entry of a sequence of counts exceeds their sum. */
  lemma {:induction false} EntryBelowSum(s: seq<int>, k: int)
    requires forall j :: 0 <= j < |s| ==> s[j] >= 0
    requires 0 <= k < |s|
    ensures s[k] <= Sum(s)
  {
    if k < |s| - 1 {
      EntryBelowSum(s[..|s| - 1], k);
    } else if |s| > 1 {
      NonNegativeSum(s[..|s| - 1]);
    }
  }

  lemma {:induction false} NonNegativeSum(s: seq<int>)
    requires forall j :: 0 <= j < |s| ==> s[j] >= 0
    ensures Sum(s) >= 0
  {
    if |s| > 0 {
      NonNegativeSum(s[..|s| - 1]);
    }
  }

  // ---------------------------------------------------------------------
  // `rawHistogram`

  /**
   One pass over the pixels, row by row: bump the pixel's bucket, keep the
   largest bucket seen so far, and count the pixel.
   */
  method RawHistogram(img: Image) returns (hd: HistData)
    requires img.Valid()
    ensures hd.hist == Buckets(img)
    ensures hd.count == img.width * img.height
    ensures Sum(hd.hist) == hd.count
    ensures hd.max in hd.hist && forall v :: 0 <= v < 256 ==> hd.hist[v] <= hd.max
    ensures hd.max <= hd.count
  {
    var count := 0;
    var maxHeight := 0;
    var histogram: seq<int> := seq(256, _ => 0);
    ghost var highest := 0;
    SumOfZeros(256);
    var y := 0;
    while y < img.height
      invariant 0 <= y <= img.height
      invariant Tallied(img, histogram, count, maxHeight, highest, y, 0)
    {
      var x := 0;
      while x < img.width
        invariant 0 <= x <= img.width
        invariant Tallied(img, histogram, count, maxHeight, highest, y, x)
      {
        var inPixel := img.At(x, y);
        TallyPixel(img, histogram, count, maxHeight, highest, y, x);
        histogram := histogram[inPixel := histogram[inPixel] + 1];
        if histogram[inPixel] > maxHeight {
          maxHeight := histogram[inPixel];
          highest := inPixel;
        }
        count := count + 1;
        x := x + 1;
      }
      TallyRow(img, histogram, count, maxHeight, highest, y);
      y := y + 1;
    }
    assert img.rows[..y] == img.rows;
    hd := HistData(maxHeight, count, histogram);
    EntryBelowSum(histogram, highest);
  }

  /** Pixels before (x, y) in row-major order with intensity v. */
  function CountedBefore(img: Image, y: int, x: int, v: int): nat
    requires img.Valid() && 0 <= y <= img.height && 0 <= x <= img.width && (y == img.height ==> x == 0)
  {
    CountRows(img.rows[..y], v) + (if x == 0 then 0 else CountIn(img.rows[y][..x], v))
  }

  /** The state of `rawHistogram` once every pixel before (x, y) has been counted. */
  ghost predicate Tallied(img: Image, hist: seq<int>, count: int, max: int, highest: int, y: int, x: int)
    requires img.Valid() && 0 <= y <= img.height && 0 <= x <= img.width && (y == img.height ==> x == 0)
  {
    && |hist| == 256
    && (forall v :: 0 <= v < 256 ==> hist[v] == CountedBefore(img, y, x, v))
    && count == y * img.width + x
    && Sum(hist) == count
    && 0 <= highest < 256 && hist[highest] == max
    && (forall v :: 0 <= v < 256 ==> hist[v] <= max)
  }

  lemma TallyPixel(img: Image, hist: seq<int>, count: int, max: int, highest: int, y: int, x: int)
    requires img.Valid() && 0 <= y < img.height && 0 <= x < img.width
    requires Tallied(img, hist, count, max, highest, y, x)
    ensures var p := img.At(x, y);
      var hist' := hist[p := hist[p] + 1];
      Tallied(img, hist', count + 1, if hist'[p] > max then hist'[p] else max,
        if hist'[p] > max then p else highest, y, x + 1)
  {
    var p := img.At(x, y);
    SumIncrement(hist, p);
    assert img.rows[y][..x + 1][..x] == img.rows[y][..x];
    if x == 0 {
      assert forall v :: CountIn(img.rows[y][..1], v) == (if p == v then 1 else 0);
    }
  }

  lemma TallyRow(img: Image, hist: seq<int>, count: int, max: int, highest: int, y: int)
    requires img.Valid() && 0 <= y < img.height
    requires Tallied(img, hist, count, max, highest, y, img.width)
    ensures Tallied(img, hist, count, max, highest, y + 1, 0)
  {
    assert img.rows[..y + 1][..y] == img.rows[..y];
    assert img.rows[y][..img.width] == img.rows[y];
    if img.width == 0 {
      assert img.rows[y] == [];
    }
  }

  // ---------------------------------------------------------------------
  // `histogram`: the bar-chart rendering.

  const Padding: int := 50
  const HistWidth: int := 4096
  const BarWidth: int := 8

  /** Each bucket scaled down by 4, rounding up. */
  function Squished(hist: seq<int>): (bars: seq<int>)
    requires |hist| == 256 && forall v :: 0 <= v < 256 ==> hist[v] >= 0
    ensures |bars| == 256
    ensures forall v :: 0 <= v < 256 ==> bars[v] >= 0 && 4 * bars[v] >= hist[v] > 4 * (bars[v] - 1)
  {
    seq(256, v requires 0 <= v < 256 => CeilDiv4(hist[v]))
  }

  /**
   Pixel (px, py) lies in a bar of the chart whose tallest bar is `top` rows
   high: bar b covers columns 25 + 8b .. 25 + 8b + 7 and the bars[b] rows
   ending at row top + 25.
   */
  predicate InBar(bars: seq<int>, top: int, px: int, py: int)
    requires |bars| == 256
  {
    && Padding / 2 <= px < Padding / 2 + BarWidth * 256
    && top + Padding / 2 - bars[(px - Padding / 2) / BarWidth] < py <= top + Padding / 2
  }

  /**
   The pixels painted once the drawing loop stands at bar x, bar row y,
   column i of that row.
   */
  predicate PaintedBefore(bars: seq<int>, top: int, px: int, py: int, x: int, y: int, i: int)
    requires |bars| == 256
  {
    && Padding / 2 <= px < Padding / 2 + BarWidth * 256
    && var b := (px - Padding / 2) / BarWidth;
       var j := (px - Padding / 2) % BarWidth;
       var r := top + Padding / 2 - py;
       && 0 <= r < bars[b]
       && (b < x || (b == x && (r < y || (r == y && j < i))))
  }

  /** The column the drawing loop writes for column i of bar x. */
  function BarColumn(x: int, i: int): int {
    x * BarWidth + i + Padding / 2
  }

  /** The row the drawing loop writes for row y of a bar, counted upwards from the base line. */
  function BarRow(top: int, y: int): int {
    top - y + Padding / 2
  }

  ghost predicate Canvas(out: Image, bars: seq<int>, top: int, x: int, y: int, i: int)
    requires |bars| == 256
  {
    && out.Valid() && out.width == HistWidth + Padding && out.height == top + Padding
    && forall px, py :: out.InBounds(px, py) ==>
         out.At(px, py) == if PaintedBefore(bars, top, px, py, x, y, i) then Black else White
  }

  lemma PaintStep(out: Image, bars: seq<int>, top: int, x: int, y: int, i: int)
    requires |bars| == 256 && 0 <= x < 256 && 0 <= y < bars[x] <= top && 0 <= i < BarWidth
    requires Canvas(out, bars, top, x, y, i)
    ensures Canvas(out.Set(x * BarWidth + i + Padding / 2, top - y + Padding / 2, Black), bars, top, x, y, i + 1)
  {
    var qx, qy := x * BarWidth + i + Padding / 2, top - y + Padding / 2;
    var out' := out.Set(qx, qy, Black);
    assert (qx - Padding / 2) / BarWidth == x && (qx - Padding / 2) % BarWidth == i;
    forall px, py | out'.InBounds(px, py)
      ensures out'.At(px, py) == if PaintedBefore(bars, top, px, py, x, y, i + 1) then Black else White
    {
      if px != qx || py != qy {
        var b := (px - Padding / 2) / BarWidth;
        var j := (px - Padding / 2) % BarWidth;
        assert px - Padding / 2 == BarWidth * b + j;
      }
    }
  }

  lemma NextBarRow(out: Image, bars: seq<int>, top: int, x: int, y: int)
    requires |bars| == 256
    requires Canvas(out, bars, top, x, y, BarWidth)
    ensures Canvas(out, bars, top, x, y + 1, 0)
  {
  }

  lemma NextBar(out: Image, bars: seq<int>, top: int, x: int)
    requires |bars| == 256 && 0 <= x < 256
    requires Canvas(out, bars, top, x, bars[x], 0)
    ensures Canvas(out, bars, top, x + 1, 0, 0)
  {
  }

  /**
   `histogram(in)`: a white canvas 4096 + 50 wide and ceil(max / 4) + 50 high
   on which bucket v is an 8-pixel-wide black bar of ceil(hist[v] / 4) rows.
   */
  method Histogram(img: Image) returns (out: Image)
    requires img.Valid()
    ensures var top := CeilDiv4(MaxOf(Buckets(img)));
      && out.Valid() && out.width == HistWidth + Padding && out.height == top + Padding
      && forall px, py :: out.InBounds(px, py) ==>
           out.At(px, py) == if InBar(Squished(Buckets(img)), top, px, py) then Black else White
  {
    var hd := RawHistogram(img);
    assert hd.max == MaxOf(hd.hist);
    var top := CeilDiv4(hd.max);
    var bars := Squished(hd.hist);
    out := Blank(HistWidth + Padding, top + Padding);
    for x := 0 to 256
      invariant Canvas(out, bars, top, x, 0, 0)
    {
      CeilDiv4Monotone(hd.hist[x], hd.max);
      for y := 0 to bars[x]
        invariant Canvas(out, bars, top, x, y, 0)
      {
        var xx := x * BarWidth;
        for i := 0 to BarWidth
          invariant Canvas(out, bars, top, x, y, i)
        {
          PaintStep(out, bars, top, x, y, i);
          out := out.Set(xx + i + Padding / 2, top - y + Padding / 2, Black);
        }
        NextBarRow(out, bars, top, x, y);
      }
      NextBar(out, bars, top, x);
    }
  }

  /**
   The bars are what the drawing loop writes: the pixel at
   (8x + i + 25, top - y + 25) is in a bar exactly for i < 8 and y < bars[x],
   and every bar pixel is of that form.
   */
  lemma BarPixels(bars: seq<int>, top: int)
    requires |bars| == 256
    ensures forall x, i, y :: 0 <= x < 256 && 0 <= i < BarWidth ==>
      (InBar(bars, top, BarColumn(x, i), BarRow(top, y)) <==> 0 <= y < bars[x])
    ensures forall px, py :: InBar(bars, top, px, py) ==>
      var x, i := (px - Padding / 2) / BarWidth, (px - Padding / 2) % BarWidth;
      var y := top + Padding / 2 - py;
      && 0 <= x < 256 && 0 <= i < BarWidth && 0 <= y < bars[x]
      && px == BarColumn(x, i) && py == BarRow(top, y)
  {
    forall x, i, y | 0 <= x < 256 && 0 <= i < BarWidth
      ensures InBar(bars, top, BarColumn(x, i), BarRow(top, y)) <==> 0 <= y < bars[x]
    {
      assert (BarWidth * x + i) / BarWidth == x;
    }
  }

  /** Every bar fits on the canvas: the writes of the drawing loop are all in bounds. */
  lemma BarsFit(img: Image)
    requires img.Valid()
    ensures var top := CeilDiv4(MaxOf(Buckets(img)));
      forall px, py :: InBar(Squished(Buckets(img)), top, px, py) ==>
        Blank(HistWidth + Padding, top + Padding).InBounds(px, py)
  {
    var top := CeilDiv4(MaxOf(Buckets(img)));
    var bars := Squished(Buckets(img));
    forall px, py | InBar(bars, top, px, py)
      ensures 0 <= px < HistWidth + Padding && 0 <= py < top + Padding
    {
      var b := (px - Padding / 2) / BarWidth;
      CeilDiv4Monotone(Buckets(img)[b], MaxOf(Buckets(img)));
    }
  }
}
