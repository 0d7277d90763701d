/**
 The binary mask of region detection and 4-connectivity on it.

 The mask is `int[width][height]`, indexed [x][y] as in `ImageProcess`: 0 for a
 white pixel, 1 for a pixel still to be labelled, and 2, 3, ... for the
 regions found so far.
 */
module Masks {
  import opened Images

  /** `java.awt.Point`, as used for the flood-fill stack. */
  datatype Point = Point(x: int, y: int)

  /** A rectangular `int[][]` with at least one column, so that `m[0].length` is the height. */
  predicate IsMask(m: seq<seq<int>>) {
    |m| >= 1 && forall x :: 0 <= x < |m| ==> |m[x]| == |m[0]|
  }

  predicate SameShape(a: seq<seq<int>>, b: seq<seq<int>>) {
    IsMask(a) && IsMask(b) && |a| == |b| && |a[0]| == |b[0]|
  }

  /** The bounds test of `floodfill`. */
  predicate InMask(m: seq<seq<int>>, p: Point)
    requires IsMask(m)
  {
    0 <= p.x < |m| && 0 <= p.y < |m[0]|
  }

  function Cell(m: seq<seq<int>>, p: Point): int
    requires IsMask(m) && InMask(m, p)
  {
    m[p.x][p.y]
  }

  /** `m[p.x][p.y] = v`: only that cell changes. */
  function Relabel(m: seq<seq<int>>, p: Point, v: int): (r: seq<seq<int>>)
    requires IsMask(m) && InMask(m, p)
    ensures SameShape(r, m)
    ensures Cell(r, p) == v
    ensures forall q :: InMask(m, q) && q != p ==> Cell(r, q) == Cell(m, q)
  {
    m[p.x := m[p.x][p.y := v]]
  }

  /** An in-bounds cell holding 1: foreground not yet given a region label. */
  predicate IsOne(m: seq<seq<int>>, p: Point)
    requires IsMask(m)
  {
    InMask(m, p) && Cell(m, p) == 1
  }

  /** The four neighbours in the order `floodfill` pushes them: West, North, East, South. */
  function Neighbours(p: Point): seq<Point> {
    [Point(p.x - 1, p.y), Point(p.x, p.y - 1), Point(p.x + 1, p.y), Point(p.x, p.y + 1)]
  }

  predicate Adjacent(p: Point, q: Point) {
    q in Neighbours(p)
  }

  lemma AdjacentSymmetric(p: Point, q: Point)
    ensures Adjacent(p, q) <==> Adjacent(q, p)
  {
  }

  /** A walk through 1-cells, each step to a 4-neighbour. */
  ghost predicate IsPath(m: seq<seq<int>>, path: seq<Point>)
    requires IsMask(m)
  {
    && |path| >= 1
    && (forall k :: 0 <= k < |path| ==> IsOne(m, path[k]))
    && (forall k :: 0 < k < |path| ==> Adjacent(path[k - 1], path[k]))
  }

  /** a and b are 4-connected through 1-cells of m. */
  ghost predicate Connected(m: seq<seq<int>>, a: Point, b: Point)
    requires IsMask(m)
  {
    exists path :: IsPath(m, path) && path[0] == a && path[|path| - 1] == b
  }

  // ---------------------------------------------------------------------
  // Connectivity is an equivalence relation on the 1-cells.

  lemma ConnectedEnds(m: seq<seq<int>>, a: Point, b: Point)
    requires IsMask(m) && Connected(m, a, b)
    ensures IsOne(m, a) && IsOne(m, b)
  {
    var path :| IsPath(m, path) && path[0] == a && path[|path| - 1] == b;
  }

  lemma ConnectedReflexive(m: seq<seq<int>>, a: Point)
    requires IsMask(m) && IsOne(m, a)
    ensures Connected(m, a, a)
  {
    assert IsPath(m, [a]);
  }

  lemma ConnectedSymmetric(m: seq<seq<int>>, a: Point, b: Point)
    requires IsMask(m) && Connected(m, a, b)
    ensures Connected(m, b, a)
  {
    var path :| IsPath(m, path) && path[0] == a && path[|path| - 1] == b;
    var n := |path|;
    var back := seq(n, k requires 0 <= k < n => path[n - 1 - k]);
    assert |back| == n && forall k :: 0 <= k < n ==> back[k] == path[n - 1 - k];
    forall k | 0 < k < n
      ensures Adjacent(back[k - 1], back[k])
    {
      assert Adjacent(path[n - 1 - k], path[n - k]);
      AdjacentSymmetric(path[n - 1 - k], path[n - k]);
    }
    assert IsPath(m, back);
  }

  lemma ConnectedTransitive(m: seq<seq<int>>, a: Point, b: Point, c: Point)
    requires IsMask(m) && Connected(m, a, b) && Connected(m, b, c)
    ensures Connected(m, a, c)
  {
    var p :| IsPath(m, p) && p[0] == a && p[|p| - 1] == b;
    var q :| IsPath(m, q) && q[0] == b && q[|q| - 1] == c;
    var pq := p + q[1..];
    assert forall k :: 0 <= k < |p| ==> pq[k] == p[k];
    assert forall k :: |p| <= k < |pq| ==> pq[k] == q[k - |p| + 1];
    forall k | 0 <= k < |pq|
      ensures IsOne(m, pq[k])
    {
      if k >= |p| {
        assert pq[k] == q[k - |p| + 1];
      }
    }
    forall k | 0 < k < |pq|
      ensures Adjacent(pq[k - 1], pq[k])
    {
      if k == |p| {
        assert pq[k - 1] == q[0] && pq[k] == q[1];
      } else if k > |p| {
        assert pq[k - 1] == q[k - |p|] && pq[k] == q[k - |p| + 1];
      }
    }
    assert IsPath(m, pq);
  }

  /** One more step to an adjacent 1-cell stays connected. */
  lemma ConnectedStep(m: seq<seq<int>>, a: Point, b: Point, c: Point)
    requires IsMask(m) && Connected(m, a, b) && Adjacent(b, c) && IsOne(m, c)
    ensures Connected(m, a, c)
  {
    var p :| IsPath(m, p) && p[0] == a && p[|p| - 1] == b;
    assert IsPath(m, p + [c]);
  }

  /** Every cell along a path is connected to its start. */
  lemma ConnectedAlong(m: seq<seq<int>>, path: seq<Point>, k: int)
    requires IsMask(m) && IsPath(m, path) && 0 <= k < |path|
    ensures Connected(m, path[0], path[k])
  {
    assert IsPath(m, path[..k + 1]);
  }

  /** Connectivity in m carries over to any mask of the same shape with at least m's 1-cells. */
  lemma ConnectedWithin(m: seq<seq<int>>, m': seq<seq<int>>, a: Point, b: Point)
    requires SameShape(m, m')
    requires forall p :: IsOne(m, p) ==> IsOne(m', p)
    requires Connected(m, a, b)
    ensures Connected(m', a, b)
  {
    var path :| IsPath(m, path) && path[0] == a && path[|path| - 1] == b;
    assert IsPath(m', path);
  }

  /** A set of cells that contains every 1-neighbour of its members. */
  ghost predicate Closed(m: seq<seq<int>>, s: set<Point>)
    requires IsMask(m)
  {
    forall c, k :: c in s && 0 <= k < 4 && IsOne(m, Neighbours(c)[k]) ==> Neighbours(c)[k] in s
  }

  /** A closed set holds everything connected to any of its members. */
  lemma ClosedContains(m: seq<seq<int>>, s: set<Point>, a: Point, b: Point)
    requires IsMask(m) && Closed(m, s) && a in s && Connected(m, a, b)
    ensures b in s
  {
    var path :| IsPath(m, path) && path[0] == a && path[|path| - 1] == b;
    var k := 0;
    while k < |path| - 1
      invariant 0 <= k < |path|
      invariant path[k] in s
    {
      assert Adjacent(path[k], path[k + 1]);
      var j :| 0 <= j < 4 && Neighbours(path[k])[j] == path[k + 1];
      k := k + 1;
    }
  }

  // ---------------------------------------------------------------------
  // The number of 1-cells: the measure that makes flood fill terminate.

  function OnesIn(col: seq<int>): nat {
    if |col| == 0 then 0 else (if col[0] == 1 then 1 else 0) + OnesIn(col[1..])
  }

  /** How many cells of m hold 1. */
  function Ones(m: seq<seq<int>>): nat {
    if |m| == 0 then 0 else OnesIn(m[0]) + Ones(m[1..])
  }

  lemma {:induction false} OnesInShrink(a: seq<int>, b: seq<int>)
    requires |a| == |b|
    requires forall i :: 0 <= i < |b| && b[i] == 1 ==> a[i] == 1
    ensures OnesIn(b) <= OnesIn(a)
    ensures forall i :: 0 <= i < |a| && a[i] == 1 && b[i] != 1 ==> OnesIn(b) < OnesIn(a)
  {
    if |a| > 0 {
      OnesInShrink(a[1..], b[1..]);
      assert forall i :: 0 < i < |a| ==> a[i] == a[1..][i - 1] && b[i] == b[1..][i - 1];
    }
  }

  /**
   A mask whose 1-cells are among those of another has no more of them, and
   strictly fewer when it lost one.
   */
  lemma {:induction false} OnesShrink(a: seq<seq<int>>, b: seq<seq<int>>)
    requires |a| == |b| && forall x :: 0 <= x < |a| ==> |a[x]| == |b[x]|
    requires forall x, y :: 0 <= x < |b| && 0 <= y < |b[x]| && b[x][y] == 1 ==> a[x][y] == 1
    ensures Ones(b) <= Ones(a)
    ensures forall x, y :: 0 <= x < |a| && 0 <= y < |a[x]| && a[x][y] == 1 && b[x][y] != 1 ==> Ones(b) < Ones(a)
  {
    if |a| > 0 {
      OnesInShrink(a[0], b[0]);
      OnesShrink(a[1..], b[1..]);
      forall x, y | 0 < x < |a| && 0 <= y < |a[x]| && a[x][y] == 1 && b[x][y] != 1
        ensures Ones(b[1..]) < Ones(a[1..])
      {
        assert a[1..][x - 1][y] == 1 && b[1..][x - 1][y] != 1;
      }
    }
  }

  /** Labelling one 1-cell removes exactly one 1-cell. */
  lemma OnesRelabel(m: seq<seq<int>>, p: Point, v: int)
    requires IsMask(m) && IsOne(m, p) && v != 1
    ensures Ones(Relabel(m, p, v)) < Ones(m)
  {
    OnesShrink(m, Relabel(m, p, v));
    assert m[p.x][p.y] == 1 && Relabel(m, p, v)[p.x][p.y] != 1;
  }
}
