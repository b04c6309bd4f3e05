/** The occupancy grid and the rasterised line-of-sight test.
    Coordinates are integers; the floating-point error term of the
    source is kept doubled, so every step of the line walk is exact. */
module Grid {

  /** A grid-aligned position; equality is component-wise. */
  datatype Pos = Pos(x: int, y: int)

  /** Cells below this intensity block a segment. */
  const ObstacleThreshold: int := 200
  /** The intensity of free space; anything lower blocks node placement. */
  const FreeValue: int := 255

  function Abs(v: int): nat
  {
    if v < 0 then -v else v
  }

  /** A segment after normalisation: `steep` says the axes were swapped,
      and (x1, y1) is the endpoint with the smaller primary coordinate. */
  datatype Line = Line(steep: bool, x1: int, y1: int, x2: int, y2: int)

  predicate Steep(a: Pos, b: Pos)
  {
    Abs(b.y - a.y) > Abs(b.x - a.x)
  }

  /** Choose the primary axis (the one of greater extent), then order the
      endpoints by their primary coordinate. */
  function Normalize(a: Pos, b: Pos): (l: Line)
    ensures l.x1 <= l.x2
    ensures l.steep == Steep(a, b)
    ensures !l.steep ==> {Pos(l.x1, l.y1), Pos(l.x2, l.y2)} == {a, b}
    ensures l.steep ==> {Pos(l.y1, l.x1), Pos(l.y2, l.x2)} == {a, b}
    ensures Abs(l.y2 - l.y1) <= l.x2 - l.x1
    ensures a != b ==> l.x1 < l.x2
  {
    var steep := Steep(a, b);
    var (x1, y1, x2, y2) := if steep then (a.y, a.x, b.y, b.x) else (a.x, a.y, b.x, b.y);
    if x1 > x2 then Line(steep, x2, y2, x1, y1) else Line(steep, x1, y1, x2, y2)
  }

  function YStep(l: Line): int
  {
    if l.y1 < l.y2 then 1 else -1
  }

  /** The (primary, secondary) cells visited from primary coordinate x up
      to, but excluding, maxX; `err` is twice the source's error term. */
  function Trace(x: int, maxX: int, y: int, err: int, dx: int, dy: int, ystep: int): seq<(int, int)>
    decreases maxX - x
  {
    if x >= maxX then []
    else
      var e := err - 2 * dy;
      if e < 0 then [(x, y)] + Trace(x + 1, maxX, y + ystep, e + 2 * dx, dx, dy, ystep)
      else [(x, y)] + Trace(x + 1, maxX, y, e, dx, dy, ystep)
  }

  /** The whole walk of a normalised segment, in (primary, secondary) form. */
  function LineTrace(l: Line): seq<(int, int)>
  {
    Trace(l.x1, l.x2, l.y1, l.x2 - l.x1, l.x2 - l.x1, Abs(l.y2 - l.y1), YStep(l))
  }

  /** A (primary, secondary) cell back in grid coordinates. */
  function ToPos(steep: bool, c: (int, int)): Pos
  {
    if steep then Pos(c.1, c.0) else Pos(c.0, c.1)
  }

  /** The grid cells the line walk from a to b inspects. */
  function Visited(a: Pos, b: Pos): seq<Pos>
  {
    var l := Normalize(a, b);
    var t := LineTrace(l);
    seq(|t|, i requires 0 <= i < |t| => ToPos(l.steep, t[i]))
  }

  predicate InGrid(w: int, h: int, c: Pos)
  {
    0 <= c.x < w && 0 <= c.y < h
  }

  /** A visited cell stops the segment when it lies inside the grid and its
      intensity is below the obstacle threshold. */
  predicate Blocks(grid: array2<int>, w: int, h: int, c: Pos)
    requires grid.Length0 == w && grid.Length1 == h
    reads grid
  {
    InGrid(w, h, c) && grid[c.x, c.y] < ObstacleThreshold
  }

  /** The line-of-sight test: no visited cell blocks. */
  predicate SegmentFree(grid: array2<int>, w: int, h: int, a: Pos, b: Pos)
    requires grid.Length0 == w && grid.Length1 == h
    reads grid
  {
    var v := Visited(a, b);
    forall i :: 0 <= i < |v| ==> !Blocks(grid, w, h, v[i])
  }

  /** The single-cell placement test: any intensity below free blocks.
      It is the stricter of the two tests: a cell fit for a new node never
      stops a segment. */
  predicate InObstacle(grid: array2<int>, c: Pos): (r: bool)
    requires 0 <= c.x < grid.Length0 && 0 <= c.y < grid.Length1
    reads grid
    ensures !r ==> !Blocks(grid, grid.Length0, grid.Length1, c)
  {
    grid[c.x, c.y] < FreeValue
  }

  /** Squared Euclidean distance between two positions. */
  function Dist2(a: Pos, b: Pos): int
  {
    (a.x - b.x) * (a.x - b.x) + (a.y - b.y) * (a.y - b.y)
  }

  /** The primary and secondary coordinates of a grid cell for a segment. */
  function Primary(steep: bool, c: Pos): int
  {
    if steep then c.y else c.x
  }

  function Secondary(steep: bool, c: Pos): int
  {
    if steep then c.x else c.y
  }

  /** The state after one step of the walk: the doubled error and the
      secondary coordinate. */
  function StepErr(err: int, dx: int, dy: int): int
  {
    if err - 2 * dy < 0 then err - 2 * dy + 2 * dx else err - 2 * dy
  }

  function StepY(err: int, dy: int, y: int, ystep: int): int
  {
    if err - 2 * dy < 0 then y + ystep else y
  }

  lemma TraceUnfold(x: int, maxX: int, y: int, err: int, dx: int, dy: int, ystep: int)
    requires x < maxX
    ensures Trace(x, maxX, y, err, dx, dy, ystep)
         == [(x, y)] + Trace(x + 1, maxX, StepY(err, dy, y, ystep), StepErr(err, dx, dy), dx, dy, ystep)
  {
  }

  /** One step of the walk: the cell at x, then the walk from x + 1. */
  lemma TraceStep(t: seq<(int, int)>, x1: int, x: int, maxX: int, y: int, err: int, dx: int, dy: int, ystep: int)
    requires x1 <= x < maxX && |t| == maxX - x1 && t[x - x1..] == Trace(x, maxX, y, err, dx, dy, ystep)
    ensures x - x1 < |t| && t[x - x1] == (x, y)
    ensures t[x + 1 - x1..] == Trace(x + 1, maxX, StepY(err, dy, y, ystep), StepErr(err, dx, dy), dx, dy, ystep)
  {
    TraceUnfold(x, maxX, y, err, dx, dy, ystep);
    assert t[x + 1 - x1..] == t[x - x1..][1..];
  }

  /** The walk has one cell per primary coordinate and starts at (x, y). */
  lemma {:induction false} TraceLength(x: int, maxX: int, y: int, err: int, dx: int, dy: int, ystep: int)
    ensures var t := Trace(x, maxX, y, err, dx, dy, ystep);
      && |t| == (if x <= maxX then maxX - x else 0)
      && (|t| > 0 ==> t[0] == (x, y))
      && (forall k :: 0 <= k < |t| ==> t[k].0 == x + k)
    decreases maxX - x
  {
    if x < maxX {
      TraceUnfold(x, maxX, y, err, dx, dy, ystep);
      TraceLength(x + 1, maxX, StepY(err, dy, y, ystep), StepErr(err, dx, dy), dx, dy, ystep);
    }
  }

  /** The secondary coordinate moves by 0 or one `ystep` per step. */
  lemma {:induction false} TraceSteps(x: int, maxX: int, y: int, err: int, dx: int, dy: int, ystep: int)
    ensures var t := Trace(x, maxX, y, err, dx, dy, ystep);
      forall k :: 0 <= k < |t| - 1 ==> t[k + 1].1 - t[k].1 == 0 || t[k + 1].1 - t[k].1 == ystep
    decreases maxX - x
  {
    if x < maxX {
      TraceUnfold(x, maxX, y, err, dx, dy, ystep);
      var y' := StepY(err, dy, y, ystep);
      var e' := StepErr(err, dx, dy);
      TraceSteps(x + 1, maxX, y', e', dx, dy, ystep);
      TraceLength(x + 1, maxX, y', e', dx, dy, ystep);
    }
  }

  /** The doubled error of every visited cell stays in [0, 2dx), and it
      equals dx - 2dy * i + 2dx * s after i steps of which s moved the
      secondary coordinate: each cell is within half a cell of the line. */
  lemma {:induction false} TraceError(x0: int, y0: int, x: int, maxX: int, y: int, err: int,
                                      dx: int, dy: int, ystep: int, s: nat)
    requires 0 <= dy <= dx && (ystep == 1 || ystep == -1)
    requires x0 <= x
    requires y == y0 + ystep * s
    requires err == dx - 2 * dy * (x - x0) + 2 * dx * s
    requires 0 <= err && (x < maxX ==> err < 2 * dx)
    ensures var t := Trace(x, maxX, y, err, dx, dy, ystep);
      forall k :: 0 <= k < |t| ==>
        var sk := (t[k].1 - y0) * ystep;
        s <= sk && -dx < 2 * dy * (t[k].0 - x0) - 2 * dx * sk <= dx
    decreases maxX - x
  {
    if x < maxX {
      var t := Trace(x, maxX, y, err, dx, dy, ystep);
      TraceUnfold(x, maxX, y, err, dx, dy, ystep);
      TraceLength(x, maxX, y, err, dx, dy, ystep);
      var y' := StepY(err, dy, y, ystep);
      var e' := StepErr(err, dx, dy);
      var s' := if err - 2 * dy < 0 then s + 1 else s;
      MulStep(dx, dy, x - x0, s, ystep);
      assert (y - y0) * ystep == s by { SignSquare(y - y0, ystep, s); }
      assert e' == dx - 2 * dy * (x + 1 - x0) + 2 * dx * s';
      assert y' == y0 + ystep * s';
      TraceError(x0, y0, x + 1, maxX, y', e', dx, dy, ystep, s');
      var t' := Trace(x + 1, maxX, y', e', dx, dy, ystep);
      assert t == [(x, y)] + t';
      forall k | 0 <= k < |t|
        ensures var sk := (t[k].1 - y0) * ystep;
          s <= sk && -dx < 2 * dy * (t[k].0 - x0) - 2 * dx * sk <= dx
      {
        if k > 0 {
          assert t[k] == t'[k - 1];
        }
      }
    }
  }

  lemma MulStep(dx: int, dy: int, i: int, s: int, ystep: int)
    ensures 2 * dy * (i + 1) == 2 * dy * i + 2 * dy
    ensures 2 * dx * (s + 1) == 2 * dx * s + 2 * dx
    ensures ystep * (s + 1) == ystep * s + ystep
  {
  }

  lemma SignSquare(d: int, ystep: int, s: int)
    requires ystep == 1 || ystep == -1
    requires d == ystep * s
    ensures d * ystep == s
  {
  }

  /** Within half a cell of the line means within the span of the endpoints. */
  lemma CloseImpliesSpan(dx: int, dy: int, k: int, sk: int)
    requires 0 <= dy && 0 <= k < dx
    requires -dx < 2 * dy * k - 2 * dx * sk
    ensures sk <= dy
  {
    assert 2 * dy * (dx - 1) - 2 * dy * k == 2 * dy * (dx - 1 - k);
    assert 2 * dy * (dx - 1) == 2 * dx * dy - 2 * dy;
    assert 2 * dx * (dy + 1) == 2 * dx * dy + 2 * dx;
    MulLtCancel(2 * dx, sk, dy + 1);
  }

  lemma MulLtCancel(c: int, a: int, b: int)
    requires c > 0 && c * a < c * b
    ensures a < b
  {
  }

  /** The cells visited from a to b: the primary coordinate runs from the
      lower endpoint up to, but excluding, the higher one; the first cell
      is the lower endpoint; the secondary coordinate moves by 0 or one
      `ystep` per step, never leaves the span of the endpoints, and stays
      within half a cell of the ideal line. */
  lemma VisitedCells(a: Pos, b: Pos)
    ensures |Visited(a, b)| == Normalize(a, b).x2 - Normalize(a, b).x1
    ensures var l := Normalize(a, b); var v := Visited(a, b);
      |v| > 0 ==> v[0] == ToPos(l.steep, (l.x1, l.y1))
    ensures var l := Normalize(a, b); var v := Visited(a, b);
      forall k :: 0 <= k < |v| ==> Primary(l.steep, v[k]) == l.x1 + k
    ensures var l := Normalize(a, b); var v := Visited(a, b);
      forall k :: 0 <= k < |v| - 1 ==>
        Secondary(l.steep, v[k + 1]) - Secondary(l.steep, v[k]) == 0 ||
        Secondary(l.steep, v[k + 1]) - Secondary(l.steep, v[k]) == YStep(l)
  {
    var l := Normalize(a, b);
    var dx := l.x2 - l.x1;
    TraceLength(l.x1, l.x2, l.y1, dx, dx, Abs(l.y2 - l.y1), YStep(l));
    TraceSteps(l.x1, l.x2, l.y1, dx, dx, Abs(l.y2 - l.y1), YStep(l));
    VisitedTrace(a, b);
  }

  /** Each visited cell is within half a cell of the ideal line and within
      the span of the endpoints: after k steps the secondary coordinate has
      moved sk times, 0 <= sk <= dy, and the doubled error dx - 2dy k + 2dx sk
      lies in [0, 2dx). */
  lemma VisitedNearLine(a: Pos, b: Pos)
    ensures var l := Normalize(a, b); var v := Visited(a, b);
      forall k :: 0 <= k < |v| ==>
        var sk := (Secondary(l.steep, v[k]) - l.y1) * YStep(l);
        && 0 <= sk <= Abs(l.y2 - l.y1)
        && -(l.x2 - l.x1) < 2 * Abs(l.y2 - l.y1) * k - 2 * (l.x2 - l.x1) * sk <= l.x2 - l.x1
  {
    var l := Normalize(a, b);
    var v := Visited(a, b);
    var dx := l.x2 - l.x1;
    var dy := Abs(l.y2 - l.y1);
    var st := YStep(l);
    var t := LineTrace(l);
    TraceLength(l.x1, l.x2, l.y1, dx, dx, dy, st);
    TraceError(l.x1, l.y1, l.x1, l.x2, l.y1, dx, dx, dy, st, 0);
    VisitedTrace(a, b);
    forall k | 0 <= k < |v|
      ensures var sk := (Secondary(l.steep, v[k]) - l.y1) * st;
        0 <= sk <= dy && -dx < 2 * dy * k - 2 * dx * sk <= dx
    {
      var sk := (t[k].1 - l.y1) * st;
      assert t[k].0 - l.x1 == k;
      CloseImpliesSpan(dx, dy, k, sk);
    }
  }

  /** The visited cells are the walk's cells mapped back to the grid. */
  lemma VisitedTrace(a: Pos, b: Pos)
    ensures var l := Normalize(a, b); var v := Visited(a, b); var t := LineTrace(l);
      && |v| == |t|
      && forall k :: 0 <= k < |v| ==> Primary(l.steep, v[k]) == t[k].0 && Secondary(l.steep, v[k]) == t[k].1
  {
  }

  /** The walk does not depend on the order of the endpoints. */
  lemma VisitedSymmetric(a: Pos, b: Pos)
    ensures Visited(a, b) == Visited(b, a)
  {
    if a != b {
      assert Normalize(a, b) == Normalize(b, a);
    }
  }

  /** Hence the line-of-sight test is symmetric as well. */
  lemma SegmentFreeSymmetric(grid: array2<int>, w: int, h: int, a: Pos, b: Pos)
    requires grid.Length0 == w && grid.Length1 == h
    ensures SegmentFree(grid, w, h, a, b) == SegmentFree(grid, w, h, b, a)
  {
    VisitedSymmetric(a, b);
  }

  /** None of the first n cells of the walk t blocks. */
  ghost predicate TraceClear(grid: array2<int>, w: int, h: int, steep: bool, t: seq<(int, int)>, n: int)
    requires grid.Length0 == w && grid.Length1 == h
    reads grid
  {
    forall k :: 0 <= k < n && k < |t| ==> !Blocks(grid, w, h, ToPos(steep, t[k]))
  }

  /** The test read off the walk of a normalised segment. */
  lemma SegmentFreeByTrace(grid: array2<int>, w: int, h: int, a: Pos, b: Pos, l: Line,
                            dx: int, dy: int, ystep: int, t: seq<(int, int)>)
    requires grid.Length0 == w && grid.Length1 == h
    requires l == Normalize(a, b)
    requires dx == l.x2 - l.x1 && dy == Abs(l.y2 - l.y1) && ystep == YStep(l)
    requires t == Trace(l.x1, l.x2, l.y1, dx, dx, dy, ystep)
    ensures SegmentFree(grid, w, h, a, b) <==> TraceClear(grid, w, h, l.steep, t, |t|)
  {
    var v := Visited(a, b);
    assert t == LineTrace(l);
    assert forall k :: 0 <= k < |t| ==> v[k] == ToPos(l.steep, t[k]);
  }

  /** The length of a walk. */
  lemma TraceSize(x: int, maxX: int, y: int, err: int, dx: int, dy: int, ystep: int)
    requires x <= maxX
    ensures |Trace(x, maxX, y, err, dx, dy, ystep)| == maxX - x
  {
    TraceLength(x, maxX, y, err, dx, dy, ystep);
  }

  /** A segment of zero length is always free. */
  lemma SegmentFreeSelf(grid: array2<int>, w: int, h: int, a: Pos)
    requires grid.Length0 == w && grid.Length1 == h
    ensures Visited(a, a) == []
    ensures SegmentFree(grid, w, h, a, a)
  {
  }
}
