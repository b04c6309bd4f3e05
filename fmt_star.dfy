/** The planner object: grid, arena of tree nodes, spatial index and the
    operations that grow and query the tree. */
module Core {
  import opened Grid
  import opened Forest
  import opened Planner

  class FMTstar {
    const width: int
    const height: int
    const segmentLength: int
    /** The larger of the two grid dimensions. */
    const range: int
    /** Cell intensities, indexed [x, y]; 255 is free space. */
    const mapInfo: array2<int>

    var ballRadius: real
    var currentIteration: int
    var costDistribution: array2?<real>
    var costFunc: (Pos, Pos) -> real
    var start: Pos
    var goal: Pos
    /** The root node, or -1 before `Init`. */
    var root: int

    // The arena: node i has position pos[i], cost cost[i], parent parent[i]
    // (-1 for none) and child list children[i].
    var pos: seq<Pos>
    var cost: seq<real>
    var parent: seq<int>
    var children: seq<seq<nat>>

    /** The spatial index: (position, node) for every indexed node. */
    var index: set<(Pos, nat)>

    /** What holds from construction on: grid sizes, arena lengths, mutual
        parent and child links without cycles, and an index mirroring the
        arena. */
    ghost predicate Shape()
      reads this`costDistribution, this`pos, this`cost, this`parent, this`children, this`index
    {
      && 0 <= width && 0 <= height
      && mapInfo.Length0 == width && mapInfo.Length1 == height
      && (costDistribution != null ==> costDistribution.Length0 == width && costDistribution.Length1 == height)
      && |cost| == |pos| && |parent| == |pos|
      && Linked(parent, children) && Acyclic(parent)
      && index == IndexOf(pos)
    }

    /** A planned tree rooted at the start, every node except `loose` linked
        into it, with a cost function that never returns a negative cost. */
    ghost predicate ValidExcept(loose: int)
      reads this`costDistribution, this`pos, this`cost, this`parent, this`children, this`index, this`root, this`start, this`costFunc
    {
      && Shape()
      && Tree(pos, cost, parent, children, root, loose)
      && pos[root] == start
      && NonNegative(costFunc)
    }

    /** v is a new node: a valid tree apart from v, which has no parent
        and no children, is not the root, and is neither nearest nor one of
        the near nodes. */
    ghost predicate Detached(v: nat, nearest: nat, near: seq<nat>)
      reads this`costDistribution, this`pos, this`cost, this`parent, this`children, this`index, this`root, this`start, this`costFunc
    {
      && ValidExcept(v) && v < |pos| && parent[v] == -1 && children[v] == []
      && v != root && v != nearest && v !in near
    }

    /** The rewiring test of `_rewire_near_nodes` for the near node c of the
        new node v, on the planner's own state. */
    ghost predicate Improves(v: nat, c: nat)
      requires v < |pos| && c < |pos| && |cost| == |pos| && |parent| == |pos| && 0 <= parent[v] < |pos| && 0 <= root < |pos|
      requires mapInfo.Length0 == width && mapInfo.Length1 == height
      reads this`pos, this`cost, this`parent, this`root, this`costFunc, mapInfo
    {
      Gains(mapInfo, width, height, pos, cost, parent, root, costFunc, v, c)
    }

    /** What one round of `extend` is handed by the sampler, the spatial
        index and `_steer`: the nearest indexed point to the sample, a
        steered position inside the grid that is the sample itself when
        the sample lies within the segment length of the nearest point, and
        the indexed points within the round's ball radius of it. */
    ghost predicate Answers(a: Attempt)
      reads this`index
    {
      && IsNearest(index, a.sample, a.nearest)
      && InGrid(width, height, a.steered)
      && (0 <= segmentLength && Dist2(a.sample, a.nearest.0) <= segmentLength * segmentLength ==> a.steered == a.sample)
      && NearList(index, a.steered, a.radius, a.near)
    }

    /** The tests of one round of `extend`: the sample is not at the nearest
        point, and the steered position is new, not in an obstacle cell and
        in line of sight of the nearest point. */
    ghost predicate Accepts(a: Attempt)
      requires mapInfo.Length0 == width && mapInfo.Length1 == height
      reads this`pos, mapInfo
    {
      && a.sample != a.nearest.0
      && a.steered !in pos
      && InGrid(width, height, a.steered) && !InObstacle(mapInfo, a.steered)
      && SegmentFree(mapInfo, width, height, a.nearest.0, a.steered)
    }

    ghost predicate Valid()
      reads this`costDistribution, this`pos, this`cost, this`parent, this`children, this`index, this`root, this`start, this`costFunc
    {
      ValidExcept(-1)
    }

    /** Every tree edge is in line of sight on the current grid: each edge
        is made only after the segment from the parent to the child passed
        `_is_obstacle_free`. */
    ghost predicate Sighted()
      reads this`pos, this`parent, mapInfo
    {
      && mapInfo.Length0 == width && mapInfo.Length1 == height
      && EdgesVisible(mapInfo, width, height, pos, parent)
    }

    /** A planner over a width x height grid of free cells, with no tree yet. */
    constructor (w: int, h: int, segment: int)
      requires w >= 0 && h >= 0
      ensures width == w && height == h && segmentLength == segment
      ensures range == (if w > h then w else h) && ballRadius == range as real
      ensures currentIteration == 0 && costDistribution == null && root == -1
      ensures fresh(mapInfo) && mapInfo.Length0 == w && mapInfo.Length1 == h
      ensures forall i, j :: 0 <= i < w && 0 <= j < h ==> mapInfo[i, j] == FreeValue
      ensures pos == [] && index == {}
      ensures Shape()
    {
      width := w;
      height := h;
      segmentLength := segment;
      range := if w > h then w else h;
      ballRadius := (if w > h then w else h) as real;
      currentIteration := 0;
      costDistribution := null;
      costFunc := (a: Pos, b: Pos) => 0.0;
      start := Pos(0, 0);
      goal := Pos(0, 0);
      root := -1;
      mapInfo := new int[w, h];
      pos := [];
      cost := [];
      parent := [];
      children := [];
      index := {};
      new;
      var i := 0;
      while i < w
        modifies mapInfo
        invariant 0 <= i <= w
        invariant forall i', j :: 0 <= i' < i && 0 <= j < h ==> mapInfo[i', j] == FreeValue
      {
        var j := 0;
        while j < h
          modifies mapInfo
          invariant 0 <= j <= h
          invariant forall i', j' :: 0 <= i' < i && 0 <= j' < h ==> mapInfo[i', j'] == FreeValue
          invariant forall j' :: 0 <= j' < j ==> mapInfo[i, j'] == FreeValue
        {
          mapInfo[i, j] := FreeValue;
          j := j + 1;
        }
        i := i + 1;
      }
    }

    /** Copy a grid into the planner's grid cell by cell. */
    method LoadMap(src: array2<int>)
      requires src.Length0 == width && src.Length1 == height
      requires mapInfo.Length0 == width && mapInfo.Length1 == height
      modifies mapInfo
      ensures forall i, j :: 0 <= i < width && 0 <= j < height ==> mapInfo[i, j] == old(src[i, j])
    {
      var i := 0;
      while i < width
        invariant 0 <= i <= width
        invariant forall i', j :: 0 <= i' < i && 0 <= j < height ==> mapInfo[i', j] == old(src[i', j])
        invariant forall i', j :: i <= i' < width && 0 <= j < height ==> src[i', j] == old(src[i', j])
      {
        var j := 0;
        while j < height
          invariant 0 <= j <= height
          invariant forall i', j' :: 0 <= i' < i && 0 <= j' < height ==> mapInfo[i', j'] == old(src[i', j'])
          invariant forall j' :: 0 <= j' < j ==> mapInfo[i, j'] == old(src[i, j'])
          invariant forall i', j' :: i <= i' < width && 0 <= j' < height && (i' > i || j' >= j) ==> src[i', j'] == old(src[i', j'])
        {
          mapInfo[i, j] := src[i, j];
          j := j + 1;
        }
        i := i + 1;
      }
    }

    /** The rasterised line-of-sight test between two positions. */
    method IsObstacleFree(a: Pos, b: Pos) returns (free: bool)
      requires mapInfo.Length0 == width && mapInfo.Length1 == height
      ensures free == SegmentFree(mapInfo, width, height, a, b)
    {
      if a == b || (a.x - b.x == 0 && a.y - b.y == 0) {
        SegmentFreeSelf(mapInfo, width, height, a);
        free := true;
      } else {
        var x1, y1, x2, y2 := a.x, a.y, b.x, b.y;
        var steep := Abs(y2 - y1) > Abs(x2 - x1);
        if steep {
          x1, y1 := y1, x1;
          x2, y2 := y2, x2;
        }
        if x1 > x2 {
          x1, x2 := x2, x1;
          y1, y2 := y2, y1;
        }
        var dx := x2 - x1;
        var dy := Abs(y2 - y1);
        var ystep := if y1 < y2 then 1 else -1;
        ghost var l := Line(steep, x1, y1, x2, y2);
        assert l == Normalize(a, b);
        TraceSize(x1, x2, y1, dx, dx, dy, ystep);
        SegmentFreeByTrace(mapInfo, width, height, a, b, l, dx, dy, ystep, Trace(x1, x2, y1, dx, dx, dy, ystep));
        free := WalkLine(steep, x1, x2, y1, dx, dy, ystep);
      }
    }

    /** The walk loop of `_is_obstacle_free`: steps x from x1 to maxX,
        moving y by ystep whenever the doubled error term goes negative, and
        stops at the first cell that blocks. */
    method WalkLine(steep: bool, x1: int, maxX: int, y1: int, dx: int, dy: int, ystep: int) returns (free: bool)
      requires mapInfo.Length0 == width && mapInfo.Length1 == height
      requires x1 <= maxX
      ensures free == TraceClear(mapInfo, width, height, steep, Trace(x1, maxX, y1, dx, dx, dy, ystep), maxX - x1)
    {
      ghost var t := Trace(x1, maxX, y1, dx, dx, dy, ystep);
      TraceSize(x1, maxX, y1, dx, dx, dy, ystep);
      var x, y, err := x1, y1, dx;  // err is twice the source's dx / 2
      while x < maxX
        invariant x1 <= x <= maxX && |t| == maxX - x1
        invariant t[x - x1..] == Trace(x, maxX, y, err, dx, dy, ystep)
        invariant TraceClear(mapInfo, width, height, steep, t, x - x1)
      {
        TraceStep(t, x1, x, maxX, y, err, dx, dy, ystep);
        if steep {
          if 0 <= y < width && 0 <= x < height {
            if mapInfo[y, x] < ObstacleThreshold {
              assert Blocks(mapInfo, width, height, ToPos(steep, t[x - x1]));
              return false;
            }
          }
        } else {
          if 0 <= x < width && 0 <= y < height {
            if mapInfo[x, y] < ObstacleThreshold {
              assert Blocks(mapInfo, width, height, ToPos(steep, t[x - x1]));
              return false;
            }
          }
        }
        assert !Blocks(mapInfo, width, height, ToPos(steep, t[x - x1]));
        ghost var y', err' := StepY(err, dy, y, ystep), StepErr(err, dx, dy);
        err := err - 2 * dy;
        if err < 0 {
          y := y + ystep;
          err := err + 2 * dx;
        }
        assert y == y' && err == err';
        x := x + 1;
      }
      return true;
    }

    /** Whether a node sits at p: a lookup in the spatial index. */
    function Contains(p: Pos): (r: bool)
      requires index == IndexOf(pos)
      reads this`index, this`pos
      ensures r <==> p in pos
    {
      IndexOfContains(pos, p);
      exists e :: e in index && e.0 == p
    }

    /** Whether c is in p's child list; false for a null node. */
    method HasEdge(p: int, c: int) returns (r: bool)
      requires -1 <= p < |children|
      ensures r == (p != -1 && c != -1 && c in children[p])
    {
      if p == -1 || c == -1 {
        return false;
      }
      var i := 0;
      while i < |children[p]|
        invariant 0 <= i <= |children[p]|
        invariant c !in children[p][..i]
      {
        if children[p][i] == c {
          return true;
        }
        i := i + 1;
      }
      assert children[p][..i] == children[p];
      return false;
    }

    /** Make p the parent of c. Refused for a null node, a node and itself,
        or two nodes at the same position; otherwise c is appended to p's
        list unless already there, c's own list loses adjacent repeats, and
        the list of c's former parent is left as it was. */
    method AddEdge(p: int, c: int) returns (added: bool)
      requires |parent| == |pos| && |children| == |pos|
      requires -1 <= p < |pos| && -1 <= c < |pos|
      modifies this`parent, this`children
      ensures added == (p != -1 && c != -1 && p != c && pos[p] != pos[c])
      ensures !added ==> parent == old(parent) && children == old(children)
      ensures added ==> parent == old(parent)[c := p]
      ensures added ==> children == Adopt(old(children), p, c)
      ensures added && old(Linked(parent, children)) && old(parent)[c] == -1 ==>
        Linked(parent, children) && children == old(children)[p := old(children[p]) + [c]]
    {
      if p == -1 || c == -1 || p == c {
        return false;
      }
      if pos[p] == pos[c] {
        return false;
      }
      var has := HasEdge(p, c);
      if has {
        parent := parent[c := p];
      } else {
        children := children[p := children[p] + [c]];
        parent := parent[c := p];
      }
      children := children[c := Unique(children[c])];
      if old(Linked(parent, children)) && old(parent)[c] == -1 {
        AdoptParentless(old(parent), old(children), c, p);
      }
      return true;
    }

    /** Clear c's parent and erase from p's list every entry that is c or
        sits at c's position, clearing the parent of each erased entry; the
        walk steps over the entry after each erase. False for a null p. */
    method RemoveEdge(p: int, c: nat) returns (removed: bool)
      requires WellFormed(parent, children) && |pos| == |parent|
      requires -1 <= p < |pos| && c < |pos|
      modifies this`parent, this`children
      ensures p == -1 ==> !removed && parent == old(parent) && children == old(children)
      ensures p != -1 ==> removed == (Erased(pos, c, old(children[p])) != [])
      ensures p != -1 ==> children == old(children)[p := Kept(pos, c, old(children[p]))]
      ensures p != -1 ==> parent == Unlink(old(parent)[c := -1], Erased(pos, c, old(children[p])))
    {
      if p == -1 {
        removed := false;
      } else {
        var kept, links;
        kept, links, removed := EraseMatches(pos, c, children[p], parent[c := -1]);
        parent := links;
        children := children[p := kept];
      }
    }

    /** A new node at p with cost 0 and no parent or children, appended
        to the arena; the spatial index is left to the caller. */
    method CreateNewNode(p: Pos) returns (n: nat)
      modifies this`pos, this`cost, this`parent, this`children
      ensures n == |old(pos)|
      ensures pos == old(pos) + [p] && cost == old(cost) + [0.0]
      ensures parent == old(parent) + [-1] && children == old(children) + [[]]
      ensures old(Linked(parent, children) && Acyclic(parent)) ==> Linked(parent, children) && Acyclic(parent)
      ensures old(Tree(pos, cost, parent, children, root, -1)) && p !in old(pos) ==> Tree(pos, cost, parent, children, root, n)
    {
      if Linked(parent, children) && Acyclic(parent) {
        GrowKeepsShape(parent, children);
      }
      if Tree(pos, cost, parent, children, root, -1) && p !in pos {
        GrowKeepsTree(pos, cost, parent, children, root, p);
      }
      n := |pos|;
      pos := pos + [p];
      cost := cost + [0.0];
      parent := parent + [-1];
      children := children + [[]];
    }

    /** The cost-distribution part of `init`: copy the caller's grid into
        the planner's own, allocated on first use, or drop it. */
    method LoadDistribution(dist: array2?<real>)
      requires costDistribution != null ==> costDistribution.Length0 == width && costDistribution.Length1 == height
      requires dist != null ==> dist.Length0 == width && dist.Length1 == height
      modifies this`costDistribution, costDistribution
      ensures dist == null ==> costDistribution == null
      ensures dist != null ==> costDistribution != null && costDistribution.Length0 == width && costDistribution.Length1 == height
      ensures dist != null && old(costDistribution) == null ==> fresh(costDistribution)
      ensures dist != null && old(costDistribution) != null ==> costDistribution == old(costDistribution)
      ensures dist != null ==> forall i, j :: 0 <= i < width && 0 <= j < height ==> costDistribution[i, j] == old(dist[i, j])
    {
      if dist != null {
        if costDistribution == null {
          costDistribution := new real[width, height];
        }
        CopyCells(costDistribution, dist);
      } else {
        costDistribution := null;
      }
    }

    /** The tree part of `init`: a new node at s, entered in the index,
        becomes the root. On an empty arena that is a one-node tree. */
    method PlantRoot(s: Pos) returns (r: nat)
      requires |cost| == |pos| && |parent| == |pos| && Linked(parent, children) && Acyclic(parent)
      requires index == IndexOf(pos) && mapInfo.Length0 == width && mapInfo.Length1 == height
      modifies this`pos, this`cost, this`parent, this`children, this`index, this`root
      ensures r == |old(pos)| && root == r
      ensures pos == old(pos) + [s] && cost == old(cost) + [0.0]
      ensures parent == old(parent) + [-1] && children == old(children) + [[]]
      ensures index == old(index) + {(s, r)} && index == IndexOf(pos)
      ensures Linked(parent, children) && Acyclic(parent)
      ensures old(pos) == [] ==> Tree(pos, cost, parent, children, root, -1) && Sighted() && EdgeCostsExact(parent, cost, pos, costFunc)
    {
      IndexOfGrow(pos, s);
      r := CreateNewNode(s);
      index := index + {(s, r)};
      root := r;
      if r == 0 {
        assert Monotone(parent, cost);
      }
    }

    /** Record start, goal and cost function, copy the caller's cost
        distribution (allocating the planner's own on first use) or drop
        it, and plant the root: a new node at the start, entered in the
        index. Nodes from an earlier run stay in the arena. */
    method Init(s: Pos, g: Pos, f: (Pos, Pos) -> real, dist: array2?<real>) returns (r: nat)
      requires Shape()
      requires dist != null ==> dist.Length0 == width && dist.Length1 == height
      modifies this`start, this`goal, this`costFunc, this`costDistribution, costDistribution
      modifies this`pos, this`cost, this`parent, this`children, this`index, this`root, this`currentIteration
      ensures start == s && goal == g && costFunc == f && currentIteration == 0
      ensures r == |old(pos)| && root == r
      ensures pos == old(pos) + [s] && cost == old(cost) + [0.0]
      ensures parent == old(parent) + [-1] && children == old(children) + [[]]
      ensures index == old(index) + {(s, r)}
      ensures dist == null ==> costDistribution == null
      ensures dist != null ==> costDistribution != null
      ensures dist != null && old(costDistribution) == null ==> fresh(costDistribution)
      ensures dist != null && old(costDistribution) != null ==> costDistribution == old(costDistribution)
      ensures Shape()
      ensures dist != null ==> forall i, j :: 0 <= i < width && 0 <= j < height ==> costDistribution[i, j] == old(dist[i, j])
      ensures old(pos) == [] && NonNegative(f) ==> Valid() && EdgeCostsExact(parent, cost, pos, f) && Sighted()
    {
      start := s;
      goal := g;
      costFunc := f;
      LoadDistribution(dist);
      r := PlantRoot(s);
      currentIteration := 0;
    }

    /** The nodes below n, level by level, for at most MaxLevels levels:
        each pass collects the children of the current level, in list
        order, and drops adjacent repeats. */
    method FindAllChildren(n: nat) returns (list: seq<nat>)
      requires Linked(parent, children) && Acyclic(parent) && n < |parent|
      ensures list == Below(children, n, MaxLevels)
      ensures InArena(|parent|, list) && NoDup(list) && n !in list
      ensures forall x :: 0 <= x < |parent| ==> (x in list <==> Descends(parent, x, n, MaxLevels))
    {
      var ch := children;
      var level := 0;
      var finished := false;
      list := [];
      var current: seq<nat> := [n];
      while !finished
        invariant 0 <= level <= MaxLevels - 1
        invariant !finished ==> current == Level(ch, n, level) && list == Below(ch, n, level)
        invariant finished ==> list == Below(ch, n, MaxLevels)
        decreases (if finished then 0 else 1), MaxLevels - level
      {
        var num := |list|;
        var levelChildren;
        levelChildren, list := CollectLevel(ch, current, list);
        NextLevel(parent, ch, n, level);
        list := Unique(list);
        levelChildren := Unique(levelChildren);
        if |levelChildren| == 0 {
          finished := true;
        } else if |list| == num {
          // the subtree is acyclic: a non-empty level always adds nodes
          assert false;
        } else {
          current := levelChildren;
          level := level + 1;
        }
        if level > 100 {
          assert level == MaxLevels;
          break;
        }
      }
      BelowNoDup(parent, ch, n, MaxLevels);
      UniqueNoAdjacent(list);
      list := Unique(list);
      BelowMembersAll(parent, ch, n, MaxLevels);
      BelowInArena(parent, ch, n, MaxLevels);
    }

    /** Lower the cost of every node below c, as `_find_all_children`
        lists them, by delta. */
    method UpdateCostToChildren(c: nat, delta: real)
      requires Linked(parent, children) && Acyclic(parent) && c < |parent| && |cost| == |parent|
      modifies this`cost
      ensures cost == Lower(old(cost), Below(children, c, MaxLevels), delta)
    {
      var list := FindAllChildren(c);
      ghost var cost0 := cost;
      var i := 0;
      while i < |list|
        invariant 0 <= i <= |list|
        invariant cost == Lower(cost0, list[..i], delta)
      {
        var x := list[i];
        LowerNext(cost0, list, i, delta);
        cost := cost[x := cost[x] - delta];
        i := i + 1;
      }
      assert list[..i] == list;
    }

    /** The selection loop of `_attach_new_node`: the near node whose route
        to v is cheapest among those in line of sight of v, starting from
        the route through nearest as the bound and keeping nearest when no
        near route is strictly cheaper, with the cost of that route. */
    method ChooseParent(v: nat, nearest: nat, near: seq<nat>) returns (best: nat, bestCost: real)
      requires |cost| == |pos|
      requires mapInfo.Length0 == width && mapInfo.Length1 == height
      requires v < |pos| && nearest < |pos| && InArena(|pos|, near)
      ensures Picks(Totals(cost, pos, costFunc, near, pos[v]), Visible(mapInfo, width, height, pos, near, pos[v]),
                    cost[nearest] + costFunc(pos[nearest], pos[v]), near, nearest, best, bestCost)
      ensures best == nearest || best in near
      ensures bestCost == cost[best] + costFunc(pos[best], pos[v])
    {
      ghost var totals := Totals(cost, pos, costFunc, near, pos[v]);
      ghost var visible := Visible(mapInfo, width, height, pos, near, pos[v]);
      ghost var bound := cost[nearest] + costFunc(pos[nearest], pos[v]);
      bestCost := cost[nearest] + costFunc(pos[nearest], pos[v]);
      best := nearest;
      ghost var j := -1;
      var i := 0;
      while i < |near|
        invariant 0 <= i <= |near|
        invariant ScanPicks(totals, visible, bound, i, j)
        invariant best == (if j == -1 then nearest else near[j])
        invariant bestCost == (if j == -1 then bound else totals[j])
      {
        ScanPicksStep(totals, visible, bound, i, j);
        var free := IsObstacleFree(pos[near[i]], pos[v]);
        if free {
          var delta := costFunc(pos[near[i]], pos[v]);
          var newCost := cost[near[i]] + delta;
          if newCost < bestCost {
            best := near[i];
            bestCost := newCost;
            j := i;
          }
        }
        i := i + 1;
      }
      PicksRoute(cost, pos, costFunc, near, pos[v], visible, nearest, best, bestCost);
    }

    /** Hang the new node v under the near node whose route to v is
        cheapest among those in line of sight of v, starting from the route
        through nearest as the bound and keeping nearest when no near route
        is strictly cheaper. Returns the pick and its route cost; the edge
        and the cost of v are set only when `_add_edge` accepts. */
    method AttachNewNode(v: nat, nearest: nat, near: seq<nat>) returns (best: nat, bestCost: real)
      requires |cost| == |pos| && |parent| == |pos| && |children| == |pos|
      requires mapInfo.Length0 == width && mapInfo.Length1 == height
      requires v < |pos| && nearest < |pos| && InArena(|pos|, near)
      modifies this`parent, this`children, this`cost
      ensures Picks(Totals(old(cost), pos, costFunc, near, pos[v]), Visible(mapInfo, width, height, pos, near, pos[v]),
                    old(cost)[nearest] + costFunc(pos[nearest], pos[v]), near, nearest, best, bestCost)
      ensures best != v && pos[best] != pos[v] ==>
        parent == old(parent)[v := best] && children == Adopt(old(children), best, v) && cost == old(cost)[v := bestCost]
      ensures !(best != v && pos[best] != pos[v]) ==>
        parent == old(parent) && children == old(children) && cost == old(cost)
    {
      best, bestCost := ChooseParent(v, nearest, near);
      var added := AddEdge(best, v);
      if added {
        cost := cost[v := bestCost];
      }
    }

    /** `_remove_edge` on a linked tree with distinct positions: exactly
        the one entry c leaves its parent's list, and only c loses its
        parent. */
    method Detach(q: nat, c: nat) returns (removed: bool)
      requires |parent| == |pos| && |children| == |pos|
      requires Linked(parent, children) && NoDup(pos)
      requires c < |pos| && parent[c] == q
      modifies this`parent, this`children
      ensures removed && q < |pos|
      ensures parent == old(parent)[c := -1]
      ensures children == old(children)[q := Without(old(children)[q], c)]
      ensures Linked(parent, children)
    {
      DetachSingle(pos, parent, children, c);
      removed := RemoveEdge(q, c);
    }

    /** The edge moves of a rewire: c leaves its parent's list for v's,
        takes the new cost, and the nodes below it are lowered by delta. */
    method Relink(v: nat, c: nat, newCost: real, delta: real)
      requires |parent| == |pos| && |children| == |pos| && |cost| == |pos|
      requires Linked(parent, children) && NoDup(pos)
      requires v < |pos| && c < |pos| && v != c && parent[c] != -1
      requires Acyclic(parent[c := v])
      modifies this`parent, this`children, this`cost
      ensures 0 <= old(parent)[c] < |pos|
      ensures parent == old(parent)[c := v]
      ensures children == Moved(old(children), c, old(parent)[c], v)
      ensures Linked(parent, children)
      ensures cost == Lower(old(cost)[c := newCost], Below(children, c, MaxLevels), delta)
    {
      var q := parent[c];
      ghost var parent0 := parent;
      var removed := Detach(q, c);
      if removed {
        AdoptParentless(parent, children, c, v);
        var added := AddEdge(v, c);
        assert parent == parent0[c := -1][c := v];
        assert parent0[c := -1][c := v] == parent0[c := v];
        if added {
          cost := cost[c := newCost];
          UpdateCostToChildren(c, delta);
        }
      }
    }

    /** A rewire that the test has let through keeps the planner valid:
        c now hangs under v, costs below c drop by the gain, and v is not
        among the nodes below c. */
    method Rewire(v: nat, c: nat, newCost: real, delta: real)
      requires Valid() && v < |pos| && c < |pos| && c != root && c != v
      requires newCost == cost[v] + costFunc(pos[v], pos[c]) && newCost < cost[c] && delta == cost[c] - newCost
      requires Sighted() && SegmentFree(mapInfo, width, height, pos[v], pos[c])
      modifies this`parent, this`children, this`cost
      ensures Valid() && Sighted()
      ensures 0 <= old(parent)[c] < |pos| && parent == old(parent)[c := v]
      ensures children == Moved(old(children), c, old(parent)[c], v)
      ensures v !in Below(children, c, MaxLevels)
      ensures cost == Lower(old(cost)[c := newCost], Below(children, c, MaxLevels), delta)
      ensures cost[c] == newCost && cost[v] == old(cost)[v]
      ensures forall x :: 0 <= x < |cost| ==> cost[x] <= old(cost)[x]
    {
      RewireKeepsTree(pos, cost, parent, children, root, costFunc, v, c);
      RelinkKeepsVisible(mapInfo, width, height, pos, parent, c, v);
      Relink(v, c, newCost, delta);
      assert Tree(pos, cost, parent, children, root, -1);
      NotBelowSelf(parent, children, c, MaxLevels);
    }

    /** One step of `_rewire_near_nodes` for the near node c of the new node
        v: when the test passes, c is taken out of its parent's list and
        appended to v's, its cost becomes the route through v, and the
        nodes below it are lowered by the same gain. Returns whether c was
        rewired. */
    method RewireNearNode(v: nat, c: nat) returns (rewired: bool)
      requires Valid() && Sighted() && v < |pos| && c < |pos| && parent[v] != -1
      modifies this`parent, this`children, this`cost
      ensures Valid() && Sighted()
      ensures rewired == old(Improves(v, c))
      ensures !rewired ==> parent == old(parent) && children == old(children) && cost == old(cost)
      ensures rewired ==>
        0 <= old(parent)[c] < |pos| && parent == old(parent)[c := v] && children == Moved(old(children), c, old(parent)[c], v)
      ensures rewired ==>
        var nc := old(cost)[v] + costFunc(pos[v], pos[c]);
        cost == Lower(old(cost)[c := nc], Below(children, c, MaxLevels), old(cost)[c] - nc)
      ensures parent[v] == old(parent)[v] && cost[v] == old(cost)[v]
      ensures forall x :: 0 <= x < |cost| ==> cost[x] <= old(cost)[x]
      ensures !Improves(v, c)
    {
      var tempCost, minDelta;
      rewired, tempCost, minDelta := RewireTest(v, c);
      if rewired {
        Rewire(v, c, tempCost, minDelta);
      }
    }

    /** The tests of `_rewire_near_nodes` for the near node c of the new
        node v, in the order the code makes them, with the cost through v and
        the gain over c's cost when all of them pass. */
    method RewireTest(v: nat, c: nat) returns (pass: bool, tempCost: real, minDelta: real)
      requires Valid() && v < |pos| && c < |pos| && parent[v] != -1
      ensures pass == Improves(v, c)
      ensures pass ==> c != root && c != v && tempCost == cost[v] + costFunc(pos[v], pos[c])
      ensures pass ==> 0.0 < minDelta && minDelta == cost[c] - tempCost
      ensures pass ==> SegmentFree(mapInfo, width, height, pos[v], pos[c])
    {
      pass, tempCost, minDelta := false, 0.0, 0.0;
      if pos[c] != pos[v] && pos[c] != pos[root] && pos[parent[v]] != pos[c] {
        var free := IsObstacleFree(pos[v], pos[c]);
        if free {
          var tempDelta := costFunc(pos[v], pos[c]);
          tempCost := cost[v] + tempDelta;
          if tempCost < cost[c] {
            minDelta := cost[c] - tempCost;
            pass := true;
          }
        }
      }
    }

    /** `_rewire_near_nodes`: offer every near node to the new node v in
        turn. Afterwards no near node can still be made cheaper through v,
        no cost has gone up, and v keeps its parent and cost. */
    method RewireNearNodes(v: nat, near: seq<nat>)
      requires Valid() && Sighted() && v < |pos| && parent[v] != -1 && InArena(|pos|, near)
      modifies this`parent, this`children, this`cost
      ensures Valid() && Sighted()
      ensures parent[v] == old(parent)[v] && cost[v] == old(cost)[v]
      ensures forall x :: 0 <= x < |cost| ==> cost[x] <= old(cost)[x]
      ensures forall i :: 0 <= i < |near| ==> !Improves(v, near[i])
    {
      var k := 0;
      while k < |near|
        invariant 0 <= k <= |near|
        invariant Valid() && Sighted()
        invariant parent[v] == old(parent)[v] && cost[v] == old(cost)[v]
        invariant forall x :: 0 <= x < |cost| ==> cost[x] <= old(cost)[x]
        invariant forall i :: 0 <= i < k ==> !Improves(v, near[i])
      {
        Offer(v, near, k);
        k := k + 1;
      }
    }

    /** One turn of the loop in `_rewire_near_nodes`: near[k] is offered to
        v, and the near nodes offered before it stay settled. */
    method Offer(v: nat, near: seq<nat>, k: nat)
      requires Valid() && Sighted() && v < |pos| && parent[v] != -1 && InArena(|pos|, near) && k < |near|
      requires forall i :: 0 <= i < k ==> !Improves(v, near[i])
      modifies this`parent, this`children, this`cost
      ensures Valid() && Sighted()
      ensures parent[v] == old(parent)[v] && cost[v] == old(cost)[v]
      ensures forall x :: 0 <= x < |cost| ==> cost[x] <= old(cost)[x]
      ensures forall i :: 0 <= i <= k ==> !Improves(v, near[i])
    {
      ghost var cost0, parent0 := cost, parent;
      var _ := RewireNearNode(v, near[k]);
      SettledStays(mapInfo, width, height, pos, cost0, cost, parent0, parent, root, costFunc, v, near, k);
    }

    /** `_get_closet_to_goal`, given the answer of the range query around
        the goal for the radius it computes: the first near node whose
        cost plus edge cost to the goal is least and below MaxDouble, with
        that edge cost. The caller's node and delta stay when none is. */
    method GetClosestToGoal(near: seq<(Pos, nat)>, radius: real, node0: int, delta0: real)
      returns (found: bool, node: int, delta: real)
      requires |cost| == |pos| && index == IndexOf(pos) && NearList(index, goal, radius, near)
      modifies this`ballRadius
      ensures ballRadius == radius
      ensures InArena(|pos|, Nodes(near))
      ensures ClosestPick(Totals(cost, pos, costFunc, Nodes(near), goal), Nodes(near), node0, found, node)
      ensures found ==> 0 <= node < |pos| && delta == costFunc(pos[node], goal)
      ensures !found ==> node == node0 && delta == delta0
    {
      NearInArena(pos, goal, radius, near);
      ghost var nodes := Nodes(near);
      ghost var totals := Totals(cost, pos, costFunc, nodes, goal);
      ghost var all := Everything(|near|);
      ghost var j := -1;
      found, node, delta := false, node0, delta0;
      var minTotal := MaxDouble;
      var i := 0;
      while i < |near|
        invariant 0 <= i <= |near|
        invariant ScanPicks(totals, all, MaxDouble, i, j)
        invariant minTotal == if j == -1 then MaxDouble else totals[j]
        invariant (found <==> j != -1) && node == (if j == -1 then node0 else nodes[j])
        invariant j == -1 ==> delta == delta0
        invariant j != -1 ==> delta == costFunc(pos[node], goal)
      {
        var p := near[i].1;
        var newDelta := costFunc(pos[p], goal);
        var newTotal := cost[p] + newDelta;
        ScanPicksStep(totals, all, MaxDouble, i, j);
        if newTotal < minTotal {
          minTotal := newTotal;
          node := p;
          delta := newDelta;
          found := true;
          j := i;
        }
        i := i + 1;
      }
      assert ScanPicks(totals, all, MaxDouble, |nodes|, j);
      ballRadius := radius;
    }

    /** `find_path`: the path from the root to the node the goal search
        picks, then the goal, at that node's cost plus its edge cost to the
        goal; without such a node, an empty path of cost 0. */
    method FindPath(near: seq<(Pos, nat)>, radius: real) returns (path: Path, ghost node: int)
      requires Shape() && NearList(index, goal, radius, near)
      modifies this`ballRadius
      ensures ballRadius == radius
      ensures path.start == start && path.goal == goal
      ensures InArena(|pos|, Nodes(near))
      ensures ClosestPick(Totals(cost, pos, costFunc, Nodes(near), goal), Nodes(near), -1, node != -1, node)
      ensures node == -1 ==> path.wayPoints == [] && path.cost == 0.0
      ensures node != -1 ==>
        && 0 <= node < |pos|
        && path.wayPoints == RootPath(pos, parent, node) + [goal]
        && path.cost == cost[node] + costFunc(pos[node], goal)
      ensures node != -1 && Sighted() ==>
        forall i :: 0 < i < |path.wayPoints| - 1 ==> SegmentFree(mapInfo, width, height, path.wayPoints[i - 1], path.wayPoints[i])
    {
      path := Path(0.0, start, goal, []);
      var found, first, delta := GetClosestToGoal(near, radius, -1, 0.0);
      node := first;
      if first != -1 {
        var wayPoints := RootPositions(pos, parent, first);
        path := path.(wayPoints := wayPoints + [goal], cost := cost[first] + delta);
        if Sighted() {
          RootPathVisible(mapInfo, width, height, pos, parent, first);
        }
      }
    }

    /** `_create_new_node` followed by the index insert of `extend`: a new
        parentless node at a fresh position p, entered in the index. */
    method InsertNode(p: Pos) returns (v: nat)
      requires Valid() && Sighted() && p !in pos
      modifies this`pos, this`cost, this`parent, this`children, this`index
      ensures v == |old(pos)|
      ensures pos == old(pos) + [p] && cost == old(cost) + [0.0]
      ensures parent == old(parent) + [-1] && children == old(children) + [[]]
      ensures index == old(index) + {(p, v)}
      ensures ValidExcept(v) && Sighted()
    {
      IndexOfGrow(pos, p);
      GrowKeepsVisible(mapInfo, width, height, pos, parent, p);
      v := CreateNewNode(p);
      index := index + {(p, v)};
    }

    /** The new node v joins the tree: attached to its cheapest visible
        neighbour, after which the near nodes are rewired through it. */
    method Connect(v: nat, nearest: nat, near: seq<nat>)
      requires Detached(v, nearest, near) && nearest < |pos| && InArena(|pos|, near)
      requires Sighted() && SegmentFree(mapInfo, width, height, pos[nearest], pos[v])
      modifies this`parent, this`children, this`cost
      ensures Valid() && Sighted()
      ensures Picks(Totals(old(cost), pos, costFunc, near, pos[v]), Visible(mapInfo, width, height, pos, near, pos[v]),
                    old(cost)[nearest] + costFunc(pos[nearest], pos[v]), near, nearest, parent[v], cost[v])
      ensures 0 <= parent[v] < |pos| && forall i :: 0 <= i < |near| ==> !Improves(v, near[i])
      ensures forall x :: 0 <= x < |cost| && x != v ==> cost[x] <= old(cost)[x]
    {
      Join(v, nearest, near);
      RewireNearNodes(v, near);
    }

    /** The attach step of Connect: v hangs under the node AttachNewNode
        picks, at the cost it picks, and the arena is a tree again. */
    method Join(v: nat, nearest: nat, near: seq<nat>)
      requires Detached(v, nearest, near) && nearest < |pos| && InArena(|pos|, near)
      requires Sighted() && SegmentFree(mapInfo, width, height, pos[nearest], pos[v])
      modifies this`parent, this`children, this`cost
      ensures Valid() && Sighted()
      ensures Picks(Totals(old(cost), pos, costFunc, near, pos[v]), Visible(mapInfo, width, height, pos, near, pos[v]),
                    old(cost)[nearest] + costFunc(pos[nearest], pos[v]), near, nearest, parent[v], cost[v])
      ensures 0 <= parent[v] < |pos| && cost == old(cost)[v := cost[v]]
    {
      ghost var parent0, children0, cost0 := parent, children, cost;
      var best, bestCost := AttachNewNode(v, nearest, near);
      PicksRoute(cost0, pos, costFunc, near, pos[v], Visible(mapInfo, width, height, pos, near, pos[v]), nearest, best, bestCost);
      AttachKeepsTree(pos, cost0, parent0, children0, root, v, best, bestCost);
      PicksVisible(mapInfo, width, height, pos, near, pos[v], Totals(cost0, pos, costFunc, near, pos[v]),
                   cost0[nearest] + costFunc(pos[nearest], pos[v]), nearest, best, bestCost);
      RelinkKeepsVisible(mapInfo, width, height, pos, parent0, v, best);
    }

    /** The accepting branch of a round of `extend`: the steered position
        becomes a new node, entered in the index, attached to its cheapest
        visible neighbour (the nearest point by default), and the near nodes
        are rewired through it. */
    method Grow(a: Attempt) returns (v: nat)
      requires Valid() && a.steered !in pos
      requires a.nearest in index && NearList(index, a.steered, a.radius, a.near)
      requires Sighted() && SegmentFree(mapInfo, width, height, a.nearest.0, a.steered)
      modifies this`pos, this`cost, this`parent, this`children, this`index, this`ballRadius
      ensures v == |old(pos)|
      ensures Valid() && Sighted()
      ensures pos == old(pos) + [a.steered] && index == old(index) + {(a.steered, v)}
      ensures ballRadius == a.radius
      ensures 0 <= parent[v] < |pos| && forall i :: 0 <= i < |a.near| ==> !Improves(v, Nodes(a.near)[i])
      ensures forall x :: 0 <= x < |old(pos)| ==> cost[x] <= old(cost)[x]
    {
      ballRadius := a.radius;
      var nodes;
      v, nodes := Place(a);
      Connect(v, a.nearest.1, nodes);
    }

    /** The first half of the accepting branch: the steered position becomes
        a new node entered in the index, and the near index entries are read
        as tree nodes. The new node is ready to be attached. */
    method Place(a: Attempt) returns (v: nat, nodes: seq<nat>)
      requires Valid() && a.steered !in pos
      requires a.nearest in index && NearList(index, a.steered, a.radius, a.near)
      requires Sighted() && SegmentFree(mapInfo, width, height, a.nearest.0, a.steered)
      modifies this`pos, this`cost, this`parent, this`children, this`index
      ensures v == |old(pos)| && nodes == Nodes(a.near)
      ensures pos == old(pos) + [a.steered] && index == old(index) + {(a.steered, v)} && cost == old(cost) + [0.0]
      ensures a.nearest.1 < |pos| && InArena(|pos|, nodes) && Detached(v, a.nearest.1, nodes)
      ensures Sighted() && SegmentFree(mapInfo, width, height, pos[a.nearest.1], pos[v])
    {
      IndexOfMembers(pos, a.nearest);
      NearInArena(pos, a.steered, a.radius, a.near);
      v := InsertNode(a.steered);
      nodes := NearNodes(a.near);
      assert a.nearest.1 < v && pos[v] == a.steered && pos[a.nearest.1] == a.nearest.0;
      assert v !in nodes;
    }

    /** One round of the loop of `extend`, given what the sampler, the
        index and `_steer` answered: the tests, then the accepting branch. */
    method TryExtend(a: Attempt) returns (inserted: bool)
      requires Valid() && Sighted() && Answers(a)
      modifies this`pos, this`cost, this`parent, this`children, this`index, this`ballRadius
      ensures Valid() && Sighted()
      ensures inserted == old(Accepts(a))
      ensures !inserted ==>
        && pos == old(pos) && cost == old(cost) && parent == old(parent) && children == old(children)
        && index == old(index) && ballRadius == old(ballRadius)
      ensures inserted ==>
        && pos == old(pos) + [a.steered] && index == old(index) + {(a.steered, |old(pos)|)}
        && ballRadius == a.radius
      ensures inserted ==> 0 <= parent[|old(pos)|] < |pos| && forall i :: 0 <= i < |a.near| ==> !Improves(|old(pos)|, Nodes(a.near)[i])
      ensures forall x :: 0 <= x < |old(pos)| ==> cost[x] <= old(cost)[x]
    {
      inserted := false;
      if a.sample != a.nearest.0 {
        var newPos := a.steered;
        if !Contains(newPos) && !InObstacle(mapInfo, newPos) {
          var free := IsObstacleFree(a.nearest.0, newPos);
          if free {
            var _ := Grow(a);
            inserted := true;
          }
        }
      }
    }

    /** `extend`: rounds are tried in order until one is accepted, which
        counts one iteration. Rejected rounds change nothing. Returns the
        accepted round, or -1 when every round given was rejected. */
    method Extend(attempts: seq<Attempt>) returns (k: int)
      requires Valid() && Sighted() && forall i :: 0 <= i < |attempts| ==> Answers(attempts[i])
      modifies this`pos, this`cost, this`parent, this`children, this`index, this`ballRadius, this`currentIteration
      ensures Valid() && Sighted()
      ensures -1 <= k < |attempts|
      ensures forall i :: 0 <= i < |attempts| && (k == -1 || i < k) ==> !old(Accepts(attempts[i]))
      ensures k == -1 ==>
        && pos == old(pos) && cost == old(cost) && parent == old(parent) && children == old(children)
        && index == old(index) && ballRadius == old(ballRadius) && currentIteration == old(currentIteration)
      ensures k != -1 ==>
        && old(Accepts(attempts[k]))
        && pos == old(pos) + [attempts[k].steered] && index == old(index) + {(attempts[k].steered, |old(pos)|)}
        && currentIteration == old(currentIteration) + 1
    {
      k := ExtendRounds(attempts);
      if k != -1 {
        currentIteration := currentIteration + 1;
      }
    }

    /** The retry loop of `extend`: the first accepted round grows the tree
        and ends the loop; the rounds before it were all rejected. */
    method ExtendRounds(attempts: seq<Attempt>) returns (k: int)
      requires Valid() && Sighted() && forall i :: 0 <= i < |attempts| ==> Answers(attempts[i])
      modifies this`pos, this`cost, this`parent, this`children, this`index, this`ballRadius
      ensures Valid() && Sighted()
      ensures -1 <= k < |attempts|
      ensures forall i :: 0 <= i < |attempts| && (k == -1 || i < k) ==> !old(Accepts(attempts[i]))
      ensures k == -1 ==>
        && pos == old(pos) && cost == old(cost) && parent == old(parent) && children == old(children)
        && index == old(index) && ballRadius == old(ballRadius)
      ensures k != -1 ==>
        && old(Accepts(attempts[k]))
        && pos == old(pos) + [attempts[k].steered] && index == old(index) + {(attempts[k].steered, |old(pos)|)}
    {
      k := -1;
      var i := 0;
      while i < |attempts|
        invariant 0 <= i <= |attempts|
        invariant Valid() && Sighted()
        invariant pos == old(pos) && cost == old(cost) && parent == old(parent) && children == old(children)
        invariant index == old(index) && ballRadius == old(ballRadius)
        invariant forall j :: 0 <= j < i ==> !old(Accepts(attempts[j]))
      {
        var inserted := TryExtend(attempts[i]);
        if inserted {
          k := i;
          break;
        }
        i := i + 1;
      }
    }
  }

  /** The two inner loops of `_find_all_children`: every entry of the child
      list of every node of the current level, in order, is appended both to
      the level's children and to the running list. */
  method CollectLevel(ch: seq<seq<nat>>, current: seq<nat>, list0: seq<nat>)
    returns (levelChildren: seq<nat>, list: seq<nat>)
    requires InArena(|ch|, current)
    ensures levelChildren == Kids(ch, current) && list == list0 + levelChildren
  {
    levelChildren := [];
    list := list0;
    var i := 0;
    while i < |current|
      invariant 0 <= i <= |current|
      invariant levelChildren == Kids(ch, current[..i])
      invariant list == list0 + levelChildren
    {
      var node := current[i];
      assert current[..i + 1] == current[..i] + [node];
      var j := 0;
      while j < |ch[node]|
        invariant 0 <= j <= |ch[node]|
        invariant levelChildren == Kids(ch, current[..i]) + ch[node][..j]
        invariant list == list0 + levelChildren
      {
        levelChildren := levelChildren + [ch[node][j]];
        list := list + [ch[node][j]];
        assert ch[node][..j + 1] == ch[node][..j] + [ch[node][j]];
        j := j + 1;
      }
      assert ch[node][..j] == ch[node];
      i := i + 1;
    }
    assert current[..i] == current;
  }

  /** The erase loop of `_remove_edge` on one child list: every entry that
      is c or sits at c's position is erased and its link cleared, and the
      iterator skips the entry after each erase (an erase of the last entry
      ends the walk). */
  method EraseMatches(pos: seq<Pos>, c: nat, list: seq<nat>, links0: seq<int>)
    returns (kept: seq<nat>, links: seq<int>, removed: bool)
    requires c < |pos| && |links0| == |pos|
    requires forall k :: 0 <= k < |list| ==> list[k] < |pos|
    ensures kept == Kept(pos, c, list)
    ensures links == Unlink(links0, Erased(pos, c, list))
    ensures removed <==> Erased(pos, c, list) != []
  {
    links := links0;
    removed := false;
    ghost var gone: seq<nat> := [];
    // The list is kept + rest, the iterator standing at the head of rest.
    kept := [];
    var rest: seq<nat> := list;
    while rest != []
      invariant forall k :: 0 <= k < |rest| ==> rest[k] < |pos|
      invariant |links| == |pos|
      invariant Walked(pos, c, list, links0, kept, gone, links, rest)
      invariant removed == (gone != [])
      decreases |rest|
    {
      var cur := rest[0];
      if cur == c || pos[cur] == pos[c] {
        WalkErase(pos, c, list, links0, kept, gone, links, rest);
        links := links[cur := -1];
        gone := gone + [cur];
        removed := true;
        if |rest| == 1 {
          // erase returned the end of the list; the walk stops there
          rest := [];
          break;
        }
        kept := kept + [rest[1]];
        rest := rest[2..];
      } else {
        WalkSkip(pos, c, list, links0, kept, gone, links, rest);
        kept := kept + [cur];
        rest := rest[1..];
      }
    }
    WalkDone(pos, c, list, links0, kept, gone, links);
  }

  /** The nested copy loop of `init`: every cell of src into dst, the two
      possibly being one array. */
  method CopyCells(dst: array2<real>, src: array2<real>)
    requires dst.Length0 == src.Length0 && dst.Length1 == src.Length1
    modifies dst
    ensures forall i, j :: 0 <= i < dst.Length0 && 0 <= j < dst.Length1 ==> dst[i, j] == old(src[i, j])
  {
    var i := 0;
    while i < dst.Length0
      invariant 0 <= i <= dst.Length0
      invariant forall i', j :: 0 <= i' < i && 0 <= j < dst.Length1 ==> dst[i', j] == old(src[i', j])
      invariant forall i', j :: i <= i' < dst.Length0 && 0 <= j < dst.Length1 ==> src[i', j] == old(src[i', j])
    {
      var j := 0;
      while j < dst.Length1
        invariant 0 <= j <= dst.Length1
        invariant forall i', j' :: 0 <= i' < i && 0 <= j' < dst.Length1 ==> dst[i', j'] == old(src[i', j'])
        invariant forall j' :: 0 <= j' < j ==> dst[i, j'] == old(src[i, j'])
        invariant forall i', j' :: i <= i' < dst.Length0 && 0 <= j' < dst.Length1 && (i' > i || j' >= j) ==> src[i', j'] == old(src[i', j'])
      {
        dst[i, j] := src[i, j];
        j := j + 1;
      }
      i := i + 1;
    }
  }

  /** The way points of `find_path` before the goal: the chain from node up
      to the root, then reversed into positions. */
  method RootPositions(pos: seq<Pos>, parent: seq<int>, node: nat) returns (wayPoints: seq<Pos>)
    requires |pos| == |parent| && Acyclic(parent) && node < |parent|
    ensures wayPoints == RootPath(pos, parent, node)
  {
    var list := GetParentNodeList(parent, node, []);
    assert forall i :: 0 <= i < |list| ==> 0 <= list[i] < |pos|;
    wayPoints := ReversedPositions(pos, list);
  }

  /** The reverse loop of `find_path`: the positions of the nodes of
      list, last node first. */
  method ReversedPositions(pos: seq<Pos>, list: seq<int>) returns (wayPoints: seq<Pos>)
    requires forall i :: 0 <= i < |list| ==> 0 <= list[i] < |pos|
    ensures |wayPoints| == |list|
    ensures forall i :: 0 <= i < |list| ==> wayPoints[i] == pos[list[|list| - 1 - i]]
  {
    wayPoints := [];
    var k := |list|;
    while k > 0
      invariant 0 <= k <= |list|
      invariant |wayPoints| == |list| - k
      invariant forall i :: 0 <= i < |wayPoints| ==> wayPoints[i] == pos[list[|list| - 1 - i]]
    {
      k := k - 1;
      wayPoints := wayPoints + [pos[list[k]]];
    }
  }

  /** The loop of `extend` that collects the tree node of each near index
      entry, in order. */
  method NearNodes(near: seq<(Pos, nat)>) returns (nodes: seq<nat>)
    ensures nodes == Nodes(near)
  {
    nodes := [];
    var i := 0;
    while i < |near|
      invariant 0 <= i <= |near|
      invariant nodes == Nodes(near[..i])
    {
      assert near[..i + 1] == near[..i] + [near[i]];
      nodes := nodes + [near[i].1];
      i := i + 1;
    }
    assert near[..i] == near;
  }
}
