/** The FMT* (RRT*-style) planner: an arena of tree nodes over an occupancy grid,
    grown one accepted sample at a time by attaching the new node to its
    cheapest visible neighbour, rewiring neighbours that become cheaper
    through it, and propagating the gain to their descendants.
    A node is an index into the arena; -1 stands for a null node. */
module Planner {
  import opened Grid
  import opened Forest

  /** `_find_all_children` walks at most this many levels below a node. */
  const MaxLevels: nat := 101

  /** The largest finite double, the bound the goal search starts from. */
  const MaxDouble: real := 179769313486231570814527423731704356798070567525844996598917476803157260780028538760589558632766878171540458953514382464234321326889464182768467546703537516986049910576551282076245490090389328944075868508455133942304583236903222948165808559332123348274797826204144723168738177180919299881250404026184124858368.0

  /** A path snapshot: the start and goal it was requested for, its
      waypoints from the root to the goal, and its total cost. */
  datatype Path = Path(cost: real, start: Pos, goal: Pos, wayPoints: seq<Pos>)

  /** One round of the resampling loop of `extend`, with what the sampler,
      the spatial index and `_steer` delivered for it: the random sample,
      the nearest indexed point, the steered position, the ball radius of
      that round and the indexed points within it. */
  datatype Attempt = Attempt(sample: Pos, nearest: (Pos, nat), steered: Pos, near: seq<(Pos, nat)>, radius: real)

  /** The edge-cost function never returns a negative cost. */
  ghost predicate NonNegative(f: (Pos, Pos) -> real)
  {
    forall a, b :: f(a, b) >= 0.0
  }

  /** The spatial index that matches an arena: one entry per node. */
  function IndexOf(pos: seq<Pos>): set<(Pos, nat)>
  {
    set i | 0 <= i < |pos| :: (pos[i], i)
  }

  lemma IndexOfMembers(pos: seq<Pos>, e: (Pos, nat))
    ensures e in IndexOf(pos) <==> e.1 < |pos| && pos[e.1] == e.0
  {
    if e.1 < |pos| && pos[e.1] == e.0 {
      assert e == (pos[e.1], e.1);
    }
  }

  lemma IndexOfContains(pos: seq<Pos>, p: Pos)
    ensures (exists e :: e in IndexOf(pos) && e.0 == p) <==> p in pos
  {
    if p in pos {
      var i :| 0 <= i < |pos| && pos[i] == p;
      assert (pos[i], i) in IndexOf(pos);
    }
  }

  lemma IndexOfGrow(pos: seq<Pos>, p: Pos)
    ensures IndexOf(pos + [p]) == IndexOf(pos) + {(p, |pos|)}
  {
    forall e ensures e in IndexOf(pos + [p]) <==> e in IndexOf(pos) + {(p, |pos|)} {
      IndexOfMembers(pos, e);
      IndexOfMembers(pos + [p], e);
    }
  }

  /** An indexed point within Euclidean distance r of q, boundary included. */
  predicate Within(q: Pos, r: real, e: (Pos, nat))
  {
    Dist2(e.0, q) as real <= r * r
  }

  /** `near` is what a range query of radius r around q returns: indexed
      points within r, and every such point. */
  predicate NearList(index: set<(Pos, nat)>, q: Pos, r: real, near: seq<(Pos, nat)>)
  {
    && r >= 0.0
    && (forall i :: 0 <= i < |near| ==> near[i] in index && Within(q, r, near[i]))
    && (forall e :: e in index && Within(q, r, e) ==> e in near)
  }

  /** `e` is what a nearest-neighbour query around q returns. */
  predicate IsNearest(index: set<(Pos, nat)>, q: Pos, e: (Pos, nat))
  {
    e in index && forall f :: f in index ==> Dist2(e.0, q) <= Dist2(f.0, q)
  }

  /** A left-to-right scan over the first n totals that starts from the
      bound `b` and takes an eligible entry only when its total is strictly
      below the best so far ends with entry j, or with none (-1). */
  predicate ScanPicks(totals: seq<real>, eligible: seq<bool>, b: real, n: nat, j: int)
  {
    && n <= |totals| && |eligible| == |totals|
    && if j == -1 then
         forall i :: 0 <= i < n && eligible[i] ==> totals[i] >= b
       else
         && 0 <= j < n && eligible[j] && totals[j] < b
         && (forall i :: 0 <= i < j && eligible[i] ==> totals[i] > totals[j])
         && (forall i :: j < i < n && eligible[i] ==> totals[i] >= totals[j])
  }

  /** The scan's choice is the first entry of least total: it is unique. */
  lemma ScanPicksUnique(totals: seq<real>, eligible: seq<bool>, b: real, n: nat, j: int, k: int)
    requires ScanPicks(totals, eligible, b, n, j) && ScanPicks(totals, eligible, b, n, k)
    ensures j == k
  {
  }

  /** The scan's choice is a least eligible total, and below the bound. */
  lemma ScanPicksMinimal(totals: seq<real>, eligible: seq<bool>, b: real, n: nat, j: int)
    requires ScanPicks(totals, eligible, b, n, j) && j != -1
    ensures totals[j] < b
    ensures forall i :: 0 <= i < n && eligible[i] ==> totals[j] <= totals[i]
  {
  }

  /** One more entry: the scan takes it exactly when it is eligible and
      strictly below the best so far. */
  lemma {:induction false} ScanPicksStep(totals: seq<real>, eligible: seq<bool>, b: real, n: nat, j: int)
    requires ScanPicks(totals, eligible, b, n, j) && n < |totals|
    ensures var best := if j == -1 then b else totals[j];
      if eligible[n] && totals[n] < best then ScanPicks(totals, eligible, b, n + 1, n)
      else ScanPicks(totals, eligible, b, n + 1, j)
  {
    var best := if j == -1 then b else totals[j];
    if eligible[n] && totals[n] < best {
      forall i | 0 <= i < n && eligible[i] ensures totals[i] > totals[n] {
        if j != -1 && i > j {
          assert totals[i] >= totals[j];
        }
      }
    }
  }

  /** The cost through each near node to the position `to`. */
  function Totals(cost: seq<real>, pos: seq<Pos>, f: (Pos, Pos) -> real, near: seq<nat>, to: Pos): (t: seq<real>)
    requires |cost| == |pos| && InArena(|pos|, near)
    ensures |t| == |near|
  {
    seq(|near|, i requires 0 <= i < |near| => cost[near[i]] + f(pos[near[i]], to))
  }

  /** The nodes of a list of index entries. */
  function Nodes(near: seq<(Pos, nat)>): (r: seq<nat>)
    ensures |r| == |near|
  {
    seq(|near|, i requires 0 <= i < |near| => near[i].1)
  }

  /** Every parent-to-child cost difference equals the edge cost. */
  ghost predicate EdgeCostsExact(parent: seq<int>, cost: seq<real>, pos: seq<Pos>, f: (Pos, Pos) -> real)
    requires Closed(parent) && |cost| == |parent| && |pos| == |parent|
  {
    forall x :: 0 <= x < |parent| && parent[x] != -1 ==> cost[x] == cost[parent[x]] + f(pos[parent[x]], pos[x])
  }

  /** Child lists after moving c from q's list to the end of v's list. */
  function Moved(children: seq<seq<nat>>, c: nat, q: nat, v: nat): seq<seq<nat>>
    requires q < |children| && v < |children|
  {
    var ch := children[q := Without(children[q], c)];
    ch[v := ch[v] + [c]]
  }

  /** The positions from the root down to c along the parent chain. */
  ghost function RootPath(pos: seq<Pos>, parent: seq<int>, c: nat): (r: seq<Pos>)
    requires |pos| == |parent| && Acyclic(parent) && c < |parent|
  {
    var s := Steps(parent, c);
    seq(s, i requires 0 <= i < s => pos[Anc(parent, c, s - 1 - i)])
  }
  /** The root path has one position per node of c's chain: it starts at
      the root, ends at c, and each position is the parent of the next. */
  lemma RootPathShape(pos: seq<Pos>, parent: seq<int>, root: nat, c: nat)
    requires |pos| == |parent| && Acyclic(parent) && c < |parent| && root < |parent|
    requires forall x :: 0 <= x < |parent| && x != root ==> parent[x] != -1
    ensures |RootPath(pos, parent, c)| == Steps(parent, c) >= 1
    ensures RootPath(pos, parent, c)[0] == pos[root]
    ensures RootPath(pos, parent, c)[Steps(parent, c) - 1] == pos[c]
    ensures forall i :: 0 < i < Steps(parent, c) ==> RootPathLink(pos, parent, c, i)
  {
    var s := Steps(parent, c);
    assert Anc(parent, c, 0) == c;
    var a := Ancestor(parent, c);
    forall i | 0 < i < s ensures RootPathLink(pos, parent, c, i) {
      AncAdd(parent, c, s - 1 - i, 1);
      assert Anc(parent, c, s - i) != -1;
    }
  }

  /** Entry i of c's root path is the position of a node whose parent's
      position is entry i - 1. */
  ghost predicate RootPathLink(pos: seq<Pos>, parent: seq<int>, c: nat, i: nat)
    requires |pos| == |parent| && Acyclic(parent) && c < |parent|
  {
    var r := RootPath(pos, parent, c);
    && 0 < i < |r|
    && var x := Anc(parent, c, |r| - 1 - i);
       0 <= x && 0 <= parent[x] && r[i] == pos[x] && r[i - 1] == pos[parent[x]]
  }

  /** Re-parenting c under v at cost cost[v] + f(v, c) and lowering the
      nodes up to d levels below c by the gain keeps every parent-to-child
      cost difference equal to its edge cost, when c's subtree is no deeper
      than d levels. */
  lemma RewireKeepsEdgeCosts(parent: seq<int>, children': seq<seq<nat>>, cost: seq<real>, pos: seq<Pos>,
                             f: (Pos, Pos) -> real, c: nat, v: nat, d: nat)
    requires Closed(parent) && |cost| == |parent| && |pos| == |parent|
    requires c < |parent| && v < |parent| && c != v && d >= 1
    requires EdgeCostsExact(parent, cost, pos, f)
    requires Linked(parent[c := v], children') && Acyclic(parent[c := v])
    requires v !in Below(children', c, d)
    requires Level(children', c, d + 1) == []
    ensures var nc := cost[v] + f(pos[v], pos[c]);
      EdgeCostsExact(parent[c := v], Lower(cost[c := nc], Below(children', c, d), cost[c] - nc), pos, f)
  {
    var p' := parent[c := v];
    var nc := cost[v] + f(pos[v], pos[c]);
    var cost' := Lower(cost[c := nc], Below(children', c, d), cost[c] - nc);
    BelowNoDup(p', children', c, d);
    forall x | 0 <= x < |p'| && p'[x] != -1
      ensures cost'[x] == cost'[p'[x]] + f(pos[p'[x]], pos[x])
    {
      RewireEdgeCostAt(parent, children', cost, pos, f, c, v, d, x);
    }
  }

  /** RewireKeepsEdgeCosts at one node x. */
  lemma RewireEdgeCostAt(parent: seq<int>, children': seq<seq<nat>>, cost: seq<real>, pos: seq<Pos>,
                         f: (Pos, Pos) -> real, c: nat, v: nat, d: nat, x: nat)
    requires Closed(parent) && |cost| == |parent| && |pos| == |parent|
    requires c < |parent| && v < |parent| && c != v && d >= 1
    requires EdgeCostsExact(parent, cost, pos, f)
    requires Linked(parent[c := v], children') && Acyclic(parent[c := v])
    requires v !in Below(children', c, d) && NoDup(Below(children', c, d))
    requires Level(children', c, d + 1) == []
    requires x < |parent| && parent[c := v][x] != -1
    ensures var nc := cost[v] + f(pos[v], pos[c]);
      var cost' := Lower(cost[c := nc], Below(children', c, d), cost[c] - nc);
      cost'[x] == cost'[parent[c := v][x]] + f(pos[parent[c := v][x]], pos[x])
  {
    var p' := parent[c := v];
    var nc := cost[v] + f(pos[v], pos[c]);
    var delta := cost[c] - nc;
    var l := Below(children', c, d);
    var cost' := Lower(cost[c := nc], l, delta);
    NotBelowSelf(p', children', c, d);
    if x == c {
      assert cost'[x] == nc && cost'[v] == cost[v];
    } else if x in l {
      BelowParentClosed(p', children', c, d, x);
      assert cost'[x] == cost[x] - delta;
    } else {
      ParentOutsideBelow(p', children', c, d, x);
      assert cost'[x] == cost[x] && cost'[p'[x]] == cost[p'[x]];
    }
  }

  /** A node outside c's subtree (down to d levels, the subtree being no
      deeper) has its parent outside it too. */
  lemma ParentOutsideBelow(parent: seq<int>, children: seq<seq<nat>>, c: nat, d: nat, x: nat)
    requires Linked(parent, children) && c < |parent| && x < |parent| && d >= 1
    requires x != c && x !in Below(children, c, d) && parent[x] != -1
    requires Level(children, c, d + 1) == []
    ensures parent[x] != c && parent[x] !in Below(children, c, d)
  {
    var p := parent[x];
    BelowMembers(parent, children, c, d, x);
    BelowMembers(parent, children, c, d, p);
    assert Anc(parent, x, 1) == p;
    if p in Below(children, c, d) {
      var e :| 1 <= e <= d && Anc(parent, p, e) == c;
      AncAdd(parent, x, 1, e);
      LevelMembers(parent, children, c, d + 1, x);
    }
  }


  /** One pass of `_find_all_children` from level d: the children of level
      d form level d + 1 and extend the subtree collected so far; neither
      list has adjacent repeats for `unique` to drop; an empty level ends
      the subtree and a non-empty one makes it grow. */
  lemma NextLevel(parent: seq<int>, children: seq<seq<nat>>, n: nat, d: nat)
    requires Linked(parent, children) && Acyclic(parent) && n < |parent| && d < MaxLevels
    ensures Level(children, n, d + 1) == Kids(children, Level(children, n, d))
    ensures Below(children, n, d + 1) == Below(children, n, d) + Level(children, n, d + 1)
    ensures Unique(Below(children, n, d + 1)) == Below(children, n, d + 1)
    ensures Unique(Level(children, n, d + 1)) == Level(children, n, d + 1)
    ensures Level(children, n, d + 1) == [] ==> Below(children, n, d + 1) == Below(children, n, MaxLevels)
  {
    BelowNoDup(parent, children, n, d + 1);
    UniqueNoAdjacent(Below(children, n, d + 1));
    LevelNoDup(parent, children, n, d + 1);
    UniqueNoAdjacent(Level(children, n, d + 1));
    if Level(children, n, d + 1) == [] {
      BelowSaturates(children, n, d + 1, MaxLevels);
    }
  }

  /** A planned tree over the arena: mutual, acyclic links; a parentless
      root; a parent for every other node except `loose`; no two nodes at
      one position; costs that never drop from parent to child. */
  ghost predicate Tree(pos: seq<Pos>, cost: seq<real>, parent: seq<int>, children: seq<seq<nat>>, root: int, loose: int)
  {
    && |cost| == |pos| && |parent| == |pos|
    && Linked(parent, children) && Acyclic(parent)
    && 0 <= root < |pos| && parent[root] == -1
    && (forall x :: 0 <= x < |pos| && x != root && x != loose ==> parent[x] != -1)
    && NoDup(pos)
    && Monotone(parent, cost)
  }

  /** `_create_new_node`: a fresh position appended as a parentless,
      childless node leaves a tree whose only parentless non-root node is
      the new one. */
  lemma GrowKeepsTree(pos: seq<Pos>, cost: seq<real>, parent: seq<int>, children: seq<seq<nat>>, root: int, p: Pos)
    requires Tree(pos, cost, parent, children, root, -1) && p !in pos
    ensures Tree(pos + [p], cost + [0.0], parent + [-1], children + [[]], root, |pos|)
  {
    GrowKeepsShape(parent, children);
    var pos' := pos + [p];
    forall i, j | 0 <= i < j < |pos'| ensures pos'[i] != pos'[j] {
      if j == |pos| {
        assert pos'[i] == pos[i];
      }
    }
  }

  /** `_attach_new_node` on a tree: hanging the parentless, childless,
      non-root node v under m at a cost no lower than m's completes the tree. */
  lemma AttachKeepsTree(pos: seq<Pos>, cost: seq<real>, parent: seq<int>, children: seq<seq<nat>>,
                        root: int, v: nat, m: nat, mc: real)
    requires Tree(pos, cost, parent, children, root, v)
    requires v < |pos| && v != root && parent[v] == -1 && children[v] == []
    requires m < |pos| && m != v && cost[m] <= mc
    ensures Tree(pos, cost[v := mc], parent[v := m], children[m := children[m] + [v]], root, -1)
  {
    AdoptLinked(parent, children, v, m);
    forall x | 0 <= x < |parent| ensures parent[x] != v {
      assert v !in children[v];
    }
    forall i: nat ensures Anc(parent, m, i) != v {
      LeafNotAncestor(parent, v, m, i);
    }
    RelinkKeepsAcyclic(parent, v, m);
  }

  /** One rewire of `_rewire_near_nodes` on a tree: when the route through v
      is strictly cheaper for the non-root node c, moving c from its parent's
      list to v's and lowering c and its subtree by the gain keeps the tree,
      and v itself lies outside that subtree. */
  lemma RewireKeepsTree(pos: seq<Pos>, cost: seq<real>, parent: seq<int>, children: seq<seq<nat>>,
                        root: int, f: (Pos, Pos) -> real, v: nat, c: nat)
    requires Tree(pos, cost, parent, children, root, -1) && NonNegative(f)
    requires v < |pos| && c < |pos| && c != root && c != v
    requires cost[v] + f(pos[v], pos[c]) < cost[c]
    ensures 0 <= parent[c] < |pos| && c in children[parent[c]]
    ensures Linked(parent[c := v], Moved(children, c, parent[c], v))
    ensures var nc := cost[v] + f(pos[v], pos[c]);
      var children' := Moved(children, c, parent[c], v);
      && v !in Below(children', c, MaxLevels)
      && Tree(pos, Lower(cost[c := nc], Below(children', c, MaxLevels), cost[c] - nc), parent[c := v], children', root, -1)
  {
    var q := parent[c];
    var nc := cost[v] + f(pos[v], pos[c]);
    RewireLinks(parent, children, cost, v, c, f(pos[v], pos[c]));
    RewireKeepsMonotone(parent, parent[c := v], Moved(children, c, q, v), cost, c, v, nc, MaxLevels);
  }

  /** The link part of RewireKeepsTree: moving c under a node v that reaches
      c more cheaply keeps the links mutual and acyclic, and v outside the
      moved subtree. */
  lemma RewireLinks(parent: seq<int>, children: seq<seq<nat>>, cost: seq<real>, v: nat, c: nat, edge: real)
    requires Linked(parent, children) && Acyclic(parent) && Monotone(parent, cost) && |cost| == |parent|
    requires v < |parent| && c < |parent| && c != v && parent[c] != -1
    requires edge >= 0.0 && cost[v] + edge < cost[c]
    ensures 0 <= parent[c] < |parent| && c in children[parent[c]]
    ensures Linked(parent[c := v], Moved(children, c, parent[c], v)) && Acyclic(parent[c := v])
    ensures v !in Below(Moved(children, c, parent[c], v), c, MaxLevels)
  {
    var q := parent[c];
    var parent' := parent[c := v];
    var children' := Moved(children, c, q, v);
    DetachLinked(parent, children, c, q);
    var p1 := parent[c := -1];
    var ch1 := children[q := Without(children[q], c)];
    AdoptLinked(p1, ch1, c, v);
    assert p1[c := v] == parent';
    ImprovedIsNotAncestor(parent, cost, v, c, edge);
    RelinkKeepsAcyclic(parent, c, v);
    BelowMembers(parent', children', c, MaxLevels, v);
    forall e | 1 <= e <= MaxLevels ensures Anc(parent', v, e) != c {
      ChainAvoiding(parent, c, v, v, e);
    }
  }

  /** In a tree, `_remove_edge` of the non-root node c from its parent's
      list erases c alone, clears c's link alone, and leaves the links
      mutual. */
  lemma DetachSingle(pos: seq<Pos>, parent: seq<int>, children: seq<seq<nat>>, c: nat)
    requires Linked(parent, children) && NoDup(pos) && |pos| == |parent| && c < |parent| && parent[c] != -1
    ensures c in children[parent[c]]
    ensures Kept(pos, c, children[parent[c]]) == Without(children[parent[c]], c)
    ensures Erased(pos, c, children[parent[c]]) == [c]
    ensures Unlink(parent[c := -1], [c]) == parent[c := -1]
    ensures Linked(parent[c := -1], children[parent[c] := Without(children[parent[c]], c)])
  {
    var q := parent[c];
    var l := children[q];
    forall i | 0 <= i < |l| && Matches(pos, c, l[i]) ensures l[i] == c {
      assert l[i] < |parent|;
    }
    KeptSingle(pos, c, l);
    DetachLinked(parent, children, c, q);
  }

  /** The line-of-sight flags of the segments from each near node to `to`. */
  function Visible(grid: array2<int>, w: int, h: int, pos: seq<Pos>, near: seq<nat>, to: Pos): (r: seq<bool>)
    requires grid.Length0 == w && grid.Length1 == h && InArena(|pos|, near)
    reads grid
    ensures |r| == |near|
  {
    seq(|near|, i requires 0 <= i < |near| reads grid => SegmentFree(grid, w, h, pos[near[i]], to))
  }

  /** Every entry counts, as in the goal search. */
  function Everything(n: nat): (r: seq<bool>)
    ensures |r| == n && forall i :: 0 <= i < n ==> r[i]
  {
    seq(n, i => true)
  }

  /** The goal search over the totals of the near nodes, from the bound
      MaxDouble, takes every entry into account and ends with node: the
      near node it last took, or node0 when it took none. */
  ghost predicate ClosestPick(totals: seq<real>, near: seq<nat>, node0: int, found: bool, node: int)
    requires |totals| == |near|
  {
    exists j :: ScanPicks(totals, Everything(|near|), MaxDouble, |near|, j)
      && (found <==> j != -1)
      && node == (if j == -1 then node0 else near[j])
  }

  /** What the goal search finds is a near node of least total, below
      MaxDouble; when it finds none, every total is at least MaxDouble and
      the caller's node is left as it was. */
  lemma ClosestPickMeans(totals: seq<real>, near: seq<nat>, node0: int, found: bool, node: int)
    requires |totals| == |near| && ClosestPick(totals, near, node0, found, node)
    ensures found ==>
      exists j :: 0 <= j < |near| && node == near[j] && totals[j] < MaxDouble && forall i :: 0 <= i < |near| ==> totals[j] <= totals[i]
    ensures !found ==> node == node0 && forall i :: 0 <= i < |near| ==> totals[i] >= MaxDouble
  {
    var j :| ScanPicks(totals, Everything(|near|), MaxDouble, |near|, j)
      && (found <==> j != -1)
      && node == (if j == -1 then node0 else near[j]);
    if j != -1 {
      ScanPicksMinimal(totals, Everything(|near|), MaxDouble, |near|, j);
    }
  }

  /** The scan over `near` picks node m at total mc: the near node the scan
      ends with, or `fallback` at the starting bound b when it takes none. */
  ghost predicate Picks(totals: seq<real>, eligible: seq<bool>, b: real, near: seq<nat>, fallback: int, m: int, mc: real)
    requires |totals| == |near|
  {
    exists j :: ScanPicks(totals, eligible, b, |near|, j)
      && m == (if j == -1 then fallback else near[j])
      && mc == (if j == -1 then b else totals[j])
  }

  /** The attach pick is the fallback or a near node, and its total is the
      cost of the route through it: its own cost plus its edge cost. */
  lemma PicksRoute(cost: seq<real>, pos: seq<Pos>, f: (Pos, Pos) -> real, near: seq<nat>, to: Pos,
                   eligible: seq<bool>, fallback: nat, m: int, mc: real)
    requires |cost| == |pos| && InArena(|pos|, near) && fallback < |pos|
    requires Picks(Totals(cost, pos, f, near, to), eligible, cost[fallback] + f(pos[fallback], to), near, fallback, m, mc)
    ensures 0 <= m < |pos| && (m == fallback || m in near)
    ensures mc == cost[m] + f(pos[m], to)
  {
  }

  /** Hanging the parentless, childless node v under m at the cost of the
      route through m keeps every edge cost exact. */
  lemma AttachKeepsEdgeCosts(parent: seq<int>, children: seq<seq<nat>>, cost: seq<real>, pos: seq<Pos>,
                             f: (Pos, Pos) -> real, v: nat, m: nat)
    requires Linked(parent, children) && |cost| == |parent| && |pos| == |parent|
    requires v < |parent| && m < |parent| && m != v && parent[v] == -1 && children[v] == []
    requires EdgeCostsExact(parent, cost, pos, f)
    ensures Closed(parent[v := m])
    ensures EdgeCostsExact(parent[v := m], cost[v := cost[m] + f(pos[m], pos[v])], pos, f)
  {
    assert Closed(parent[v := m]);
    forall x | 0 <= x < |parent| ensures parent[x] != v {
      assert v !in children[v];
    }
  }

  /** The nodes of a range query answer lie in the arena the index mirrors,
      at the positions the index records. */
  lemma NearInArena(pos: seq<Pos>, q: Pos, r: real, near: seq<(Pos, nat)>)
    requires NearList(IndexOf(pos), q, r, near)
    ensures InArena(|pos|, Nodes(near))
    ensures forall i :: 0 <= i < |near| ==> pos[Nodes(near)[i]] == near[i].0
  {
    forall i | 0 <= i < |near| ensures Nodes(near)[i] < |pos| && pos[Nodes(near)[i]] == near[i].0 {
      IndexOfMembers(pos, near[i]);
    }
  }

  // ----- Line of sight along tree edges -----

  /** The rewiring test for the near node c of the new node v: c is not at
      the position of v, of the root or of v's parent, is in line of sight
      of v, and the route through v is strictly cheaper than c's cost. */
  ghost predicate Gains(grid: array2<int>, w: int, h: int, pos: seq<Pos>, cost: seq<real>, parent: seq<int>,
                        root: int, f: (Pos, Pos) -> real, v: nat, c: nat)
    requires grid.Length0 == w && grid.Length1 == h
    requires v < |pos| && c < |pos| && |cost| == |pos| && |parent| == |pos| && 0 <= parent[v] < |pos| && 0 <= root < |pos|
    reads grid
  {
    && pos[c] != pos[v] && pos[c] != pos[root] && pos[parent[v]] != pos[c]
    && SegmentFree(grid, w, h, pos[v], pos[c])
    && cost[v] + f(pos[v], pos[c]) < cost[c]
  }

  /** Costs that only fall, around a v whose parent and cost stay, keep
      every node that gained nothing through v from gaining. */
  lemma SettledStays(grid: array2<int>, w: int, h: int, pos: seq<Pos>, cost0: seq<real>, cost1: seq<real>,
                     parent0: seq<int>, parent1: seq<int>, root: int, f: (Pos, Pos) -> real,
                     v: nat, near: seq<nat>, k: nat)
    requires grid.Length0 == w && grid.Length1 == h
    requires v < |pos| && |cost0| == |pos| && |cost1| == |pos| && |parent0| == |pos| && |parent1| == |pos|
    requires 0 <= parent0[v] < |pos| && 0 <= root < |pos| && k <= |near| && forall i :: 0 <= i < |near| ==> near[i] < |pos|
    requires parent1[v] == parent0[v] && cost1[v] == cost0[v]
    requires forall x :: 0 <= x < |pos| ==> cost1[x] <= cost0[x]
    requires forall i :: 0 <= i < k ==> !Gains(grid, w, h, pos, cost0, parent0, root, f, v, near[i])
    ensures forall i :: 0 <= i < k ==> !Gains(grid, w, h, pos, cost1, parent1, root, f, v, near[i])
  {
    forall i | 0 <= i < k
      ensures !Gains(grid, w, h, pos, cost1, parent1, root, f, v, near[i])
    {
      assert !Gains(grid, w, h, pos, cost0, parent0, root, f, v, near[i]);
      assert cost1[near[i]] <= cost0[near[i]];
    }
  }

  /** Every tree edge is in line of sight: the segment from each parent to
      its child passes the visibility test on the grid. */
  ghost predicate EdgesVisible(grid: array2<int>, w: int, h: int, pos: seq<Pos>, parent: seq<int>)
    requires grid.Length0 == w && grid.Length1 == h
    reads grid
  {
    forall x :: 0 <= x < |parent| && x < |pos| && 0 <= parent[x] < |pos| ==>
      SegmentFree(grid, w, h, pos[parent[x]], pos[x])
  }

  /** Hanging c under v keeps every edge visible when v sees c. */
  lemma RelinkKeepsVisible(grid: array2<int>, w: int, h: int, pos: seq<Pos>, parent: seq<int>, c: nat, v: nat)
    requires grid.Length0 == w && grid.Length1 == h
    requires EdgesVisible(grid, w, h, pos, parent) && c < |parent| && c < |pos| && v < |pos|
    requires SegmentFree(grid, w, h, pos[v], pos[c])
    ensures EdgesVisible(grid, w, h, pos, parent[c := v])
  {
  }

  /** A new parentless node adds no edge. */
  lemma GrowKeepsVisible(grid: array2<int>, w: int, h: int, pos: seq<Pos>, parent: seq<int>, p: Pos)
    requires grid.Length0 == w && grid.Length1 == h
    requires EdgesVisible(grid, w, h, pos, parent) && |parent| == |pos| && Closed(parent)
    ensures EdgesVisible(grid, w, h, pos + [p], parent + [-1])
  {
    var pos', parent' := pos + [p], parent + [-1];
    forall x | 0 <= x < |parent'| && x < |pos'| && 0 <= parent'[x] < |pos'|
      ensures SegmentFree(grid, w, h, pos'[parent'[x]], pos'[x])
    {
      assert x < |parent| && parent'[x] == parent[x] && pos'[x] == pos[x] && pos'[parent[x]] == pos[parent[x]];
    }
  }

  /** The pick of a scan over the line-of-sight flags is the fallback or a
      near node that sees `to`. */
  lemma PicksVisible(grid: array2<int>, w: int, h: int, pos: seq<Pos>, near: seq<nat>, to: Pos,
                     totals: seq<real>, b: real, fallback: int, m: int, mc: real)
    requires grid.Length0 == w && grid.Length1 == h && InArena(|pos|, near) && |totals| == |near|
    requires Picks(totals, Visible(grid, w, h, pos, near, to), b, near, fallback, m, mc)
    ensures m == fallback || (0 <= m < |pos| && SegmentFree(grid, w, h, pos[m], to))
  {
  }

  /** With every edge visible, consecutive positions of a root path are in
      line of sight of each other. */
  lemma RootPathVisible(grid: array2<int>, w: int, h: int, pos: seq<Pos>, parent: seq<int>, c: nat)
    requires grid.Length0 == w && grid.Length1 == h
    requires |pos| == |parent| && Acyclic(parent) && c < |parent|
    requires EdgesVisible(grid, w, h, pos, parent)
    ensures var r := RootPath(pos, parent, c);
      forall i :: 0 < i < |r| ==> SegmentFree(grid, w, h, r[i - 1], r[i])
  {
    var r := RootPath(pos, parent, c);
    var s := Steps(parent, c);
    forall i | 0 < i < |r| ensures SegmentFree(grid, w, h, r[i - 1], r[i]) {
      var x := Anc(parent, c, s - 1 - i);
      AncAdd(parent, c, s - 1 - i, 1);
      assert Anc(parent, c, s - i) != -1;
      assert r[i] == pos[x] && r[i - 1] == pos[parent[x]];
    }
  }
}
