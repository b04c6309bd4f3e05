# FMT* planner core in Dafny

This project models the planner core of the FMTstar repository
(`src/FMTstar/fmt_star.cpp`, `src/FMTstar/fmt_star.h`): an incremental
RRT*/FMT*-style tree grown over a 2D occupancy grid, with a rasterised
line-of-sight test, parent selection, rewiring with cost propagation to
the rewired subtree, and extraction of the path from the root to the goal.

## How the model is laid out

- `grid.dfy` (module `Grid`): positions, the two grid thresholds
  (`OBSTACLE_THRESHOLD` = 200 for segments, 255 for node placement) and the
  Bresenham walk of `_is_obstacle_free` as a pure specification:
  - `Normalize` picks the steep axis and orders the endpoints.
  - `Trace` is the walk, with the error term doubled so that it stays an
    exact integer.
  - `Visited` gives the cells inspected.
  - `SegmentFree` is the test.
- `forest.dfy` (module `Forest`): the parent/child arena as values.
  - Node ids are indices, and -1 stands for a null pointer.
  - `Anc` is the k-th ancestor and `Acyclic` says every chain ends.
  - `Ancestor` is `get_ancestor`; `GetParentNodeList` is
    `get_parent_node_list`, whose out-list becomes a returned sequence.
  - `Unique` is `std::list::unique`.
  - `Level`/`Below` are the depth-by-depth subtree of `_find_all_children`.
  - `Kept`/`Erased`/`Unlink` describe the erase loop of `_remove_edge`.
  - `Lower` is the cost update.
- `planner.dfy` (module `Planner`): the tree invariant `Tree`, the spatial
  index as a set of (position, node) pairs, the specified queries of the
  index (`IsNearest`, `NearList`) and the left-to-right strict-minimum scans
  (`ScanPicks`) of `_attach_new_node` and `_get_closet_to_goal`, with the
  lemmas that tie attach and rewire to the tree invariant and to exact edge
  costs.
- `fmt_star.dfy` (module `Core`): class `FMTstar`.
  - Its fields are the grid (`array2<int>`), the optional cost
    distribution (`array2?<real>`), the arena (`pos`, `cost`, `parent`,
    `children` sequences), the index, the root, start, goal, cost function,
    ball radius and iteration counter.
  - Every planner operation is a method that updates those fields in place.
  - Each method is proved against the functions and predicates of the
    other three modules.

The arena replaces the heap of `TreeNode` objects: node `i` has position
`pos[i]`, cost `cost[i]`, parent `parent[i]` and child list `children[i]`.
`Valid()` is the planner's invariant:
- the links are mutual and acyclic;
- the root has no parent, and every other node has one;
- no two nodes share a position;
- no child costs less than its parent;
- the index mirrors the arena;
- the cost function is never negative.

The environment of one round of `extend` is passed in as an `Attempt`: the
random sample, the nearest indexed point, the steered position and the
range-query answer with its radius. `Answers` states what the model assumes
of them:
- the nearest point is a nearest entry of the index;
- the range-query answer lists the index entries within the radius;
- the steered position lies in the grid, and it is the sample itself when
  the sample is within the segment length of the nearest point.

The first two describe the KD-tree queries. The last is an assumption on
`_sampling` and `_steer` that the code does not always meet (see
"Left out").

`Sighted()` says that every tree edge passes the visibility test on the
current grid. The code tests each edge before it makes it: the nearest
point in `extend` (line 232), each near node in `_attach_new_node`
(line 451) and in `_rewire_near_nodes` (line 476). So `Init` establishes
`Sighted()`, and every operation that grows or rewires the tree keeps it.
`LoadMap` replaces the grid without testing the edges again, so it can
break `Sighted()`.

Three points of the code's behaviour that the model keeps:
- `init` does not empty the node list or the index. It deletes only the
  old root object, which stays in the list and in the index, and it
  appends a new root.
- The level cap of `_find_all_children` stops after the pass in which the
  counter passes 100. That is 101 levels below the node (`MaxLevels`).
- `find_path` does not test line of sight on the final leg to the goal.
  Every earlier leg is a tree edge.

## Model

| member | source | states |
|---|---|---|
| Grid.Normalize | src/FMTstar/fmt_star.cpp:163-177 | The walk runs along the axis of greater extent from the endpoint with the smaller primary coordinate. The normalised endpoints are the original two, swapped back when steep. The secondary extent never exceeds the primary extent, and distinct endpoints give a non-empty primary span. |
| Grid.InObstacle | src/FMTstar/fmt_star.cpp:142-149 | `_is_in_obstacle`: a cell blocks placement when its intensity is below 255. A cell fit for a new node never blocks a segment (threshold 200). |
| Grid.TraceLength | src/FMTstar/fmt_star.cpp:186-188 | The walk visits one cell per primary coordinate from x up to but excluding maxX, starting at (x, y). |
| Grid.TraceSteps | src/FMTstar/fmt_star.cpp:204-208 | Between consecutive cells the secondary coordinate changes by 0 or by exactly `ystep`. |
| Grid.TraceError | src/FMTstar/fmt_star.cpp:182-208 | The doubled error term after i steps with s secondary moves is dx - 2dy*i + 2dx*s. Every visited cell lies within half a cell of the ideal line. |
| Grid.VisitedCells | src/FMTstar/fmt_star.cpp:179-209 | The cells inspected between a and b: one per primary coordinate from the lower endpoint up to but excluding the higher one. The first cell is the lower endpoint, and the secondary coordinate moves by 0 or one `ystep` per step. |
| Grid.VisitedNearLine | src/FMTstar/fmt_star.cpp:179-209 | Every inspected cell stays within the secondary span of the endpoints and within half a cell of the ideal line. |
| Grid.VisitedSymmetric | src/FMTstar/fmt_star.cpp:163-177 | Because the endpoints are normalised, the inspected cells do not depend on their order. |
| Grid.SegmentFreeSymmetric | src/FMTstar/fmt_star.cpp:152-211 | Swapping the endpoints never changes the visibility test. |
| Grid.SegmentFreeSelf | src/FMTstar/fmt_star.cpp:153-161 | A segment from a point to itself inspects no cell and is free. |
| Grid.SegmentFreeByTrace | src/FMTstar/fmt_star.cpp:179-210 | The test over the inspected cells equals the test over the walk of the normalised segment. |
| Forest.NotOwnAncestor | src/FMTstar/fmt_star.h:112-122 | In an acyclic arena no node is its own ancestor at any positive distance. |
| Forest.AncOnce | src/FMTstar/fmt_star.h:112-122 | In an acyclic arena a parent chain meets a node at most once. |
| Forest.RelinkKeepsAcyclic | src/FMTstar/fmt_star.cpp:481-487 | Re-parenting c under p keeps every chain finite when c is not an ancestor of p. |
| Forest.CutKeepsAcyclic | src/FMTstar/fmt_star.cpp:315 | Clearing a parent link keeps every chain finite. |
| Forest.StepsParent | src/FMTstar/fmt_star.h:124-131 | A node's parent chain is one node longer than its parent's. |
| Forest.Ancestor | src/FMTstar/fmt_star.h:112-122 | `get_ancestor`: null for null, otherwise the last node of the parent chain, which has no parent. |
| Forest.GetParentNodeList | src/FMTstar/fmt_star.h:124-131 | The caller's list is kept, then the node and each successive parent are appended, Steps(x) entries in all. Each appended entry is the parent of the one before it, and the last is `get_ancestor(x)`. |
| Forest.Unique | src/FMTstar/fmt_star.cpp:387-388 | `std::list::unique` keeps the first element and the set of elements, never grows the list, and leaves no two equal neighbours. |
| Forest.UniqueSnoc | src/FMTstar/fmt_star.cpp:387-388 | Which elements `unique` keeps: appending x to a list adds x to its `unique` exactly when x differs from the list's last element. With the empty list this fixes `unique` on every list. |
| Forest.UniqueNoAdjacent | src/FMTstar/fmt_star.cpp:387-388 | `unique` changes nothing in a list without equal neighbours. |
| Forest.KidsMembers | src/FMTstar/fmt_star.cpp:376-385 | A node is collected from the child lists of a level exactly when its parent lies in that level. |
| Forest.KidsNoDup | src/FMTstar/fmt_star.cpp:376-385 | The children of distinct nodes are distinct. |
| Forest.LevelMembers | src/FMTstar/fmt_star.cpp:376-385 | The nodes at depth d below n are exactly those whose d-th ancestor is n. |
| Forest.LevelNoDup | src/FMTstar/fmt_star.cpp:376-385 | No level repeats a node. |
| Forest.LevelsDisjoint | src/FMTstar/fmt_star.cpp:372-410 | In an acyclic arena a node lies at one depth below n at most. |
| Forest.LevelEmptyStays | src/FMTstar/fmt_star.cpp:390-392 | Once a level is empty every deeper level is empty. |
| Forest.BelowMembers | src/FMTstar/fmt_star.cpp:365-413 | The subtree collected down to d levels is exactly the nodes having n as e-th ancestor for some 1 <= e <= d. |
| Forest.BelowMembersAll | src/FMTstar/fmt_star.cpp:365-413 | The same membership, for every node at once. |
| Forest.NotBelowSelf | src/FMTstar/fmt_star.cpp:365-413 | In an acyclic arena the start node is never among its own descendants. |
| Forest.BelowInArena | src/FMTstar/fmt_star.cpp:365-413 | Every collected node is a node of the arena. |
| Forest.BelowLevelDisjoint | src/FMTstar/fmt_star.cpp:393-395 | A new level shares no node with the levels collected before it. |
| Forest.BelowNoDup | src/FMTstar/fmt_star.cpp:365-413 | The collected subtree holds each node once and never the start node. |
| Forest.BelowNoRepeat | src/FMTstar/fmt_star.cpp:372-387 | Collecting level after level, down to any depth, never lists a node twice. |
| Forest.BelowStepNoDup | src/FMTstar/fmt_star.cpp:382-387 | Appending a new level keeps the collected subtree duplicate-free. |
| Forest.BelowParentClosed | src/FMTstar/fmt_star.cpp:365-413 | Every collected node hangs under the start node or under another collected node. |
| Forest.BelowSaturates | src/FMTstar/fmt_star.cpp:390-392 | Once a level is empty, collecting more levels adds nothing. |
| Forest.AncestorNoDearer | src/FMTstar/fmt_star.cpp:479 | Along a chain where no child costs less than its parent, an ancestor costs no more than its descendant. |
| Forest.ImprovedIsNotAncestor | src/FMTstar/fmt_star.cpp:479 | With a non-negative edge cost, the strict test `cost(v) + c(v, n) < cost(n)` never holds for an ancestor n of v. |
| Forest.Lower | src/FMTstar/fmt_star.cpp:498-506 | Exactly the listed nodes lose delta, and every other cost is unchanged. |
| Forest.LowerStep | src/FMTstar/fmt_star.cpp:500-505 | Lowering one more node not yet lowered is one in-place subtraction. |
| Forest.LowerNext | src/FMTstar/fmt_star.cpp:500-505 | For a duplicate-free list, the loop's i-th subtraction extends the lowering of the first i nodes. |
| Forest.RewireKeepsMonotone | src/FMTstar/fmt_star.cpp:479-487 | Re-parenting c under v at the cheaper cost and lowering c's subtree by the gain keeps every child at least as costly as its parent. |
| Forest.GrowKeepsShape | src/FMTstar/fmt_star.cpp:303-308 | Appending a parentless, childless node keeps the links mutual and acyclic. |
| Forest.LeafNotAncestor | src/FMTstar/fmt_star.cpp:445-466 | A node that is nobody's parent is no other node's ancestor. |
| Forest.Without | src/FMTstar/fmt_star.cpp:317-324 | Exactly the entries equal to c are dropped, and a duplicate-free list stays duplicate-free. |
| Forest.KeptSkipsNext | src/FMTstar/fmt_star.cpp:317-321 | After an erase the loop steps over the entry that moved into place. For any list, at the first two adjacent copies of c, the first is erased, the second stays, and the walk goes on after it. |
| Forest.KeptNoMatch | src/FMTstar/fmt_star.cpp:317-324 | When no two neighbouring entries both match, the loop leaves no matching entry. |
| Forest.KeptSingle | src/FMTstar/fmt_star.cpp:317-324 | When only c itself matches in a duplicate-free list, the loop erases exactly c and keeps the other entries in order. |
| Forest.Unlink | src/FMTstar/fmt_star.cpp:320 | The parent link of exactly the erased entries is cleared. |
| Forest.WalkErase | src/FMTstar/fmt_star.cpp:319-323 | One erase step keeps the loop's invariant, including the skip of the next entry or the stop at the end of the list. |
| Forest.WalkSkip | src/FMTstar/fmt_star.cpp:317-319 | Stepping past a non-matching entry keeps the loop's invariant. |
| Forest.WalkDone | src/FMTstar/fmt_star.cpp:324-325 | At the end of the loop the list is Kept(l) and the cleared links are those of Erased(l). |
| Forest.DetachLinked | src/FMTstar/fmt_star.cpp:310-326 | Taking c out of its parent's list and clearing its link keeps the other links mutual. |
| Forest.Adopt | src/FMTstar/fmt_star.cpp:352-359 | After `_add_edge(p, c)` p's list is unchanged when it already holds c, and otherwise gains c at its end. c's own list has lost equal neighbours, and every other list is unchanged. |
| Forest.AdoptNoDup | src/FMTstar/fmt_star.cpp:352-357 | A duplicate-free list of p stays duplicate-free and holds c. |
| Forest.AdoptParentless | src/FMTstar/fmt_star.cpp:352-359 | For a parentless c, `_add_edge` appends c to p's list, leaves c's list as it was and keeps the links mutual. |
| Forest.AdoptLinked | src/FMTstar/fmt_star.cpp:356-357 | Hanging a parentless node under p by appending it keeps the links mutual and duplicate-free. |
| Planner.IndexOfMembers | src/FMTstar/fmt_star.cpp:237-240 | An index entry is exactly a node and its position. |
| Planner.IndexOfContains | src/FMTstar/fmt_star.cpp:284-297 | A position is in the index exactly when some node sits at it. |
| Planner.IndexOfGrow | src/FMTstar/fmt_star.cpp:237-240 | Indexing a newly appended node adds exactly its entry. |
| Planner.ScanPicksUnique | src/FMTstar/fmt_star.cpp:449-458 | The strict left-to-right scan has one outcome. |
| Planner.ScanPicksMinimal | src/FMTstar/fmt_star.cpp:449-458 | What the scan takes is below the starting bound and no eligible entry has a smaller total. |
| Planner.ScanPicksStep | src/FMTstar/fmt_star.cpp:451-457 | The scan takes the next entry exactly when it is eligible and strictly below the best so far. |
| Planner.RootPathShape | src/FMTstar/fmt_star.cpp:429-436 | The positions from the root to c have one entry per node of c's chain. They start at the root, end at c, and each is the parent of the next. |
| Planner.RewireKeepsEdgeCosts | src/FMTstar/fmt_star.cpp:479-487 | If every parent-to-child cost difference equals its edge cost, it still does after a rewire and the lowering of the subtree (no deeper than the cap). |
| Planner.RewireEdgeCostAt | src/FMTstar/fmt_star.cpp:485-487 | The same statement, for one node. |
| Planner.ParentOutsideBelow | src/FMTstar/fmt_star.cpp:498-506 | A node outside the lowered subtree has its parent outside it as well. |
| Planner.NextLevel | src/FMTstar/fmt_star.cpp:372-410 | One pass collects the children of level d as level d + 1 and appends them to the subtree, so neither `unique` call drops anything. Once a level is empty, the subtree is already the whole capped subtree. |
| Planner.GrowKeepsTree | src/FMTstar/fmt_star.cpp:303-308 | A new parentless node at a fresh position leaves a tree whose only parentless non-root node is the new one. |
| Planner.AttachKeepsTree | src/FMTstar/fmt_star.cpp:460-465 | Hanging the new node under a node that costs no more than it completes the tree. |
| Planner.RewireKeepsTree | src/FMTstar/fmt_star.cpp:468-496 | A rewire let through by the strict test keeps the tree: links mutual and acyclic, costs monotone after the subtree is lowered. v lies outside the moved subtree. |
| Planner.RewireLinks | src/FMTstar/fmt_star.cpp:481-487 | Moving c under a node that reaches it more cheaply keeps the links mutual and acyclic. |
| Planner.DetachSingle | src/FMTstar/fmt_star.cpp:310-326 | With distinct positions, `_remove_edge` of a node from its parent erases that node alone and clears only its link. |
| Planner.ClosestPickMeans | src/FMTstar/fmt_star.cpp:508-528 | The goal search finds a near node of least total cost below the largest double, or finds none when every total is at least that. The caller's node is then left as it was. |
| Planner.PicksRoute | src/FMTstar/fmt_star.cpp:445-458 | The attach pick is the nearest node or a near node, and its recorded cost is its own cost plus its edge cost. |
| Planner.AttachKeepsEdgeCosts | src/FMTstar/fmt_star.cpp:460-465 | Attaching the new node at the cost of the route through its parent keeps every edge cost exact. |
| Planner.SettledStays | src/FMTstar/fmt_star.cpp:469-494 | When v keeps its parent and cost and no cost rises, a near node that failed the rewiring test still fails it. |
| Planner.RelinkKeepsVisible | src/FMTstar/fmt_star.cpp:476-487 | Hanging c under a node that sees it keeps every tree edge visible. |
| Planner.GrowKeepsVisible | src/FMTstar/fmt_star.cpp:303-308 | Appending a parentless node keeps every tree edge visible. |
| Planner.PicksVisible | src/FMTstar/fmt_star.cpp:449-458 | The attach pick is the nearest node or a near node that passed the visibility test. |
| Planner.RootPathVisible | src/FMTstar/fmt_star.cpp:429-436 | When every tree edge is visible, so is every leg of the path from the root to a node. |
| Planner.NearInArena | src/FMTstar/fmt_star.cpp:243-251 | The nodes of a range-query answer are arena nodes at the positions the index records. |
| Core.FMTstar.constructor | src/FMTstar/fmt_star.cpp:29-57 | A w x h grid of free cells (255), range = max(w, h), ball radius = range, iteration 0, no cost distribution, no root, empty arena and index. |
| Core.FMTstar.LoadMap | src/FMTstar/fmt_star.cpp:106-112 | Every grid cell is copied from the caller's grid. |
| Core.FMTstar.IsObstacleFree | src/FMTstar/fmt_star.cpp:152-211 | Returns exactly SegmentFree(a, b): true when no inspected cell lies inside the grid with an intensity below 200. Cells outside the grid are skipped and never read. |
| Core.FMTstar.WalkLine | src/FMTstar/fmt_star.cpp:182-210 | The walk loop returns true exactly when no cell of the walk blocks. |
| Core.FMTstar.Contains | src/FMTstar/fmt_star.cpp:284-297 | True exactly when a node sits at the position. |
| Core.FMTstar.HasEdge | src/FMTstar/fmt_star.cpp:328-343 | True exactly when neither node is null and c is in p's child list. |
| Core.FMTstar.AddEdge | src/FMTstar/fmt_star.cpp:345-362 | Refused, with nothing changed, for a null node, a node and itself, or two nodes at one position. Otherwise c's parent becomes p and the child lists become Adopt(p, c). For a parentless c, c is appended to p's list and the links stay mutual. |
| Core.FMTstar.RemoveEdge | src/FMTstar/fmt_star.cpp:310-326 | False and no change for a null parent. Otherwise the new list is Kept(l), the cleared links are those of Erased(l) plus c's own, and the result is whether anything was erased. |
| Core.EraseMatches | src/FMTstar/fmt_star.cpp:316-324 | The erase loop leaves Kept(l), clears the links of Erased(l), and reports whether it erased anything. |
| Core.FMTstar.CreateNewNode | src/FMTstar/fmt_star.cpp:303-308 | Appends a node with cost 0, no parent and no children, keeping links and acyclicity. On a tree and at a fresh position, the new node is the only parentless non-root node. |
| Core.FMTstar.LoadDistribution | src/FMTstar/fmt_star.cpp:75-92 | With a distribution given, the planner's own grid (allocated on first use) holds a copy of every cell. Otherwise the planner's grid is dropped. |
| Core.CopyCells | src/FMTstar/fmt_star.cpp:82-86 | Every cell of the source is copied into the destination. |
| Core.FMTstar.PlantRoot | src/FMTstar/fmt_star.cpp:94-100 | A new node at the start becomes the root and is indexed. On an empty arena that is a one-node tree, with no edge to test and exact edge costs. |
| Core.FMTstar.Init | src/FMTstar/fmt_star.cpp:66-104 | Records start, goal and cost function, copies or drops the distribution, appends and indexes a new root, and resets the iteration counter to 0. Earlier nodes stay. A planner with no nodes ends valid, with exact edge costs and every edge visible. |
| Core.CollectLevel | src/FMTstar/fmt_star.cpp:376-385 | The two inner loops collect the child lists of the level in order, and append the same entries to the running list. |
| Core.FMTstar.FindAllChildren | src/FMTstar/fmt_star.cpp:365-413 | Returns the nodes at depths 1 to 101 below n, level by level, each once and never n. The members are exactly the nodes with n as an ancestor at most 101 steps up. |
| Core.FMTstar.UpdateCostToChildren | src/FMTstar/fmt_star.cpp:498-506 | Exactly the nodes FindAllChildren lists lose delta, and every other cost is unchanged. |
| Core.FMTstar.ChooseParent | src/FMTstar/fmt_star.cpp:445-459 | The pick is the strict left-to-right minimum of the visible near routes, bounded by the route through the nearest node: nearest wins ties, then the earliest near node. The returned cost is that route's cost. |
| Core.FMTstar.AttachNewNode | src/FMTstar/fmt_star.cpp:445-466 | Makes that pick. When `_add_edge` accepts it, v hangs under the pick at the pick's route cost and the child lists become Adopt(best, v); otherwise nothing changes. |
| Core.FMTstar.Detach | src/FMTstar/fmt_star.cpp:481-482 | In a linked arena with distinct positions, removing c from its parent always succeeds. Exactly c leaves the parent's list and only c loses its link. |
| Core.FMTstar.Relink | src/FMTstar/fmt_star.cpp:481-488 | c moves from its parent's list to the end of v's, takes the new cost, and its subtree is lowered by delta. |
| Core.FMTstar.Rewire | src/FMTstar/fmt_star.cpp:479-488 | A rewire that passed the test keeps the planner valid. It gives c the new cost, lowers c's subtree by the gain (v is never in it), and raises no cost. Since v sees c, every tree edge stays visible. |
| Core.FMTstar.RewireTest | src/FMTstar/fmt_star.cpp:472-480 | The three tests pass exactly when the rewiring test holds. Then c is neither the root nor v, the returned cost is the route through v, and the gain is positive. |
| Core.FMTstar.RewireNearNode | src/FMTstar/fmt_star.cpp:469-494 | Rewires c exactly when the test of lines 472, 476 and 479 passes, otherwise changes nothing. The planner stays valid with every tree edge visible, v keeps its parent and cost, no cost rises, and afterwards the test fails for c. |
| Core.FMTstar.RewireNearNodes | src/FMTstar/fmt_star.cpp:468-496 | After the pass no near node can still be improved through v. The planner stays valid with every tree edge visible, v keeps its parent and cost, and no cost has risen. |
| Core.FMTstar.Offer | src/FMTstar/fmt_star.cpp:469-494 | One turn of the rewiring loop. The planner stays valid with visible edges, no cost rises, and every near node offered so far fails the rewiring test. |
| Core.FMTstar.GetClosestToGoal | src/FMTstar/fmt_star.cpp:508-528 | Returns the strict-minimum near node of the goal by cost plus edge cost to the goal, below the largest double, with that edge cost. Otherwise found is false and the caller's node and delta stay. |
| Core.FMTstar.FindPath | src/FMTstar/fmt_star.cpp:420-442 | With no node found, the waypoints are empty and the cost is 0. Otherwise they are the root path of the chosen node then the goal, at the chosen node's cost plus its edge cost to the goal. When every tree edge is visible, every leg but the last to the goal is visible. |
| Core.RootPositions | src/FMTstar/fmt_star.cpp:429-435 | The chain from the node up to the root, reversed into positions, is the root path. |
| Core.ReversedPositions | src/FMTstar/fmt_star.cpp:431-435 | Entry i is the position of the list's entry counted from the back. |
| Core.NearNodes | src/FMTstar/fmt_star.cpp:243-251 | The tree nodes of the near index entries, in order. |
| Core.FMTstar.InsertNode | src/FMTstar/fmt_star.cpp:233-240 | A fresh position becomes a new node and an index entry, leaving a tree apart from the new node, with every tree edge still visible. |
| Core.FMTstar.Place | src/FMTstar/fmt_star.cpp:233-251 | A fresh position becomes a new, detached node with one index entry. The near list becomes nodes, and the nearest node sees the new one. |
| Core.FMTstar.Join | src/FMTstar/fmt_star.cpp:254 | The new node hangs under the attach pick at its route cost. The planner is valid again, and the new edge is visible, either from the nearest node or through the visibility test. |
| Core.FMTstar.Connect | src/FMTstar/fmt_star.cpp:253-256 | Attach, then rewire. The planner is valid with every tree edge visible, v has the attach pick as parent and cost, no near node can still be improved through v, and no other cost has risen. |
| Core.FMTstar.Grow | src/FMTstar/fmt_star.cpp:232-257 | The accepting branch adds exactly one node at the steered position and one index entry. It leaves a valid planner with every tree edge visible, where no near node can still be improved through it, and no old cost has risen. |
| Core.FMTstar.TryExtend | src/FMTstar/fmt_star.cpp:216-257 | A round inserts exactly when the sample differs from the nearest point and the steered position is new, free (255) and visible from the nearest point. Then one node and one index entry are added; otherwise nothing changes. Every tree edge stays visible. |
| Core.FMTstar.ExtendRounds | src/FMTstar/fmt_star.cpp:215-258 | Rounds are tried in order until the first accepted one; all earlier rounds were rejected and changed nothing. The planner stays valid with every tree edge visible. |
| Core.FMTstar.Extend | src/FMTstar/fmt_star.cpp:213-260 | The rounds loop, then the counter rises by exactly one when a round was accepted. |

## Left out

- `_sampling` (`rand()`), the KD-tree internals and `_find_nearest`/`_find_near`:
  - the sample, the nearest point and the range-query answer are inputs (`Attempt`);
  - `IsNearest` and `NearList` specify the queries over the index set;
  - `KDTree2D.h` is not part of this model.
- The radius formula of `_find_near` (`pow`, `log`): the radius is an input, and `_ball_radius` is set to it.
- The scaling branch of `_steer` (`sqrt`, fractional positions): the steered position is an input. `Answers` requires it to lie in the grid and to be the sample itself when the sample is within the segment length of the nearest point.
- Core.FMTstar.Answers and Core.FMTstar.TryExtend: `_sampling` (lines 117-118) returns x == width or y == height when `rand()` returns `RAND_MAX`. `_steer` keeps such a sample when it lies within the segment length of the nearest point, and `_is_in_obstacle` (line 145) then reads outside the grid. `Answers` requires the steered position to lie in the grid, so the model does not cover that round.
- Floating point:
  - costs are `real`;
  - `std::numeric_limits<double>::max()` is the exact real `MaxDouble`;
  - the `float` arithmetic of `_is_obstacle_free` is exact integer arithmetic. The error term moves in half-integer steps, which a `float` holds exactly only while the segment's extents stay below 2^23.
- The cost functions (`calc_dist`, `calc_cost`) live outside these files: the cost function is an abstract `(Pos, Pos) -> real`. It does not see the cost distribution or the planner, and `Valid` assumes it is never negative.
- Memory management: the `delete` of the old root in `init` and the destructors. The arena keeps every node, which matches the code's list.
- `dump_distribution` (file output) and the `std::cout` message of `_rewire_near_nodes`. `Detach` proves that branch unreachable on a valid planner.
- The read-only getters of `fmt_star.h` (lines 46-53): the fields are public in the model and read directly.
- Core.FMTstar.Extend: the source retries without bound until a round is accepted. The model takes a finite list of rounds and returns -1, changing nothing, when all are rejected.
- Core.FMTstar.RemoveEdge: an erase of the last list entry followed by `it++` past `end()` is undefined behaviour in C++. It is modelled as the end of the walk.
- Core.FMTstar.FindAllChildren: the early stop when a pass adds no node (line 393) is proved unreachable on an acyclic arena rather than modelled as a branch that can run.
- Core.FMTstar.RewireNearNodes, Core.FMTstar.Connect and Core.FMTstar.Grow: exact edge costs are not restated across the whole rewiring pass. `RewireKeepsEdgeCosts` and `AttachKeepsEdgeCosts` state them per step, the former for subtrees within the level cap.
- Core.FMTstar.TryExtend and Core.FMTstar.Grow: the attach pick is not restated in their contracts. `Connect`, `Join` and `AttachNewNode` state it.
- Core.FMTstar.Init: the tree invariant is stated only for a planner with no nodes, because the code keeps the nodes of an earlier run.
- The Qt/XML front end (`src/FMTstarViz`, `src/FMTstarVizDemo`) is not part of this model.
