/** The parent/child links of the planner's node arena, as values.
    A node is an index into the arena; a parent link of -1 stands for
    the source's null parent pointer. */
module Forest {

  /** No two entries of s are equal. */
  predicate NoDup<T(==)>(s: seq<T>)
  {
    forall i, j :: 0 <= i < j < |s| ==> s[i] != s[j]
  }

  /** Every parent link is -1 or a node of the arena. */
  predicate Closed(parent: seq<int>)
  {
    forall x :: 0 <= x < |parent| ==> -1 <= parent[x] < |parent|
  }

  /** The k-th ancestor of x (x itself for k = 0); -1 once the chain ends. */
  function Anc(parent: seq<int>, x: int, k: nat): (r: int)
    requires Closed(parent) && -1 <= x < |parent|
    ensures -1 <= r < |parent|
    ensures x == -1 ==> r == -1
    decreases k
  {
    if k == 0 then x else if x == -1 then -1 else Anc(parent, parent[x], k - 1)
  }

  /** The parent chain of x ends. */
  ghost predicate Reaches(parent: seq<int>, x: int)
    requires Closed(parent) && -1 <= x < |parent|
  {
    exists k: nat :: Anc(parent, x, k) == -1
  }

  /** No node is its own ancestor: every parent chain ends. */
  ghost predicate Acyclic(parent: seq<int>)
  {
    Closed(parent) && forall x :: 0 <= x < |parent| ==> Reaches(parent, x)
  }

  lemma {:induction false} AncAdd(parent: seq<int>, x: int, a: nat, b: nat)
    requires Closed(parent) && -1 <= x < |parent|
    ensures Anc(parent, x, a + b) == Anc(parent, Anc(parent, x, a), b)
    decreases a
  {
    if a > 0 && x != -1 {
      AncAdd(parent, parent[x], a - 1, b);
    }
  }

  /** Once a chain has ended it stays ended. */
  lemma AncEnded(parent: seq<int>, x: int, j: nat, k: nat)
    requires Closed(parent) && -1 <= x < |parent| && j <= k
    ensures Anc(parent, x, j) == -1 ==> Anc(parent, x, k) == -1
  {
    AncAdd(parent, x, j, k - j);
  }

  /** A node that is its own d-th ancestor has a chain that never ends. */
  lemma {:induction false} CycleNeverEnds(parent: seq<int>, x: int, d: nat, j: nat)
    requires Closed(parent) && 0 <= x < |parent| && d >= 1
    ensures Anc(parent, x, d) == x ==> Anc(parent, x, j) != -1
    decreases j
  {
    if j >= d {
      AncAdd(parent, x, d, j - d);
      CycleNeverEnds(parent, x, d, j - d);
    } else {
      AncEnded(parent, x, j, d);
    }
  }

  /** In an acyclic arena no node is a proper ancestor of itself. */
  lemma NotOwnAncestor(parent: seq<int>, x: int, d: nat)
    requires Acyclic(parent) && 0 <= x < |parent| && d >= 1
    ensures Anc(parent, x, d) != x
  {
    assert Reaches(parent, x);
    var k: nat :| Anc(parent, x, k) == -1;
    CycleNeverEnds(parent, x, d, k);
  }

  /** A chain that never meets c is not affected by relinking c. */
  lemma {:induction false} ChainAvoiding(parent: seq<int>, c: int, v: int, y: int, k: nat)
    requires Closed(parent) && 0 <= c < |parent| && -1 <= v < |parent| && -1 <= y < |parent|
    requires forall i: nat :: Anc(parent, y, i) != c
    ensures Closed(parent[c := v])
    ensures Anc(parent[c := v], y, k) == Anc(parent, y, k)
    decreases k
  {
    if k > 0 && y != -1 {
      assert Anc(parent, y, 0) != c;
      forall i: nat ensures Anc(parent, parent[y], i) != c {
        assert Anc(parent, y, i + 1) != c;
      }
      ChainAvoiding(parent, c, v, parent[y], k - 1);
    }
  }

  lemma {:induction false} ReachesAfterRelink(parent: seq<int>, c: int, p: int, x: int, k: nat)
    requires Acyclic(parent) && 0 <= c < |parent| && 0 <= p < |parent|
    requires forall i: nat :: Anc(parent, p, i) != c
    requires -1 <= x < |parent| && Anc(parent, x, k) == -1
    ensures Closed(parent[c := p]) && Reaches(parent[c := p], x)
    decreases k
  {
    var q := parent[c := p];
    assert Closed(q);
    if x == -1 {
      assert Anc(q, x, 0) == -1;
    } else if x == c {
      assert Reaches(parent, p);
      var k1: nat :| Anc(parent, p, k1) == -1;
      ChainAvoiding(parent, c, p, p, k1);
      assert Anc(q, x, k1 + 1) == Anc(q, p, k1);
    } else {
      ReachesAfterRelink(parent, c, p, parent[x], k - 1);
      var k2: nat :| Anc(q, parent[x], k2) == -1;
      assert Anc(q, x, k2 + 1) == Anc(q, q[x], k2);
    }
  }

  /** Re-parenting c under p keeps the arena acyclic when c is not an
      ancestor of p. */
  lemma RelinkKeepsAcyclic(parent: seq<int>, c: int, p: int)
    requires Acyclic(parent) && 0 <= c < |parent| && 0 <= p < |parent|
    requires forall i: nat :: Anc(parent, p, i) != c
    ensures Acyclic(parent[c := p])
  {
    var q := parent[c := p];
    forall x | 0 <= x < |q| ensures Reaches(q, x) {
      assert Reaches(parent, x);
      var k: nat :| Anc(parent, x, k) == -1;
      ReachesAfterRelink(parent, c, p, x, k);
    }
  }

  /** Clearing a parent link keeps the arena acyclic. */
  lemma CutKeepsAcyclic(parent: seq<int>, c: int)
    requires Acyclic(parent) && 0 <= c < |parent|
    ensures Acyclic(parent[c := -1])
  {
    var q := parent[c := -1];
    assert Closed(q);
    forall x | 0 <= x < |q| ensures Reaches(q, x) {
      assert Reaches(parent, x);
      var k: nat :| Anc(parent, x, k) == -1;
      CutReaches(parent, c, x, k);
    }
  }

  lemma {:induction false} CutReaches(parent: seq<int>, c: int, x: int, k: nat)
    requires Closed(parent) && 0 <= c < |parent| && -1 <= x < |parent|
    requires Anc(parent, x, k) == -1
    ensures Closed(parent[c := -1]) && Reaches(parent[c := -1], x)
    decreases k
  {
    var q := parent[c := -1];
    assert Closed(q);
    if x == -1 {
      assert Anc(q, x, 0) == -1;
    } else if x == c {
      assert Anc(q, x, 1) == -1;
    } else {
      CutReaches(parent, c, parent[x], k - 1);
      var k2: nat :| Anc(q, parent[x], k2) == -1;
      assert Anc(q, x, k2 + 1) == Anc(q, q[x], k2);
    }
  }

  // ----- Chain length, get_ancestor, get_parent_node_list -----

  ghost function LeastEnd(parent: seq<int>, x: int, j: nat, k: nat): (r: nat)
    requires Closed(parent) && -1 <= x < |parent|
    requires j <= k && Anc(parent, x, k) == -1
    requires forall i :: 0 <= i < j ==> Anc(parent, x, i) != -1
    ensures Anc(parent, x, r) == -1
    ensures forall i :: 0 <= i < r ==> Anc(parent, x, i) != -1
    decreases k - j
  {
    if Anc(parent, x, j) == -1 then j else LeastEnd(parent, x, j + 1, k)
  }

  /** The number of nodes on the parent chain of x, x included. */
  ghost function Steps(parent: seq<int>, x: int): (k: nat)
    requires Closed(parent) && -1 <= x < |parent| && Reaches(parent, x)
    ensures Anc(parent, x, k) == -1
    ensures forall i :: 0 <= i < k ==> Anc(parent, x, i) != -1
  {
    var k0: nat :| Anc(parent, x, k0) == -1;
    LeastEnd(parent, x, 0, k0)
  }

  /** The chain of a node's parent is one shorter. */
  lemma StepsParent(parent: seq<int>, x: int)
    requires Closed(parent) && 0 <= x < |parent| && Reaches(parent, x)
    ensures Reaches(parent, parent[x])
    ensures Steps(parent, x) >= 1 && Steps(parent, parent[x]) == Steps(parent, x) - 1
  {
    var s := Steps(parent, x);
    assert Anc(parent, x, 0) == x;
    assert Anc(parent, x, s) == Anc(parent, parent[x], s - 1);
    var t := Steps(parent, parent[x]);
    assert Anc(parent, x, t + 1) == Anc(parent, parent[x], t);
  }

  /** get_ancestor: follow parent links until a node without a parent;
      null maps to null. */
  function Ancestor(parent: seq<int>, x: int): (r: int)
    requires Acyclic(parent) && -1 <= x < |parent|
    ensures -1 <= r < |parent|
    ensures (r == -1) == (x == -1)
    ensures r != -1 ==> parent[r] == -1
    ensures x != -1 ==> r == Anc(parent, x, Steps(parent, x) - 1)
    decreases if x == -1 then 0 else Steps(parent, x)
  {
    if x == -1 then -1
    else if parent[x] == -1 then
      assert Anc(parent, x, 1) == -1 && Anc(parent, x, 0) == x;
      x
    else
      StepsParent(parent, x);
      assert Anc(parent, x, Steps(parent, x) - 1)
          == Anc(parent, parent[x], Steps(parent, parent[x]) - 1);
      Ancestor(parent, parent[x])
  }

  /** get_parent_node_list: append x, then each successive parent, to the
      caller's list until the chain ends. */
  method GetParentNodeList(parent: seq<int>, x: int, path: seq<int>) returns (out: seq<int>)
    requires Acyclic(parent) && -1 <= x < |parent|
    ensures x == -1 ==> out == path
    ensures x != -1 ==> |out| == |path| + Steps(parent, x)
    ensures |out| >= |path| && out[..|path|] == path
    ensures forall i :: |path| <= i < |out| ==> out[i] == Anc(parent, x, i - |path|)
    ensures forall i :: |path| <= i < |out| - 1 ==> 0 <= out[i] < |parent| && out[i + 1] == parent[out[i]]
    ensures x != -1 ==> out[|out| - 1] == Ancestor(parent, x)
    decreases if x == -1 then 0 else Steps(parent, x)
  {
    if x == -1 {
      return path;
    }
    StepsParent(parent, x);
    out := GetParentNodeList(parent, parent[x], path + [x]);
    forall i | |path| <= i < |out|
      ensures out[i] == Anc(parent, x, i - |path|)
    {
      if i > |path| {
        assert Anc(parent, x, i - |path|) == Anc(parent, parent[x], i - |path| - 1);
      }
    }
    forall i | |path| <= i < |out| - 1
      ensures 0 <= out[i] < |parent| && out[i + 1] == parent[out[i]]
    {
      var k := i - |path|;
      assert k < Steps(parent, x);
      AncAdd(parent, x, k, 1);
    }
  }

  // ----- std::list::unique -----

  /** std::list::unique: drop every element equal to the one before it. */
  function Unique(s: seq<nat>): (r: seq<nat>)
    ensures |r| <= |s|
    ensures forall v :: v in r <==> v in s
    ensures |s| > 0 ==> |r| > 0 && r[0] == s[0]
    ensures forall i :: 0 <= i < |r| - 1 ==> r[i] != r[i + 1]
  {
    if |s| <= 1 then s
    else if s[0] == s[1] then Unique(s[1..])
    else [s[0]] + Unique(s[1..])
  }

  /** unique changes nothing in a list without adjacent equal elements. */
  lemma {:induction false} UniqueNoAdjacent(s: seq<nat>)
    requires forall i :: 0 <= i < |s| - 1 ==> s[i] != s[i + 1]
    ensures Unique(s) == s
  {
    if |s| > 1 {
      UniqueNoAdjacent(s[1..]);
    }
  }

  /** unique read from the back: appending x to s adds x to unique(s)
      unless it repeats the last element of s. So unique keeps exactly the
      first element of each run of equal neighbours, in order. */
  lemma {:induction false} UniqueSnoc(s: seq<nat>, x: nat)
    ensures Unique(s + [x]) == if s != [] && s[|s| - 1] == x then Unique(s) else Unique(s) + [x]
    decreases |s|
  {
    if |s| >= 2 {
      assert (s + [x])[1..] == s[1..] + [x];
      UniqueSnoc(s[1..], x);
    } else if |s| == 1 {
      assert (s + [x])[1..] == [x];
    }
  }

  // ----- Breadth-first levels below a node -----

  predicate WellFormed(parent: seq<int>, children: seq<seq<nat>>)
  {
    && Closed(parent)
    && |children| == |parent|
    && (forall p, i :: 0 <= p < |children| && 0 <= i < |children[p]| ==> children[p][i] < |parent|)
  }

  /** Child lists and parent links are mutual inverses, and a child appears
      in its parent's list at most once. */
  predicate Linked(parent: seq<int>, children: seq<seq<nat>>)
  {
    && WellFormed(parent, children)
    && (forall p, c :: 0 <= p < |parent| && 0 <= c < |parent| ==> (c in children[p] <==> parent[c] == p))
    && (forall p :: 0 <= p < |parent| ==> NoDup(children[p]))
  }

  predicate InArena(n: int, s: seq<nat>)
  {
    forall i :: 0 <= i < |s| ==> s[i] < n
  }

  /** The children of the nodes of a level, list by list, in order. */
  function Kids(children: seq<seq<nat>>, level: seq<nat>): (r: seq<nat>)
    requires InArena(|children|, level)
  {
    if level == [] then []
    else Kids(children, level[..|level| - 1]) + children[level[|level| - 1]]
  }

  /** The nodes at depth d below n. */
  function Level(children: seq<seq<nat>>, n: nat, d: nat): (r: seq<nat>)
    requires n < |children|
    requires forall p, i :: 0 <= p < |children| && 0 <= i < |children[p]| ==> children[p][i] < |children|
    ensures InArena(|children|, r)
  {
    if d == 0 then [n] else KidsInArena(children, Level(children, n, d - 1)); Kids(children, Level(children, n, d - 1))
  }

  lemma {:induction false} KidsInArena(children: seq<seq<nat>>, level: seq<nat>)
    requires InArena(|children|, level)
    requires forall p, i :: 0 <= p < |children| && 0 <= i < |children[p]| ==> children[p][i] < |children|
    ensures InArena(|children|, Kids(children, level))
    decreases |level|
  {
    if level != [] {
      KidsInArena(children, level[..|level| - 1]);
    }
  }

  /** The nodes at depths 1 to d below n, level after level. */
  function Below(children: seq<seq<nat>>, n: nat, d: nat): (r: seq<nat>)
    requires n < |children|
    requires forall p, i :: 0 <= p < |children| && 0 <= i < |children[p]| ==> children[p][i] < |children|
  {
    if d == 0 then [] else Below(children, n, d - 1) + Level(children, n, d)
  }

  /** A node is a child of some node of the level exactly when its parent
      lies in the level. */
  lemma {:induction false} KidsMembers(parent: seq<int>, children: seq<seq<nat>>, level: seq<nat>, x: int)
    requires Linked(parent, children) && InArena(|parent|, level) && 0 <= x < |parent|
    ensures x in Kids(children, level) <==> parent[x] in level
    decreases |level|
  {
    if level != [] {
      var init := level[..|level| - 1];
      var last := level[|level| - 1];
      KidsMembers(parent, children, init, x);
      assert level == init + [last];
    }
  }

  lemma {:induction false} KidsInRange(parent: seq<int>, children: seq<seq<nat>>, level: seq<nat>)
    requires WellFormed(parent, children) && InArena(|parent|, level)
    ensures InArena(|parent|, Kids(children, level))
    decreases |level|
  {
    if level != [] {
      KidsInRange(parent, children, level[..|level| - 1]);
    }
  }

  /** The children of a list of distinct nodes are distinct. */
  lemma {:induction false} KidsNoDup(parent: seq<int>, children: seq<seq<nat>>, level: seq<nat>)
    requires Linked(parent, children) && InArena(|parent|, level) && NoDup(level)
    ensures NoDup(Kids(children, level))
    decreases |level|
  {
    if level != [] {
      var init := level[..|level| - 1];
      var last := level[|level| - 1];
      KidsNoDup(parent, children, init);
      KidsInRange(parent, children, init);
      var a := Kids(children, init);
      var b := children[last];
      forall i, j | 0 <= i < |a| && 0 <= j < |b| ensures a[i] != b[j] {
        KidsMembers(parent, children, init, a[i]);
        assert a[i] in a;
        assert b[j] in b;
        assert last !in init;
      }
      assert Kids(children, level) == a + b;
    }
  }

  /** depth d below n means n is the d-th ancestor. */
  lemma {:induction false} LevelMembers(parent: seq<int>, children: seq<seq<nat>>, n: nat, d: nat, x: int)
    requires Linked(parent, children) && n < |parent| && 0 <= x < |parent|
    ensures x in Level(children, n, d) <==> Anc(parent, x, d) == n
    decreases d
  {
    if d > 0 {
      var prev := Level(children, n, d - 1);
      KidsMembers(parent, children, prev, x);
      if parent[x] >= 0 {
        LevelMembers(parent, children, n, d - 1, parent[x]);
      } else {
        assert Anc(parent, -1, d - 1) == -1;
      }
    }
  }

  /** A level has no repeated node. */
  lemma {:induction false} LevelNoDup(parent: seq<int>, children: seq<seq<nat>>, n: nat, d: nat)
    requires Linked(parent, children) && n < |parent|
    ensures NoDup(Level(children, n, d))
    decreases d
  {
    if d > 0 {
      LevelNoDup(parent, children, n, d - 1);
      KidsNoDup(parent, children, Level(children, n, d - 1));
    }
  }

  /** In an acyclic arena a node lies at one depth below n at most. */
  lemma LevelsDisjoint(parent: seq<int>, children: seq<seq<nat>>, n: nat, i: nat, j: nat, x: int)
    requires Linked(parent, children) && Acyclic(parent) && n < |parent| && 0 <= x < |parent| && i < j
    ensures !(x in Level(children, n, i) && x in Level(children, n, j))
  {
    LevelMembers(parent, children, n, i, x);
    LevelMembers(parent, children, n, j, x);
    AncAdd(parent, x, i, j - i);
    NotOwnAncestor(parent, n, j - i);
  }

  /** Once a level is empty, every deeper one is. */
  lemma {:induction false} LevelEmptyStays(children: seq<seq<nat>>, n: nat, d: nat, e: nat)
    requires n < |children|
    requires forall p, i :: 0 <= p < |children| && 0 <= i < |children[p]| ==> children[p][i] < |children|
    requires d <= e && Level(children, n, d) == []
    ensures Level(children, n, e) == []
    decreases e - d
  {
    if d < e {
      LevelEmptyStays(children, n, d, e - 1);
    }
  }

  /** The nodes of Below(n, d): those with n as e-th ancestor, 1 <= e <= d. */
  lemma {:induction false} BelowMembers(parent: seq<int>, children: seq<seq<nat>>, n: nat, d: nat, x: int)
    requires Linked(parent, children) && n < |parent| && 0 <= x < |parent|
    ensures x in Below(children, n, d) <==> exists e :: 1 <= e <= d && Anc(parent, x, e) == n
    decreases d
  {
    if d > 0 {
      BelowMembers(parent, children, n, d - 1, x);
      LevelMembers(parent, children, n, d, x);
    }
  }

  /** Without cycles, no node lies below itself. */
  lemma NotBelowSelf(parent: seq<int>, children: seq<seq<nat>>, n: nat, d: nat)
    requires Linked(parent, children) && Acyclic(parent) && n < |parent|
    ensures n !in Below(children, n, d)
  {
    BelowMembers(parent, children, n, d, n);
    forall e | 1 <= e <= d ensures Anc(parent, n, e) != n {
      NotOwnAncestor(parent, n, e);
    }
  }

  /** n is an ancestor of x at most d steps up, and not x itself. */
  ghost predicate Descends(parent: seq<int>, x: int, n: int, d: nat)
    requires Closed(parent) && -1 <= x < |parent|
  {
    exists e :: 1 <= e <= d && Anc(parent, x, e) == n
  }

  /** BelowMembers for every node at once. */
  lemma BelowMembersAll(parent: seq<int>, children: seq<seq<nat>>, n: nat, d: nat)
    requires Linked(parent, children) && n < |parent|
    ensures forall x :: 0 <= x < |parent| ==> (x in Below(children, n, d) <==> Descends(parent, x, n, d))
  {
    forall x | 0 <= x < |parent| ensures x in Below(children, n, d) <==> exists e :: 1 <= e <= d && Anc(parent, x, e) == n {
      BelowMembers(parent, children, n, d, x);
    }
  }

  lemma {:induction false} BelowInArena(parent: seq<int>, children: seq<seq<nat>>, n: nat, d: nat)
    requires WellFormed(parent, children) && n < |parent|
    ensures InArena(|parent|, Below(children, n, d))
    decreases d
  {
    if d > 0 {
      BelowInArena(parent, children, n, d - 1);
    }
  }

  lemma NoDupConcat(a: seq<nat>, b: seq<nat>)
    requires NoDup(a) && NoDup(b)
    requires forall i, j :: 0 <= i < |a| && 0 <= j < |b| ==> a[i] != b[j]
    ensures NoDup(a + b)
  {
    var c := a + b;
    forall i, j | 0 <= i < j < |c| ensures c[i] != c[j] {
      if j < |a| {
      } else if i >= |a| {
        assert c[i] == b[i - |a|] && c[j] == b[j - |a|];
      } else {
        assert c[j] == b[j - |a|];
      }
    }
  }

  /** Level d shares no node with the levels above it. */
  lemma BelowLevelDisjoint(parent: seq<int>, children: seq<seq<nat>>, n: nat, d: nat, x: int)
    requires Linked(parent, children) && Acyclic(parent) && n < |parent| && d >= 1
    requires x in Below(children, n, d - 1)
    ensures x !in Level(children, n, d)
  {
    BelowInArena(parent, children, n, d - 1);
    assert 0 <= x < |parent|;
    BelowMembers(parent, children, n, d - 1, x);
    assert Descends(parent, x, n, d - 1);
    var e :| 1 <= e <= d - 1 && Anc(parent, x, e) == n;
    AncOnce(parent, x, n, e, d);
    assert Anc(parent, x, d) != n;
    LevelMembers(parent, children, n, d, x);
  }

  /** Without cycles, a chain passes through a node at most once. */
  lemma AncOnce(parent: seq<int>, x: int, n: nat, e: nat, d: nat)
    requires Acyclic(parent) && 0 <= x < |parent| && n < |parent| && e < d && Anc(parent, x, e) == n
    ensures Anc(parent, x, d) != n
  {
    AncAdd(parent, x, e, d - e);
    assert Anc(parent, x, d) == Anc(parent, n, d - e);
    NotOwnAncestor(parent, n, d - e);
  }

  /** In an acyclic arena the levels 1..d below n hold no node twice and
      never n itself. */
  lemma BelowNoDup(parent: seq<int>, children: seq<seq<nat>>, n: nat, d: nat)
    requires Linked(parent, children) && Acyclic(parent) && n < |parent|
    ensures NoDup(Below(children, n, d))
    ensures n !in Below(children, n, d)
  {
    BelowNoRepeat(parent, children, n, d);
    NotBelowSelf(parent, children, n, d);
  }

  /** The duplicate-freedom half of BelowNoDup, level by level. */
  lemma {:induction false} BelowNoRepeat(parent: seq<int>, children: seq<seq<nat>>, n: nat, d: nat)
    requires Linked(parent, children) && Acyclic(parent) && n < |parent|
    ensures NoDup(Below(children, n, d))
    decreases d
  {
    if d > 0 {
      BelowNoRepeat(parent, children, n, d - 1);
      BelowStepNoDup(parent, children, n, d);
    }
  }

  /** Below(n, d - 1) and Level(n, d) share no node, so their join keeps
      NoDup. */
  lemma BelowStepNoDup(parent: seq<int>, children: seq<seq<nat>>, n: nat, d: nat)
    requires Linked(parent, children) && Acyclic(parent) && n < |parent| && d >= 1
    requires NoDup(Below(children, n, d - 1))
    ensures NoDup(Below(children, n, d))
  {
    var a := Below(children, n, d - 1);
    var b := Level(children, n, d);
    LevelNoDup(parent, children, n, d);
    forall i, j | 0 <= i < |a| && 0 <= j < |b| ensures a[i] != b[j] {
      assert a[i] in a;
      BelowLevelDisjoint(parent, children, n, d, a[i]);
      assert b[j] in b;
    }
    NoDupConcat(a, b);
  }

  /** Every node of Below(n, d) hangs under n or under another node of it. */
  lemma BelowParentClosed(parent: seq<int>, children: seq<seq<nat>>, n: nat, d: nat, x: int)
    requires Linked(parent, children) && n < |parent| && 0 <= x < |parent|
    requires x in Below(children, n, d)
    ensures 0 <= parent[x] < |parent|
    ensures parent[x] == n || parent[x] in Below(children, n, d)
  {
    BelowMembers(parent, children, n, d, x);
    var e :| 1 <= e <= d && Anc(parent, x, e) == n;
    var p := parent[x];
    assert Anc(parent, x, e) == Anc(parent, p, e - 1);
    assert p != -1;
    if e > 1 {
      BelowMembers(parent, children, n, d, p);
      assert 1 <= e - 1 <= d && Anc(parent, p, e - 1) == n;
    }
  }

  // ----- Costs along the tree -----

  /** A child never costs less than its parent. */
  predicate Monotone(parent: seq<int>, cost: seq<real>)
    requires Closed(parent)
  {
    |cost| == |parent| &&
    forall x :: 0 <= x < |parent| && parent[x] >= 0 ==> cost[parent[x]] <= cost[x]
  }

  /** Along a monotone chain an ancestor costs no more than its descendant. */
  lemma {:induction false} AncestorNoDearer(parent: seq<int>, cost: seq<real>, x: int, k: nat)
    requires Closed(parent) && Monotone(parent, cost) && 0 <= x < |parent|
    requires Anc(parent, x, k) != -1
    ensures cost[Anc(parent, x, k)] <= cost[x]
    decreases k
  {
    if k > 0 {
      assert Anc(parent, x, k) == Anc(parent, parent[x], k - 1);
      AncestorNoDearer(parent, cost, parent[x], k - 1);
    }
  }

  /** A node that a strictly cheaper route through v would improve is not
      an ancestor of v. */
  lemma ImprovedIsNotAncestor(parent: seq<int>, cost: seq<real>, v: int, c: int, edge: real)
    requires Closed(parent) && Monotone(parent, cost) && 0 <= v < |parent| && 0 <= c < |parent|
    requires edge >= 0.0 && cost[v] + edge < cost[c]
    ensures forall i: nat :: Anc(parent, v, i) != c
  {
    forall i: nat ensures Anc(parent, v, i) != c {
      if Anc(parent, v, i) != -1 {
        AncestorNoDearer(parent, cost, v, i);
      }
    }
  }

  /** Subtract delta from the cost of every node of l. */
  function Lower(cost: seq<real>, l: seq<nat>, delta: real): (r: seq<real>)
    ensures |r| == |cost|
    ensures forall i :: 0 <= i < |cost| && i !in l ==> r[i] == cost[i]
    ensures forall i :: 0 <= i < |cost| && i in l ==> r[i] == cost[i] - delta
  {
    seq(|cost|, i requires 0 <= i < |cost| => if i in l then cost[i] - delta else cost[i])
  }

  /** Lowering one more node, not lowered before. */
  lemma LowerStep(cost: seq<real>, l: seq<nat>, x: nat, delta: real)
    requires x < |cost| && x !in l
    ensures Lower(cost, l + [x], delta) == Lower(cost, l, delta)[x := cost[x] - delta]
  {
    var a := Lower(cost, l + [x], delta);
    var b := Lower(cost, l, delta)[x := cost[x] - delta];
    forall i | 0 <= i < |cost| ensures a[i] == b[i] {
      assert i in l + [x] <==> i in l || i == x;
    }
  }

  /** Lowering the first i + 1 entries of a duplicate-free list is
      lowering the first i, then entry i. */
  lemma LowerNext(cost: seq<real>, l: seq<nat>, i: nat, delta: real)
    requires NoDup(l) && i < |l| && l[i] < |cost|
    ensures Lower(cost, l[..i + 1], delta) == Lower(cost, l[..i], delta)[l[i] := Lower(cost, l[..i], delta)[l[i]] - delta]
  {
    assert l[..i + 1] == l[..i] + [l[i]];
    LowerStep(cost, l[..i], l[i], delta);
  }

  /** Re-parenting c under v with the cheaper cost nc = cost[v] + edge and
      lowering every node of c's subtree (down to depth d) by the gain
      keeps costs monotone. */
  lemma RewireKeepsMonotone(parent: seq<int>, parent': seq<int>, children': seq<seq<nat>>,
                            cost: seq<real>, c: nat, v: nat, nc: real, d: nat)
    requires Closed(parent) && Monotone(parent, cost)
    requires c < |parent| && v < |parent| && c != v
    requires parent' == parent[c := v]
    requires Linked(parent', children') && Acyclic(parent')
    requires cost[v] <= nc < cost[c]
    requires v !in Below(children', c, d)
    ensures Monotone(parent', Lower(cost[c := nc], Below(children', c, d), cost[c] - nc))
  {
    var l := Below(children', c, d);
    var delta := cost[c] - nc;
    var cost' := Lower(cost[c := nc], l, delta);
    BelowNoDup(parent', children', c, d);
    forall x | 0 <= x < |parent'| && parent'[x] >= 0
      ensures cost'[parent'[x]] <= cost'[x]
    {
      var p := parent'[x];
      if x == c {
      } else if x in l {
        BelowParentClosed(parent', children', c, d, x);
      }
    }
  }
  // ----- Growing the arena -----

  lemma {:induction false} AncGrow(parent: seq<int>, x: int, k: nat)
    requires Closed(parent) && -1 <= x < |parent|
    ensures Closed(parent + [-1]) && Anc(parent + [-1], x, k) == Anc(parent, x, k)
    decreases k
  {
    var q := parent + [-1];
    assert Closed(q);
    if k > 0 && x != -1 {
      assert q[x] == parent[x];
      AncGrow(parent, parent[x], k - 1);
    }
  }

  /** Appending a parentless, childless node keeps the links mutual and the
      arena acyclic. */
  lemma GrowKeepsShape(parent: seq<int>, children: seq<seq<nat>>)
    requires Linked(parent, children) && Acyclic(parent)
    ensures Linked(parent + [-1], children + [[]]) && Acyclic(parent + [-1])
  {
    var q := parent + [-1];
    var ch := children + [[]];
    assert Closed(q);
    forall p, i | 0 <= p < |ch| && 0 <= i < |ch[p]| ensures ch[p][i] < |q| {
      assert ch[p] == children[p];
    }
    forall p, c | 0 <= p < |q| && 0 <= c < |q| ensures c in ch[p] <==> q[c] == p {
      if p < |parent| && c < |parent| {
        assert ch[p] == children[p];
      } else if p < |parent| {
        assert c !in children[p];
      }
    }
    forall p | 0 <= p < |q| ensures NoDup(ch[p]) {
      if p < |parent| { assert ch[p] == children[p]; }
    }
    forall x | 0 <= x < |q| ensures Reaches(q, x) {
      if x < |parent| {
        assert Reaches(parent, x);
        var k: nat :| Anc(parent, x, k) == -1;
        AncGrow(parent, x, k);
      } else {
        assert Anc(q, x, 1) == -1;
      }
    }
  }

  /** A node that is nobody's parent is no ancestor of any other node. */
  lemma {:induction false} LeafNotAncestor(parent: seq<int>, v: int, m: int, i: nat)
    requires Closed(parent) && 0 <= v < |parent| && -1 <= m < |parent| && m != v
    requires forall x :: 0 <= x < |parent| ==> parent[x] != v
    ensures Anc(parent, m, i) != v
    decreases i
  {
    if i > 0 && m != -1 {
      LeafNotAncestor(parent, v, parent[m], i - 1);
    }
  }

  // ----- Editing child lists -----

  /** The list with every entry equal to c dropped, the others in order. */
  function Without(l: seq<nat>, c: nat): (r: seq<nat>)
    ensures forall x :: x in r <==> x in l && x != c
    ensures NoDup(l) ==> NoDup(r)
    ensures c !in l ==> r == l
  {
    if l == [] then []
    else if l[0] == c then Without(l[1..], c)
    else
      var rest := Without(l[1..], c);
      assert NoDup(l) ==> NoDup(l[1..]) && l[0] !in l[1..];
      assert NoDup(l) ==> NoDup([l[0]] + rest) by {
        if NoDup(l) {
          NoDupConcat([l[0]], rest);
        }
      }
      [l[0]] + rest
  }

  /** The entries that `_remove_edge` takes for the child c: c itself or a
      node at c's position. */
  predicate Matches<P(==)>(pos: seq<P>, c: nat, e: nat)
  {
    e == c || (e < |pos| && c < |pos| && pos[e] == pos[c])
  }

  /** What the erase loop of `_remove_edge` leaves of a list: a matching
      entry is erased, the iterator then steps over the entry that moved
      into its place, and the walk ends once an erase reaches the end. */
  function Kept<P(==)>(pos: seq<P>, c: nat, l: seq<nat>): (r: seq<nat>)
    decreases |l|
  {
    if l == [] then []
    else if Matches(pos, c, l[0]) then (if |l| == 1 then [] else [l[1]] + Kept(pos, c, l[2..]))
    else [l[0]] + Kept(pos, c, l[1..])
  }

  /** The entries that loop erases, in order. */
  function Erased<P(==)>(pos: seq<P>, c: nat, l: seq<nat>): (r: seq<nat>)
    decreases |l|
  {
    if l == [] then []
    else if Matches(pos, c, l[0]) then [l[0]] + (if |l| == 1 then [] else Erased(pos, c, l[2..]))
    else Erased(pos, c, l[1..])
  }

  /** The entry after an erased one is never examined: at the first two
      adjacent copies of c the first is erased, the second survives, and
      the walk goes on after it. */
  lemma {:induction false} KeptSkipsNext<P>(pos: seq<P>, c: nat, u: seq<nat>, w: seq<nat>)
    requires forall i :: 0 <= i < |u| ==> !Matches(pos, c, u[i])
    ensures Kept(pos, c, u + [c, c] + w) == u + [c] + Kept(pos, c, w)
    ensures Erased(pos, c, u + [c, c] + w) == [c] + Erased(pos, c, w)
    decreases |u|
  {
    var l := u + [c, c] + w;
    if u == [] {
      assert l[2..] == w;
    } else {
      assert l[0] == u[0] && l[1..] == u[1..] + [c, c] + w;
      KeptSkipsNext(pos, c, u[1..], w);
    }
  }

  /** The skip matters only for adjacent matches: when no two neighbouring
      entries both match, nothing that matches is left behind. */
  lemma {:induction false} KeptNoMatch<P>(pos: seq<P>, c: nat, l: seq<nat>)
    requires forall i :: 0 <= i < |l| - 1 ==> !(Matches(pos, c, l[i]) && Matches(pos, c, l[i + 1]))
    ensures forall i :: 0 <= i < |Kept(pos, c, l)| ==> !Matches(pos, c, Kept(pos, c, l)[i])
    decreases |l|
  {
    if l == [] {
    } else if Matches(pos, c, l[0]) {
      if |l| > 1 {
        assert !Matches(pos, c, l[1]);
        forall i | 0 <= i < |l[2..]| - 1 ensures !(Matches(pos, c, l[2..][i]) && Matches(pos, c, l[2..][i + 1])) {
          assert l[2..][i] == l[i + 2] && l[2..][i + 1] == l[i + 3];
        }
        KeptNoMatch(pos, c, l[2..]);
      }
    } else {
      forall i | 0 <= i < |l[1..]| - 1 ensures !(Matches(pos, c, l[1..][i]) && Matches(pos, c, l[1..][i + 1])) {
        assert l[1..][i] == l[i + 1] && l[1..][i + 1] == l[i + 2];
      }
      KeptNoMatch(pos, c, l[1..]);
    }
  }

  lemma NoDupDrop<T>(s: seq<T>, k: nat)
    requires NoDup(s) && k <= |s|
    ensures NoDup(s[k..])
  {
    forall i, j | 0 <= i < j < |s[k..]| ensures s[k..][i] != s[k..][j] {
      assert s[k..][i] == s[k + i] && s[k..][j] == s[k + j];
    }
  }

  /** When only c itself matches and the list holds no duplicate, the
      erase loop removes exactly c and keeps the other entries in order. */
  lemma {:induction false} KeptSingle<P>(pos: seq<P>, c: nat, l: seq<nat>)
    requires NoDup(l)
    requires forall i :: 0 <= i < |l| && Matches(pos, c, l[i]) ==> l[i] == c
    ensures Kept(pos, c, l) == Without(l, c)
    ensures Erased(pos, c, l) == if c in l then [c] else []
    decreases |l|
  {
    if l != [] {
      NoDupDrop(l, 1);
      if Matches(pos, c, l[0]) {
        assert l[0] == c;
        if |l| > 1 {
          assert l[1] != c && l[1] == l[1..][0];
          assert !Matches(pos, c, l[1]) by { assert l[1] == c ==> false; }
          NoDupDrop(l, 2);
          forall i | 0 <= i < |l[2..]| && Matches(pos, c, l[2..][i]) ensures l[2..][i] == c {
            assert l[2..][i] == l[i + 2];
          }
          KeptSingle(pos, c, l[2..]);
          assert c !in l[2..] by {
            forall i | 0 <= i < |l[2..]| ensures l[2..][i] != c { assert l[2..][i] == l[i + 2]; }
          }
          assert c !in l[1..];
          assert l[1..][1..] == l[2..];
          assert Without(l[1..], c) == [l[1]] + Without(l[2..], c);
        } else {
          assert l[1..] == [];
        }
      } else {
        forall i | 0 <= i < |l[1..]| && Matches(pos, c, l[1..][i]) ensures l[1..][i] == c {
          assert l[1..][i] == l[i + 1];
        }
        KeptSingle(pos, c, l[1..]);
      }
    }
  }

  /** Every link in `s` cleared, in order. */
  function Unlink(parent: seq<int>, s: seq<nat>): (r: seq<int>)
    ensures |r| == |parent|
    ensures forall x :: 0 <= x < |parent| ==> r[x] == if x in s then -1 else parent[x]
    decreases |s|
  {
    if s == [] then parent
    else Unlink(if s[0] < |parent| then parent[s[0] := -1] else parent, s[1..])
  }

  /** The erase walk over a list, stopped with `done` behind it and `rest`
      ahead, has kept `done`, erased `gone` and cleared their links. */
  ghost predicate Walked<P>(pos: seq<P>, c: nat, l0: seq<nat>, base: seq<int>,
                            done: seq<nat>, gone: seq<nat>, links: seq<int>, rest: seq<nat>)
  {
    && done + Kept(pos, c, rest) == Kept(pos, c, l0)
    && gone + Erased(pos, c, rest) == Erased(pos, c, l0)
    && Unlink(links, Erased(pos, c, rest)) == Unlink(base, Erased(pos, c, l0))
  }

  /** One erase: the head of `rest` matches, is erased with its link cleared,
      and the walk steps over the entry after it. */
  lemma WalkErase<P>(pos: seq<P>, c: nat, l0: seq<nat>, base: seq<int>,
                     done: seq<nat>, gone: seq<nat>, links: seq<int>, rest: seq<nat>)
    requires rest != [] && Matches(pos, c, rest[0]) && rest[0] < |links|
    requires Walked(pos, c, l0, base, done, gone, links, rest)
    ensures |rest| == 1 ==> Walked(pos, c, l0, base, done, gone + [rest[0]], links[rest[0] := -1], [])
    ensures |rest| > 1 ==> Walked(pos, c, l0, base, done + [rest[1]], gone + [rest[0]], links[rest[0] := -1], rest[2..])
  {
    var e := Erased(pos, c, if |rest| == 1 then [] else rest[2..]);
    assert Erased(pos, c, rest) == [rest[0]] + e;
    assert gone + [rest[0]] + e == gone + ([rest[0]] + e);
    if |rest| > 1 {
      assert done + [rest[1]] + Kept(pos, c, rest[2..]) == done + Kept(pos, c, rest);
    } else {
      assert done + [] == done + Kept(pos, c, rest);
    }
  }

  /** One step past an entry that does not match. */
  lemma WalkSkip<P>(pos: seq<P>, c: nat, l0: seq<nat>, base: seq<int>,
                    done: seq<nat>, gone: seq<nat>, links: seq<int>, rest: seq<nat>)
    requires rest != [] && !Matches(pos, c, rest[0])
    requires Walked(pos, c, l0, base, done, gone, links, rest)
    ensures Walked(pos, c, l0, base, done + [rest[0]], gone, links, rest[1..])
  {
    assert done + [rest[0]] + Kept(pos, c, rest[1..]) == done + Kept(pos, c, rest);
  }

  /** A finished walk has kept exactly Kept(l0) and cleared exactly the
      links of Erased(l0). */
  lemma WalkDone<P>(pos: seq<P>, c: nat, l0: seq<nat>, base: seq<int>,
                    done: seq<nat>, gone: seq<nat>, links: seq<int>)
    requires Walked(pos, c, l0, base, done, gone, links, [])
    ensures done == Kept(pos, c, l0) && gone == Erased(pos, c, l0)
    ensures links == Unlink(base, Erased(pos, c, l0))
  {
    assert done + [] == done && gone + [] == gone;
  }

  /** Taking c out of its parent q's list and clearing its link keeps the
      other links mutual. */
  lemma DetachLinked(parent: seq<int>, children: seq<seq<nat>>, c: nat, q: nat)
    requires Linked(parent, children) && c < |parent| && parent[c] == q
    ensures q < |parent| && c in children[q]
    ensures Linked(parent[c := -1], children[q := Without(children[q], c)])
  {
    var p' := parent[c := -1];
    var ch := children[q := Without(children[q], c)];
    assert Closed(p');
    forall p, i | 0 <= p < |ch| && 0 <= i < |ch[p]| ensures ch[p][i] < |p'| {
      if p == q { assert ch[p][i] in children[q]; }
    }
    forall p, x | 0 <= p < |p'| && 0 <= x < |p'| ensures x in ch[p] <==> p'[x] == p {
    }
  }

  /** The child lists after `_add_edge(p, c)` accepts: c appended to p's
      list unless already there, then adjacent repeats dropped from c's
      own list. */
  function Adopt(children: seq<seq<nat>>, p: nat, c: nat): (r: seq<seq<nat>>)
    requires p < |children| && c < |children| && p != c
    ensures |r| == |children|
    ensures c in r[p] && r[c] == Unique(children[c])
    ensures r[p] == if c in children[p] then children[p] else children[p] + [c]
    ensures forall x :: 0 <= x < |children| && x != p && x != c ==> r[x] == children[x]
  {
    var ch := if c in children[p] then children else children[p := children[p] + [c]];
    ch[c := Unique(ch[c])]
  }

  /** Because `_add_edge` pushes c only when `_has_edge` is false, p's list
      holds c, once, and gains no repeat. */
  lemma AdoptNoDup(children: seq<seq<nat>>, p: nat, c: nat)
    requires p < |children| && c < |children| && p != c && NoDup(children[p])
    ensures c in Adopt(children, p, c)[p] && NoDup(Adopt(children, p, c)[p])
  {
    var l := Adopt(children, p, c)[p];
    if c !in children[p] {
      assert l == children[p] + [c];
      forall i, j | 0 <= i < j < |l| ensures l[i] != l[j] {
        if j == |l| - 1 {
          assert l[i] == children[p][i] && l[j] == c;
        }
      }
    }
  }

  /** For a parentless c in a Linked arena, adopting appends c to p's list
      and leaves c's own list as it was. */
  lemma AdoptParentless(parent: seq<int>, children: seq<seq<nat>>, c: nat, p: nat)
    requires Linked(parent, children) && c < |parent| && p < |parent| && p != c && parent[c] == -1
    ensures Adopt(children, p, c) == children[p := children[p] + [c]]
    ensures Linked(parent[c := p], Adopt(children, p, c))
  {
    AdoptLinked(parent, children, c, p);
    UniqueNoAdjacent(children[c]);
  }

  /** Hanging a parentless node c under p, appended to p's list, keeps the
      links mutual and every list free of duplicates. */
  lemma AdoptLinked(parent: seq<int>, children: seq<seq<nat>>, c: nat, p: nat)
    requires Linked(parent, children) && c < |parent| && p < |parent| && parent[c] == -1
    ensures c !in children[p]
    ensures Linked(parent[c := p], children[p := children[p] + [c]])
  {
    var p' := parent[c := p];
    var ch := children[p := children[p] + [c]];
    assert Closed(p');
    forall a, i | 0 <= a < |ch| && 0 <= i < |ch[a]| ensures ch[a][i] < |p'| {
      if a == p && i < |children[p]| { assert ch[a][i] == children[p][i]; }
    }
    forall a, x | 0 <= a < |p'| && 0 <= x < |p'| ensures x in ch[a] <==> p'[x] == a {
    }
    forall a | 0 <= a < |p'| ensures NoDup(ch[a]) {
      if a == p {
        assert NoDup([c]);
        NoDupConcat(children[p], [c]);
      }
    }
  }

  /** In a Linked arena the subtree below n, down to any depth, no longer
      changes once a level is empty. */
  lemma {:induction false} BelowSaturates(children: seq<seq<nat>>, n: nat, d: nat, e: nat)
    requires n < |children|
    requires forall p, i :: 0 <= p < |children| && 0 <= i < |children[p]| ==> children[p][i] < |children|
    requires d <= e && Level(children, n, d) == []
    ensures Below(children, n, e) == Below(children, n, d)
    decreases e - d
  {
    if d < e {
      BelowSaturates(children, n, d, e - 1);
      LevelEmptyStays(children, n, d, e);
    }
  }
}
