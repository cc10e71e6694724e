/** The leaf list is the in-order walk of the tree, and a tree of so many levels has so
    many leaves. */
module BabyBounds {
  import opened Common
  import opened BabyTree
  import opened BabyLeaves
  import opened BabyDatabase

  const TREE_LEVEL_MAX := 20

  /** The leaves under a node of the given height, from left to right. */
  function InOrder(nodes: Nodes, id: nat, height: nat): seq<nat>
    decreases height, 0
  {
    if height <= 1 then [id]
    else if id in nodes && nodes[id].Inner? then InOrderKids(nodes, nodes[id], height - 1, |nodes[id].links| + 1)
    else []
  }

  /** The leaves under the first k children. */
  function InOrderKids(nodes: Nodes, n: Node, height: nat, k: nat): seq<nat>
    requires n.Inner? && k <= |n.links| + 1
    decreases height, k + 1
  {
    if k == 0 then [] else InOrderKids(nodes, n, height, k - 1) + InOrder(nodes, Kid(n, k - 1), height)
  }

  /** The leaves under a node are the stretch of the list that its span covers. */
  lemma {:induction false} WalkIsRange(rank: Ranking, nodes: Nodes, spans: Spans, root: nat, level: nat,
                                       leaves: seq<nat>, id: nat, a: nat) returns (b: nat)
    requires TreeOk(rank, nodes, spans, root, level) && AllLeaves(spans, leaves) && Tiling(spans, leaves)
    requires id in spans && a < |leaves| && Cut(spans, leaves, a) == spans[id].low
    ensures a < b <= |leaves| && Cut(spans, leaves, b) == spans[id].high
    ensures InOrder(nodes, id, spans[id].height) == leaves[a..b]
    decreases spans[id].height, 0
  {
    hide TreeOk, AllLeaves, Tiling, Cut, KidsOk;
    TreeFacts(rank, nodes, spans, root, level);
    if spans[id].height == 1 {
      LeafAtCut(rank, nodes, spans, root, level, leaves, id, a);
      b := a + 1;
    } else {
      InnerKids(rank, nodes, spans, root, level, id);
      b := WalkKidsIsRange(rank, nodes, spans, root, level, leaves, id, a, |nodes[id].links| + 1);
    }
  }

  lemma {:induction false} LeafAtCut(rank: Ranking, nodes: Nodes, spans: Spans, root: nat, level: nat,
                                     leaves: seq<nat>, id: nat, a: nat)
    requires TreeOk(rank, nodes, spans, root, level) && AllLeaves(spans, leaves) && Tiling(spans, leaves)
    requires id in spans && a < |leaves| && Cut(spans, leaves, a) == spans[id].low && spans[id].height == 1
    ensures leaves[a] == id && Cut(spans, leaves, a + 1) == spans[id].high
  {
    hide Apart, NodesOk;
    OneCovers(spans, leaves[a], id, spans[id].low);
  }

  lemma {:induction false} InnerKids(rank: Ranking, nodes: Nodes, spans: Spans, root: nat, level: nat, id: nat)
    requires TreeOk(rank, nodes, spans, root, level) && id in spans && spans[id].height != 1
    ensures id in nodes && spans[id].height > 1 && KidsOk(rank, nodes[id], spans[id], spans)
    ensures nodes[id].Inner?
    ensures KidSpan(rank, nodes[id], spans[id], |nodes[id].links|).high == spans[id].high
  {
    hide Apart;
    assert NodeOk(rank, nodes[id], spans[id], spans);
  }

  lemma {:induction false} WalkKidsIsRange(rank: Ranking, nodes: Nodes, spans: Spans, root: nat, level: nat,
                                           leaves: seq<nat>, id: nat, a: nat, k: nat) returns (b: nat)
    requires TreeOk(rank, nodes, spans, root, level) && AllLeaves(spans, leaves) && Tiling(spans, leaves)
    requires id in spans && a < |leaves| && Cut(spans, leaves, a) == spans[id].low
    requires id in nodes && spans[id].height > 1 && nodes[id].Inner? && 0 < k <= |nodes[id].links| + 1
    requires KidsOk(rank, nodes[id], spans[id], spans)
    ensures a < b <= |leaves| && Cut(spans, leaves, b) == KidSpan(rank, nodes[id], spans[id], k - 1).high
    ensures InOrderKids(nodes, nodes[id], spans[id].height - 1, k) == leaves[a..b]
    decreases spans[id].height - 1, k
  {
    hide Apart, TreeOk, Tiling, AllLeaves, Cut;
    var n := nodes[id];
    var mid := a;
    assert KidOk(rank, n, spans[id], spans, k - 1);
    if k > 1 {
      mid := WalkKidsIsRange(rank, nodes, spans, root, level, leaves, id, a, k - 1);
      CutInside(rank, nodes, spans, root, level, leaves, Kid(n, k - 1), mid);
    }
    b := WalkIsRange(rank, nodes, spans, root, level, leaves, Kid(n, k - 1), mid);
    assert leaves[a..mid] + leaves[mid..b] == leaves[a..b];
  }

  /** A cut below the end of all ranks is the start of some leaf. */
  lemma {:induction false} CutInside(rank: Ranking, nodes: Nodes, spans: Spans, root: nat, level: nat,
                                     leaves: seq<nat>, id: nat, k: nat)
    requires TreeOk(rank, nodes, spans, root, level) && Tiling(spans, leaves)
    requires id in spans && k <= |leaves| && Cut(spans, leaves, k) == spans[id].low
    ensures k < |leaves|
  {
    hide Apart, NodesOk;
  }

  /** The list of leaves is the in-order walk of the whole tree. */
  lemma {:induction false} LeavesInOrder(rank: Ranking, nodes: Nodes, spans: Spans, root: nat, level: nat,
                                         leaves: seq<nat>, first: nat, last: nat)
    requires TreeOk(rank, nodes, spans, root, level) && ListOk(nodes, spans, leaves, first, last)
    ensures leaves == InOrder(nodes, root, level)
  {
    hide Apart, NodesOk, InOrder;
    var b := WalkIsRange(rank, nodes, spans, root, level, leaves, root, 0);
    LastCut(nodes, spans, leaves, level, b);
    assert leaves[0..b] == leaves;
  }

  lemma {:induction false} LastCut(nodes: Nodes, spans: Spans, leaves: seq<nat>, level: nat, b: nat)
    requires SpansOk(nodes, spans, level) && Tiling(spans, leaves)
    requires b <= |leaves| && Cut(spans, leaves, b) == 1.0
    ensures b == |leaves|
  {
    hide Apart;
  }

  function Pow129(n: nat): nat {
    if n == 0 then 1 else 129 * Pow129(n - 1)
  }

  lemma {:induction false} Pow129Grows(m: nat, n: nat)
    requires m <= n
    ensures Pow129(m) <= Pow129(n)
    decreases n
  {
    if m < n {
      Pow129Grows(m, n - 1);
    }
  }

  /** A node below the root, at least half full all the way down, has this many leaves. */
  lemma {:induction false} ManyLeaves(rank: Ranking, nodes: Nodes, spans: Spans, root: nat, level: nat, id: nat)
    requires TreeOk(rank, nodes, spans, root, level) && Branchy(nodes, root, 0)
    requires id in spans && spans[id].height < level
    ensures |InOrder(nodes, id, spans[id].height)| >= Pow129(spans[id].height - 1)
    decreases spans[id].height, 0
  {
    hide Apart;
    assert NodeOk(rank, nodes[id], spans[id], spans);
    if spans[id].height > 1 {
      assert |nodes[id].links| >= LeastLinks(id, root);
      ManyUnder(rank, nodes, spans, root, level, id, |nodes[id].links| + 1);
      EnoughKids(|nodes[id].links| + 1, 129, Pow129(spans[id].height - 2));
    }
  }

  lemma {:induction false} EnoughKids(k: nat, m: nat, p: nat)
    requires k >= m
    ensures k * p >= m * p
  {
  }

  lemma {:induction false} ManyUnder(rank: Ranking, nodes: Nodes, spans: Spans, root: nat, level: nat, id: nat, k: nat)
    requires TreeOk(rank, nodes, spans, root, level) && Branchy(nodes, root, 0)
    requires id in spans && spans[id].height > 1
    requires KidsOk(rank, nodes[id], spans[id], spans) && k <= |nodes[id].links| + 1
    ensures |InOrderKids(nodes, nodes[id], spans[id].height - 1, k)| >= k * Pow129(spans[id].height - 2)
    decreases spans[id].height - 1, k + 1
  {
    hide Apart, Branchy, Pow129;
    if k > 0 {
      ManyUnder(rank, nodes, spans, root, level, id, k - 1);
      assert KidOk(rank, nodes[id], spans[id], spans, k - 1);
      ManyLeaves(rank, nodes, spans, root, level, Kid(nodes[id], k - 1));
      var p := Pow129(spans[id].height - 2);
      assert k * p == (k - 1) * p + p;
    }
  }

  /** A database of more than one level has at least 2 * 129^(level - 2) leaves. */
  lemma {:induction false} LevelsNeedLeaves(dbm: BabyDBM)
    requires dbm.Valid()
    ensures dbm.leaves == InOrder(dbm.nodes, dbm.root, dbm.level)
    ensures dbm.level > 1 ==> |dbm.leaves| >= 2 * Pow129(dbm.level - 2)
  {
    hide Apart, ListOk, NodesOk, QueueOk, CursorsOk, Pow129;
    LeavesInOrder(dbm.rank, dbm.nodes, dbm.spans, dbm.root, dbm.level, dbm.leaves, dbm.first, dbm.last);
    if dbm.level > 1 {
      var root := dbm.root;
      RootKids(dbm.rank, dbm.nodes, dbm.spans, root, dbm.level);
      ManyUnder(dbm.rank, dbm.nodes, dbm.spans, root, dbm.level, root, |dbm.nodes[root].links| + 1);
      EnoughKids(|dbm.nodes[root].links| + 1, 2, Pow129(dbm.level - 2));
    }
  }

  lemma {:induction false} RootKids(rank: Ranking, nodes: Nodes, spans: Spans, root: nat, level: nat)
    requires TreeOk(rank, nodes, spans, root, level) && level > 1 && Branchy(nodes, root, 0)
    ensures root in nodes && KidsOk(rank, nodes[root], spans[root], spans) && |nodes[root].links| >= 1
  {
    hide Apart;
    assert NodeOk(rank, nodes[root], spans[root], spans);
  }

  /** With fewer than 2 * 129^20 leaves, the twenty slots that hold a path to a leaf's
      parent are enough. */
  lemma {:induction false} TraceFits(dbm: BabyDBM)
    requires dbm.Valid() && |dbm.leaves| < 2 * Pow129(TREE_LEVEL_MAX)
    ensures dbm.level - 1 <= TREE_LEVEL_MAX
  {
    hide Pow129, InOrder, BabyDBM.Valid;
    LevelsNeedLeaves(dbm);
    if dbm.level > TREE_LEVEL_MAX + 1 {
      Pow129Grows(TREE_LEVEL_MAX, dbm.level - 2);
    }
  }
}
