/** BabyDBM: an ordered database kept in memory as a B+ tree.  Writers only queue the leaves
    that have grown or shrunk too far; the next writer divides and merges them first. */
module BabyDatabase {
  import opened Common
  import opened BabyTree
  import opened BabyLeaves
  import opened BabyReorganize
  import opened BabyEdit

  const MAX_LEAF_NODE_RECORDS := 256
  const MAX_INNER_NODE_BRANCHES := 256

  /** An iterator: its key and the leaf it has cached for it, or null. */
  datatype Cursor = Cursor(key: Option<Bytes>, leaf: nat)

  /** A cached leaf is the one that the search for the iterator's key ends in. */
  ghost predicate CursorOk(rank: Ranking, spans: Spans, c: Cursor) {
    c.leaf != 0 ==> c.key.Some? && IsLeafFor(rank, spans, c.leaf, c.key.value)
  }

  ghost predicate CursorsOk(rank: Ranking, spans: Spans, cs: seq<Cursor>) {
    forall i :: 0 <= i < |cs| ==> CursorOk(rank, spans, cs[i])
  }

  /** Iterators that may have changed leaf but not key. */
  ghost predicate SameKeys(cs: seq<Cursor>, cs': seq<Cursor>) {
    |cs'| == |cs| && forall k :: 0 <= k < |cs| ==> cs'[k].key == cs[k].key
  }

  ghost predicate IsLeafFor(rank: Ranking, spans: Spans, leaf: nat, key: Bytes) {
    leaf in spans && spans[leaf].height == 1 && Covers(spans[leaf], rank(key))
  }

  /** Every queued leaf not yet dealt with is the one that its queued key leads to. */
  ghost predicate QueueOk(rank: Ranking, spans: Spans, queue: set<(nat, Bytes)>, done: set<nat>) {
    forall e :: e in queue && e.0 !in done ==> IsLeafFor(rank, spans, e.0, e.1)
  }

  /** The least number of links in a node. */
  function LeastLinks(id: nat, root: nat): nat {
    if id == root then 1 else MAX_INNER_NODE_BRANCHES / 2
  }

  /** Inner nodes are at least half full, the root has at least two children; the node
      being merged may be excepted. */
  ghost predicate Branchy(nodes: Nodes, root: nat, but: nat) {
    forall id :: id in nodes && id != but && nodes[id].Inner? ==> |nodes[id].links| >= LeastLinks(id, root)
  }

  ghost predicate IsKid(nodes: Nodes, p: nat, c: nat) {
    p in nodes && nodes[p].Inner? && exists j :: 0 <= j <= |nodes[p].links| && Kid(nodes[p], j) == c
  }

  ghost predicate OnPath(nodes: Nodes, spans: Spans, level: nat, path: seq<nat>, i: nat)
    requires i < |path|
  {
    && path[i] in spans && path[i] in nodes && spans[path[i]].height + i == level
    && (i + 1 < |path| ==> IsKid(nodes, path[i], path[i + 1]))
  }

  /** The nodes from the root downwards, each a child of the one before. */
  ghost predicate PathOk(nodes: Nodes, spans: Spans, root: nat, level: nat, path: seq<nat>) {
    0 < |path| && path[0] == root && forall i :: 0 <= i < |path| ==> OnPath(nodes, spans, level, path, i)
  }

  /** A path stays good when the node at its end, and nodes elsewhere, change. */
  lemma {:induction false} PathFrame(nodes: Nodes, spans: Spans, root: nat, level: nat, path: seq<nat>, n: nat,
                                     nodes': Nodes, spans': Spans)
    requires PathOk(nodes, spans, root, level, path) && 0 < n <= |path|
    requires forall i :: 0 <= i < n ==> path[i] in nodes' && path[i] in spans'
    requires forall i :: 0 <= i < n && path[i] in spans && path[i] in spans' ==>
               spans'[path[i]].height == spans[path[i]].height
    requires forall i :: 0 <= i < n - 1 && path[i] in nodes && path[i] in nodes' ==>
               nodes'[path[i]] == nodes[path[i]]
    ensures PathOk(nodes', spans', root, level, path[..n])
  {
    forall i | 0 <= i < n
      ensures OnPath(nodes', spans', level, path[..n], i)
    {
      assert OnPath(nodes, spans, level, path, i);
    }
  }

  /** Leaves and their spans are the same. */
  ghost predicate SameLeaf(nodes: Nodes, spans: Spans, nodes': Nodes, spans': Spans, id: nat) {
    && id in nodes && id in spans && id in nodes' && id in spans'
    && nodes'[id] == nodes[id] && spans'[id] == spans[id]
  }

  ghost predicate SameLeaves(nodes: Nodes, spans: Spans, nodes': Nodes, spans': Spans) {
    && (forall id :: id in spans && spans[id].height == 1 ==> SameLeaf(nodes, spans, nodes', spans', id))
    && (forall id :: id in spans' && spans'[id].height == 1 ==> id in spans && spans[id].height == 1)
  }

  lemma {:induction false} SameLeavesTrans(n0: Nodes, s0: Spans, n1: Nodes, s1: Spans, n2: Nodes, s2: Spans)
    requires SameLeaves(n0, s0, n1, s1) && SameLeaves(n1, s1, n2, s2)
    ensures SameLeaves(n0, s0, n2, s2)
  {
    forall id | id in s0 && s0[id].height == 1
      ensures SameLeaf(n0, s0, n2, s2, id)
    {
      assert SameLeaf(n0, s0, n1, s1, id);
      assert SameLeaf(n1, s1, n2, s2, id);
    }
  }

  /** The list of leaves survives whatever happens above it. */
  lemma {:induction false} SameLeavesList(nodes: Nodes, spans: Spans, nodes': Nodes, spans': Spans,
                                          leaves: seq<nat>, first: nat, last: nat)
    requires ListOk(nodes, spans, leaves, first, last) && SameLeaves(nodes, spans, nodes', spans')
    ensures ListOk(nodes', spans', leaves, first, last)
    ensures Gather(nodes', leaves) == Gather(nodes, leaves)
  {
    hide Tiling, Threaded, Gather;
    ListFacts(nodes, spans, leaves, first, last);
    forall id | id in leaves
      ensures SameLeaf(nodes, spans, nodes', spans', id)
    {
      var k :| 0 <= k < |leaves| && leaves[k] == id;
    }
    ListFrame(nodes, spans, nodes', spans', leaves, first, last);
  }

  /** The halves of a crowded inner node. */
  lemma {:induction false} SplitInnerKeeps(rank: Ranking, nodes: Nodes, spans: Spans, root: nat, level: nat, p: nat,
                                           q: nat, mid: nat)
    requires TreeOk(rank, nodes, spans, root, level)
    requires p in nodes && nodes[p].Inner? && mid < |nodes[p].links| && spans[p].height > 1
    requires q !in spans && q != 0
    ensures var n, s := nodes[p], spans[p];
            var m := rank(n.links[mid].key);
            Pending(rank,
                    nodes[p := Inner(n.heir, n.links[..mid])]
                         [q := Inner(n.links[mid].child, n.links[mid + 1..])],
                    spans[p := s.(high := m)][q := s.(low := m)], root, level, p, q)
  {
    hide Apart, Pending, KidsOk;
    var n, s := nodes[p], spans[p];
    assert NodeOk(rank, n, s, spans);
    HalvesOk(rank, n, s, spans, mid);
    KidInside(rank, n, s, spans, mid);
    KidInside(rank, n, s, spans, mid + 1);
    SplitKeeps(rank, nodes, spans, root, level, p, q, rank(n.links[mid].key),
               Inner(n.heir, n.links[..mid]), Inner(n.links[mid].child, n.links[mid + 1..]));
  }

  /** The new link goes right after the divided child, and completes the tree. */
  lemma {:induction false} LinkUpStep(rank: Ranking, nodes: Nodes, spans: Spans, root: nat, level: nat,
                                      path: seq<nat>, x: nat, y: nat, key: Bytes)
    requires Pending(rank, nodes, spans, root, level, x, y) && spans[y].low == rank(key)
    requires PathOk(nodes, spans, root, level, path) && |path| > 1 && path[|path| - 1] == x
    ensures var p := path[|path| - 2];
            && p in nodes && nodes[p].Inner? && p in spans && spans[p].height == spans[x].height + 1
            && p != x && p != y
            && TreeOk(rank,
                      nodes[p := WithLink(nodes[p], LinkAbove(rank, nodes[p].links, rank(key)), Link(key, y))],
                      spans, root, level)
  {
    hide Pending, TreeOk, WithLink;
    var p := path[|path| - 2];
    PendingFacts(rank, nodes, spans, root, level, x, y);
    assert OnPath(nodes, spans, level, path, |path| - 2) && OnPath(nodes, spans, level, path, |path| - 1);
    var j :| 0 <= j <= |nodes[p].links| && Kid(nodes[p], j) == x;
    LinkKeeps(rank, nodes, spans, root, level, x, y, p, j, key);
  }

  lemma {:induction false} PendingFacts(rank: Ranking, nodes: Nodes, spans: Spans, root: nat, level: nat, x: nat,
                                        y: nat)
    requires Pending(rank, nodes, spans, root, level, x, y)
    ensures nodes.Keys == spans.Keys && 0 !in spans && x in spans && y in spans && x != y
    ensures spans[x].height == spans[y].height <= level && 0 < spans[x].height
    ensures root in nodes
  {
  }

  class BabyDBM {
    const rank: Ranking
    var nodes: Nodes
    var root: nat
    var level: nat
    var first: nat
    var last: nat
    var numRecords: int
    var queue: set<(nat, Bytes)>
    var cursors: seq<Cursor>
    ghost var spans: Spans
    ghost var leaves: seq<nat>

    /** The tree, the list of leaves and the iterators fit together. */
    ghost predicate Shaped()
      reads this`nodes, this`spans, this`root, this`level, this`leaves, this`first, this`last, this`cursors
    {
      && TreeOk(rank, nodes, spans, root, level)
      && ListOk(nodes, spans, leaves, first, last)
      && Branchy(nodes, root, 0)
      && CursorsOk(rank, spans, cursors)
    }

    ghost predicate Valid()
      reads this
    {
      Shaped() && QueueOk(rank, spans, queue, {}) && numRecords == |Contents()|
    }

    /** The records in ascending order. */
    ghost function Contents(): seq<Record>
      reads this`nodes, this`leaves
    {
      Gather(nodes, leaves)
    }

    /** The records by rank. */
    ghost function Dictionary(): map<real, Record>
      reads this`nodes, this`leaves
    {
      Dict(rank, Contents())
    }

    /** An address that no node uses; the address of a deleted node may come back. */
    method Allocate() returns (id: nat)
      ensures id != 0 && id !in nodes
    {
      ghost var bound := FreshExists(nodes.Keys);
      assert bound != 0 && bound !in nodes;
      id :| id != 0 && id !in nodes;
    }

    /** The leaf that a key belongs to. */
    method SearchTree(key: Bytes) returns (leaf: nat)
      requires TreeOk(rank, nodes, spans, root, level)
      ensures IsLeafFor(rank, spans, leaf, key)
    {
      hide Apart, KidsOk;
      leaf := root;
      var depth := 1;
      while depth < level
        invariant 1 <= depth <= level
        invariant leaf in spans && spans[leaf].height == level - depth + 1
        invariant Covers(spans[leaf], rank(key))
      {
        assert NodeOk(rank, nodes[leaf], spans[leaf], spans);
        SearchStep(rank, nodes[leaf], spans[leaf], spans, rank(key));
        var links := nodes[leaf].links;
        var it := LinkAbove(rank, links, rank(key));
        if it == 0 {
          leaf := nodes[leaf].heir;
        } else {
          it := it - 1;
          leaf := links[it].child;
        }
        depth := depth + 1;
      }
    }

    /** The inner nodes on the way to a key, from the root downwards. */
    method TraceTree(key: Bytes, ghost leaf: nat) returns (hist: seq<nat>)
      requires TreeOk(rank, nodes, spans, root, level)
      requires IsLeafFor(rank, spans, leaf, key)
      ensures |hist| == level - 1
      ensures PathOk(nodes, spans, root, level, hist + [leaf])
    {
      hide Apart, KidsOk;
      var node := root;
      var depth := 1;
      hist := [];
      while depth < level
        invariant 1 <= depth <= level && |hist| == depth - 1
        invariant node in spans && spans[node].height == level - depth + 1
        invariant Covers(spans[node], rank(key))
        invariant PathOk(nodes, spans, root, level, hist + [node])
      {
        assert NodeOk(rank, nodes[node], spans[node], spans);
        SearchStep(rank, nodes[node], spans[node], spans, rank(key));
        ghost var path := hist + [node];
        hist := hist + [node];
        ghost var before := node;
        var links := nodes[node].links;
        var it := LinkAbove(rank, links, rank(key));
        if it == 0 {
          node := nodes[node].heir;
        } else {
          it := it - 1;
          node := links[it].child;
        }
        depth := depth + 1;
        PathGrows(nodes, spans, root, level, path, node);
      }
      OneCovers(spans, node, leaf, rank(key));
    }

    /** The links from a position on, inserted one by one into a new node. */
    method MoveLinks(links: seq<Link>, from: nat) returns (moved: seq<Link>)
      requires from <= |links|
      requires forall i, j :: 0 <= i < j < |links| ==> rank(links[i].key) < rank(links[j].key)
      ensures moved == links[from..]
    {
      moved := [];
      var k := from;
      while k < |links|
        invariant from <= k <= |links| && moved == links[from..k]
      {
        var it := LinkAbove(rank, moved, rank(links[k].key));
        assert it == |moved|;
        moved := moved[..it] + [links[k]] + moved[it..];
        k := k + 1;
      }
    }

    /** Adds a link to a node, in the order of the separators. */
    method AddLinkToInnerNode(id: nat, child: nat, key: Bytes)
      requires id in nodes && nodes[id].Inner?
      modifies this`nodes
      ensures id in nodes && nodes == old(nodes)[id := nodes[id]]
      ensures nodes[id].Inner? && nodes[id].heir == old(nodes[id].heir)
      ensures multiset(nodes[id].links) == multiset(old(nodes[id].links)) + multiset{Link(key, child)}
      ensures InOrderLinks(rank, old(nodes[id].links)) ==> InOrderLinks(rank, nodes[id].links)
      ensures nodes == old(nodes)[id := WithLink(old(nodes[id]),
                LinkAbove(rank, old(nodes[id].links), rank(key)), Link(key, child))]
    {
      var links := nodes[id].links;
      var it := LinkAbove(rank, links, rank(key));
      LinkOrdered(rank, nodes[id], Link(key, child));
      nodes := nodes[id := nodes[id].(links := links[..it] + [Link(key, child)] + links[it..])];
    }

    /** A new root above the two halves of the old one. */
    method GrowRoot(heir: nat, child: nat, key: Bytes)
      requires Pending(rank, nodes, spans, root, level, heir, child) && heir == root
      requires child in spans && spans[child].low == rank(key) && Branchy(nodes, root, 0)
      requires heir in nodes && (nodes[heir].Inner? ==> |nodes[heir].links| >= 128)
      modifies this`nodes, this`spans, this`root, this`level
      ensures TreeOk(rank, nodes, spans, root, level) && Branchy(nodes, root, 0)
      ensures root !in old(nodes) && nodes == old(nodes)[root := Inner(heir, [Link(key, child)])]
      ensures SameLeaves(old(nodes), old(spans), nodes, spans)
    {
      hide Pending, TreeOk, SameLeaves;
      PendingFacts(rank, nodes, spans, root, level, heir, child);
      var inner := Allocate();
      GrowKeeps(rank, nodes, spans, level, heir, child, inner, key);
      nodes := nodes[inner := Inner(heir, [])];
      AddLinkToInnerNode(inner, child, key);
      root := inner;
      level := level + 1;
      spans := spans[inner := Span(level, 0.0, 1.0)];
      assert nodes[inner].links == [Link(key, child)];
      assert nodes == old(nodes)[inner := Inner(heir, [Link(key, child)])];
      GrowSame(old(nodes), old(spans), inner, nodes[inner], spans[inner]);
    }

    /** The new link in the parent of the divided node. */
    method LinkInto(inner: nat, child: nat, key: Bytes, ghost path: seq<nat>, ghost heir: nat)
      requires Pending(rank, nodes, spans, root, level, heir, child)
      requires child in spans && spans[child].low == rank(key) && Branchy(nodes, root, 0)
      requires PathOk(nodes, spans, root, level, path) && |path| > 1
      requires path[|path| - 1] == heir && path[|path| - 2] == inner
      modifies this`nodes
      ensures TreeOk(rank, nodes, spans, root, level) && Branchy(nodes, root, 0)
      ensures inner in spans && spans[inner].height > 1 && inner in old(nodes) && inner in nodes
      ensures nodes[inner].Inner? && nodes == old(nodes)[inner := nodes[inner]]
      ensures old(nodes[inner]).Inner? && |nodes[inner].links| == |old(nodes[inner].links)| + 1
      ensures SameLeaves(old(nodes), spans, nodes, spans)
    {
      hide Pending, TreeOk, SameLeaves, PathOk;
      PendingFacts(rank, nodes, spans, root, level, heir, child);
      LinkUpStep(rank, nodes, spans, root, level, path, heir, child, key);
      AddLinkToInnerNode(inner, child, key);
      InnerSame(old(nodes), spans, inner, nodes[inner], spans[inner]);
      assert spans == spans[inner := spans[inner]];
    }

    /** Divides a crowded inner node; the key of its middle link goes up. */
    method DivideInner(inner: nat) returns (newInner: nat, key: Bytes)
      requires TreeOk(rank, nodes, spans, root, level) && Branchy(nodes, root, 0)
      requires inner in nodes && nodes[inner].Inner? && inner in spans && spans[inner].height > 1
      requires |nodes[inner].links| > MAX_INNER_NODE_BRANCHES
      modifies this`nodes, this`spans
      ensures Pending(rank, nodes, spans, root, level, inner, newInner) && Branchy(nodes, root, 0)
      ensures newInner in spans && spans[newInner].low == rank(key)
      ensures inner in nodes && nodes[inner].Inner? && |nodes[inner].links| >= 128
      ensures forall id :: id in old(spans) ==> id in spans && spans[id].height == old(spans[id].height)
      ensures forall id :: id in old(nodes) && id != inner ==> id in nodes && nodes[id] == old(nodes[id])
      ensures SplitInTwo(old(nodes), nodes, inner, newInner)
      ensures SameLeaves(old(nodes), old(spans), nodes, spans)
    {
      hide Pending, TreeOk, SameLeaves, Branchy;
      var links := nodes[inner].links;
      var mid := |links| / 2;
      newInner := Allocate();
      TreeFacts(rank, nodes, spans, root, level);
      Ascending(rank, nodes, spans, root, level, inner);
      SplitInnerKeeps(rank, nodes, spans, root, level, inner, newInner, mid);
      key := links[mid].key;
      var moved := MoveLinks(links, mid + 1);
      nodes := nodes[newInner := Inner(links[mid].child, moved)];
      nodes := nodes[inner := nodes[inner].(links := links[..mid])];
      spans := spans[inner := spans[inner].(high := rank(key))]
                    [newInner := spans[inner].(low := rank(key))];
      assert nodes == old(nodes)[inner := Inner(old(nodes[inner]).heir, links[..mid])]
                                [newInner := Inner(links[mid].child, links[mid + 1..])];
      SplitSame(old(nodes), old(spans), nodes, spans, inner, newInner);
      SplitBranchy(old(nodes), root, inner, newInner, nodes[inner], nodes[newInner]);
    }

    /** Links a new node beside the divided one, dividing the nodes above as they overflow. */
    method LinkUp(hist: seq<nat>, leaf: nat, newLeaf: nat, newKey: Bytes)
      requires Pending(rank, nodes, spans, root, level, leaf, newLeaf)
      requires leaf in nodes && nodes[leaf].Leaf? && newLeaf in spans && spans[newLeaf].low == rank(newKey)
      requires PathOk(nodes, spans, root, level, hist + [leaf]) && Branchy(nodes, root, 0)
      modifies this`nodes, this`spans, this`root, this`level
      ensures TreeOk(rank, nodes, spans, root, level) && Branchy(nodes, root, 0)
      ensures Uncrowded(old(nodes), nodes)
      ensures SameLeaves(old(nodes), old(spans), nodes, spans)
    {
      hide Pending, TreeOk, PathOk, SameLeaves, Branchy, Uncrowded, SplitInTwo;
      var histSize := |hist|;
      var heir, child, nodeKey := leaf, newLeaf, newKey;
      ghost var path := hist + [leaf];
      PendingFacts(rank, nodes, spans, root, level, leaf, newLeaf);
      SameLeavesRefl(nodes, spans);
      UncrowdedRefl(nodes);
      while true
        invariant Uncrowded(old(nodes), nodes)
        invariant 0 <= histSize <= |hist| && |path| == histSize + 1 && path[..histSize] == hist[..histSize]
        invariant path[histSize] == heir && PathOk(nodes, spans, root, level, path)
        invariant Pending(rank, nodes, spans, root, level, heir, child)
        invariant child in spans && spans[child].low == rank(nodeKey)
        invariant Branchy(nodes, root, 0)
        invariant heir in nodes && (nodes[heir].Inner? ==> |nodes[heir].links| >= 128)
        invariant SameLeaves(old(nodes), old(spans), nodes, spans)
        decreases histSize
      {
        ghost var nodes0, spans0 := nodes, spans;
        if histSize < 1 {
          RootPath(nodes, spans, root, level, path);
          GrowRoot(heir, child, nodeKey);
          UncrowdedWith(old(nodes), nodes0, root, nodes[root]);
          SameLeavesTrans(old(nodes), old(spans), nodes0, spans0, nodes, spans);
          break;
        }
        histSize := histSize - 1;
        var inner := hist[histSize];
        assert inner == path[..histSize + 1][histSize] == path[histSize];
        LinkInto(inner, child, nodeKey, path, heir);
        SameLeavesTrans(old(nodes), old(spans), nodes0, spans0, nodes, spans);
        if |nodes[inner].links| <= MAX_INNER_NODE_BRANCHES {
          UncrowdedWith(old(nodes), nodes0, inner, nodes[inner]);
          break;
        }
        ghost var nodes1 := nodes;
        heir := inner;
        child, nodeKey := DivideInner(inner);
        UncrowdedSplit(old(nodes), nodes0, nodes1, nodes, inner, child);
        SameLeavesTrans(old(nodes), old(spans), nodes1, spans0, nodes, spans);
        PathShorter(nodes0, spans0, nodes, spans, root, level, path, inner);
        path := path[..histSize + 1];
      }
    }

    method CopyRecords(records: seq<Record>, mid: nat) returns (moved: seq<Record>)
      requires mid <= |records|
      ensures moved == records[mid..]
    {
      moved := [];
      var it := mid;
      while it != |records|
        invariant mid <= it <= |records| && moved == records[mid..it]
        decreases |records| - it
      {
        moved := moved + [records[it]];
        it := it + 1;
      }
    }

    /** Moves the upper half of a leaf's records to a new leaf after it. */
    method CutLeaf(leaf: nat) returns (newLeaf: nat, newKey: Bytes)
      requires leaf in nodes && nodes[leaf].Leaf? && |nodes[leaf].records| > MAX_LEAF_NODE_RECORDS
      requires var next := nodes[leaf].next;
               next != leaf && if next == 0 then next !in nodes else next in nodes && nodes[next].Leaf?
      modifies this`nodes, this`last
      ensures newLeaf !in old(nodes) && newLeaf != 0
      ensures nodes == DividedLeaf(old(nodes), leaf, newLeaf, |old(nodes[leaf].records)| / 2)
      ensures newKey == old(nodes[leaf].records)[|old(nodes[leaf].records)| / 2].key
      ensures last == if old(last) == leaf then newLeaf else old(last)
    {
      newLeaf := Allocate();
      var prev, next, records := nodes[leaf].prev, nodes[leaf].next, nodes[leaf].records;
      var mid := |records| / 2;
      if next != 0 {
        nodes := SetPrev(nodes, next, newLeaf);
      }
      var moved := CopyRecords(records, mid);
      nodes := nodes[leaf := Leaf(prev, newLeaf, records[..mid])];
      nodes := nodes[newLeaf := Leaf(leaf, next, moved)];
      if last == leaf {
        last := newLeaf;
      }
      newKey := moved[0].key;
    }

    method DivideLeaf(leaf: nat, ghost i: nat) returns (newLeaf: nat, newKey: Bytes)
      requires TreeOk(rank, nodes, spans, root, level) && ListOk(nodes, spans, leaves, first, last)
      requires i < |leaves| && leaves[i] == leaf && leaf in nodes && nodes[leaf].Leaf?
      requires |nodes[leaf].records| > MAX_LEAF_NODE_RECORDS
      modifies this`nodes, this`spans, this`leaves, this`last
      ensures newLeaf !in old(nodes) && newLeaf != 0 && newLeaf in spans && leaf in old(spans)
      ensures Pending(rank, nodes, spans, root, level, leaf, newLeaf)
      ensures ListOk(nodes, spans, leaves, first, last) && Contents() == old(Contents())
      ensures spans == old(spans)[leaf := old(spans[leaf]).(high := rank(newKey))]
                                 [newLeaf := old(spans[leaf]).(low := rank(newKey))]
      ensures nodes == DividedLeaf(old(nodes), leaf, newLeaf, |old(nodes[leaf].records)| / 2)
      ensures leaves == InsertAfter(old(leaves), i, newLeaf)
    {
      hide Pending, TreeOk, ListOk, Gather, InsertAfter, DividedLeaf;
      TreeFacts(rank, nodes, spans, root, level);
      SpanFacts(rank, nodes, spans, root, level);
      NextOf(nodes, spans, leaves, first, last, i);
      newLeaf, newKey := CutLeaf(leaf);
      DivideLeafKeeps(rank, old(nodes), spans, root, level, leaves, first, old(last), i, newLeaf,
                      |old(nodes[leaf].records)| / 2, rank(newKey));
      spans := spans[leaf := spans[leaf].(high := rank(newKey))]
                    [newLeaf := spans[leaf].(low := rank(newKey))];
      leaves := InsertAfter(leaves, i, newLeaf);
    }

    /** Sends the iterators on a leaf that is being left to another leaf: all of them, or
        those at or above a rank. */
    method MoveCursors(from: nat, to: nat, r: real)
      modifies this`cursors
      ensures |cursors| == |old(cursors)|
      ensures forall k :: 0 <= k < |cursors| ==> cursors[k] == MovedCursor(rank, old(cursors)[k], from, to, r)
    {
      var k := 0;
      while k < |cursors|
        invariant 0 <= k <= |cursors| == |old(cursors)|
        invariant forall m :: 0 <= m < k ==> cursors[m] == MovedCursor(rank, old(cursors)[m], from, to, r)
        invariant forall m :: k <= m < |cursors| ==> cursors[m] == old(cursors)[m]
      {
        var c := cursors[k];
        if c.leaf == from && c.key.Some? && !(rank(c.key.value) < r) {
          cursors := cursors[k := c.(leaf := to)];
        }
        k := k + 1;
      }
    }

    /** Divides a crowded leaf and links the new one, up to a new root if need be. */
    method DivideNodes(leaf: nat, key: Bytes)
      requires Shaped() && IsLeafFor(rank, spans, leaf, key)
      requires leaf in nodes && nodes[leaf].Leaf? && |nodes[leaf].records| > MAX_LEAF_NODE_RECORDS
      modifies this`nodes, this`spans, this`root, this`level, this`leaves, this`last, this`cursors
      ensures Shaped() && Contents() == old(Contents())
      ensures LeavesDivided(old(nodes), old(spans), nodes, spans, leaf)
      ensures Halved(old(nodes), old(leaves), nodes, leaves, leaf) && Uncrowded(old(nodes), nodes)
      ensures SameKeys(old(cursors), cursors)
    {
      hide Pending, TreeOk, ListOk, Gather, SameLeaves, Branchy, PathOk, DividedLeaf, CursorsOk,
           LeavesDivided, Uncrowded, Halved, InsertAfter;
      var hist := TraceTree(key, leaf);
      ghost var i := LeafIndex(nodes, spans, leaves, first, last, leaf);
      TreeFacts(rank, nodes, spans, root, level);
      SpanFacts(rank, nodes, spans, root, level);
      var newLeaf, newKey := DivideLeaf(leaf, i);
      ghost var nodes1, spans1 := nodes, spans;
      MoveCursors(leaf, newLeaf, rank(newKey));
      DivideCursors(rank, old(spans), old(cursors), cursors, leaf, newLeaf, rank(newKey));
      DividePath(old(nodes), old(spans), root, level, hist + [leaf], newLeaf,
                 |old(nodes[leaf].records)| / 2, rank(newKey));
      DivideBranchy(old(nodes), root, leaf, newLeaf, |old(nodes[leaf].records)| / 2);
      assert leaf in nodes && nodes[leaf].Leaf? by { DividedIsLeaf(old(nodes), leaf, newLeaf); }
      PendingFacts(rank, nodes, spans, root, level, leaf, newLeaf);
      LinkUp(hist, leaf, newLeaf, newKey);
      SameLeavesList(nodes1, spans1, nodes, spans, leaves, first, last);
      SameCursors(rank, nodes1, spans1, nodes, spans, cursors);
      DivideLeaves(old(nodes), old(spans), nodes1, spans1, nodes, spans, leaf, newLeaf, rank(newKey));
      HalvedLeaf(old(nodes), old(leaves), nodes1, spans1, nodes, spans, leaf, newLeaf, i);
      UncrowdedLeaf(old(nodes), nodes1, nodes, leaf, newLeaf);
    }

    /** The position of a child among the children of its parent. */
    method FindChild(n: Node, child: nat) returns (j: nat)
      requires n.Inner? && exists k :: 0 <= k <= |n.links| && Kid(n, k) == child
      ensures j <= |n.links| && Kid(n, j) == child
    {
      if n.heir == child {
        return 0;
      }
      var linkIndex := 0;
      while linkIndex < |n.links| && n.links[linkIndex].child != child
        invariant 0 <= linkIndex <= |n.links|
        invariant forall k :: 0 <= k <= linkIndex ==> Kid(n, k) != child
      {
        linkIndex := linkIndex + 1;
      }
      j := linkIndex + 1;
    }

    /** Erases the link to a child that its left neighbour has taken over. */
    method JoinPrevLinkInInnerNode(id: nat, child: nat, ghost j: nat)
      requires id in nodes && nodes[id].Inner? && j < |nodes[id].links|
      requires nodes[id].links[j].child == child
      requires forall k :: 0 <= k < j ==> nodes[id].links[k].child != child
      modifies this`nodes
      ensures nodes == old(nodes)[id := WithoutLink(old(nodes[id]), j, Kid(old(nodes[id]), j))]
    {
      var links := nodes[id].links;
      var it := 0;
      while links[it].child != child
        invariant 0 <= it <= j
        decreases j - it
      {
        it := it + 1;
      }
      WithoutLeft(nodes[id], j);
      nodes := nodes[id := nodes[id].(links := links[..it] + links[it + 1..])];
    }

    /** Points the link to a child at its right neighbour, whose own link is erased. */
    method JoinNextLinkInInnerNode(id: nat, child: nat, next: nat, ghost j: nat)
      requires id in nodes && nodes[id].Inner? && j < |nodes[id].links|
      requires Kid(nodes[id], j) == child && (j > 0 ==> nodes[id].heir != child)
      requires forall k :: 0 <= k < j - 1 ==> nodes[id].links[k].child != child
      modifies this`nodes
      ensures nodes == old(nodes)[id := WithoutLink(old(nodes[id]), j, next)]
    {
      var links := nodes[id].links;
      if nodes[id].heir == child {
        nodes := nodes[id := Inner(next, links[1..])];
        assert links[..0] + links[1..] == links[1..];
      } else {
        var it := 0;
        while links[it].child != child
          invariant 0 <= it < j
          decreases j - it
        {
          it := it + 1;
        }
        WithoutRight(nodes[id], j, next);
        links := links[it := links[it].(child := next)];
        it := it + 1;
        links := links[..it] + links[it + 1..];
        nodes := nodes[id := nodes[id].(links := links)];
      }
    }

    /** The left neighbour takes over the right one's records and links; the right one goes. */
    method JoinInner(parent: nat, j: nat, a: nat, b: nat)
      requires TreeOk(rank, nodes, spans, root, level)
      requires parent in nodes && nodes[parent].Inner? && j < |nodes[parent].links|
      requires parent in spans && spans[parent].height > 2
      requires a == Kid(nodes[parent], j) && b == Kid(nodes[parent], j + 1)
      modifies this`nodes, this`spans
      ensures TreeOk(rank, nodes, spans, root, level)
      ensures old(InnerPair(nodes, parent, a, b)) && InnerJoined(old(nodes), nodes, parent, a, b)
      ensures old(Beneath(spans, parent, a) && Beneath(spans, parent, b)) && a != root && b != root
      ensures forall id :: id in old(spans) && id != b ==>
                id in spans && spans[id].height == old(spans[id]).height
      ensures SameLeaves(old(nodes), old(spans), nodes, spans)
    {
      hide TreeOk, KidOk, KidsOk, NodeOk, SameLeaves, WithoutLink;
      TwoInner(rank, nodes, spans, root, level, parent, j);
      JoinInnerKeeps(rank, nodes, spans, root, level, parent, j);
      var key := nodes[parent].links[j].key;
      nodes := nodes[a := nodes[a].(links := nodes[a].links + [Link(key, nodes[b].heir)] + nodes[b].links)];
      JoinPrevLinkInInnerNode(parent, b, j);
      nodes := nodes - {b};
      spans := JoinSpans(spans, a, b, a);
      assert nodes == JoinNodes(old(nodes), parent, j, a, JoinedInner(old(nodes[a]), old(nodes[b]), key));
      JoinInnerSame(old(nodes), old(spans), nodes, spans, parent, a, b);
      WithoutLength(old(nodes[parent]), j, a);
    }

    /** Joins a small inner node with the smaller of its neighbours under the same parent. */
    method MergeInner(inner: nat, parent: nat, ghost path: seq<nat>)
      requires TreeOk(rank, nodes, spans, root, level) && PathOk(nodes, spans, root, level, path)
      requires |path| > 1 && path[|path| - 1] == inner && path[|path| - 2] == parent
      requires forall i :: 0 <= i < |path| ==> IsInnerNode(nodes, path[i])
      requires Branchy(nodes, root, inner) && IsInnerNode(nodes, inner) && IsInnerNode(nodes, parent)
      modifies this`nodes, this`spans
      ensures TreeOk(rank, nodes, spans, root, level)
      ensures PathOk(nodes, spans, root, level, path[..|path| - 1])
      ensures forall i :: 0 <= i < |path| - 1 ==> IsInnerNode(nodes, path[i])
      ensures Branchy(nodes, root, parent) && IsInnerNode(nodes, parent)
      ensures |nodes[parent].links| + 1 >= LeastLinks(parent, root)
      ensures InnerJoinedSmaller(old(nodes), nodes, parent, inner)
      ensures SameLeaves(old(nodes), old(spans), nodes, spans)
    {
      hide TreeOk, PathOk, SameLeaves, Branchy;
      ParentOf(rank, nodes, spans, root, level, path);
      ParentBranchy(nodes, spans, root, level, path);
      var n := nodes[parent];
      var j := FindChild(n, inner);
      var prev := if j == 0 then 0 else Kid(n, j - 1);
      var next := if j == |n.links| then 0 else Kid(n, j + 1);
      KidsNotNull(rank, nodes, spans, root, level, parent);
      if prev != 0 && (next == 0 || |nodes[prev].links| <= |nodes[next].links|) {
        JoinInner(parent, j - 1, prev, inner);
        MergedPath(old(nodes), old(spans), nodes, spans, root, level, path, prev, inner);
        MergedBranchy(old(nodes), nodes, root, parent, prev, inner, inner);
        assert InnerJoinedAt(old(nodes), nodes, parent, inner, j);
      } else {
        JoinInner(parent, j, inner, next);
        MergedPath(old(nodes), old(spans), nodes, spans, root, level, path, inner, next);
        MergedBranchy(old(nodes), nodes, root, parent, inner, next, inner);
        assert InnerJoinedAt(old(nodes), nodes, parent, inner, j);
      }
    }

    /** A root left with a single child gives way to it. */
    method Collapse()
      requires TreeOk(rank, nodes, spans, root, level) && IsInnerNode(nodes, root)
      requires Branchy(nodes, root, root) && nodes[root].links == []
      modifies this`nodes, this`spans, this`root, this`level
      ensures TreeOk(rank, nodes, spans, root, level) && Branchy(nodes, root, 0)
      ensures SameLeaves(old(nodes), old(spans), nodes, spans)
    {
      hide TreeOk, SameLeaves;
      InnerHeight(rank, nodes, spans, root, level, root);
      TreeFacts(rank, nodes, spans, root, level);
      CollapseKeeps(rank, nodes, spans, root, level);
      var inner := root;
      root := nodes[inner].heir;
      level := level - 1;
      nodes := nodes - {inner};
      spans := spans - {inner};
      CollapseSame(old(nodes), old(spans), inner);
    }

    /** Merges nodes that have become too small, upwards from a node that has lost a link. */
    method MergeUp(hist: seq<nat>)
      requires TreeOk(rank, nodes, spans, root, level) && |hist| > 0
      requires PathOk(nodes, spans, root, level, hist)
      requires forall i :: 0 <= i < |hist| ==> IsInnerNode(nodes, hist[i])
      requires Branchy(nodes, root, hist[|hist| - 1]) && IsInnerNode(nodes, hist[|hist| - 1])
      requires |nodes[hist[|hist| - 1]].links| + 1 >= LeastLinks(hist[|hist| - 1], root)
      modifies this`nodes, this`spans, this`root, this`level
      ensures TreeOk(rank, nodes, spans, root, level) && Branchy(nodes, root, 0)
      ensures SameLeaves(old(nodes), old(spans), nodes, spans)
      ensures |old(nodes)[hist[|hist| - 1]].links| >= 128 ==> nodes == old(nodes) && root == old(root)
    {
      hide TreeOk, PathOk, SameLeaves, Branchy;
      var histSize := |hist|;
      var inner := hist[histSize - 1];
      ghost var path := hist;
      TreeFacts(rank, nodes, spans, root, level);
      SameLeavesRefl(nodes, spans);
      while |nodes[inner].links| < MAX_INNER_NODE_BRANCHES / 2
        invariant 0 < histSize <= |hist| && inner == hist[histSize - 1] && path == hist[..histSize]
        invariant IsInnerNode(nodes, inner)
        invariant TreeOk(rank, nodes, spans, root, level) && PathOk(nodes, spans, root, level, path)
        invariant forall i :: 0 <= i < histSize ==> IsInnerNode(nodes, hist[i])
        invariant Branchy(nodes, root, inner) && |nodes[inner].links| + 1 >= LeastLinks(inner, root)
        invariant SameLeaves(old(nodes), old(spans), nodes, spans)
        invariant histSize == |hist| ==> nodes == old(nodes) && root == old(root)
        invariant histSize < |hist| ==> |old(nodes)[hist[|hist| - 1]].links| < 128
        decreases histSize
      {
        assert IsInnerNode(nodes, hist[histSize - 1]);
        ghost var nodes0, spans0 := nodes, spans;
        histSize := histSize - 1;
        if histSize == 0 {
          RootPath(nodes, spans, root, level, path);
          if nodes[inner].links == [] {
            Collapse();
            SameLeavesTrans(old(nodes), old(spans), nodes0, spans0, nodes, spans);
          } else {
            RootBranchy(nodes, root);
          }
          return;
        }
        var parent := hist[histSize - 1];
        assert IsInnerNode(nodes, parent);
        MergeInner(inner, parent, path);
        SameLeavesTrans(old(nodes), old(spans), nodes0, spans0, nodes, spans);
        assert path[..histSize] == hist[..histSize];
        path := hist[..histSize];
        inner := parent;
      }
      AllBranchy(nodes, root, inner);
    }

    /** Moves a leaf's records to the end of its left neighbour's and deletes the leaf. */
    method TakeLeft(leaf: nat, prev: nat, sibling: nat, parent: nat, ghost j: nat)
      requires IsLeafNode(nodes, leaf) && IsLeafNode(nodes, prev) && leaf != prev && 0 !in nodes
      requires nodes[leaf].next != leaf && nodes[leaf].next != prev
      requires nodes[leaf].next != 0 ==> IsLeafNode(nodes, nodes[leaf].next)
      requires sibling != 0 ==> sibling == nodes[leaf].next
      requires IsInnerNode(nodes, parent) && j < |nodes[parent].links|
      requires Kid(nodes[parent], j) == prev && nodes[parent].links[j].child == leaf
      requires forall k :: 0 <= k < j ==> nodes[parent].links[k].child != leaf
      modifies this`nodes, this`last
      ensures nodes == JoinedLeft(old(nodes), prev, leaf)[parent := WithoutLink(old(nodes[parent]), j, prev)]
      ensures last == if old(last) == leaf then prev else old(last)
    {
      hide WithoutLink;
      var next := sibling;
      var m, n := nodes[prev], nodes[leaf];
      nodes := nodes - {leaf};
      if n.next != 0 {
        if next == 0 {
          next := n.next;
        }
        nodes := SetPrev(nodes, next, prev);
      }
      nodes := nodes[prev := Leaf(m.prev, n.next, m.records + n.records)];
      JoinPrevLinkInInnerNode(parent, leaf, j);
      if last == leaf {
        last := prev;
      }
    }

    /** Moves a leaf's records to the front of its right neighbour's and deletes the leaf. */
    method TakeRight(leaf: nat, next: nat, sibling: nat, parent: nat, ghost j: nat)
      requires IsLeafNode(nodes, leaf) && IsLeafNode(nodes, next) && leaf != next && 0 !in nodes
      requires nodes[leaf].prev != leaf && nodes[leaf].prev != next
      requires nodes[leaf].prev != 0 ==> IsLeafNode(nodes, nodes[leaf].prev)
      requires sibling != 0 ==> sibling == nodes[leaf].prev
      requires IsInnerNode(nodes, parent) && j < |nodes[parent].links|
      requires Kid(nodes[parent], j) == leaf && (j > 0 ==> nodes[parent].heir != leaf)
      requires forall k :: 0 <= k < j - 1 ==> nodes[parent].links[k].child != leaf
      modifies this`nodes, this`first
      ensures nodes == JoinedRight(old(nodes), leaf, next)[parent := WithoutLink(old(nodes[parent]), j, next)]
      ensures first == if old(first) == leaf then next else old(first)
    {
      hide WithoutLink;
      var prev := sibling;
      var m, n := nodes[leaf], nodes[next];
      nodes := nodes - {leaf};
      if m.prev != 0 {
        if prev == 0 {
          prev := m.prev;
        }
        nodes := SetNext(nodes, prev, next);
      }
      nodes := nodes[next := Leaf(m.prev, n.next, m.records + n.records)];
      JoinNextLinkInInnerNode(parent, leaf, next, j);
      if first == leaf {
        first := next;
      }
    }

    /** Joins a small leaf with its left neighbour under the same parent. */
    method MergeLeft(leaf: nat, prev: nat, sibling: nat, parent: nat, ghost j: nat)
      requires TreeOk(rank, nodes, spans, root, level) && ListOk(nodes, spans, leaves, first, last)
      requires CursorsOk(rank, spans, cursors)
      requires IsInnerNode(nodes, parent) && parent in spans && spans[parent].height == 2
      requires j < |nodes[parent].links| && Kid(nodes[parent], j) == prev && Kid(nodes[parent], j + 1) == leaf
      requires sibling != 0 ==> j + 1 < |nodes[parent].links| && Kid(nodes[parent], j + 2) == sibling
      modifies this`nodes, this`spans, this`leaves, this`last, this`cursors
      ensures TreeOk(rank, nodes, spans, root, level) && ListOk(nodes, spans, leaves, first, last)
      ensures CursorsOk(rank, spans, cursors) && Contents() == old(Contents())
      ensures LeavesMerged(old(nodes), old(spans), nodes, spans, leaf)
      ensures InnersKept(old(nodes), old(spans), nodes, spans, parent)
      ensures TakenOver(old(nodes), old(leaves), nodes, leaves, prev, leaf, prev, leaf)
      ensures SameKeys(old(cursors), cursors)
    {
      hide TreeOk, ListOk, Gather, RemoveAt, CursorsOk, JoinedLeft, JoinedRight, WithoutLink, LeafAt,
           LeavesMerged, InnersKept, KidOk, TakenOver;
      ghost var i := LeafPair(rank, nodes, spans, root, level, leaves, first, last, parent, j);
      if sibling != 0 {
        ghost var k := LeafPair(rank, nodes, spans, root, level, leaves, first, last, parent, j + 1);
        SamePlace(rank, nodes, spans, root, level, leaves, first, last, k, i + 1);
      }
      JoinLeftKeeps(rank, nodes, spans, root, level, leaves, first, last, parent, j, i);
      TakeLeft(leaf, prev, sibling, parent, j);
      spans := JoinSpans(spans, prev, leaf, prev);
      leaves := RemoveAt(leaves, i + 1);
      MoveCursors(leaf, prev, 0.0);
      JoinCursors(rank, old(spans), old(cursors), cursors, prev, leaf, leaf, prev);
      JoinLeftLeaves(rank, old(nodes), old(spans), root, level, prev, leaf, parent, j);
      LeftTaken(old(nodes), old(leaves), prev, leaf, parent, j, i + 1);
    }

    /** Joins a small leaf with its right neighbour under the same parent. */
    method MergeRight(leaf: nat, next: nat, sibling: nat, parent: nat, ghost j: nat)
      requires TreeOk(rank, nodes, spans, root, level) && ListOk(nodes, spans, leaves, first, last)
      requires CursorsOk(rank, spans, cursors)
      requires IsInnerNode(nodes, parent) && parent in spans && spans[parent].height == 2
      requires j < |nodes[parent].links| && Kid(nodes[parent], j) == leaf && Kid(nodes[parent], j + 1) == next
      requires sibling != 0 ==> j > 0 && Kid(nodes[parent], j - 1) == sibling
      modifies this`nodes, this`spans, this`leaves, this`first, this`cursors
      ensures TreeOk(rank, nodes, spans, root, level) && ListOk(nodes, spans, leaves, first, last)
      ensures CursorsOk(rank, spans, cursors) && Contents() == old(Contents())
      ensures LeavesMerged(old(nodes), old(spans), nodes, spans, leaf)
      ensures InnersKept(old(nodes), old(spans), nodes, spans, parent)
      ensures TakenOver(old(nodes), old(leaves), nodes, leaves, leaf, next, next, leaf)
      ensures SameKeys(old(cursors), cursors)
    {
      hide TreeOk, ListOk, Gather, RemoveAt, CursorsOk, JoinedLeft, JoinedRight, WithoutLink, LeafAt,
           LeavesMerged, InnersKept, KidOk, TakenOver;
      ghost var i := LeafPair(rank, nodes, spans, root, level, leaves, first, last, parent, j);
      if sibling != 0 {
        ghost var k := LeafPair(rank, nodes, spans, root, level, leaves, first, last, parent, j - 1);
        SamePlace(rank, nodes, spans, root, level, leaves, first, last, k + 1, i);
      }
      JoinRightKeeps(rank, nodes, spans, root, level, leaves, first, last, parent, j, i);
      TakeRight(leaf, next, sibling, parent, j);
      spans := JoinSpans(spans, leaf, next, next);
      leaves := RemoveAt(leaves, i);
      MoveCursors(leaf, next, 0.0);
      JoinCursors(rank, old(spans), old(cursors), cursors, leaf, next, leaf, next);
      JoinRightLeaves(rank, old(nodes), old(spans), root, level, leaf, next, parent, j);
      RightTaken(old(nodes), old(leaves), leaf, next, parent, j, i);
    }

    /** Merges a small leaf with a neighbour, and the nodes above as they become too small. */
    method MergeNodes(leaf: nat, key: Bytes)
      requires Shaped() && IsLeafFor(rank, spans, leaf, key) && leaf != root
      modifies this`nodes, this`spans, this`root, this`level, this`leaves, this`first, this`last, this`cursors
      ensures Shaped() && Contents() == old(Contents())
      ensures LeavesMerged(old(nodes), old(spans), nodes, spans, leaf)
      ensures JoinedSmaller(old(nodes), old(leaves), nodes, leaves, leaf)
      ensures SameKeys(old(cursors), cursors)
    {
      hide TreeOk, ListOk, Gather, SameLeaves, Branchy, PathOk, CursorsOk, LeavesMerged, InnersKept, TakenOver,
           JoinedSmaller;
      var hist := TraceTree(key, leaf);
      TreeFacts(rank, nodes, spans, root, level);
      LeafParent(rank, nodes, spans, root, level, hist, leaf, key);
      HistInner(rank, nodes, spans, root, level, hist, leaf);
      var parent := hist[|hist| - 1];
      LeafKids(rank, nodes, spans, root, level, parent);
      ParentLinks(nodes, root, parent);
      var n := nodes[parent];
      var j := FindChild(n, leaf);
      var prev := if j == 0 then 0 else Kid(n, j - 1);
      var next := if j == |n.links| then 0 else Kid(n, j + 1);
      ghost var left := false;
      if prev != 0 && (next == 0 || |nodes[prev].records| <= |nodes[next].records|) {
        MergeLeft(leaf, prev, next, parent, j - 1);
        left := true;
        TakerHeight(rank, old(nodes), old(leaves), nodes, spans, root, level, leaves, prev, leaf, prev, leaf);
      } else {
        MergeRight(leaf, next, prev, parent, j);
        TakerHeight(rank, old(nodes), old(leaves), nodes, spans, root, level, leaves, leaf, next, next, leaf);
      }
      assert JoinedUnder(old(nodes), old(leaves), nodes, leaves, leaf, parent, j);
      MergedHist(old(nodes), old(spans), nodes, spans, root, level, hist, leaf);
      KeptBranchy(old(nodes), old(spans), nodes, spans, root, parent);
      ghost var nodes1, spans1 := nodes, spans;
      MergeUp(hist);
      SameLeavesList(nodes1, spans1, nodes, spans, leaves, first, last);
      SameCursors(rank, nodes1, spans1, nodes, spans, cursors);
      MergedThenSame(old(nodes), old(spans), nodes1, spans1, nodes, spans, leaf);
      SmallerThenSame(old(nodes), old(leaves), nodes1, spans1, nodes, spans, leaves, leaf, parent, j, left);
    }

    predicate CheckLeafNodeToDivide(leaf: nat)
      requires leaf in nodes && nodes[leaf].Leaf?
      reads this
    {
      |nodes[leaf].records| > MAX_LEAF_NODE_RECORDS
    }

    predicate CheckLeafNodeToMerge(leaf: nat)
      requires leaf in nodes && nodes[leaf].Leaf?
      reads this
    {
      |nodes[leaf].records| < MAX_LEAF_NODE_RECORDS / 2 && leaf != root
    }

    /** After a run of operations on single records at most one leaf is queued, and the
        others are at least half full. */
    ghost predicate Sequential()
      reads this`queue, this`nodes, this`spans, this`root
    {
      && Alone(queue) && Filled(nodes, spans, root, queue)
    }

    /** Divides or merges one queued leaf. */
    method ReorganizeLeaf(e: (nat, Bytes), ghost before: set<(nat, Bytes)>, ghost done: set<nat>)
      requires Shaped() && IsLeafFor(rank, spans, e.0, e.1) && e in before && queue == before - {e}
      requires QueueOk(rank, spans, queue, done)
      modifies this`nodes, this`spans, this`root, this`level, this`leaves, this`first, this`last, this`cursors
      ensures Shaped() && Contents() == old(Contents()) && SameKeys(old(cursors), cursors)
      ensures QueueOk(rank, spans, queue, done + {e.0})
      ensures Alone(before) && old(Filled(nodes, spans, root, before)) ==>
                Filled(nodes, spans, root, {}) && queue == {}
      ensures Reorganized(old(nodes), old(root), old(leaves), nodes, leaves, e.0)
    {
      hide TreeOk, ListOk, Gather, Branchy, CursorsOk, LeavesMerged, LeavesDivided, QueueOk, Filled, Alone, Halved,
           JoinedSmaller, Uncrowded;
      SpanFacts(rank, nodes, spans, root, level);
      if CheckLeafNodeToDivide(e.0) {
        DivideNodes(e.0, e.1);
        DividedQueue(rank, old(nodes), old(spans), nodes, spans, queue, done, e.0);
        if Alone(before) && old(Filled(nodes, spans, root, before)) {
          DividedFilled(rank, old(nodes), old(spans), old(root), old(level), nodes, spans, root, before, e);
        }
      } else if CheckLeafNodeToMerge(e.0) {
        MergeNodes(e.0, e.1);
        MergedQueue(rank, old(nodes), old(spans), nodes, spans, queue, done, e.0);
        if Alone(before) && old(Filled(nodes, spans, root, before)) {
          MergedFilled(rank, old(nodes), old(spans), old(root), old(level), nodes, spans, root, before, e);
        }
      } else {
        QueueLess(rank, spans, queue, done, e.0);
        if Alone(before) && Filled(nodes, spans, root, before) {
          StillFilled(nodes, spans, root, before, e);
        }
      }
    }

    /** Takes one entry from the queue; a leaf that has been looked at is passed over, since
        its later entries may name a deleted leaf or a key that has moved elsewhere. */
    method PopAndReorganize(done: set<nat>) returns (done': set<nat>)
      requires Shaped() && QueueOk(rank, spans, queue, done) && queue != {}
      modifies this`nodes, this`spans, this`root, this`level, this`leaves, this`first, this`last,
               this`cursors, this`queue
      ensures Shaped() && Contents() == old(Contents()) && SameKeys(old(cursors), cursors)
      ensures QueueOk(rank, spans, queue, done') && |queue| < |old(queue)|
      ensures old(Sequential()) && done == {} ==> Sequential() && queue == {}
      ensures exists e :: e in old(queue) && queue == old(queue) - {e} &&
                          PoppedOnce(old(nodes), old(root), old(leaves), nodes, leaves, e.0, done, done')
    {
      hide QueueOk, Filled, BabyDBM.Shaped, BabyDBM.Contents, Alone, IsLeafFor, Reorganized;
      var e :| e in queue;
      ghost var before := queue;
      queue := queue - {e};
      done' := done;
      if e.0 !in done {
        PopLeaf(rank, spans, before, done, e);
        ReorganizeLeaf(e, before, done);
        done' := done + {e.0};
        NoEntries();
      } else {
        PopDone(rank, spans, before, done, e);
      }
    }

    /** Divides or merges every queued leaf. */
    method ReorganizeTree()
      requires Valid()
      modifies this
      ensures Valid() && queue == {} && Contents() == old(Contents())
      ensures SameKeys(old(cursors), cursors)
      ensures old(Sequential()) ==> Sequential()
      ensures old(queue) == {} ==> nodes == old(nodes) && root == old(root) && leaves == old(leaves)
      ensures old(Sequential()) ==>
                forall e :: e in old(queue) ==> Reorganized(old(nodes), old(root), old(leaves), nodes, leaves, e.0)
    {
      hide QueueOk, BabyDBM.Shaped, BabyDBM.Contents, Filled, Reorganized;
      var done: set<nat> := {};
      while queue != {}
        invariant done == {} ==>
                    queue == old(queue) && nodes == old(nodes) && root == old(root) && leaves == old(leaves)
        invariant old(queue) == {} ==> done == {}
        invariant old(Sequential()) && done != {} ==>
                    forall e :: e in old(queue) ==> Reorganized(old(nodes), old(root), old(leaves), nodes, leaves, e.0)
        invariant Shaped() && Contents() == old(Contents()) && numRecords == old(numRecords)
        invariant QueueOk(rank, spans, queue, done)
        invariant SameKeys(old(cursors), cursors)
        invariant old(Sequential()) ==> Sequential() && (done == {} || queue == {})
        decreases |queue|
      {
        done := PopAndReorganize(done);
      }
      EmptyQueue(rank, spans, queue);
    }

    /** Calls the processor for a key in its leaf and does what it answers.  Removing the only
        record of a leaf below the root would make the source read the front of an empty leaf. */
    method ProcessImpl(leaf: nat, key: Bytes, proc: Processor, writable: bool)
      returns (seen: Option<Bytes>, answer: Action)
      requires Valid() && IsLeafFor(rank, spans, leaf, key) && IsLeafNode(nodes, leaf)
      requires writable && leaf != root && |nodes[leaf].records| == 1 &&
               rank(nodes[leaf].records[0].key) == rank(key) ==>
                 !proc.full(nodes[leaf].records[0].value).Remove?
      modifies this`nodes, this`numRecords, this`queue
      ensures Valid() && leaf in nodes && nodes == old(nodes)[leaf := nodes[leaf]]
      ensures seen == if rank(key) in old(Dictionary()) then Some(old(Dictionary())[rank(key)].value) else None
      ensures answer == if seen.Some? then proc.full(seen.value) else proc.empty
      ensures forall r :: r != rank(key) ==> Get(Dictionary(), r) == Get(old(Dictionary()), r)
      ensures !writable || answer.Noop? || (seen.None? && answer.Remove?) ==> Dictionary() == old(Dictionary())
      ensures writable && seen.Some? && answer.Remove? ==> rank(key) !in Dictionary()
      ensures writable && answer.Put? ==>
                Get(Dictionary(), rank(key)) ==
                Some(Record(if seen.Some? then old(Dictionary())[rank(key)].key else key, answer.value))
      ensures IsLeafNode(nodes, leaf) &&
              queue == old(queue) + Overdue(old(nodes[leaf].records), nodes[leaf].records, leaf, root)
      ensures Dictionary() == ApplyRecord(old(Dictionary()), rank(key), key,
                                          Response(proc, Get(old(Dictionary()), rank(key)), writable))
      ensures old(queue == {} && Sequential()) ==> Sequential()
      ensures !writable ==> unchanged(this)
    {
      hide TreeOk, ListOk, Gather, Branchy, CursorsOk, Dict, ApplyRecord, QueueOk, Filled, EditedRecords, Overdue;
      ghost var i := LeafIndex(nodes, spans, leaves, first, last, leaf);
      ghost var act := Response(proc, Found(rank, nodes[leaf].records, key), writable);
      EditLeaf(rank, nodes, spans, root, level, leaves, first, last, i, key, act);
      NoEdit(rank, nodes[leaf].records, key);
      var records := nodes[leaf].records;
      SameSize(records, leaf, root);
      var it := RecordFrom(rank, records, rank(key));
      if it < |records| && !(rank(key) < rank(records[it].key)) {
        var rec := records[it];
        seen := Some(rec.value);
        answer := proc.full(rec.value);
        if !answer.Noop? && writable {
          if answer.Remove? {
            EraseRecord(leaf, key, it);
          } else {
            nodes := WithRecords(nodes, leaf, records[it := Record(rec.key, answer.value)]);
            EditIs(rank, records, key, act);
            EditBranchy(old(nodes), root, leaf, nodes[leaf].records);
            EditFilled(old(nodes), spans, root, leaf, nodes[leaf].records, queue);
            SameSizes(records, nodes[leaf].records, leaf, root);
          }
        }
      } else {
        seen := None;
        answer := proc.empty;
        if answer.Put? && writable {
          InsertRecord(leaf, key, answer.value, it);
        }
      }
      assert nodes == old(nodes)[leaf := nodes[leaf]];
      ResponseTakesEffect(old(Dictionary()), rank(key), key, proc, writable, seen, answer);
    }

    method EraseRecord(leaf: nat, key: Bytes, it: nat)
      requires Valid() && IsLeafFor(rank, spans, leaf, key) && IsLeafNode(nodes, leaf)
      requires it == RecordFrom(rank, nodes[leaf].records, rank(key))
      requires Hit(rank, nodes[leaf].records, it, rank(key))
      requires leaf != root ==> |nodes[leaf].records| != 1
      modifies this`nodes, this`numRecords, this`queue
      ensures Valid()
      ensures nodes == WithRecords(old(nodes), leaf,
                                   EditedRecords(rank, old(nodes[leaf].records), key, Remove))
      ensures leaf in nodes && nodes[leaf].Leaf? &&
              queue == old(queue) + Overdue(old(nodes[leaf].records), nodes[leaf].records, leaf, root)
      ensures old(queue == {} && Sequential()) ==> Sequential()
    {
      hide TreeOk, ListOk, Gather, Branchy, CursorsOk, Dict, ApplyRecord, QueueOk, Filled, EditedRecords;
      ghost var i := LeafIndex(nodes, spans, leaves, first, last, leaf);
      EditLeaf(rank, nodes, spans, root, level, leaves, first, last, i, key, Remove);
      EditIs(rank, nodes[leaf].records, key, Remove);
      var records := nodes[leaf].records;
      records := records[..it] + records[it + 1..];
      nodes := WithRecords(nodes, leaf, records);
      if CheckLeafNodeToMerge(leaf) {
        FrontCovered(rank, nodes, spans, root, level, leaf);
        AddToQueue(rank, spans, queue, leaf, records[0].key);
        queue := queue + {(leaf, records[0].key)};
      }
      numRecords := numRecords - 1;
      EditBranchy(old(nodes), root, leaf, records);
      if old(queue == {} && Sequential()) {
        QueueFilled(old(nodes), spans, root, leaf, records, queue);
      }
    }

    method InsertRecord(leaf: nat, key: Bytes, value: Bytes, it: nat)
      requires Valid() && IsLeafFor(rank, spans, leaf, key) && IsLeafNode(nodes, leaf)
      requires it == RecordFrom(rank, nodes[leaf].records, rank(key))
      requires !Hit(rank, nodes[leaf].records, it, rank(key))
      modifies this`nodes, this`numRecords, this`queue
      ensures Valid()
      ensures nodes == WithRecords(old(nodes), leaf,
                                   EditedRecords(rank, old(nodes[leaf].records), key, Put(value)))
      ensures leaf in nodes && nodes[leaf].Leaf? &&
              queue == old(queue) + Overdue(old(nodes[leaf].records), nodes[leaf].records, leaf, root)
      ensures old(queue == {} && Sequential()) ==> Sequential()
    {
      hide TreeOk, ListOk, Gather, Branchy, CursorsOk, Dict, ApplyRecord, QueueOk, Filled, EditedRecords;
      ghost var i := LeafIndex(nodes, spans, leaves, first, last, leaf);
      EditLeaf(rank, nodes, spans, root, level, leaves, first, last, i, key, Put(value));
      EditIs(rank, nodes[leaf].records, key, Put(value));
      var records := nodes[leaf].records;
      records := records[..it] + [Record(key, value)] + records[it..];
      nodes := WithRecords(nodes, leaf, records);
      numRecords := numRecords + 1;
      if CheckLeafNodeToDivide(leaf) {
        FrontCovered(rank, nodes, spans, root, level, leaf);
        AddToQueue(rank, spans, queue, leaf, records[0].key);
        queue := queue + {(leaf, records[0].key)};
      }
      EditBranchy(old(nodes), root, leaf, records);
      if old(queue == {} && Sequential()) {
        QueueFilled(old(nodes), spans, root, leaf, records, queue);
      }
    }

    /** An empty database: one empty leaf, which is the root. */
    constructor (rank: Ranking)
      ensures Valid() && Sequential() && this.rank == rank
      ensures Contents() == [] && cursors == [] && level == 1
    {
      hide TreeOk, ListOk, Gather, Branchy, CursorsOk, Filled, Alone, QueueOk;
      this.rank := rank;
      nodes := map[1 := Leaf(0, 0, [])];
      root, first, last, level := 1, 1, 1, 1;
      numRecords, queue, cursors := 0, {}, [];
      spans, leaves := map[1 := Span(1, 0.0, 1.0)], [1];
      new;
      EmptyTree(this.rank);
    }

    /** In such runs no leaf below the root has fewer than 127 records. */
    lemma {:induction false} NeverBare(leaf: nat)
      requires Sequential() && leaf in spans && spans[leaf].height == 1 && leaf != root
      ensures IsLeafNode(nodes, leaf) && |nodes[leaf].records| >= 127
    {
    }

    /** Processes the record of a key.  A writer first deals with the queue. */
    method Process(key: Bytes, proc: Processor, writable: bool) returns (seen: Option<Bytes>, answer: Action)
      requires Valid() && Sequential()
      modifies this
      ensures Valid() && Sequential()
      ensures seen == if rank(key) in old(Dictionary()) then Some(old(Dictionary())[rank(key)].value) else None
      ensures answer == if seen.Some? then proc.full(seen.value) else proc.empty
      ensures forall r :: r != rank(key) ==> Get(Dictionary(), r) == Get(old(Dictionary()), r)
      ensures !writable || answer.Noop? || (seen.None? && answer.Remove?) ==> Dictionary() == old(Dictionary())
      ensures writable && seen.Some? && answer.Remove? ==> rank(key) !in Dictionary()
      ensures writable && answer.Put? ==>
                Get(Dictionary(), rank(key)) ==
                Some(Record(if seen.Some? then old(Dictionary())[rank(key)].key else key, answer.value))
      ensures Dictionary() == ApplyRecord(old(Dictionary()), rank(key), key,
                                          Response(proc, Get(old(Dictionary()), rank(key)), writable))
      ensures SameKeys(old(cursors), cursors)
      ensures !writable ==> unchanged(this)
    {
      hide TreeOk, ListOk, Gather, Branchy, CursorsOk, Dict, ApplyRecord, QueueOk, BabyDBM.Sequential,
           BabyDBM.Contents, Response;
      if writable && queue != {} {
        ReorganizeTree();
      }
      var leaf := SearchTree(key);
      SpanFacts(rank, nodes, spans, root, level);
      if leaf != root {
        NeverBare(leaf);
      }
      if writable {
        seen, answer := ProcessImpl(leaf, key, proc, true);
      } else {
        seen, answer := ProcessImpl(leaf, key, proc, false);
      }
    }
  }

  lemma {:induction false} EmptyTree(rank: Ranking)
    ensures var nodes, spans := map[1 := Leaf(0, 0, [])], map[1 := Span(1, 0.0, 1.0)];
            && TreeOk(rank, nodes, spans, 1, 1) && ListOk(nodes, spans, [1], 1, 1)
            && Branchy(nodes, 1, 0) && Filled(nodes, spans, 1, {}) && Gather(nodes, [1]) == []
            && CursorsOk(rank, spans, []) && QueueOk(rank, spans, {}, {}) && Alone({})
  {
    assert [1][1..] == [];
    assert LeafAt(map[1 := Leaf(0, 0, [])], [1], 0);
  }

  // ----- what reorganising does to the nodes -----

  /** The leaf has kept the lower half of its records, and a new leaf right after it has the others. */
  ghost predicate Halved(nodes: Nodes, leaves: seq<nat>, nodes': Nodes, leaves': seq<nat>, leaf: nat) {
    exists i, y :: HalvedAt(nodes, leaves, nodes', leaves', leaf, i, y)
  }

  ghost predicate HalvedAt(nodes: Nodes, leaves: seq<nat>, nodes': Nodes, leaves': seq<nat>, leaf: nat, i: nat,
                           y: nat) {
    && i < |leaves| && leaves[i] == leaf && y !in nodes && leaves' == leaves[..i + 1] + [y] + leaves[i + 1..]
    && IsLeafNode(nodes, leaf) && IsLeafNode(nodes', leaf) && IsLeafNode(nodes', y)
    && var rs := nodes[leaf].records;
       nodes'[leaf].records == rs[..|rs| / 2] && nodes'[y].records == rs[|rs| / 2..]
  }

  lemma {:induction false} HalvedLeaf(nodes: Nodes, leaves: seq<nat>, nodes1: Nodes, spans1: Spans, nodes': Nodes,
                                      spans': Spans, leaf: nat, y: nat, i: nat)
    requires IsLeafNode(nodes, leaf) && y !in nodes && i < |leaves| && leaves[i] == leaf
    requires nodes1 == DividedLeaf(nodes, leaf, y, |nodes[leaf].records| / 2)
    requires leaf in spans1 && y in spans1 && spans1[leaf].height == spans1[y].height == 1
    requires SameLeaves(nodes1, spans1, nodes', spans')
    ensures Halved(nodes, leaves, nodes', InsertAfter(leaves, i, y), leaf)
  {
    assert SameLeaf(nodes1, spans1, nodes', spans', leaf) && SameLeaf(nodes1, spans1, nodes', spans', y);
    assert HalvedAt(nodes, leaves, nodes', InsertAfter(leaves, i, y), leaf, i, y);
  }

  /** Every inner node has at most 256 links, or is as it was, or is a half of what a node was. */
  ghost predicate Uncrowded(nodes: Nodes, nodes': Nodes) {
    forall id :: id in nodes' && nodes'[id].Inner? ==>
      |nodes'[id].links| <= 256 || (id in nodes && nodes'[id] == nodes[id]) || IsHalf(nodes, |nodes'[id].links|)
  }

  ghost predicate IsHalf(nodes: Nodes, n: nat) {
    exists id :: IsInnerNode(nodes, id) && 2 * n <= |nodes[id].links| + 1
  }

  lemma {:induction false} UncrowdedRefl(nodes: Nodes)
    ensures Uncrowded(nodes, nodes)
  {
  }

  lemma {:induction false} UncrowdedWith(nodes: Nodes, nodes': Nodes, id: nat, n: Node)
    requires Uncrowded(nodes, nodes') && n.Inner? && |n.links| <= 256
    ensures Uncrowded(nodes, nodes'[id := n])
  {
  }

  /** What a division leaves of a node. */
  ghost predicate SplitInTwo(nodes: Nodes, nodes': Nodes, x: nat, y: nat) {
    && IsInnerNode(nodes, x) && IsInnerNode(nodes', x) && IsInnerNode(nodes', y) && y !in nodes
    && |nodes'[x].links| == |nodes[x].links| / 2
    && |nodes'[y].links| == |nodes[x].links| - |nodes[x].links| / 2 - 1
    && nodes' == nodes[x := nodes'[x]][y := nodes'[y]]
  }

  /** A node that has gained a link and is divided leaves two that are not crowded. */
  lemma {:induction false} UncrowdedSplit(nodes: Nodes, nodes0: Nodes, nodes1: Nodes, nodes2: Nodes, x: nat, y: nat)
    requires Uncrowded(nodes, nodes0) && IsInnerNode(nodes0, x) && IsInnerNode(nodes1, x)
    requires nodes1 == nodes0[x := nodes1[x]] && |nodes1[x].links| == |nodes0[x].links| + 1
    requires SplitInTwo(nodes1, nodes2, x, y)
    ensures Uncrowded(nodes, nodes2)
  {
    var n := |nodes0[x].links|;
    HalfOf(nodes, nodes0, x, |nodes2[x].links|);
    HalfOf(nodes, nodes0, x, |nodes2[y].links|);
    forall id | id in nodes2 && nodes2[id].Inner? && id != x && id != y
      ensures |nodes2[id].links| <= 256 || (id in nodes && nodes2[id] == nodes[id]) ||
              IsHalf(nodes, |nodes2[id].links|)
    {
      assert nodes2[id] == nodes0[id];
    }
  }

  lemma {:induction false} HalfOf(nodes: Nodes, nodes0: Nodes, x: nat, m: nat)
    requires Uncrowded(nodes, nodes0) && IsInnerNode(nodes0, x) && 2 * m <= |nodes0[x].links| + 1
    ensures m <= 256 || IsHalf(nodes, m)
  {
    var n := |nodes0[x].links|;
    if n > 256 {
      if x in nodes && nodes0[x] == nodes[x] {
        assert IsInnerNode(nodes, x);
      } else {
        var id :| IsInnerNode(nodes, id) && 2 * n <= |nodes[id].links| + 1;
        assert 2 * m <= |nodes[id].links| + 1;
      }
    }
  }

  lemma {:induction false} UncrowdedLeaf(nodes: Nodes, nodes1: Nodes, nodes': Nodes, leaf: nat, y: nat)
    requires IsLeafNode(nodes, leaf) && y !in nodes && Uncrowded(nodes1, nodes')
    requires nodes1 == DividedLeaf(nodes, leaf, y, |nodes[leaf].records| / 2)
    ensures Uncrowded(nodes, nodes')
  {
    assert forall id :: id in nodes1 && nodes1[id].Inner? ==> id in nodes && nodes[id] == nodes1[id];
    forall id | id in nodes' && nodes'[id].Inner?
      ensures |nodes'[id].links| <= 256 || (id in nodes && nodes'[id] == nodes[id]) ||
              IsHalf(nodes, |nodes'[id].links|)
    {
      if |nodes'[id].links| > 256 && IsHalf(nodes1, |nodes'[id].links|) {
        var k :| IsInnerNode(nodes1, k) && 2 * |nodes'[id].links| <= |nodes1[k].links| + 1;
        assert IsInnerNode(nodes, k) && nodes[k] == nodes1[k];
      }
    }
  }

  /** A leaf z has taken over the records of the leaf that has gone, in the order of a before b. */
  ghost predicate TakenOver(nodes: Nodes, leaves: seq<nat>, nodes': Nodes, leaves': seq<nat>, a: nat, b: nat, z: nat,
                            gone: nat) {
    && IsLeafNode(nodes, a) && IsLeafNode(nodes, b) && IsLeafNode(nodes', z)
    && nodes'[z].records == nodes[a].records + nodes[b].records
    && exists i :: 0 <= i < |leaves| && leaves[i] == gone && leaves' == RemoveAt(leaves, i)
  }

  lemma {:induction false} LeftTaken(nodes: Nodes, leaves: seq<nat>, a: nat, b: nat, p: nat, j: nat, i: nat)
    requires IsLeafNode(nodes, a) && IsLeafNode(nodes, b) && a != b && 0 !in nodes && nodes[b].next != b
    requires IsInnerNode(nodes, p) && j < |nodes[p].links| && i < |leaves| && leaves[i] == b
    ensures TakenOver(nodes, leaves, JoinedLeft(nodes, a, b)[p := WithoutLink(nodes[p], j, a)], RemoveAt(leaves, i),
                      a, b, a, b)
  {
    hide WithoutLink, RemoveAt;
  }

  lemma {:induction false} RightTaken(nodes: Nodes, leaves: seq<nat>, a: nat, b: nat, p: nat, j: nat, i: nat)
    requires IsLeafNode(nodes, a) && IsLeafNode(nodes, b) && a != b && 0 !in nodes && nodes[a].prev != a
    requires IsInnerNode(nodes, p) && j < |nodes[p].links| && i < |leaves| && leaves[i] == a
    ensures TakenOver(nodes, leaves, JoinedRight(nodes, a, b)[p := WithoutLink(nodes[p], j, b)], RemoveAt(leaves, i),
                      a, b, b, a)
  {
    hide WithoutLink, RemoveAt;
  }

  /** A leaf has gone into the smaller of its neighbours under its parent, or the only one; of two
      equal ones, into the left one. */
  ghost predicate JoinedSmaller(nodes: Nodes, leaves: seq<nat>, nodes': Nodes, leaves': seq<nat>, leaf: nat) {
    exists p, j :: JoinedUnder(nodes, leaves, nodes', leaves', leaf, p, j)
  }

  ghost predicate JoinedUnder(nodes: Nodes, leaves: seq<nat>, nodes': Nodes, leaves': seq<nat>, leaf: nat, p: nat,
                              j: nat) {
    && IsInnerNode(nodes, p) && j <= |nodes[p].links| && Kid(nodes[p], j) == leaf
    && (j > 0 ==> IsLeafNode(nodes, Kid(nodes[p], j - 1)))
    && (j < |nodes[p].links| ==> IsLeafNode(nodes, Kid(nodes[p], j + 1)))
    && if j > 0 && (j == |nodes[p].links| ||
                    |nodes[Kid(nodes[p], j - 1)].records| <= |nodes[Kid(nodes[p], j + 1)].records|)
       then TakenOver(nodes, leaves, nodes', leaves', Kid(nodes[p], j - 1), leaf, Kid(nodes[p], j - 1), leaf)
       else j < |nodes[p].links| &&
            TakenOver(nodes, leaves, nodes', leaves', leaf, Kid(nodes[p], j + 1), Kid(nodes[p], j + 1), leaf)
  }

  lemma {:induction false} SmallerThenSame(nodes: Nodes, leaves: seq<nat>, nodes1: Nodes, spans1: Spans, nodes': Nodes,
                                           spans': Spans, leaves': seq<nat>, leaf: nat, p: nat, j: nat, left: bool)
    requires JoinedUnder(nodes, leaves, nodes1, leaves', leaf, p, j) && SameLeaves(nodes1, spans1, nodes', spans')
    requires left == (j > 0 && (j == |nodes[p].links| ||
                                |nodes[Kid(nodes[p], j - 1)].records| <= |nodes[Kid(nodes[p], j + 1)].records|))
    requires var z := Kid(nodes[p], if left then j - 1 else j + 1);
             z in spans1 && spans1[z].height == 1
    ensures JoinedSmaller(nodes, leaves, nodes', leaves', leaf)
  {
    var z := Kid(nodes[p], if left then j - 1 else j + 1);
    assert SameLeaf(nodes1, spans1, nodes', spans', z);
    assert JoinedUnder(nodes, leaves, nodes', leaves', leaf, p, j);
  }

  lemma {:induction false} TakerHeight(rank: Ranking, nodes0: Nodes, leaves0: seq<nat>, nodes: Nodes, spans: Spans,
                                       root: nat, level: nat, leaves: seq<nat>, a: nat, b: nat, z: nat, gone: nat)
    requires TreeOk(rank, nodes, spans, root, level) && TakenOver(nodes0, leaves0, nodes, leaves, a, b, z, gone)
    ensures z in spans && spans[z].height == 1
  {
    InnerHeight(rank, nodes, spans, root, level, z);
  }

  /** A small inner node has been joined with the smaller of its neighbours under its parent. */
  ghost predicate InnerJoinedSmaller(nodes: Nodes, nodes': Nodes, p: nat, inner: nat) {
    exists j :: InnerJoinedAt(nodes, nodes', p, inner, j)
  }

  ghost predicate InnerJoinedAt(nodes: Nodes, nodes': Nodes, p: nat, inner: nat, j: nat) {
    && IsInnerNode(nodes, p) && j <= |nodes[p].links| && Kid(nodes[p], j) == inner && IsInnerNode(nodes, inner)
    && (j > 0 ==> IsInnerNode(nodes, Kid(nodes[p], j - 1)))
    && (j < |nodes[p].links| ==> IsInnerNode(nodes, Kid(nodes[p], j + 1)))
    && if j > 0 && (j == |nodes[p].links| ||
                    |nodes[Kid(nodes[p], j - 1)].links| <= |nodes[Kid(nodes[p], j + 1)].links|)
       then inner !in nodes' && IsInnerNode(nodes', Kid(nodes[p], j - 1)) &&
            |nodes'[Kid(nodes[p], j - 1)].links| == |nodes[Kid(nodes[p], j - 1)].links| + 1 + |nodes[inner].links|
       else j < |nodes[p].links| && Kid(nodes[p], j + 1) !in nodes' && IsInnerNode(nodes', inner) &&
            |nodes'[inner].links| == |nodes[inner].links| + 1 + |nodes[Kid(nodes[p], j + 1)].links|
  }

  /** What reorganising a queued leaf does: more than 256 records are halved, fewer than 128 go to a
      neighbour unless the leaf is the root, and otherwise nothing happens. */
  ghost predicate Reorganized(nodes: Nodes, root: nat, leaves: seq<nat>, nodes': Nodes, leaves': seq<nat>, leaf: nat) {
    && IsLeafNode(nodes, leaf)
    && if |nodes[leaf].records| > 256 then Halved(nodes, leaves, nodes', leaves', leaf) && Uncrowded(nodes, nodes')
       else if |nodes[leaf].records| < 128 && leaf != root then JoinedSmaller(nodes, leaves, nodes', leaves', leaf)
       else nodes' == nodes && leaves' == leaves
  }

  /** A leaf is reorganised the first time it is taken from the queue. */
  ghost predicate PoppedOnce(nodes: Nodes, root: nat, leaves: seq<nat>, nodes': Nodes, leaves': seq<nat>, leaf: nat,
                             done: set<nat>, done': set<nat>) {
    && done' == done + {leaf}
    && if leaf in done then nodes' == nodes && leaves' == leaves
       else Reorganized(nodes, root, leaves, nodes', leaves', leaf)
  }

  /** What an edit of a leaf adds to the queue: the leaf, under its first key, when it has grown beyond
      256 records, or has shrunk below 128 and is not the root. */
  ghost function Overdue(rs: seq<Record>, rs': seq<Record>, leaf: nat, root: nat): set<(nat, Bytes)> {
    if rs' != [] && ((|rs'| > |rs| && |rs'| > 256) || (|rs'| < |rs| && |rs'| < 128 && leaf != root))
    then {(leaf, rs'[0].key)} else {}
  }

  lemma {:induction false} SameSize(rs: seq<Record>, leaf: nat, root: nat)
    ensures Overdue(rs, rs, leaf, root) == {}
  {
  }

  lemma {:induction false} SameSizes(rs: seq<Record>, rs': seq<Record>, leaf: nat, root: nat)
    requires |rs| == |rs'|
    ensures Overdue(rs, rs', leaf, root) == {}
  {
  }

  lemma {:induction false} ResponseTakesEffect(m: map<real, Record>, r: real, key: Bytes, proc: Processor,
                                               writable: bool, seen: Option<Bytes>, answer: Action)
    requires seen == if r in m then Some(m[r].value) else None
    requires answer == if seen.Some? then proc.full(seen.value) else proc.empty
    ensures var m' := ApplyRecord(m, r, key, Response(proc, Get(m, r), writable));
            && (forall q :: q != r ==> Get(m', q) == Get(m, q))
            && (!writable || answer.Noop? || (seen.None? && answer.Remove?) ==> m' == m)
            && (writable && seen.Some? && answer.Remove? ==> r !in m')
            && (writable && answer.Put? ==>
                  Get(m', r) == Some(Record(if seen.Some? then m[r].key else key, answer.value)))
  {
  }

  /** What a processor's answer amounts to: REMOVE for a missing record does nothing. */
  function Response(proc: Processor, found: Option<Record>, writable: bool): Action {
    if !writable then Noop
    else match found
      case Some(rec) => proc.full(rec.value)
      case None => if proc.empty.Remove? then Noop else proc.empty
  }

  lemma {:induction false} NoEdit(rank: Ranking, rs: seq<Record>, key: Bytes)
    ensures EditedRecords(rank, rs, key, Noop) == rs
  {
  }

  lemma {:induction false} EditIs(rank: Ranking, rs: seq<Record>, key: Bytes, act: Action)
    ensures var p := RecordFrom(rank, rs, rank(key));
            EditedRecords(rank, rs, key, act) == Edit(rs, p, Hit(rank, rs, p, rank(key)), key, act)
  {
  }

  lemma {:induction false} EditBranchy(nodes: Nodes, root: nat, leaf: nat, rs: seq<Record>)
    requires Branchy(nodes, root, 0) && IsLeafNode(nodes, leaf)
    ensures Branchy(WithRecords(nodes, leaf, rs), root, 0)
  {
  }

  lemma {:induction false} EditFilled(nodes: Nodes, spans: Spans, root: nat, leaf: nat, rs: seq<Record>,
                                      queue: set<(nat, Bytes)>)
    requires IsLeafNode(nodes, leaf) && |rs| == |nodes[leaf].records|
    ensures Filled(nodes, spans, root, queue) ==> Filled(WithRecords(nodes, leaf, rs), spans, root, queue)
  {
  }

  lemma {:induction false} FrontCovered(rank: Ranking, nodes: Nodes, spans: Spans, root: nat, level: nat, leaf: nat)
    requires TreeOk(rank, nodes, spans, root, level) && IsLeafNode(nodes, leaf) && |nodes[leaf].records| > 0
    requires leaf in spans && spans[leaf].height == 1
    ensures IsLeafFor(rank, spans, leaf, nodes[leaf].records[0].key)
  {
    hide Apart;
    assert NodeOk(rank, nodes[leaf], spans[leaf], spans);
  }

  lemma {:induction false} AddToQueue(rank: Ranking, spans: Spans, queue: set<(nat, Bytes)>, leaf: nat, key: Bytes)
    requires QueueOk(rank, spans, queue, {}) && IsLeafFor(rank, spans, leaf, key)
    ensures QueueOk(rank, spans, queue + {(leaf, key)}, {})
  {
  }

  lemma {:induction false} QueueFilled(nodes: Nodes, spans: Spans, root: nat, leaf: nat, rs: seq<Record>,
                                       queue: set<(nat, Bytes)>)
    requires Filled(nodes, spans, root, {}) && IsLeafNode(nodes, leaf) && |rs| + 1 >= |nodes[leaf].records|
    requires leaf in spans && spans[leaf].height == 1
    requires queue == {} || exists k :: queue == {(leaf, k)}
    requires |rs| < |nodes[leaf].records| && |rs| < MAX_LEAF_NODE_RECORDS / 2 && leaf != root ==> queue != {}
    ensures Filled(WithRecords(nodes, leaf, rs), spans, root, queue) && Alone(queue)
  {
    forall id | id in spans && spans[id].height == 1 && id != root
      ensures IsLeafNode(nodes, id) && |nodes[id].records| >= MAX_LEAF_NODE_RECORDS / 2
    {
      assert !Queued({}, id);
    }
    if queue != {} {
      var k :| queue == {(leaf, k)};
      assert (leaf, k) in queue;
      assert Queued(queue, leaf);
    }
  }

  ghost predicate Alone(queue: set<(nat, Bytes)>) {
    forall e, f :: e in queue && f in queue ==> e == f
  }

  lemma {:induction false} NoEntries()
    ensures Alone({})
  {
  }

  lemma {:induction false} EmptyQueue(rank: Ranking, spans: Spans, queue: set<(nat, Bytes)>)
    requires queue == {}
    ensures QueueOk(rank, spans, queue, {})
  {
  }

  /** Leaves below the root are at least half full, or one record short and queued. */
  ghost predicate Filled(nodes: Nodes, spans: Spans, root: nat, queue: set<(nat, Bytes)>) {
    forall id :: id in spans && spans[id].height == 1 && id != root ==>
      && IsLeafNode(nodes, id) && |nodes[id].records| >= MAX_LEAF_NODE_RECORDS / 2 - 1
      && (|nodes[id].records| >= MAX_LEAF_NODE_RECORDS / 2 || Queued(queue, id))
  }

  ghost predicate Queued(queue: set<(nat, Bytes)>, id: nat) {
    exists e :: e in queue && e.0 == id
  }

  lemma {:induction false} PopLeaf(rank: Ranking, spans: Spans, queue: set<(nat, Bytes)>, done: set<nat>,
                                   e: (nat, Bytes))
    requires QueueOk(rank, spans, queue, done) && e in queue && e.0 !in done
    ensures IsLeafFor(rank, spans, e.0, e.1)
    ensures QueueOk(rank, spans, queue - {e}, done)
  {
  }

  lemma {:induction false} PopDone(rank: Ranking, spans: Spans, queue: set<(nat, Bytes)>, done: set<nat>,
                                   e: (nat, Bytes))
    requires QueueOk(rank, spans, queue, done)
    ensures QueueOk(rank, spans, queue - {e}, done)
  {
  }

  lemma {:induction false} QueueLess(rank: Ranking, spans: Spans, queue: set<(nat, Bytes)>, done: set<nat>, leaf: nat)
    requires QueueOk(rank, spans, queue, done)
    ensures QueueOk(rank, spans, queue, done + {leaf})
  {
  }

  /** Dividing one leaf leads no other queued key astray. */
  lemma {:induction false} DividedQueue(rank: Ranking, nodes: Nodes, spans: Spans, nodes': Nodes, spans': Spans,
                                        queue: set<(nat, Bytes)>, done: set<nat>, leaf: nat)
    requires QueueOk(rank, spans, queue, done) && LeavesDivided(nodes, spans, nodes', spans', leaf)
    ensures QueueOk(rank, spans', queue, done + {leaf})
  {
    forall e | e in queue && e.0 !in done + {leaf}
      ensures IsLeafFor(rank, spans', e.0, e.1)
    {
      assert IsLeafFor(rank, spans, e.0, e.1);
      assert KeepsLeaf(nodes, spans, nodes', spans', e.0);
    }
  }

  /** Nor does merging it: the leaf that grows still covers its queued keys. */
  lemma {:induction false} MergedQueue(rank: Ranking, nodes: Nodes, spans: Spans, nodes': Nodes, spans': Spans,
                                       queue: set<(nat, Bytes)>, done: set<nat>, leaf: nat)
    requires QueueOk(rank, spans, queue, done) && LeavesMerged(nodes, spans, nodes', spans', leaf)
    ensures QueueOk(rank, spans', queue, done + {leaf})
  {
    forall e | e in queue && e.0 !in done + {leaf}
      ensures IsLeafFor(rank, spans', e.0, e.1)
    {
      assert IsLeafFor(rank, spans, e.0, e.1);
      assert GrownLeaf(nodes, spans, nodes', spans', e.0);
    }
  }

  lemma {:induction false} OnlyEntry(queue: set<(nat, Bytes)>, e: (nat, Bytes), id: nat)
    requires Alone(queue) && e in queue && id != e.0
    ensures !Queued(queue, id) && queue - {e} == {}
  {
  }

  /** A leaf that is the root is the only leaf. */
  lemma {:induction false} OnlyLeaf(rank: Ranking, nodes: Nodes, spans: Spans, root: nat, level: nat, id: nat)
    requires TreeOk(rank, nodes, spans, root, level) && id in spans && spans[id].height == 1
    requires spans[root].height == 1
    ensures id == root
  {
    hide Apart, NodesOk;
    OneCovers(spans, id, root, spans[id].low);
  }

  lemma {:induction false} DividedFilled(rank: Ranking, nodes: Nodes, spans: Spans, root: nat, level: nat,
                                         nodes': Nodes, spans': Spans, root': nat, queue: set<(nat, Bytes)>,
                                         e: (nat, Bytes))
    requires TreeOk(rank, nodes, spans, root, level) && Filled(nodes, spans, root, queue)
    requires Alone(queue) && e in queue
    requires LeavesDivided(nodes, spans, nodes', spans', e.0) && e.0 in spans && spans[e.0].height == 1
    ensures Filled(nodes', spans', root', {}) && queue - {e} == {}
  {
    hide TreeOk;
    OnlyEntry(queue, e, e.0 + 1);
    forall id | id in spans' && spans'[id].height == 1 && id != root'
      ensures BigLeaf(nodes', id)
    {
      if id != e.0 && id in spans {
        OnlyEntry(queue, e, id);
        if spans[id].height == 1 {
          if id == root {
            OnlyLeaf(rank, nodes, spans, root, level, e.0);
          }
          assert KeepsLeaf(nodes, spans, nodes', spans', id);
        }
      }
    }
  }

  lemma {:induction false} MergedFilled(rank: Ranking, nodes: Nodes, spans: Spans, root: nat, level: nat,
                                        nodes': Nodes, spans': Spans, root': nat, queue: set<(nat, Bytes)>,
                                        e: (nat, Bytes))
    requires TreeOk(rank, nodes, spans, root, level) && Filled(nodes, spans, root, queue)
    requires Alone(queue) && e in queue
    requires LeavesMerged(nodes, spans, nodes', spans', e.0) && e.0 in spans && spans[e.0].height == 1
    requires e.0 != root
    ensures Filled(nodes', spans', root', {}) && queue - {e} == {}
  {
    hide TreeOk;
    OnlyEntry(queue, e, e.0 + 1);
    forall id | id in spans' && spans'[id].height == 1 && id != root'
      ensures BigLeaf(nodes', id)
    {
      OnlyEntry(queue, e, id);
      if id == root {
        OnlyLeaf(rank, nodes, spans, root, level, e.0);
      }
      assert GrownLeaf(nodes, spans, nodes', spans', id);
    }
  }

  lemma {:induction false} StillFilled(nodes: Nodes, spans: Spans, root: nat, queue: set<(nat, Bytes)>, e: (nat, Bytes))
    requires Filled(nodes, spans, root, queue)
    requires Alone(queue) && e in queue
    requires IsLeafNode(nodes, e.0)
    requires |nodes[e.0].records| >= MAX_LEAF_NODE_RECORDS / 2 || e.0 == root
    ensures Filled(nodes, spans, root, {}) && queue - {e} == {}
  {
    OnlyEntry(queue, e, e.0 + 1);
    forall id | id in spans && spans[id].height == 1 && id != root
      ensures BigLeaf(nodes, id)
    {
      if id != e.0 {
        OnlyEntry(queue, e, id);
      }
    }
  }

  lemma {:induction false} LeafParent(rank: Ranking, nodes: Nodes, spans: Spans, root: nat, level: nat,
                                      hist: seq<nat>, leaf: nat, key: Bytes)
    requires TreeOk(rank, nodes, spans, root, level) && PathOk(nodes, spans, root, level, hist + [leaf])
    requires leaf != root && IsLeafFor(rank, spans, leaf, key)
    ensures |hist| > 0 && IsKid(nodes, hist[|hist| - 1], leaf)
    ensures hist[|hist| - 1] in spans && spans[hist[|hist| - 1]].height == 2
  {
    hide TreeOk;
    var path := hist + [leaf];
    assert OnPath(nodes, spans, level, path, |hist|);
    if |hist| > 0 {
      assert path[|hist| - 1] == hist[|hist| - 1] && path[|hist|] == leaf;
      assert OnPath(nodes, spans, level, path, |hist| - 1);
    }
  }

  lemma {:induction false} HistInner(rank: Ranking, nodes: Nodes, spans: Spans, root: nat, level: nat,
                                     hist: seq<nat>, leaf: nat)
    requires TreeOk(rank, nodes, spans, root, level) && PathOk(nodes, spans, root, level, hist + [leaf])
    ensures forall i :: 0 <= i < |hist| ==> IsInnerNode(nodes, hist[i])
  {
    hide TreeOk;
    forall i | 0 <= i < |hist|
      ensures IsInnerNode(nodes, hist[i])
    {
      assert (hist + [leaf])[i] == hist[i];
      assert OnPath(nodes, spans, level, hist + [leaf], i);
    }
  }

  lemma {:induction false} LeafKids(rank: Ranking, nodes: Nodes, spans: Spans, root: nat, level: nat, p: nat)
    requires TreeOk(rank, nodes, spans, root, level) && IsInnerNode(nodes, p)
    requires p in spans && spans[p].height == 2
    ensures forall j :: 0 <= j <= |nodes[p].links| ==>
              Kid(nodes[p], j) != 0 && IsLeafNode(nodes, Kid(nodes[p], j))
  {
    hide Apart;
    assert NodeOk(rank, nodes[p], spans[p], spans);
    forall j | 0 <= j <= |nodes[p].links|
      ensures Kid(nodes[p], j) != 0 && IsLeafNode(nodes, Kid(nodes[p], j))
    {
      assert KidOk(rank, nodes[p], spans[p], spans, j);
      assert NodeOk(rank, nodes[Kid(nodes[p], j)], spans[Kid(nodes[p], j)], spans);
    }
  }

  lemma {:induction false} ParentLinks(nodes: Nodes, root: nat, p: nat)
    requires Branchy(nodes, root, 0) && IsInnerNode(nodes, p) && p != 0
    ensures |nodes[p].links| > 0
  {
  }

  lemma {:induction false} MergedHist(nodes: Nodes, spans: Spans, nodes': Nodes, spans': Spans, root: nat,
                                      level: nat, hist: seq<nat>, leaf: nat)
    requires PathOk(nodes, spans, root, level, hist + [leaf]) && |hist| > 0
    requires leaf in spans && spans[leaf].height == 1
    requires forall i :: 0 <= i < |hist| ==> IsInnerNode(nodes, hist[i])
    requires InnersKept(nodes, spans, nodes', spans', hist[|hist| - 1])
    ensures PathOk(nodes', spans', root, level, hist)
    ensures forall i :: 0 <= i < |hist| ==> IsInnerNode(nodes', hist[i])
  {
    var path := hist + [leaf];
    assert OnPath(nodes, spans, level, path, |hist|) && OnPath(nodes, spans, level, path, |hist| - 1);
    forall i | 0 <= i < |hist|
      ensures path[i] in spans && spans[path[i]].height > 1 && path[i] in nodes
      ensures i < |hist| - 1 ==> hist[i] != hist[|hist| - 1]
      ensures IsInnerNode(nodes', hist[i])
    {
      assert path[i] == hist[i] && IsInnerNode(nodes, hist[i]);
      assert OnPath(nodes, spans, level, path, i);
    }
    PathFrame(nodes, spans, root, level, path, |hist|, nodes', spans');
    assert path[..|hist|] == hist;
  }

  lemma {:induction false} KeptBranchy(nodes: Nodes, spans: Spans, nodes': Nodes, spans': Spans, root: nat, p: nat)
    requires Branchy(nodes, root, 0) && InnersKept(nodes, spans, nodes', spans', p) && 0 !in nodes
    ensures Branchy(nodes', root, p) && IsInnerNode(nodes', p)
    ensures |nodes'[p].links| + 1 >= LeastLinks(p, root)
  {
    forall id | id in nodes' && id != p && nodes'[id].Inner?
      ensures |nodes'[id].links| >= LeastLinks(id, root)
    {
      assert id in nodes && nodes[id].Inner?;
    }
  }

  lemma {:induction false} MergedThenSame(n0: Nodes, s0: Spans, n1: Nodes, s1: Spans, n2: Nodes, s2: Spans, leaf: nat)
    requires LeavesMerged(n0, s0, n1, s1, leaf) && SameLeaves(n1, s1, n2, s2)
    ensures LeavesMerged(n0, s0, n2, s2, leaf)
  {
    forall id | id in s0 && s0[id].height == 1 && id != leaf
      ensures GrownLeaf(n0, s0, n2, s2, id)
    {
      assert GrownLeaf(n0, s0, n1, s1, id);
      assert SameLeaf(n1, s1, n2, s2, id);
    }
  }

  /** Two neighbouring leaves under a parent, in the list and as the list's pointers see them. */
  lemma {:induction false} LeafPair(rank: Ranking, nodes: Nodes, spans: Spans, root: nat, level: nat,
                                    leaves: seq<nat>, first: nat, last: nat, p: nat, j: nat) returns (i: nat)
    requires TreeOk(rank, nodes, spans, root, level) && ListOk(nodes, spans, leaves, first, last)
    requires IsInnerNode(nodes, p) && p in spans && spans[p].height == 2 && j < |nodes[p].links|
    ensures KidOk(rank, nodes[p], spans[p], spans, j) && KidOk(rank, nodes[p], spans[p], spans, j + 1)
    ensures i + 1 < |leaves| && leaves[i] == Kid(nodes[p], j) && leaves[i + 1] == Kid(nodes[p], j + 1)
    ensures var a, b := leaves[i], leaves[i + 1];
            && a != b && 0 !in nodes && 0 !in spans && a in spans && b in spans
            && SpanOk(spans[a]) && SpanOk(spans[b])
            && spans[a].height == spans[b].height == 1 && spans[a].high == spans[b].low
            && Pointers(nodes, leaves, i) && Pointers(nodes, leaves, i + 1)
            && (forall k :: 0 <= k < j ==> nodes[p].links[k].child != b)
            && (j > 0 ==> nodes[p].heir != a)
            && (forall k :: 0 <= k < j - 1 ==> nodes[p].links[k].child != a)
  {
    hide Apart, Tiling, Threaded, AllLeaves;
    assert NodeOk(rank, nodes[p], spans[p], spans);
    assert KidOk(rank, nodes[p], spans[p], spans, j) && KidOk(rank, nodes[p], spans[p], spans, j + 1);
    i := SiblingsInList(rank, nodes, spans, leaves, level, p, j);
    Neighbours(rank, nodes[p], spans[p], spans, j);
    PointersAt(nodes, spans, leaves, first, last, i);
    PointersAt(nodes, spans, leaves, first, last, i + 1);
    KidsDiffer(rank, nodes[p], spans[p], spans);
    assert Kid(nodes[p], 0) == nodes[p].heir;
    assert forall k :: 0 <= k < |nodes[p].links| ==> nodes[p].links[k].child == Kid(nodes[p], k + 1);
  }

  /** A leaf's pointers are its neighbours in the list, which are other leaves. */
  ghost predicate Pointers(nodes: Nodes, leaves: seq<nat>, i: nat)
    requires i < |leaves|
  {
    && IsLeafNode(nodes, leaves[i])
    && nodes[leaves[i]].prev == At(leaves, i - 1) && nodes[leaves[i]].next == At(leaves, i + 1)
    && (forall k :: 0 <= k < |leaves| && k != i ==> leaves[k] != leaves[i])
    && (nodes[leaves[i]].prev != 0 ==> i > 0 && IsLeafNode(nodes, nodes[leaves[i]].prev))
    && (nodes[leaves[i]].next != 0 ==> i + 1 < |leaves| && IsLeafNode(nodes, nodes[leaves[i]].next))
    && 0 !in leaves
  }

  lemma {:induction false} PointersAt(nodes: Nodes, spans: Spans, leaves: seq<nat>, first: nat, last: nat, i: nat)
    requires ListOk(nodes, spans, leaves, first, last) && i < |leaves| && 0 !in nodes
    requires forall id :: id in spans ==> SpanOk(spans[id])
    ensures Pointers(nodes, leaves, i)
  {
    hide Tiling;
    DistinctLeaves(spans, leaves);
    assert LeafAt(nodes, leaves, i);
    assert i > 0 ==> LeafAt(nodes, leaves, i - 1);
    assert i + 1 < |leaves| ==> LeafAt(nodes, leaves, i + 1);
    forall k | 0 <= k < |leaves|
      ensures leaves[k] != 0
    {
      assert LeafAt(nodes, leaves, k);
    }
  }

  lemma {:induction false} KidsDiffer(rank: Ranking, n: Node, s: Span, spans: Spans)
    requires KidsOk(rank, n, s, spans)
    requires forall id :: id in spans ==> SpanOk(spans[id])
    ensures forall i, j :: 0 <= i < j <= |n.links| ==> Kid(n, i) != Kid(n, j)
  {
    forall i, j | 0 <= i < j <= |n.links|
      ensures Kid(n, i) != Kid(n, j)
    {
      KidsAscend(rank, n, s, spans, i, j);
      assert KidOk(rank, n, s, spans, i) && KidOk(rank, n, s, spans, j);
    }
  }

  lemma {:induction false} SamePlace(rank: Ranking, nodes: Nodes, spans: Spans, root: nat, level: nat,
                                     leaves: seq<nat>, first: nat, last: nat, i: nat, k: nat)
    requires TreeOk(rank, nodes, spans, root, level) && ListOk(nodes, spans, leaves, first, last)
    requires i < |leaves| && k < |leaves| && leaves[i] == leaves[k]
    ensures i == k
  {
    hide Apart, Tiling, Threaded, AllLeaves;
    DistinctLeaves(spans, leaves);
  }

  /** The iterators after a join: each still caches the leaf of its key. */
  lemma {:induction false} JoinCursors(rank: Ranking, spans: Spans, cs: seq<Cursor>, cs': seq<Cursor>, a: nat,
                                       b: nat, gone: nat, z: nat)
    requires CursorsOk(rank, spans, cs) && a in spans && b in spans
    requires spans[a].height == spans[b].height == 1 && spans[a].high == spans[b].low
    requires SpanOk(spans[a]) && SpanOk(spans[b]) && 0 !in spans
    requires (gone == a && z == b) || (gone == b && z == a)
    requires |cs'| == |cs|
    requires forall k :: 0 <= k < |cs| ==> cs'[k] == MovedCursor(rank, cs[k], gone, z, 0.0)
    ensures CursorsOk(rank, JoinSpans(spans, a, b, z), cs')
  {
    forall k | 0 <= k < |cs'|
      ensures CursorOk(rank, JoinSpans(spans, a, b, z), cs'[k])
    {
      assert CursorOk(rank, spans, cs[k]);
    }
  }

  /** A leaf that has kept or widened its span and kept or gained records. */
  ghost predicate GrownLeaf(nodes: Nodes, spans: Spans, nodes': Nodes, spans': Spans, id: nat) {
    && id in spans && id in spans' && spans'[id].height == 1
    && spans'[id].low <= spans[id].low && spans[id].high <= spans'[id].high
    && IsLeafNode(nodes, id) && IsLeafNode(nodes', id)
    && |nodes[id].records| <= |nodes'[id].records|
  }

  /** What a merge does to the leaves: one is gone, the others have kept or grown. */
  ghost predicate LeavesMerged(nodes: Nodes, spans: Spans, nodes': Nodes, spans': Spans, leaf: nat) {
    && (forall id :: id in spans && spans[id].height == 1 && id != leaf ==>
          GrownLeaf(nodes, spans, nodes', spans', id))
    && (forall id :: id in spans' && spans'[id].height == 1 ==>
          id in spans && spans[id].height == 1 && id != leaf)
  }

  /** Above the leaves only one node has changed: it has lost a link. */
  ghost predicate InnersKept(nodes: Nodes, spans: Spans, nodes': Nodes, spans': Spans, p: nat) {
    && (forall id :: id in nodes && nodes[id].Inner? && id != p ==> id in nodes' && nodes'[id] == nodes[id])
    && (forall id :: id in nodes' && nodes'[id].Inner? ==> id in nodes && nodes[id].Inner?)
    && (forall id :: id in spans && spans[id].height > 1 ==> id in spans' && spans'[id] == spans[id])
    && IsInnerNode(nodes, p) && IsInnerNode(nodes', p) && |nodes'[p].links| + 1 == |nodes[p].links|
  }

  lemma {:induction false} JoinLeaves(nodes: Nodes, spans: Spans, nodes': Nodes, a: nat, b: nat, z: nat, gone: nat,
                                      p: nat)
    requires nodes.Keys == spans.Keys && a in spans && b in spans && a != b
    requires spans[a].height == spans[b].height == 1 && spans[a].high == spans[b].low
    requires SpanOk(spans[a]) && SpanOk(spans[b]) && p in spans && spans[p].height == 2
    requires forall id :: id in spans && spans[id].height == 1 ==> IsLeafNode(nodes, id)
    requires (gone == a && z == b) || (gone == b && z == a)
    requires nodes'.Keys == nodes.Keys - {gone}
    requires forall id :: id in nodes' && id in nodes && id != z && id != p ==> Alike(nodes[id], nodes'[id])
    requires IsLeafNode(nodes, a) && IsLeafNode(nodes, b)
    requires IsLeafNode(nodes', z) && |nodes'[z].records| == |nodes[a].records| + |nodes[b].records|
    requires IsInnerNode(nodes, p) && IsInnerNode(nodes', p) && |nodes'[p].links| + 1 == |nodes[p].links|
    ensures LeavesMerged(nodes, spans, nodes', JoinSpans(spans, a, b, z), gone)
    ensures InnersKept(nodes, spans, nodes', JoinSpans(spans, a, b, z), p)
  {
    var spans' := JoinSpans(spans, a, b, z);
    forall id | id in spans && spans[id].height == 1 && id != gone
      ensures GrownLeaf(nodes, spans, nodes', spans', id)
    {
      assert IsLeafNode(nodes, id) && id in nodes';
      assert id != z ==> Alike(nodes[id], nodes'[id]);
    }
    forall id | id in nodes && nodes[id].Inner? && id != p
      ensures id in nodes' && nodes'[id] == nodes[id]
    {
      assert id != z && id in nodes' && Alike(nodes[id], nodes'[id]);
    }
    forall id | id in nodes' && nodes'[id].Inner?
      ensures id in nodes && nodes[id].Inner?
    {
      assert id in nodes && id != z;
      assert id != p ==> Alike(nodes[id], nodes'[id]);
    }
  }

  lemma {:induction false} JoinLeftLeaves(rank: Ranking, nodes: Nodes, spans: Spans, root: nat, level: nat, a: nat,
                                          b: nat, p: nat, j: nat)
    requires TreeOk(rank, nodes, spans, root, level) && a != b
    requires a in spans && b in spans && spans[a].height == spans[b].height == 1
    requires IsLeafNode(nodes, a) && IsLeafNode(nodes, b)
    requires IsInnerNode(nodes, p) && p in spans && spans[p].height == 2 && j < |nodes[p].links|
    requires spans[a].high == spans[b].low
    ensures var nodes' := JoinedLeft(nodes, a, b)[p := WithoutLink(nodes[p], j, a)];
            var spans' := JoinSpans(spans, a, b, a);
            && LeavesMerged(nodes, spans, nodes', spans', b) && InnersKept(nodes, spans, nodes', spans', p)
  {
    hide TreeOk, WithoutLink, LeavesMerged, InnersKept, JoinSpans;
    TreeFacts(rank, nodes, spans, root, level);
    SpanFacts(rank, nodes, spans, root, level);
    WithoutLength(nodes[p], j, a);
    var nodes' := JoinedLeft(nodes, a, b)[p := WithoutLink(nodes[p], j, a)];
    JoinLeaves(nodes, spans, nodes', a, b, a, b, p);
  }

  lemma {:induction false} JoinRightLeaves(rank: Ranking, nodes: Nodes, spans: Spans, root: nat, level: nat, a: nat,
                                           b: nat, p: nat, j: nat)
    requires TreeOk(rank, nodes, spans, root, level) && a != b
    requires a in spans && b in spans && spans[a].height == spans[b].height == 1
    requires IsLeafNode(nodes, a) && IsLeafNode(nodes, b)
    requires IsInnerNode(nodes, p) && p in spans && spans[p].height == 2 && j < |nodes[p].links|
    requires spans[a].high == spans[b].low
    ensures var nodes' := JoinedRight(nodes, a, b)[p := WithoutLink(nodes[p], j, b)];
            var spans' := JoinSpans(spans, a, b, b);
            && LeavesMerged(nodes, spans, nodes', spans', a) && InnersKept(nodes, spans, nodes', spans', p)
  {
    hide TreeOk, WithoutLink, LeavesMerged, InnersKept, JoinSpans;
    TreeFacts(rank, nodes, spans, root, level);
    SpanFacts(rank, nodes, spans, root, level);
    WithoutLength(nodes[p], j, b);
    var nodes' := JoinedRight(nodes, a, b)[p := WithoutLink(nodes[p], j, b)];
    JoinLeaves(nodes, spans, nodes', a, b, b, a, p);
  }

  ghost predicate IsLeafNode(nodes: Nodes, id: nat) {
    id in nodes && nodes[id].Leaf?
  }

  ghost predicate IsInnerNode(nodes: Nodes, id: nat) {
    id in nodes && nodes[id].Inner?
  }

  ghost predicate Beneath(spans: Spans, parent: nat, id: nat) {
    parent in spans && id in spans && spans[id].height < spans[parent].height
  }

  ghost predicate InnerPair(nodes: Nodes, parent: nat, a: nat, b: nat) {
    && IsInnerNode(nodes, parent) && IsInnerNode(nodes, a) && IsInnerNode(nodes, b)
    && a != b && parent != a && parent != b && |nodes[parent].links| > 0
  }

  /** Node b has gone into node a, and their parent has one link less. */
  ghost predicate InnerJoined(nodes: Nodes, nodes': Nodes, parent: nat, a: nat, b: nat)
    requires InnerPair(nodes, parent, a, b)
  {
    && IsInnerNode(nodes', a) && |nodes'[a].links| == |nodes[a].links| + 1 + |nodes[b].links|
    && IsInnerNode(nodes', parent) && |nodes'[parent].links| == |nodes[parent].links| - 1
    && (forall id :: id in nodes' ==> id in nodes && id != b)
    && (forall id :: id in nodes && id != a && id != b && id != parent ==>
          id in nodes' && nodes'[id] == nodes[id])
  }

  lemma {:induction false} InnerHeight(rank: Ranking, nodes: Nodes, spans: Spans, root: nat, level: nat, id: nat)
    requires TreeOk(rank, nodes, spans, root, level) && id in nodes
    ensures id in spans && (nodes[id].Inner? <==> spans[id].height > 1)
  {
    assert NodeOk(rank, nodes[id], spans[id], spans);
  }

  /** Two neighbours above the leaves. */
  lemma {:induction false} TwoInner(rank: Ranking, nodes: Nodes, spans: Spans, root: nat, level: nat, p: nat, j: nat)
    requires TreeOk(rank, nodes, spans, root, level)
    requires p in nodes && nodes[p].Inner? && j < |nodes[p].links| && p in spans && spans[p].height > 2
    ensures InnerPair(nodes, p, Kid(nodes[p], j), Kid(nodes[p], j + 1))
    ensures KidOk(rank, nodes[p], spans[p], spans, j) && KidOk(rank, nodes[p], spans[p], spans, j + 1)
    ensures forall k :: 0 <= k < j ==> nodes[p].links[k].child != Kid(nodes[p], j + 1)
    ensures nodes.Keys == spans.Keys
  {
    hide Apart;
    assert NodeOk(rank, nodes[p], spans[p], spans);
    assert KidOk(rank, nodes[p], spans[p], spans, j) && KidOk(rank, nodes[p], spans[p], spans, j + 1);
    var a, b := Kid(nodes[p], j), Kid(nodes[p], j + 1);
    assert NodeOk(rank, nodes[a], spans[a], spans) && NodeOk(rank, nodes[b], spans[b], spans);
    KidsAscend(rank, nodes[p], spans[p], spans, j, j + 1);
    forall k | 0 <= k < j
      ensures nodes[p].links[k].child != b
    {
      assert Kid(nodes[p], k + 1) == nodes[p].links[k].child;
      KidsAscend(rank, nodes[p], spans[p], spans, k + 1, j + 1);
      assert KidOk(rank, nodes[p], spans[p], spans, k + 1);
    }
  }

  lemma {:induction false} JoinInnerKeeps(rank: Ranking, nodes: Nodes, spans: Spans, root: nat, level: nat, p: nat,
                                          j: nat)
    requires TreeOk(rank, nodes, spans, root, level)
    requires p in nodes && nodes[p].Inner? && j < |nodes[p].links| && p in spans && spans[p].height > 2
    requires KidOk(rank, nodes[p], spans[p], spans, j) && KidOk(rank, nodes[p], spans[p], spans, j + 1)
    requires InnerPair(nodes, p, Kid(nodes[p], j), Kid(nodes[p], j + 1))
    ensures var a, b := Kid(nodes[p], j), Kid(nodes[p], j + 1);
            && a in spans && b in spans
            && spans[a].height == spans[b].height == spans[p].height - 1
            && a != root && b != root
            && TreeOk(rank, JoinNodes(nodes, p, j, a, JoinedInner(nodes[a], nodes[b], nodes[p].links[j].key)),
                      JoinSpans(spans, a, b, a), root, level)
  {
    hide Apart, KidOk, KidsOk, Kid, JoinNodes, JoinSpans;
    var a, b := Kid(nodes[p], j), Kid(nodes[p], j + 1);
    Neighbours(rank, nodes[p], spans[p], spans, j);
    assert NodeOk(rank, nodes[a], spans[a], spans) && NodeOk(rank, nodes[b], spans[b], spans);
    JoinedInnerOk(rank, nodes[a], spans[a], nodes[b], spans[b], nodes[p].links[j].key, spans);
    JoinKeeps(rank, nodes, spans, root, level, p, j, a,
              JoinedInner(nodes[a], nodes[b], nodes[p].links[j].key));
  }

  lemma {:induction false} JoinInnerSame(nodes: Nodes, spans: Spans, nodes': Nodes, spans': Spans, p: nat, a: nat,
                                         b: nat)
    requires nodes.Keys == spans.Keys && a in spans && b in spans && a != b
    requires spans[a].height > 1 && spans[a].height == spans[b].height && p in spans && spans[p].height > 1
    requires spans' == JoinSpans(spans, a, b, a)
    requires forall id :: id in nodes && id != a && id != b && id != p ==>
               id in nodes' && nodes'[id] == nodes[id]
    ensures SameLeaves(nodes, spans, nodes', spans')
  {
  }

  lemma {:induction false} WithoutLength(n: Node, j: nat, z: nat)
    requires n.Inner? && j < |n.links|
    ensures WithoutLink(n, j, z).Inner? && |WithoutLink(n, j, z).links| == |n.links| - 1
  {
  }

  lemma {:induction false} ParentOf(rank: Ranking, nodes: Nodes, spans: Spans, root: nat, level: nat, path: seq<nat>)
    requires TreeOk(rank, nodes, spans, root, level) && PathOk(nodes, spans, root, level, path)
    requires |path| > 1 && IsInnerNode(nodes, path[|path| - 1])
    ensures IsKid(nodes, path[|path| - 2], path[|path| - 1])
    ensures path[|path| - 2] in spans && spans[path[|path| - 2]].height > 2
  {
    hide TreeOk;
    assert OnPath(nodes, spans, level, path, |path| - 2) && OnPath(nodes, spans, level, path, |path| - 1);
    InnerHeight(rank, nodes, spans, root, level, path[|path| - 1]);
  }

  /** The parent of the node being merged has its full share of links. */
  lemma {:induction false} ParentBranchy(nodes: Nodes, spans: Spans, root: nat, level: nat, path: seq<nat>)
    requires PathOk(nodes, spans, root, level, path) && |path| > 1
    requires Branchy(nodes, root, path[|path| - 1]) && IsInnerNode(nodes, path[|path| - 2])
    ensures |nodes[path[|path| - 2]].links| >= LeastLinks(path[|path| - 2], root)
    ensures path[|path| - 2] != path[|path| - 1]
  {
    assert OnPath(nodes, spans, level, path, |path| - 2) && OnPath(nodes, spans, level, path, |path| - 1);
  }

  lemma {:induction false} KidsNotNull(rank: Ranking, nodes: Nodes, spans: Spans, root: nat, level: nat, p: nat)
    requires TreeOk(rank, nodes, spans, root, level) && IsInnerNode(nodes, p)
    requires p in spans && spans[p].height > 2
    ensures forall j :: 0 <= j <= |nodes[p].links| ==>
              Kid(nodes[p], j) != 0 && IsInnerNode(nodes, Kid(nodes[p], j))
  {
    hide Apart;
    assert NodeOk(rank, nodes[p], spans[p], spans);
    forall j | 0 <= j <= |nodes[p].links|
      ensures Kid(nodes[p], j) != 0 && IsInnerNode(nodes, Kid(nodes[p], j))
    {
      assert KidOk(rank, nodes[p], spans[p], spans, j);
      assert NodeOk(rank, nodes[Kid(nodes[p], j)], spans[Kid(nodes[p], j)], spans);
    }
  }

  lemma {:induction false} MergedPath(nodes: Nodes, spans: Spans, nodes': Nodes, spans': Spans, root: nat,
                                      level: nat, path: seq<nat>, a: nat, gone: nat)
    requires PathOk(nodes, spans, root, level, path) && |path| > 1
    requires forall i :: 0 <= i < |path| ==> IsInnerNode(nodes, path[i])
    requires forall id :: id in spans && id != gone ==> id in spans' && spans'[id].height == spans[id].height
    requires InnerPair(nodes, path[|path| - 2], a, gone)
    requires InnerJoined(nodes, nodes', path[|path| - 2], a, gone)
    requires Beneath(spans, path[|path| - 2], a) && Beneath(spans, path[|path| - 2], gone)
    ensures PathOk(nodes', spans', root, level, path[..|path| - 1])
    ensures forall i :: 0 <= i < |path| - 1 ==> IsInnerNode(nodes', path[i])
  {
    var parent := path[|path| - 2];
    assert OnPath(nodes, spans, level, path, |path| - 2);
    forall i | 0 <= i < |path| - 1
      ensures path[i] in nodes' && path[i] in spans && path[i] in nodes && IsInnerNode(nodes', path[i])
      ensures path[i] != gone && path[i] != a && (i < |path| - 2 ==> path[i] != parent)
    {
      assert OnPath(nodes, spans, level, path, i) && IsInnerNode(nodes, path[i]);
    }
    PathFrame(nodes, spans, root, level, path, |path| - 1, nodes', spans');
  }

  lemma {:induction false} MergedBranchy(nodes: Nodes, nodes': Nodes, root: nat, parent: nat, a: nat, b: nat,
                                         small: nat)
    requires Branchy(nodes, root, small) && (small == a || small == b) && a != root && b != root
    requires InnerPair(nodes, parent, a, b) && InnerJoined(nodes, nodes', parent, a, b)
    ensures Branchy(nodes', root, parent)
  {
  }

  lemma {:induction false} CollapseSame(nodes: Nodes, spans: Spans, id: nat)
    requires nodes.Keys == spans.Keys && id in spans && spans[id].height > 1
    ensures SameLeaves(nodes, spans, nodes - {id}, spans - {id})
  {
  }

  lemma {:induction false} RootBranchy(nodes: Nodes, root: nat)
    requires Branchy(nodes, root, root) && IsInnerNode(nodes, root) && nodes[root].links != []
    ensures Branchy(nodes, root, 0)
  {
  }

  lemma {:induction false} AllBranchy(nodes: Nodes, root: nat, inner: nat)
    requires Branchy(nodes, root, inner) && IsInnerNode(nodes, inner) && |nodes[inner].links| >= 128
    ensures Branchy(nodes, root, 0)
  {
  }

  function MovedCursor(rank: Ranking, c: Cursor, from: nat, to: nat, r: real): Cursor {
    if c.leaf == from && c.key.Some? && r <= rank(c.key.value) then c.(leaf := to) else c
  }

  lemma {:induction false} NextOf(nodes: Nodes, spans: Spans, leaves: seq<nat>, first: nat, last: nat, i: nat)
    requires ListOk(nodes, spans, leaves, first, last) && i < |leaves| && 0 !in nodes
    requires leaves[i] in nodes && nodes[leaves[i]].Leaf?
    requires forall id :: id in spans ==> SpanOk(spans[id])
    ensures var next := nodes[leaves[i]].next;
            && next != leaves[i] && next == At(leaves, i + 1)
            && if next == 0 then next !in nodes else next in nodes && nodes[next].Leaf?
  {
    hide Tiling;
    assert LeafAt(nodes, leaves, i);
    assert i + 1 < |leaves| ==> LeafAt(nodes, leaves, i + 1);
    DistinctLeaves(spans, leaves);
  }

  lemma {:induction false} LeafIndex(nodes: Nodes, spans: Spans, leaves: seq<nat>, first: nat, last: nat, leaf: nat)
    returns (i: nat)
    requires ListOk(nodes, spans, leaves, first, last) && leaf in spans && spans[leaf].height == 1
    ensures i < |leaves| && leaves[i] == leaf
  {
    i :| 0 <= i < |leaves| && leaves[i] == leaf;
  }

  /** The iterators after a division: each still caches the leaf of its key. */
  lemma {:induction false} DivideCursors(rank: Ranking, spans: Spans, cs: seq<Cursor>, cs': seq<Cursor>, x: nat,
                                         y: nat, m: real)
    requires CursorsOk(rank, spans, cs) && x in spans && spans[x].height == 1 && y !in spans && x != 0 && y != 0
    requires |cs'| == |cs|
    requires forall k :: 0 <= k < |cs| ==> cs'[k] == MovedCursor(rank, cs[k], x, y, m)
    ensures CursorsOk(rank, spans[x := spans[x].(high := m)][y := spans[x].(low := m)], cs')
  {
    forall k | 0 <= k < |cs'|
      ensures CursorOk(rank, spans[x := spans[x].(high := m)][y := spans[x].(low := m)], cs'[k])
    {
      assert CursorOk(rank, spans, cs[k]);
    }
  }

  lemma {:induction false} SameCursors(rank: Ranking, nodes: Nodes, spans: Spans, nodes': Nodes, spans': Spans,
                                       cs: seq<Cursor>)
    requires CursorsOk(rank, spans, cs) && SameLeaves(nodes, spans, nodes', spans')
    ensures CursorsOk(rank, spans', cs)
  {
    forall k | 0 <= k < |cs|
      ensures CursorOk(rank, spans', cs[k])
    {
      assert CursorOk(rank, spans, cs[k]);
      assert cs[k].leaf != 0 ==> SameLeaf(nodes, spans, nodes', spans', cs[k].leaf);
    }
  }

  lemma {:induction false} DividePath(nodes: Nodes, spans: Spans, root: nat, level: nat, path: seq<nat>, y: nat,
                                      mid: nat, m: real)
    requires PathOk(nodes, spans, root, level, path) && y !in nodes && nodes.Keys == spans.Keys
    requires var x := path[|path| - 1];
             x in nodes && nodes[x].Leaf? && mid <= |nodes[x].records|
    ensures var x := path[|path| - 1];
            PathOk(DividedLeaf(nodes, x, y, mid),
                   spans[x := spans[x].(high := m)][y := spans[x].(low := m)], root, level, path)
  {
    var x := path[|path| - 1];
    var nodes' := DividedLeaf(nodes, x, y, mid);
    forall i | 0 <= i < |path|
      ensures path[i] in nodes && path[i] in spans
      ensures i < |path| - 1 ==> nodes[path[i]].Inner?
    {
      assert OnPath(nodes, spans, level, path, i);
    }
    PathFrame(nodes, spans, root, level, path, |path|, nodes',
              spans[x := spans[x].(high := m)][y := spans[x].(low := m)]);
    assert path[..|path|] == path;
  }

  lemma {:induction false} DividedIsLeaf(nodes: Nodes, x: nat, y: nat)
    requires x in nodes && nodes[x].Leaf? && y !in nodes
    ensures var nodes' := DividedLeaf(nodes, x, y, |nodes[x].records| / 2);
            x in nodes' && nodes'[x].Leaf?
  {
  }

  lemma {:induction false} DivideBranchy(nodes: Nodes, root: nat, x: nat, y: nat, mid: nat)
    requires Branchy(nodes, root, 0) && x in nodes && nodes[x].Leaf? && mid <= |nodes[x].records|
    ensures Branchy(DividedLeaf(nodes, x, y, mid), root, 0)
  {
  }

  ghost predicate KeepsLeaf(nodes: Nodes, spans: Spans, nodes': Nodes, spans': Spans, id: nat) {
    && id in spans && id in spans' && spans'[id] == spans[id]
    && SameRecords(nodes, nodes', id)
  }

  ghost predicate BigLeaf(nodes: Nodes, id: nat) {
    id in nodes && nodes[id].Leaf? && |nodes[id].records| >= MAX_LEAF_NODE_RECORDS / 2
  }

  /** What a division does to the leaves: one is halved, the others keep span and records. */
  ghost predicate LeavesDivided(nodes: Nodes, spans: Spans, nodes': Nodes, spans': Spans, leaf: nat) {
    && (forall id :: id in spans && spans[id].height == 1 && id != leaf ==>
          KeepsLeaf(nodes, spans, nodes', spans', id))
    && (forall id :: id in spans' && spans'[id].height == 1 ==>
          (id in spans && spans[id].height == 1 && id != leaf) || BigLeaf(nodes', id))
  }

  lemma {:induction false} DivideLeaves(nodes: Nodes, spans: Spans, nodes1: Nodes, spans1: Spans, nodes2: Nodes,
                                        spans2: Spans, x: nat, y: nat, m: real)
    requires nodes.Keys == spans.Keys && x in nodes && nodes[x].Leaf? && y !in nodes
    requires |nodes[x].records| > MAX_LEAF_NODE_RECORDS && spans[x].height == 1
    requires nodes1 == DividedLeaf(nodes, x, y, |nodes[x].records| / 2)
    requires spans1 == spans[x := spans[x].(high := m)][y := spans[x].(low := m)]
    requires SameLeaves(nodes1, spans1, nodes2, spans2)
    requires forall id :: id in spans && spans[id].height == 1 ==> nodes[id].Leaf?
    ensures LeavesDivided(nodes, spans, nodes2, spans2, x)
  {
    forall id | id in spans && spans[id].height == 1 && id != x
      ensures KeepsLeaf(nodes, spans, nodes2, spans2, id)
    {
      assert SameLeaf(nodes1, spans1, nodes2, spans2, id);
    }
    forall id | id in spans2 && spans2[id].height == 1 && (id == x || id !in spans || spans[id].height != 1)
      ensures BigLeaf(nodes2, id)
    {
      assert id in spans1 && spans1[id].height == 1;
      assert SameLeaf(nodes1, spans1, nodes2, spans2, id);
    }
  }

  lemma {:induction false} Ascending(rank: Ranking, nodes: Nodes, spans: Spans, root: nat, level: nat, id: nat)
    requires TreeOk(rank, nodes, spans, root, level) && id in nodes && spans[id].height > 1
    requires nodes[id].Inner?
    ensures forall i, j :: 0 <= i < j < |nodes[id].links| ==>
              rank(nodes[id].links[i].key) < rank(nodes[id].links[j].key)
  {
    hide Apart, KidsOk;
    assert NodeOk(rank, nodes[id], spans[id], spans);
    forall i, j | 0 <= i < j < |nodes[id].links|
      ensures rank(nodes[id].links[i].key) < rank(nodes[id].links[j].key)
    {
      LinksAscend(rank, nodes[id], spans[id], spans, i, j);
    }
  }

  /** The path to the parent after the parent has been divided. */
  lemma {:induction false} PathShorter(nodes: Nodes, spans: Spans, nodes': Nodes, spans': Spans, root: nat,
                                       level: nat, path: seq<nat>, inner: nat)
    requires PathOk(nodes, spans, root, level, path) && |path| > 1 && path[|path| - 2] == inner
    requires forall id :: id in spans ==> id in spans' && spans'[id].height == spans[id].height
    requires forall id :: id in nodes && id != inner ==> id in nodes' && nodes'[id] == nodes[id]
    requires inner in nodes'
    ensures PathOk(nodes', spans', root, level, path[..|path| - 1])
  {
    assert OnPath(nodes, spans, level, path, |path| - 2);
    forall i | 0 <= i < |path| - 1
      ensures path[i] in nodes' && path[i] in spans && path[i] in nodes
      ensures i < |path| - 2 ==> path[i] != inner
    {
      assert OnPath(nodes, spans, level, path, i);
    }
    PathFrame(nodes, spans, root, level, path, |path| - 1, nodes', spans');
  }

  lemma {:induction false} SplitBranchy(nodes: Nodes, root: nat, p: nat, q: nat, a: Node, b: Node)
    requires Branchy(nodes, root, 0) && a.Inner? && b.Inner? && |a.links| >= 128 && |b.links| >= 128
    ensures Branchy(nodes[p := a][q := b], root, 0)
  {
  }

  lemma {:induction false} RootPath(nodes: Nodes, spans: Spans, root: nat, level: nat, path: seq<nat>)
    requires PathOk(nodes, spans, root, level, path) && |path| == 1
    ensures path[0] == root
  {
  }

  lemma {:induction false} TreeFacts(rank: Ranking, nodes: Nodes, spans: Spans, root: nat, level: nat)
    requires TreeOk(rank, nodes, spans, root, level)
    ensures nodes.Keys == spans.Keys && 0 !in spans && root in spans && spans[root].height == level
  {
  }

  lemma {:induction false} SpanFacts(rank: Ranking, nodes: Nodes, spans: Spans, root: nat, level: nat)
    requires TreeOk(rank, nodes, spans, root, level)
    ensures forall id :: id in spans ==> SpanOk(spans[id])
    ensures forall id :: id in spans && spans[id].height == 1 ==> id in nodes && nodes[id].Leaf?
  {
  }

  lemma {:induction false} SameLeavesRefl(nodes: Nodes, spans: Spans)
    requires nodes.Keys == spans.Keys
    ensures SameLeaves(nodes, spans, nodes, spans)
  {
  }

  lemma {:induction false} GrowSame(nodes: Nodes, spans: Spans, id: nat, n: Node, s: Span)
    requires nodes.Keys == spans.Keys && id !in nodes && s.height > 1
    ensures SameLeaves(nodes, spans, nodes[id := n], spans[id := s])
  {
  }

  lemma {:induction false} InnerSame(nodes: Nodes, spans: Spans, id: nat, n: Node, s: Span)
    requires nodes.Keys == spans.Keys && id in spans && spans[id].height > 1 && s.height > 1
    ensures SameLeaves(nodes, spans, nodes[id := n], spans[id := s])
  {
  }

  lemma {:induction false} SplitSame(nodes: Nodes, spans: Spans, nodes': Nodes, spans': Spans, p: nat, q: nat)
    requires nodes.Keys == spans.Keys && p in spans && spans[p].height > 1 && q !in spans
    requires p in nodes' && q in nodes' && nodes' == nodes[p := nodes'[p]][q := nodes'[q]]
    requires p in spans' && q in spans' && spans'[p].height > 1 && spans'[q].height > 1
    requires spans' == spans[p := spans'[p]][q := spans'[q]]
    ensures SameLeaves(nodes, spans, nodes', spans')
  {
  }

  lemma {:induction false} PathGrows(nodes: Nodes, spans: Spans, root: nat, level: nat, path: seq<nat>, node: nat)
    requires PathOk(nodes, spans, root, level, path)
    requires IsKid(nodes, path[|path| - 1], node) && node in spans && node in nodes
    requires spans[node].height + |path| == level
    ensures PathOk(nodes, spans, root, level, path + [node])
  {
    var path' := path + [node];
    forall i | 0 <= i < |path'|
      ensures OnPath(nodes, spans, level, path', i)
    {
      if i < |path| {
        assert OnPath(nodes, spans, level, path, i);
      }
    }
  }
}
