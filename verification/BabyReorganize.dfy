/** Dividing and joining leaves: the tree, the list of leaves and the records together. */
module BabyReorganize {
  import opened Common
  import opened BabyTree
  import opened BabyLeaves

  function SetPrev(nodes: Nodes, id: nat, prev: nat): Nodes {
    if id in nodes && nodes[id].Leaf? then nodes[id := nodes[id].(prev := prev)] else nodes
  }

  function SetNext(nodes: Nodes, id: nat, next: nat): Nodes {
    if id in nodes && nodes[id].Leaf? then nodes[id := nodes[id].(next := next)] else nodes
  }

  /** Nodes that differ at most in their list pointers. */
  predicate Alike(m: Node, n: Node) {
    m == n || (m.Leaf? && n.Leaf? && m.records == n.records)
  }

  /** The tree does not depend on the list pointers. */
  lemma {:induction false} RepointKeeps(rank: Ranking, nodes: Nodes, nodes': Nodes, spans: Spans, root: nat, level: nat)
    requires TreeOk(rank, nodes, spans, root, level)
    requires nodes'.Keys == nodes.Keys
    requires forall id :: id in nodes && id in nodes' ==> Alike(nodes[id], nodes'[id])
    ensures TreeOk(rank, nodes', spans, root, level)
  {
    hide Apart, KidsOk;
    forall id | id in nodes'
      ensures NodeOk(rank, nodes'[id], spans[id], spans)
    {
      assert id in nodes;
      assert NodeOk(rank, nodes[id], spans[id], spans) && Alike(nodes[id], nodes'[id]);
      AlikeOk(rank, nodes[id], nodes'[id], spans[id], spans);
    }
  }

  lemma {:induction false} AlikeOk(rank: Ranking, m: Node, n: Node, s: Span, spans: Spans)
    requires NodeOk(rank, m, s, spans) && Alike(m, n)
    ensures NodeOk(rank, n, s, spans)
  {
  }

  // ----- dividing a leaf -----

  /** A leaf with its upper records moved to a new leaf after it. */
  function DividedLeaf(nodes: Nodes, x: nat, y: nat, mid: nat): Nodes
    requires x in nodes && nodes[x].Leaf? && mid <= |nodes[x].records|
  {
    var n := nodes[x];
    SetPrev(nodes, n.next, y)
      [x := Leaf(n.prev, y, n.records[..mid])][y := Leaf(x, n.next, n.records[mid..])]
  }

  function InsertAfter(leaves: seq<nat>, i: nat, y: nat): (r: seq<nat>)
    requires i < |leaves|
    ensures |r| == |leaves| + 1
    ensures forall k :: 0 <= k < |r| ==>
              r[k] == if k <= i then leaves[k] else if k == i + 1 then y else leaves[k - 1]
  {
    leaves[..i + 1] + [y] + leaves[i + 1..]
  }

  lemma {:induction false} DivideThread(nodes: Nodes, leaves: seq<nat>, first: nat, last: nat, i: nat, y: nat, mid: nat)
    requires Threaded(nodes, leaves, first, last) && Distinct(leaves) && 0 !in nodes
    requires i < |leaves| && y !in nodes && y != 0
    requires leaves[i] in nodes && nodes[leaves[i]].Leaf? && mid <= |nodes[leaves[i]].records|
    ensures Threaded(DividedLeaf(nodes, leaves[i], y, mid), InsertAfter(leaves, i, y), first,
                     if last == leaves[i] then y else last)
  {
    var nodes' := DividedLeaf(nodes, leaves[i], y, mid);
    var leaves' := InsertAfter(leaves, i, y);
    assert LeafAt(nodes, leaves, i);
    forall k | 0 <= k < |leaves'|
      ensures LeafAt(nodes', leaves', k)
    {
      if k <= i {
        assert LeafAt(nodes, leaves, k);
      } else if k > i + 1 {
        assert LeafAt(nodes, leaves, k - 1);
      }
    }
  }

  lemma {:induction false} DivideTiling(spans: Spans, leaves: seq<nat>, i: nat, y: nat, m: real)
    requires Tiling(spans, leaves) && Distinct(leaves) && i < |leaves| && y !in spans
    ensures leaves[i] in spans
    ensures var s := spans[leaves[i]];
            Tiling(spans[leaves[i] := s.(high := m)][y := s.(low := m)], InsertAfter(leaves, i, y))
  {
    var x, s := leaves[i], spans[leaves[i]];
    var spans' := spans[x := s.(high := m)][y := s.(low := m)];
    var leaves' := InsertAfter(leaves, i, y);
    forall k | 0 <= k < |leaves'|
      ensures leaves'[k] in spans' && spans'[leaves'[k]].high == Cut(spans', leaves', k + 1)
    {
      if k < i {
        assert spans[leaves[k]].high == Cut(spans, leaves, k + 1);
      } else if k > i {
        assert spans[leaves[k - 1]].high == Cut(spans, leaves, k);
      }
    }
  }

  lemma {:induction false} DivideAll(spans: Spans, leaves: seq<nat>, i: nat, y: nat, m: real)
    requires AllLeaves(spans, leaves) && i < |leaves| && y !in spans
    ensures var s := spans[leaves[i]];
            AllLeaves(spans[leaves[i] := s.(high := m)][y := s.(low := m)], InsertAfter(leaves, i, y))
  {
    var x, s := leaves[i], spans[leaves[i]];
    var spans' := spans[x := s.(high := m)][y := s.(low := m)];
    var leaves' := InsertAfter(leaves, i, y);
    forall k | 0 <= k < |leaves'|
      ensures leaves'[k] in spans' && spans'[leaves'[k]].height == 1
    {
    }
    assert leaves'[i + 1] == y;
    forall id | id in spans' && spans'[id].height == 1
      ensures id in leaves'
    {
      if id != y {
        assert id in spans && spans[id].height == 1;
        var k :| 0 <= k < |leaves| && leaves[k] == id;
        assert leaves'[if k <= i then k else k + 1] == id;
      }
    }
  }

  lemma {:induction false} DivideGather(nodes: Nodes, leaves: seq<nat>, i: nat, y: nat, mid: nat)
    requires forall k :: 0 <= k < |leaves| ==> leaves[k] in nodes && nodes[leaves[k]].Leaf?
    requires i < |leaves| && y !in nodes && Distinct(leaves) && mid <= |nodes[leaves[i]].records|
    ensures Gather(DividedLeaf(nodes, leaves[i], y, mid), InsertAfter(leaves, i, y)) ==
            Gather(nodes, leaves)
  {
    hide Gather;
    var x := leaves[i];
    var nodes' := DividedLeaf(nodes, x, y, mid);
    var before, after := leaves[..i], leaves[i + 1..];
    GatherAt(nodes, leaves, i);
    assert InsertAfter(leaves, i, y) == before + [x, y] + after;
    GatherConcat(nodes', before + [x, y], after);
    GatherConcat(nodes', before, [x, y]);
    GatherTwo(nodes', x, y);
    assert nodes[x].records[..mid] + nodes[x].records[mid..] == nodes[x].records;
    GatherFrame(nodes, nodes', before);
    GatherFrame(nodes, nodes', after);
  }

  lemma {:induction false} GatherTwo(nodes: Nodes, x: nat, y: nat)
    requires x in nodes && y in nodes && nodes[x].Leaf? && nodes[y].Leaf?
    ensures Gather(nodes, [x, y]) == nodes[x].records + nodes[y].records
    ensures Gather(nodes, [x]) == nodes[x].records
  {
    assert [x, y][1..] == [y] && [x][1..] == [] && [y][1..] == [];
    assert Gather(nodes, [y]) == nodes[y].records;
  }

  /** Dividing a leaf between two records: the tree waits for the link to the new leaf,
      the list and the records are complete. */
  lemma {:induction false} DivideLeafKeeps(rank: Ranking, nodes: Nodes, spans: Spans, root: nat, level: nat,
                                           leaves: seq<nat>, first: nat, last: nat, i: nat, y: nat, mid: nat,
                                           m: real)
    requires TreeOk(rank, nodes, spans, root, level) && ListOk(nodes, spans, leaves, first, last)
    requires i < |leaves| && y !in spans && y != 0 && nodes[leaves[i]].Leaf?
    requires 0 < mid < |nodes[leaves[i]].records| && m == rank(nodes[leaves[i]].records[mid].key)
    ensures var s := spans[leaves[i]];
            var nodes' := DividedLeaf(nodes, leaves[i], y, mid);
            var spans' := spans[leaves[i] := s.(high := m)][y := s.(low := m)];
            && Pending(rank, nodes', spans', root, level, leaves[i], y)
            && ListOk(nodes', spans', InsertAfter(leaves, i, y), first,
                      if last == leaves[i] then y else last)
            && Gather(nodes', InsertAfter(leaves, i, y)) == Gather(nodes, leaves)
  {
    hide Pending, Threaded, Tiling, NodeOk, Apart, InsertAfter, Gather, AllLeaves;
    ListFacts(nodes, spans, leaves, first, last);
    var x, s := leaves[i], spans[leaves[i]];
    DistinctLeaves(spans, leaves);
    assert NodeOk(rank, nodes[x], s, spans);
    HalfRecords(rank, nodes[x], s, spans, mid);
    DivideThread(nodes, leaves, first, last, i, y, mid);
    DivideTiling(spans, leaves, i, y, m);
    DivideAll(spans, leaves, i, y, m);
    DivideGather(nodes, leaves, i, y, mid);
    var moved := SetPrev(nodes, nodes[x].next, y);
    RepointKeeps(rank, nodes, moved, spans, root, level);
    SplitKeeps(rank, moved, spans, root, level, x, y, m,
               Leaf(nodes[x].prev, y, nodes[x].records[..mid]),
               Leaf(x, nodes[x].next, nodes[x].records[mid..]));
  }

  lemma {:induction false} ListFacts(nodes: Nodes, spans: Spans, leaves: seq<nat>, first: nat, last: nat)
    requires ListOk(nodes, spans, leaves, first, last)
    ensures forall k :: 0 <= k < |leaves| ==>
              && leaves[k] in nodes && nodes[leaves[k]].Leaf?
              && leaves[k] in spans && spans[leaves[k]].height == 1
  {
    forall k | 0 <= k < |leaves|
      ensures leaves[k] in nodes && nodes[leaves[k]].Leaf?
    {
      assert LeafAt(nodes, leaves, k);
    }
  }

  /** The two halves of a leaf's records lie in the two halves of its span. */
  lemma {:induction false} HalfRecords(rank: Ranking, n: Node, s: Span, spans: Spans, mid: nat)
    requires NodeOk(rank, n, s, spans) && s.height == 1 && 0 < mid < |n.records|
    ensures var m := rank(n.records[mid].key);
            && s.low < m < s.high
            && forall p: nat, q: nat ::
                 && NodeOk(rank, Leaf(p, q, n.records[..mid]), s.(high := m), spans)
                 && NodeOk(rank, Leaf(p, q, n.records[mid..]), s.(low := m), spans)
  {
    var m := rank(n.records[mid].key);
    var a, b := n.records[..mid], n.records[mid..];
    assert Covers(s, rank(n.records[0].key)) && Covers(s, m);
    assert Sorted(rank, a) && Inside(rank, a, s.(high := m)) by {
      assert forall k :: 0 <= k < |a| ==> a[k] == n.records[k] && Covers(s, rank(n.records[k].key));
    }
    assert Sorted(rank, b) && Inside(rank, b, s.(low := m)) by {
      assert forall k :: 0 <= k < |b| ==> b[k] == n.records[mid + k];
    }
  }

  // ----- joining two leaves -----

  /** Leaf a takes over the records and the successor of leaf b. */
  function JoinedLeft(nodes: Nodes, a: nat, b: nat): Nodes
    requires a in nodes && b in nodes && nodes[a].Leaf? && nodes[b].Leaf?
  {
    var m, n := nodes[a], nodes[b];
    SetPrev(nodes - {b}, n.next, a)[a := Leaf(m.prev, n.next, m.records + n.records)]
  }

  /** Leaf b takes over the records and the predecessor of leaf a. */
  function JoinedRight(nodes: Nodes, a: nat, b: nat): Nodes
    requires a in nodes && b in nodes && nodes[a].Leaf? && nodes[b].Leaf?
  {
    var m, n := nodes[a], nodes[b];
    SetNext(nodes - {a}, m.prev, b)[b := Leaf(m.prev, n.next, m.records + n.records)]
  }

  lemma {:induction false} JoinLeftThread(nodes: Nodes, leaves: seq<nat>, first: nat, last: nat, i: nat)
    requires Threaded(nodes, leaves, first, last) && Distinct(leaves) && 0 !in nodes
    requires i + 1 < |leaves| && LeafAt(nodes, leaves, i) && LeafAt(nodes, leaves, i + 1)
    ensures Threaded(JoinedLeft(nodes, leaves[i], leaves[i + 1]), RemoveAt(leaves, i + 1), first,
                     if last == leaves[i + 1] then leaves[i] else last)
  {
    var nodes' := JoinedLeft(nodes, leaves[i], leaves[i + 1]);
    var leaves' := RemoveAt(leaves, i + 1);
    forall k | 0 <= k < |leaves'|
      ensures LeafAt(nodes', leaves', k)
    {
      assert LeafAt(nodes, leaves, if k <= i then k else k + 1);
    }
  }

  lemma {:induction false} JoinRightThread(nodes: Nodes, leaves: seq<nat>, first: nat, last: nat, i: nat)
    requires Threaded(nodes, leaves, first, last) && Distinct(leaves) && 0 !in nodes
    requires i + 1 < |leaves| && LeafAt(nodes, leaves, i) && LeafAt(nodes, leaves, i + 1)
    ensures Threaded(JoinedRight(nodes, leaves[i], leaves[i + 1]), RemoveAt(leaves, i),
                     if first == leaves[i] then leaves[i + 1] else first, last)
  {
    var nodes' := JoinedRight(nodes, leaves[i], leaves[i + 1]);
    var leaves' := RemoveAt(leaves, i);
    forall k | 0 <= k < |leaves'|
      ensures LeafAt(nodes', leaves', k)
    {
      assert LeafAt(nodes, leaves, if k < i then k else k + 1);
    }
  }

  lemma {:induction false} JoinTiling(spans: Spans, leaves: seq<nat>, i: nat, d: nat)
    requires Tiling(spans, leaves) && Distinct(leaves)
    requires i + 1 < |leaves| && (d == i || d == i + 1)
    ensures leaves[i] in spans && leaves[i + 1] in spans
    ensures Tiling(JoinSpans(spans, leaves[i], leaves[i + 1], leaves[if d == i then i + 1 else i]),
                   RemoveAt(leaves, d))
  {
    var a, b, z := leaves[i], leaves[i + 1], leaves[if d == i then i + 1 else i];
    var spans' := JoinSpans(spans, a, b, z);
    var leaves' := RemoveAt(leaves, d);
    assert leaves'[i] == z;
    forall k | 0 <= k < |leaves'|
      ensures leaves'[k] in spans' && spans'[leaves'[k]].high == Cut(spans', leaves', k + 1)
    {
      if k < i {
        assert spans[leaves[k]].high == Cut(spans, leaves, k + 1);
      } else {
        assert spans[leaves[k + 1]].high == Cut(spans, leaves, k + 2);
      }
    }
  }

  lemma {:induction false} JoinAll(spans: Spans, leaves: seq<nat>, i: nat, d: nat)
    requires AllLeaves(spans, leaves) && Distinct(leaves)
    requires i + 1 < |leaves| && (d == i || d == i + 1)
    ensures AllLeaves(JoinSpans(spans, leaves[i], leaves[i + 1], leaves[if d == i then i + 1 else i]),
                      RemoveAt(leaves, d))
  {
    hide RemoveAt;
    var a, b, z := leaves[i], leaves[i + 1], leaves[if d == i then i + 1 else i];
    var spans' := JoinSpans(spans, a, b, z);
    var leaves' := RemoveAt(leaves, d);
    assert leaves'[i] == z;
    forall k | 0 <= k < |leaves'|
      ensures leaves'[k] in spans' && spans'[leaves'[k]].height == 1
    {
      assert leaves'[k] in spans;
    }
    forall id | id in spans' && spans'[id].height == 1
      ensures id in leaves'
    {
      if id != z {
        assert id in spans && spans[id].height == 1;
        var k :| 0 <= k < |leaves| && leaves[k] == id;
        assert leaves'[if k < d then k else k - 1] == id;
      }
    }
  }

  lemma {:induction false} JoinGather(nodes: Nodes, nodes': Nodes, leaves: seq<nat>, i: nat, d: nat)
    requires forall k :: 0 <= k < |leaves| ==> leaves[k] in nodes && nodes[leaves[k]].Leaf?
    requires i + 1 < |leaves| && (d == i || d == i + 1)
    requires forall k :: 0 <= k < |leaves| && k != i && k != i + 1 ==>
               SameRecords(nodes, nodes', leaves[k])
    requires var z := leaves[if d == i then i + 1 else i];
             && z in nodes' && nodes'[z].Leaf?
             && nodes'[z].records == nodes[leaves[i]].records + nodes[leaves[i + 1]].records
    ensures Gather(nodes', RemoveAt(leaves, d)) == Gather(nodes, leaves)
  {
    hide Gather, RemoveAt;
    var a, b, z := leaves[i], leaves[i + 1], leaves[if d == i then i + 1 else i];
    var before, after := leaves[..i], leaves[i + 2..];
    assert leaves == before + [a, b] + after;
    GatherConcat(nodes, before + [a, b], after);
    GatherConcat(nodes, before, [a, b]);
    GatherTwo(nodes, a, b);
    assert RemoveAt(leaves, d) == before + [z] + after;
    GatherConcat(nodes', before + [z], after);
    GatherConcat(nodes', before, [z]);
    GatherTwo(nodes', z, z);
    GatherFrame(nodes, nodes', before);
    forall k | 0 <= k < |after|
      ensures SameRecords(nodes, nodes', after[k])
    {
      assert after[k] == leaves[i + 2 + k];
    }
    GatherFrame(nodes, nodes', after);
  }

  /** Neighbouring leaves' records lie, in order, in the union of their spans. */
  lemma {:induction false} JoinedRecords(rank: Ranking, m: Node, s: Span, n: Node, t: Span, spans: Spans)
    requires NodeOk(rank, m, s, spans) && NodeOk(rank, n, t, spans)
    requires s.height == t.height == 1 && s.low <= s.high == t.low <= t.high
    ensures forall p: nat, q: nat ::
              NodeOk(rank, Leaf(p, q, m.records + n.records), Span(1, s.low, t.high), spans)
  {
    SortedConcat(rank, m.records, n.records, t.low);
  }

  /** Where the two leaves joined under a parent sit in the list. */
  lemma {:induction false} SiblingsInList(rank: Ranking, nodes: Nodes, spans: Spans, leaves: seq<nat>, level: nat,
                                          p: nat, j: nat) returns (i: nat)
    requires SpansOk(nodes, spans, level) && AllLeaves(spans, leaves) && Tiling(spans, leaves)
    requires p in nodes && nodes[p].Inner? && spans[p].height == 2 && j < |nodes[p].links|
    requires KidOk(rank, nodes[p], spans[p], spans, j) && KidOk(rank, nodes[p], spans[p], spans, j + 1)
    ensures i + 1 < |leaves| && leaves[i] == Kid(nodes[p], j) && leaves[i + 1] == Kid(nodes[p], j + 1)
  {
    hide Apart, Tiling;
    Neighbours(rank, nodes[p], spans[p], spans, j);
    i :| 0 <= i < |leaves| && leaves[i] == Kid(nodes[p], j);
    var k :| 0 <= k < |leaves| && leaves[k] == Kid(nodes[p], j + 1);
    NextLeaf(spans, leaves, i, k);
  }

  /** The left leaf takes over the right one. */
  lemma {:induction false} JoinLeftKeeps(rank: Ranking, nodes: Nodes, spans: Spans, root: nat, level: nat,
                                         leaves: seq<nat>, first: nat, last: nat, p: nat, j: nat, i: nat)
    requires TreeOk(rank, nodes, spans, root, level) && ListOk(nodes, spans, leaves, first, last)
    requires p in nodes && nodes[p].Inner? && spans[p].height == 2 && j < |nodes[p].links|
    requires KidOk(rank, nodes[p], spans[p], spans, j) && KidOk(rank, nodes[p], spans[p], spans, j + 1)
    requires i + 1 < |leaves| && leaves[i] == Kid(nodes[p], j) && leaves[i + 1] == Kid(nodes[p], j + 1)
    ensures LeafAt(nodes, leaves, i) && LeafAt(nodes, leaves, i + 1)
    ensures var a, b := leaves[i], leaves[i + 1];
            var nodes' := JoinedLeft(nodes, a, b)[p := WithoutLink(nodes[p], j, a)];
            var spans' := JoinSpans(spans, a, b, a);
            && TreeOk(rank, nodes', spans', root, level)
            && ListOk(nodes', spans', RemoveAt(leaves, i + 1), first, if last == b then a else last)
            && Gather(nodes', RemoveAt(leaves, i + 1)) == Gather(nodes, leaves)
  {
    hide TreeOk, ListOk, Gather, RemoveAt, WithoutLink, KidOk, JoinedLeft, JoinSpans, LeafAt;
    SpansAre(rank, nodes, spans, root, level);
    TwoLeaves(nodes, spans, leaves, first, last, i);
    AreLeaves(nodes, leaves, i);
    AreLeaves(nodes, leaves, i + 1);
    JoinLeftList(rank, nodes, spans, root, level, leaves, first, last, p, j, i);
    JoinLeftTree(rank, nodes, spans, root, level, p, j, leaves[i], leaves[i + 1]);
  }

  lemma {:induction false} JoinLeftList(rank: Ranking, nodes: Nodes, spans: Spans, root: nat, level: nat,
                                        leaves: seq<nat>, first: nat, last: nat, p: nat, j: nat, i: nat)
    requires TreeOk(rank, nodes, spans, root, level) && ListOk(nodes, spans, leaves, first, last)
    requires p in nodes && nodes[p].Inner? && j < |nodes[p].links| && i + 1 < |leaves|
    requires LeafAt(nodes, leaves, i) && LeafAt(nodes, leaves, i + 1)
    requires leaves[i] in spans && leaves[i + 1] in spans
    ensures var a, b := leaves[i], leaves[i + 1];
            var nodes' := JoinedLeft(nodes, a, b)[p := WithoutLink(nodes[p], j, a)];
            var spans' := JoinSpans(spans, a, b, a);
            && ListOk(nodes', spans', RemoveAt(leaves, i + 1), first, if last == b then a else last)
            && Gather(nodes', RemoveAt(leaves, i + 1)) == Gather(nodes, leaves)
  {
    hide Apart, Tiling, NodeOk, Gather, RemoveAt, WithoutLink, AllLeaves, Threaded, NodesOk, JoinSpans;
    var a, b := leaves[i], leaves[i + 1];
    ListFacts(nodes, spans, leaves, first, last);
    DistinctLeaves(spans, leaves);
    var joined := JoinedLeft(nodes, a, b);
    JoinLeftThread(nodes, leaves, first, last, i);
    JoinTiling(spans, leaves, i, i + 1);
    JoinAll(spans, leaves, i, i + 1);
    JoinGather(nodes, joined, leaves, i, i + 1);
    InnerFrame(joined, JoinSpans(spans, a, b, a), RemoveAt(leaves, i + 1),
               first, if last == b then a else last, p, WithoutLink(nodes[p], j, a));
  }

  lemma {:induction false} JoinLeftTree(rank: Ranking, nodes: Nodes, spans: Spans, root: nat, level: nat, p: nat,
                                        j: nat, a: nat, b: nat)
    requires TreeOk(rank, nodes, spans, root, level)
    requires p in nodes && nodes[p].Inner? && spans[p].height == 2 && j < |nodes[p].links|
    requires KidOk(rank, nodes[p], spans[p], spans, j) && KidOk(rank, nodes[p], spans[p], spans, j + 1)
    requires a == Kid(nodes[p], j) && b == Kid(nodes[p], j + 1) && a != b
    requires a in nodes && b in nodes && nodes[a].Leaf? && nodes[b].Leaf?
    ensures TreeOk(rank, JoinedLeft(nodes, a, b)[p := WithoutLink(nodes[p], j, a)],
                   JoinSpans(spans, a, b, a), root, level)
  {
    hide Apart, NodeOk, WithoutLink, KidOk, Kid;
    Neighbours(rank, nodes[p], spans[p], spans, j);
    var joined := JoinedLeft(nodes, a, b);
    var nodes' := joined[p := WithoutLink(nodes[p], j, a)];
    assert NodeOk(rank, nodes[a], spans[a], spans) && NodeOk(rank, nodes[b], spans[b], spans);
    JoinedRecords(rank, nodes[a], spans[a], nodes[b], spans[b], spans);
    JoinKeeps(rank, nodes, spans, root, level, p, j, a, joined[a]);
    JoinLeftAlike(nodes, p, j, a, b);
    RepointKeeps(rank, JoinNodes(nodes, p, j, a, joined[a]), nodes', JoinSpans(spans, a, b, a),
                 root, level);
  }

  lemma {:induction false} JoinLeftAlike(nodes: Nodes, p: nat, j: nat, a: nat, b: nat)
    requires p in nodes && nodes[p].Inner? && j < |nodes[p].links|
    requires a == Kid(nodes[p], j) && b == Kid(nodes[p], j + 1) && a != b
    requires a in nodes && b in nodes && nodes[a].Leaf? && nodes[b].Leaf?
    ensures var joined := JoinedLeft(nodes, a, b);
            var nodes' := joined[p := WithoutLink(nodes[p], j, a)];
            var nodes1 := JoinNodes(nodes, p, j, a, joined[a]);
            && nodes'.Keys == nodes1.Keys
            && forall id :: id in nodes1 && id in nodes' ==> Alike(nodes1[id], nodes'[id])
  {
    hide WithoutLink, Kid;
  }

  lemma {:induction false} TwoLeaves(nodes: Nodes, spans: Spans, leaves: seq<nat>, first: nat, last: nat, i: nat)
    requires ListOk(nodes, spans, leaves, first, last) && i + 1 < |leaves|
    requires forall id :: id in spans ==> SpanOk(spans[id])
    ensures LeafAt(nodes, leaves, i) && LeafAt(nodes, leaves, i + 1) && leaves[i] != leaves[i + 1]
    ensures leaves[i] in spans && leaves[i + 1] in spans
  {
    DistinctLeaves(spans, leaves);
  }

  lemma {:induction false} AreLeaves(nodes: Nodes, leaves: seq<nat>, i: nat)
    requires i < |leaves| && LeafAt(nodes, leaves, i)
    ensures leaves[i] in nodes && nodes[leaves[i]].Leaf?
  {
  }

  lemma {:induction false} SpansAre(rank: Ranking, nodes: Nodes, spans: Spans, root: nat, level: nat)
    requires TreeOk(rank, nodes, spans, root, level)
    ensures forall id :: id in spans ==> SpanOk(spans[id])
    ensures forall id :: id in spans <==> id in nodes
  {
  }

  /** The right leaf takes over the left one. */
  lemma {:induction false} JoinRightKeeps(rank: Ranking, nodes: Nodes, spans: Spans, root: nat, level: nat,
                                          leaves: seq<nat>, first: nat, last: nat, p: nat, j: nat, i: nat)
    requires TreeOk(rank, nodes, spans, root, level) && ListOk(nodes, spans, leaves, first, last)
    requires p in nodes && nodes[p].Inner? && spans[p].height == 2 && j < |nodes[p].links|
    requires KidOk(rank, nodes[p], spans[p], spans, j) && KidOk(rank, nodes[p], spans[p], spans, j + 1)
    requires i + 1 < |leaves| && leaves[i] == Kid(nodes[p], j) && leaves[i + 1] == Kid(nodes[p], j + 1)
    ensures LeafAt(nodes, leaves, i) && LeafAt(nodes, leaves, i + 1)
    ensures var a, b := leaves[i], leaves[i + 1];
            var nodes' := JoinedRight(nodes, a, b)[p := WithoutLink(nodes[p], j, b)];
            var spans' := JoinSpans(spans, a, b, b);
            && TreeOk(rank, nodes', spans', root, level)
            && ListOk(nodes', spans', RemoveAt(leaves, i), if first == a then b else first, last)
            && Gather(nodes', RemoveAt(leaves, i)) == Gather(nodes, leaves)
  {
    hide TreeOk, ListOk, Gather, RemoveAt, WithoutLink, KidOk, JoinedRight, JoinSpans, LeafAt;
    SpansAre(rank, nodes, spans, root, level);
    TwoLeaves(nodes, spans, leaves, first, last, i);
    AreLeaves(nodes, leaves, i);
    AreLeaves(nodes, leaves, i + 1);
    JoinRightList(rank, nodes, spans, root, level, leaves, first, last, p, j, i);
    JoinRightTree(rank, nodes, spans, root, level, p, j, leaves[i], leaves[i + 1]);
  }

  lemma {:induction false} JoinRightList(rank: Ranking, nodes: Nodes, spans: Spans, root: nat, level: nat,
                                         leaves: seq<nat>, first: nat, last: nat, p: nat, j: nat, i: nat)
    requires TreeOk(rank, nodes, spans, root, level) && ListOk(nodes, spans, leaves, first, last)
    requires p in nodes && nodes[p].Inner? && j < |nodes[p].links| && i + 1 < |leaves|
    requires LeafAt(nodes, leaves, i) && LeafAt(nodes, leaves, i + 1)
    requires leaves[i] in spans && leaves[i + 1] in spans
    ensures var a, b := leaves[i], leaves[i + 1];
            var nodes' := JoinedRight(nodes, a, b)[p := WithoutLink(nodes[p], j, b)];
            var spans' := JoinSpans(spans, a, b, b);
            && ListOk(nodes', spans', RemoveAt(leaves, i), if first == a then b else first, last)
            && Gather(nodes', RemoveAt(leaves, i)) == Gather(nodes, leaves)
  {
    hide Apart, Tiling, NodeOk, Gather, RemoveAt, WithoutLink, AllLeaves, Threaded, NodesOk, JoinSpans;
    var a, b := leaves[i], leaves[i + 1];
    ListFacts(nodes, spans, leaves, first, last);
    DistinctLeaves(spans, leaves);
    var joined := JoinedRight(nodes, a, b);
    JoinRightThread(nodes, leaves, first, last, i);
    JoinTiling(spans, leaves, i, i);
    JoinAll(spans, leaves, i, i);
    JoinGather(nodes, joined, leaves, i, i);
    InnerFrame(joined, JoinSpans(spans, a, b, b), RemoveAt(leaves, i),
               if first == a then b else first, last, p, WithoutLink(nodes[p], j, b));
  }

  lemma {:induction false} JoinRightTree(rank: Ranking, nodes: Nodes, spans: Spans, root: nat, level: nat, p: nat,
                                         j: nat, a: nat, b: nat)
    requires TreeOk(rank, nodes, spans, root, level)
    requires p in nodes && nodes[p].Inner? && spans[p].height == 2 && j < |nodes[p].links|
    requires KidOk(rank, nodes[p], spans[p], spans, j) && KidOk(rank, nodes[p], spans[p], spans, j + 1)
    requires a == Kid(nodes[p], j) && b == Kid(nodes[p], j + 1) && a != b
    requires a in nodes && b in nodes && nodes[a].Leaf? && nodes[b].Leaf?
    ensures TreeOk(rank, JoinedRight(nodes, a, b)[p := WithoutLink(nodes[p], j, b)],
                   JoinSpans(spans, a, b, b), root, level)
  {
    hide Apart, NodeOk, WithoutLink, KidOk, Kid;
    Neighbours(rank, nodes[p], spans[p], spans, j);
    var joined := JoinedRight(nodes, a, b);
    var nodes' := joined[p := WithoutLink(nodes[p], j, b)];
    assert NodeOk(rank, nodes[a], spans[a], spans) && NodeOk(rank, nodes[b], spans[b], spans);
    JoinedRecords(rank, nodes[a], spans[a], nodes[b], spans[b], spans);
    JoinKeeps(rank, nodes, spans, root, level, p, j, b, joined[b]);
    JoinRightAlike(nodes, p, j, a, b);
    RepointKeeps(rank, JoinNodes(nodes, p, j, b, joined[b]), nodes', JoinSpans(spans, a, b, b),
                 root, level);
  }

  lemma {:induction false} JoinRightAlike(nodes: Nodes, p: nat, j: nat, a: nat, b: nat)
    requires p in nodes && nodes[p].Inner? && j < |nodes[p].links|
    requires a == Kid(nodes[p], j) && b == Kid(nodes[p], j + 1) && a != b
    requires a in nodes && b in nodes && nodes[a].Leaf? && nodes[b].Leaf?
    ensures var joined := JoinedRight(nodes, a, b);
            var nodes' := joined[p := WithoutLink(nodes[p], j, b)];
            var nodes1 := JoinNodes(nodes, p, j, b, joined[b]);
            && nodes'.Keys == nodes1.Keys
            && forall id :: id in nodes1 && id in nodes' ==> Alike(nodes1[id], nodes'[id])
  {
    hide WithoutLink, Kid;
  }

  /** Changing an inner node does not touch the list. */
  lemma {:induction false} InnerFrame(nodes: Nodes, spans: Spans, leaves: seq<nat>, first: nat, last: nat, p: nat,
                                      n: Node)
    requires ListOk(nodes, spans, leaves, first, last)
    requires p in nodes && nodes[p].Inner?
    ensures ListOk(nodes[p := n], spans, leaves, first, last)
    ensures Gather(nodes[p := n], leaves) == Gather(nodes, leaves)
  {
    hide Tiling, Gather;
    ListFacts(nodes, spans, leaves, first, last);
    ListFrame(nodes, spans, nodes[p := n], spans, leaves, first, last);
  }
}
