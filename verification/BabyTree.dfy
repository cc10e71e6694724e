/** The nodes of BabyDBM's B+ tree and the conditions that make them a search tree.
    Nodes sit at addresses, zero being the null pointer.  Keys are compared by rank:
    a comparator is any strict weak order, and since byte strings are countable every
    such order is the order of some ranks in [0, 1). */
module BabyTree {
  import opened Common

  type Rank = r: real | 0.0 <= r < 1.0 witness 0.0

  type Ranking = Bytes -> Rank

  datatype Record = Record(key: Bytes, value: Bytes)

  datatype Link = Link(key: Bytes, child: nat)

  datatype Node =
    | Leaf(prev: nat, next: nat, records: seq<Record>)
    | Inner(heir: nat, links: seq<Link>)

  type Nodes = map<nat, Node>

  /** Where a node belongs: its height above the leaves, which have height one, and
      the ranks from low up to but not including high. */
  datatype Span = Span(height: nat, low: real, high: real)

  type Spans = map<nat, Span>

  predicate SpanOk(s: Span) {
    1 <= s.height && 0.0 <= s.low < s.high <= 1.0
  }

  predicate Covers(s: Span, r: real) {
    s.low <= r < s.high
  }

  /** The children of an inner node: its heir, then the children of its links. */
  function Kid(n: Node, j: nat): nat
    requires n.Inner? && j <= |n.links|
  {
    if j == 0 then n.heir else n.links[j - 1].child
  }

  /** The span that an inner node leaves to its j-th child. */
  function KidSpan(rank: Ranking, n: Node, s: Span, j: nat): Span
    requires n.Inner? && j <= |n.links| && s.height > 1
  {
    Span(s.height - 1,
         if j == 0 then s.low else rank(n.links[j - 1].key),
         if j == |n.links| then s.high else rank(n.links[j].key))
  }

  predicate KidOk(rank: Ranking, n: Node, s: Span, spans: Spans, j: nat)
    requires n.Inner? && j <= |n.links| && s.height > 1
  {
    Kid(n, j) in spans && spans[Kid(n, j)] == KidSpan(rank, n, s, j)
  }

  predicate KidsOk(rank: Ranking, n: Node, s: Span, spans: Spans) {
    n.Inner? && s.height > 1 && forall j :: 0 <= j <= |n.links| ==> KidOk(rank, n, s, spans, j)
  }

  /** Records in strictly ascending order. */
  predicate Sorted(rank: Ranking, rs: seq<Record>) {
    forall i, j :: 0 <= i < j < |rs| ==> rank(rs[i].key) < rank(rs[j].key)
  }

  predicate Inside(rank: Ranking, rs: seq<Record>, s: Span) {
    forall i :: 0 <= i < |rs| ==> Covers(s, rank(rs[i].key))
  }

  predicate NodeOk(rank: Ranking, n: Node, s: Span, spans: Spans) {
    if s.height == 1 then n.Leaf? && Sorted(rank, n.records) && Inside(rank, n.records, s)
    else KidsOk(rank, n, s, spans)
  }

  predicate Disjoint(s: Span, t: Span) {
    s.height == t.height ==> s.high <= t.low || t.high <= s.low
  }

  predicate Apart(spans: Spans) {
    forall a, b :: a in spans && b in spans && a != b ==> Disjoint(spans[a], spans[b])
  }

  predicate SpansOk(nodes: Nodes, spans: Spans, level: nat) {
    && nodes.Keys == spans.Keys && 0 !in spans
    && (forall id :: id in spans ==> SpanOk(spans[id]) && spans[id].height <= level)
    && Apart(spans)
  }

  predicate NodesOk(rank: Ranking, nodes: Nodes, spans: Spans) {
    forall id :: id in nodes && id in spans ==> NodeOk(rank, nodes[id], spans[id], spans)
  }

  /** A search tree of the given number of levels: every node's children divide its span,
      so all leaves have the same depth and the separators are in order. */
  predicate TreeOk(rank: Ranking, nodes: Nodes, spans: Spans, root: nat, level: nat) {
    && SpansOk(nodes, spans, level)
    && root in spans && spans[root] == Span(level, 0.0, 1.0)
    && NodesOk(rank, nodes, spans)
  }

  // ----- the children of a node -----

  /** A child's span lies within its parent's. */
  lemma {:induction false} KidInside(rank: Ranking, n: Node, s: Span, spans: Spans, j: nat)
    requires KidsOk(rank, n, s, spans) && j <= |n.links|
    requires forall id :: id in spans ==> SpanOk(spans[id])
    ensures s.low <= KidSpan(rank, n, s, j).low < KidSpan(rank, n, s, j).high <= s.high
  {
    LowRises(rank, n, s, spans, j);
    HighRises(rank, n, s, spans, j);
    assert KidOk(rank, n, s, spans, j);
  }

  lemma {:induction false} LowRises(rank: Ranking, n: Node, s: Span, spans: Spans, j: nat)
    requires KidsOk(rank, n, s, spans) && j <= |n.links|
    requires forall id :: id in spans ==> SpanOk(spans[id])
    ensures s.low <= KidSpan(rank, n, s, j).low
  {
    if j > 0 {
      LowRises(rank, n, s, spans, j - 1);
      assert KidOk(rank, n, s, spans, j - 1);
    }
  }

  lemma {:induction false} HighRises(rank: Ranking, n: Node, s: Span, spans: Spans, j: nat)
    requires KidsOk(rank, n, s, spans) && j <= |n.links|
    requires forall id :: id in spans ==> SpanOk(spans[id])
    ensures KidSpan(rank, n, s, j).high <= s.high
    decreases |n.links| - j
  {
    if j < |n.links| {
      HighRises(rank, n, s, spans, j + 1);
      assert KidOk(rank, n, s, spans, j + 1);
    }
  }

  /** The separators of a node ascend. */
  lemma {:induction false} LinksAscend(rank: Ranking, n: Node, s: Span, spans: Spans, i: nat, j: nat)
    requires KidsOk(rank, n, s, spans) && i < j < |n.links|
    requires forall id :: id in spans ==> SpanOk(spans[id])
    ensures rank(n.links[i].key) < rank(n.links[j].key)
    decreases j
  {
    assert KidOk(rank, n, s, spans, j);
    if i < j - 1 {
      LinksAscend(rank, n, s, spans, i, j - 1);
    }
  }

  /** A node is the child of at most one node, in one position. */
  lemma {:induction false} OneParent(rank: Ranking, nodes: Nodes, spans: Spans, outer: Spans, level: nat, p: nat,
                                     i: nat, q: nat, j: nat)
    requires SpansOk(nodes, spans, level) && p in nodes && q in nodes
    requires forall id :: id in outer ==> SpanOk(outer[id])
    requires KidsOk(rank, nodes[p], spans[p], outer) && KidsOk(rank, nodes[q], spans[q], outer)
    requires i <= |nodes[p].links| && j <= |nodes[q].links|
    requires Kid(nodes[p], i) == Kid(nodes[q], j)
    ensures p == q && i == j
  {
    hide Apart;
    assert KidOk(rank, nodes[p], spans[p], outer, i);
    assert KidOk(rank, nodes[q], spans[q], outer, j);
    KidInside(rank, nodes[p], spans[p], outer, i);
    KidInside(rank, nodes[q], spans[q], outer, j);
    ApartAt(spans, p, q);
    if i < j && p == q {
      KidsAscend(rank, nodes[p], spans[p], outer, i, j);
    } else if j < i && p == q {
      KidsAscend(rank, nodes[p], spans[p], outer, j, i);
    }
  }

  lemma {:induction false} KidsAscend(rank: Ranking, n: Node, s: Span, spans: Spans, i: nat, j: nat)
    requires KidsOk(rank, n, s, spans) && i < j <= |n.links|
    requires forall id :: id in spans ==> SpanOk(spans[id])
    ensures KidSpan(rank, n, s, i).high <= KidSpan(rank, n, s, j).low
  {
    if i < j - 1 {
      LinksAscend(rank, n, s, spans, i, j - 1);
    }
  }

  // ----- searching -----

  /** The first link whose key lies above the rank, as upper_bound finds it. */
  function LinkAbove(rank: Ranking, links: seq<Link>, r: real): (p: nat)
    ensures p <= |links|
    ensures forall i :: 0 <= i < p ==> rank(links[i].key) <= r
    ensures p < |links| ==> r < rank(links[p].key)
  {
    if links == [] || r < rank(links[0].key) then 0
    else 1 + LinkAbove(rank, links[1..], r)
  }

  /** The first record at or above the rank, as lower_bound finds it. */
  function RecordFrom(rank: Ranking, rs: seq<Record>, r: real): (p: nat)
    ensures p <= |rs|
    ensures forall i :: 0 <= i < p ==> rank(rs[i].key) < r
    ensures p < |rs| ==> r <= rank(rs[p].key)
  {
    if rs == [] || r <= rank(rs[0].key) then 0
    else 1 + RecordFrom(rank, rs[1..], r)
  }

  /** The first record above the rank, as upper_bound finds it. */
  function RecordAbove(rank: Ranking, rs: seq<Record>, r: real): (p: nat)
    ensures p <= |rs|
    ensures forall i :: 0 <= i < p ==> rank(rs[i].key) <= r
    ensures p < |rs| ==> r < rank(rs[p].key)
  {
    if rs == [] || r < rank(rs[0].key) then 0
    else 1 + RecordAbove(rank, rs[1..], r)
  }

  /** The child that a search for the rank enters covers the rank. */
  lemma {:induction false} SearchStep(rank: Ranking, n: Node, s: Span, spans: Spans, r: real)
    requires KidsOk(rank, n, s, spans) && Covers(s, r)
    ensures n.Inner?
    ensures var j := LinkAbove(rank, n.links, r);
            KidOk(rank, n, s, spans, j) && Covers(KidSpan(rank, n, s, j), r)
  {
    var j := LinkAbove(rank, n.links, r);
    assert KidOk(rank, n, s, spans, j);
  }

  /** Only one node of each height covers a rank. */
  lemma {:induction false} OneCovers(spans: Spans, a: nat, b: nat, r: real)
    requires Apart(spans) && a in spans && b in spans && spans[a].height == spans[b].height
    requires Covers(spans[a], r) && Covers(spans[b], r)
    ensures a == b
  {
    ApartAt(spans, a, b);
  }

  lemma {:induction false} ApartAt(spans: Spans, a: nat, b: nat)
    requires Apart(spans) && a in spans && b in spans
    ensures a != b ==> Disjoint(spans[a], spans[b])
  {
  }

  // ----- dividing a node -----

  /** The spans with the new node y folded back into its left neighbour x. */
  ghost function Joined(spans: Spans, x: nat, y: nat): Spans
    requires x in spans && y in spans
  {
    (spans - {y})[x := Span(spans[x].height, spans[x].low, spans[y].high)]
  }

  /** Node x has been divided and its right half y is not yet linked from above:
      the nodes above still see one node that spans both. */
  ghost predicate Pending(rank: Ranking, nodes: Nodes, spans: Spans, root: nat, level: nat, x: nat, y: nat)
  {
    && SpansOk(nodes, spans, level)
    && x in spans && y in spans && x != y
    && spans[x].height == spans[y].height && spans[x].high == spans[y].low
    && root in Joined(spans, x, y) && Joined(spans, x, y)[root] == Span(level, 0.0, 1.0)
    && (forall id :: id in nodes && spans[id].height <= spans[x].height ==>
          NodeOk(rank, nodes[id], spans[id], spans))
    && (forall id :: id in nodes && spans[id].height > spans[x].height ==>
          NodeOk(rank, nodes[id], spans[id], Joined(spans, x, y)))
  }

  /** Dividing a node of a good tree at a rank inside its span. */
  lemma {:induction false} SplitKeeps(rank: Ranking, nodes: Nodes, spans: Spans, root: nat, level: nat, x: nat,
                                      y: nat, m: real, a: Node, b: Node)
    requires TreeOk(rank, nodes, spans, root, level)
    requires x in spans && y !in spans && y != 0 && spans[x].low < m < spans[x].high
    requires NodeOk(rank, a, spans[x].(high := m), spans)
    requires NodeOk(rank, b, spans[x].(low := m), spans)
    ensures Pending(rank, nodes[x := a][y := b],
                    spans[x := spans[x].(high := m)][y := spans[x].(low := m)], root, level, x, y)
  {
    hide NodeOk, Apart;
    var nodes' := nodes[x := a][y := b];
    var spans' := spans[x := spans[x].(high := m)][y := spans[x].(low := m)];
    var h := spans[x].height;
    SplitApart(spans, x, y, m);
    assert Joined(spans', x, y) == spans;
    forall id | id in nodes' && spans'[id].height <= h
      ensures NodeOk(rank, nodes'[id], spans'[id], spans')
    {
      assert id == x || id == y || NodeOk(rank, nodes[id], spans[id], spans);
      NodeFrame(rank, nodes'[id], spans'[id], spans, spans');
    }
    forall id | id in nodes' && spans'[id].height > h
      ensures NodeOk(rank, nodes'[id], spans'[id], spans)
    {
    }
  }

  /** A node is as good as before when the spans one level below it are unchanged. */
  lemma {:induction false} NodeFrame(rank: Ranking, n: Node, s: Span, spans: Spans, spans': Spans)
    requires NodeOk(rank, n, s, spans)
    requires forall id :: id in spans && spans[id].height < s.height ==>
               id in spans' && spans'[id] == spans[id]
    ensures NodeOk(rank, n, s, spans')
  {
    if s.height != 1 {
      forall j | 0 <= j <= |n.links|
        ensures KidOk(rank, n, s, spans', j)
      {
        assert KidOk(rank, n, s, spans, j);
      }
    }
  }

  lemma {:induction false} SplitApart(spans: Spans, x: nat, y: nat, m: real)
    requires Apart(spans) && x in spans && y !in spans && spans[x].low < m < spans[x].high
    ensures Apart(spans[x := spans[x].(high := m)][y := spans[x].(low := m)])
  {
    var spans' := spans[x := spans[x].(high := m)][y := spans[x].(low := m)];
    forall p, q | p in spans' && q in spans' && p != q
      ensures Disjoint(spans'[p], spans'[q])
    {
      var p0, q0 := if p == y then x else p, if q == y then x else q;
      assert p0 != q0 ==> Disjoint(spans[p0], spans[q0]);
    }
  }

  /** An inner node with one more link. */
  function WithLink(n: Node, j: nat, link: Link): Node
    requires n.Inner? && j <= |n.links|
  {
    n.(links := n.links[..j] + [link] + n.links[j..])
  }

  /** The separators ascend; equal ones may be neighbours. */
  predicate InOrderLinks(rank: Ranking, links: seq<Link>) {
    forall i, j :: 0 <= i < j < |links| ==> rank(links[i].key) <= rank(links[j].key)
  }

  /** A link put where the search for its key leads keeps the separators in order, and all links. */
  lemma {:induction false} LinkOrdered(rank: Ranking, n: Node, link: Link)
    requires n.Inner?
    ensures var links := WithLink(n, LinkAbove(rank, n.links, rank(link.key)), link).links;
            && multiset(links) == multiset(n.links) + multiset{link}
            && (InOrderLinks(rank, n.links) ==> InOrderLinks(rank, links))
  {
    hide LinkAbove, InOrderLinks;
    var links, p := n.links, LinkAbove(rank, n.links, rank(link.key));
    LinkBounds(rank, links, rank(link.key));
    assert links == links[..p] + links[p..];
    if InOrderLinks(rank, links) {
      LinkBetween(rank, links, link, p);
    }
  }

  lemma {:induction false} LinkBounds(rank: Ranking, links: seq<Link>, r: real)
    ensures var p := LinkAbove(rank, links, r);
            && p <= |links| && (forall i :: 0 <= i < p ==> rank(links[i].key) <= r)
            && (p < |links| ==> r < rank(links[p].key))
  {
  }

  lemma {:induction false} LinkBetween(rank: Ranking, links: seq<Link>, link: Link, p: nat)
    requires InOrderLinks(rank, links) && p <= |links|
    requires forall i :: 0 <= i < p ==> rank(links[i].key) <= rank(link.key)
    requires p < |links| ==> rank(link.key) < rank(links[p].key)
    ensures InOrderLinks(rank, links[..p] + [link] + links[p..])
  {
    var w := links[..p] + [link] + links[p..];
    forall i, j | 0 <= i < j < |w|
      ensures rank(w[i].key) <= rank(w[j].key)
    {
      assert w[i] == if i < p then links[i] else if i == p then link else links[i - 1];
      assert w[j] == if j < p then links[j] else if j == p then link else links[j - 1];
      assert i == p ==> rank(links[p].key) <= rank(links[j - 1].key);
    }
  }

  /** Where AddLinkToInnerNode puts the link to the right half: just after the left half. */
  lemma {:induction false} LinkPlace(rank: Ranking, n: Node, s: Span, outer: Spans, j: nat, m: real)
    requires KidsOk(rank, n, s, outer) && j <= |n.links|
    requires forall id :: id in outer ==> SpanOk(outer[id])
    requires KidSpan(rank, n, s, j).low < m < KidSpan(rank, n, s, j).high
    ensures LinkAbove(rank, n.links, m) == j
  {
    var p := LinkAbove(rank, n.links, m);
    if p + 1 < j {
      LinksAscend(rank, n, s, outer, p, j - 1);
    }
  }

  lemma {:induction false} LinkedKids(rank: Ranking, n: Node, s: Span, spans: Spans, x: nat, y: nat, j: nat, key: Bytes)
    requires x in spans && y in spans && x != y
    requires KidsOk(rank, n, s, Joined(spans, x, y))
    requires j <= |n.links| && Kid(n, j) == x
    requires forall i :: 0 <= i <= |n.links| && i != j ==> Kid(n, i) != x
    requires spans[x].height == spans[y].height && spans[x].high == spans[y].low == rank(key)
    ensures KidsOk(rank, WithLink(n, j, Link(key, y)), s, spans)
  {
    var n' := WithLink(n, j, Link(key, y));
    var outer := Joined(spans, x, y);
    assert KidOk(rank, n, s, outer, j);
    forall i | 0 <= i <= |n'.links|
      ensures KidOk(rank, n', s, spans, i)
    {
      if i < j {
        assert KidOk(rank, n, s, outer, i);
      } else if i > j + 1 {
        assert KidOk(rank, n, s, outer, i - 1);
        assert Kid(n', i) == Kid(n, i - 1);
      }
    }
  }

  /** Linking the right half under the parent of the left half completes the tree. */
  lemma {:induction false} LinkKeeps(rank: Ranking, nodes: Nodes, spans: Spans, root: nat, level: nat, x: nat,
                                     y: nat, p: nat, j: nat, key: Bytes)
    requires Pending(rank, nodes, spans, root, level, x, y)
    requires p in nodes && spans[p].height == spans[x].height + 1
    requires nodes[p].Inner? && j <= |nodes[p].links| && Kid(nodes[p], j) == x
    requires spans[y].low == rank(key)
    ensures LinkAbove(rank, nodes[p].links, rank(key)) == j
    ensures TreeOk(rank, nodes[p := WithLink(nodes[p], j, Link(key, y))], spans, root, level)
  {
    hide Apart, KidsOk;
    var nodes' := nodes[p := WithLink(nodes[p], j, Link(key, y))];
    var outer := Joined(spans, x, y);
    assert NodeOk(rank, nodes[p], spans[p], outer);
    assert KidOk(rank, nodes[p], spans[p], outer, j) by { KidAt(rank, nodes[p], spans[p], outer, j); }
    LinkPlace(rank, nodes[p], spans[p], outer, j, rank(key));
    forall i | 0 <= i <= |nodes[p].links| && i != j
      ensures Kid(nodes[p], i) != x
    {
      if Kid(nodes[p], i) == x {
        OneParent(rank, nodes, spans, outer, level, p, i, p, j);
      }
    }
    LinkedKids(rank, nodes[p], spans[p], spans, x, y, j, key);
    forall id | id in nodes'
      ensures NodeOk(rank, nodes'[id], spans[id], spans)
    {
      if id != p && spans[id].height > spans[x].height {
        OtherKids(rank, nodes, spans, level, x, y, p, j, id);
      }
    }
  }

  lemma {:induction false} KidAt(rank: Ranking, n: Node, s: Span, spans: Spans, j: nat)
    requires KidsOk(rank, n, s, spans) && j <= |n.links|
    ensures KidOk(rank, n, s, spans, j)
  {
  }

  /** A node other than the parent of the divided node does not see the division. */
  lemma {:induction false} OtherKids(rank: Ranking, nodes: Nodes, spans: Spans, level: nat, x: nat, y: nat, p: nat,
                                     j: nat, id: nat)
    requires SpansOk(nodes, spans, level)
    requires x in spans && y in spans && x != y && spans[x].high == spans[y].low
    requires p in nodes && id in nodes && id != p
    requires KidsOk(rank, nodes[p], spans[p], Joined(spans, x, y))
    requires KidsOk(rank, nodes[id], spans[id], Joined(spans, x, y))
    requires j <= |nodes[p].links| && Kid(nodes[p], j) == x
    ensures KidsOk(rank, nodes[id], spans[id], spans)
  {
    hide Apart;
    var outer := Joined(spans, x, y);
    forall i | 0 <= i <= |nodes[id].links|
      ensures KidOk(rank, nodes[id], spans[id], spans, i)
    {
      assert KidOk(rank, nodes[id], spans[id], outer, i);
      if Kid(nodes[id], i) == x {
        OneParent(rank, nodes, spans, outer, level, p, j, id, i);
      }
    }
  }

  /** Dividing the root: a new root over the two halves. */
  lemma {:induction false} GrowKeeps(rank: Ranking, nodes: Nodes, spans: Spans, level: nat, x: nat, y: nat,
                                     top: nat, key: Bytes)
    requires Pending(rank, nodes, spans, x, level, x, y)
    requires top !in spans && top != 0 && spans[y].low == rank(key)
    ensures TreeOk(rank, nodes[top := Inner(x, [Link(key, y)])],
                   spans[top := Span(level + 1, 0.0, 1.0)], top, level + 1)
  {
    hide Apart, NodeOk, Disjoint;
    var nodes' := nodes[top := Inner(x, [Link(key, y)])];
    var spans' := spans[top := Span(level + 1, 0.0, 1.0)];
    forall id | id in nodes'
      ensures NodeOk(rank, nodes'[id], spans'[id], spans')
    {
      if id == top {
        var n := nodes'[top];
        assert KidOk(rank, n, spans'[top], spans', 0) && KidOk(rank, n, spans'[top], spans', 1);
        IsInner(rank, n, spans'[top], spans');
      } else {
        NodeFrame(rank, nodes[id], spans[id], spans, spans');
      }
    }
    GrowApart(spans, top, level);
  }

  lemma {:induction false} GrowApart(spans: Spans, top: nat, level: nat)
    requires Apart(spans) && top !in spans
    requires forall id :: id in spans ==> spans[id].height <= level
    ensures Apart(spans[top := Span(level + 1, 0.0, 1.0)])
  {
    var spans' := spans[top := Span(level + 1, 0.0, 1.0)];
    forall p, q | p in spans' && q in spans' && p != q
      ensures Disjoint(spans'[p], spans'[q])
    {
      assert p != top && q != top ==> Disjoint(spans[p], spans[q]);
    }
  }

  // ----- joining two neighbours -----

  /** An inner node whose children j and j + 1 have become the one child z. */
  function WithoutLink(n: Node, j: nat, z: nat): Node
    requires n.Inner? && j < |n.links|
  {
    var rest := n.links[..j] + n.links[j + 1..];
    if j == 0 then Inner(z, rest)
    else Inner(n.heir, rest[j - 1 := Link(n.links[j - 1].key, z)])
  }

  lemma {:induction false} WithoutLeft(n: Node, j: nat)
    requires n.Inner? && j < |n.links|
    ensures WithoutLink(n, j, Kid(n, j)) == Inner(n.heir, n.links[..j] + n.links[j + 1..])
  {
    var rest := n.links[..j] + n.links[j + 1..];
    if j > 0 {
      assert rest[j - 1 := Link(n.links[j - 1].key, n.links[j - 1].child)] == rest;
    }
  }

  lemma {:induction false} WithoutRight(n: Node, j: nat, z: nat)
    requires n.Inner? && 0 < j < |n.links|
    ensures var links := n.links[j - 1 := Link(n.links[j - 1].key, z)];
            WithoutLink(n, j, z) == Inner(n.heir, links[..j] + links[j + 1..])
  {
    var links := n.links[j - 1 := Link(n.links[j - 1].key, z)];
    var rest := n.links[..j] + n.links[j + 1..];
    assert rest[j - 1 := Link(n.links[j - 1].key, z)] == links[..j] + links[j + 1..];
  }

  /** The spans after the neighbours a and b have become z, which is one of them. */
  ghost function JoinSpans(spans: Spans, a: nat, b: nat, z: nat): Spans
    requires a in spans && b in spans
  {
    (spans - {a, b})[z := Span(spans[a].height, spans[a].low, spans[b].high)]
  }

  ghost function JoinNodes(nodes: Nodes, p: nat, j: nat, z: nat, c: Node): Nodes
    requires p in nodes && nodes[p].Inner? && j < |nodes[p].links|
  {
    (nodes - {Kid(nodes[p], j), Kid(nodes[p], j + 1)})[z := c][p := WithoutLink(nodes[p], j, z)]
  }

  lemma {:induction false} JoinApart(spans: Spans, a: nat, b: nat, z: nat)
    requires Apart(spans) && a in spans && b in spans && (z == a || z == b)
    requires SpanOk(spans[a]) && SpanOk(spans[b])
    requires forall id :: id in spans ==> SpanOk(spans[id])
    requires spans[a].height == spans[b].height && spans[a].high == spans[b].low
    ensures Apart(JoinSpans(spans, a, b, z))
  {
    var spans' := JoinSpans(spans, a, b, z);
    forall p, q | p in spans' && q in spans' && p != q
      ensures Disjoint(spans'[p], spans'[q])
    {
      if p == z {
        assert Disjoint(spans[a], spans[q]) && Disjoint(spans[b], spans[q]);
      } else if q == z {
        assert Disjoint(spans[p], spans[a]) && Disjoint(spans[p], spans[b]);
      } else {
        assert Disjoint(spans[p], spans[q]);
      }
    }
  }

  /** The parent after the join. */
  lemma {:induction false} JoinedKids(rank: Ranking, n: Node, s: Span, spans: Spans, j: nat, z: nat)
    requires KidsOk(rank, n, s, spans) && j < |n.links|
    requires KidOk(rank, n, s, spans, j) && KidOk(rank, n, s, spans, j + 1)
    requires z == Kid(n, j) || z == Kid(n, j + 1)
    requires forall i :: 0 <= i <= |n.links| && i != j && i != j + 1 ==>
               Kid(n, i) != Kid(n, j) && Kid(n, i) != Kid(n, j + 1)
    ensures KidsOk(rank, WithoutLink(n, j, z), s, JoinSpans(spans, Kid(n, j), Kid(n, j + 1), z))
  {
    var n' := WithoutLink(n, j, z);
    var spans' := JoinSpans(spans, Kid(n, j), Kid(n, j + 1), z);
    forall i | 0 <= i <= |n'.links|
      ensures KidOk(rank, n', s, spans', i)
    {
      if i < j {
        assert KidOk(rank, n, s, spans, i);
        assert Kid(n', i) == Kid(n, i);
      } else if i > j {
        assert KidOk(rank, n, s, spans, i + 1);
        assert Kid(n', i) == Kid(n, i + 1);
      } else {
        assert Kid(n', i) == z;
      }
    }
  }

  lemma {:induction false} Neighbours(rank: Ranking, n: Node, s: Span, spans: Spans, j: nat)
    requires n.Inner? && j < |n.links| && s.height > 1
    requires KidOk(rank, n, s, spans, j) && KidOk(rank, n, s, spans, j + 1)
    ensures Kid(n, j) in spans && Kid(n, j + 1) in spans
    ensures spans[Kid(n, j)].height == spans[Kid(n, j + 1)].height == s.height - 1
    ensures spans[Kid(n, j)].high == spans[Kid(n, j + 1)].low == rank(n.links[j].key)
  {
  }

  /** Joining two neighbouring children of a node keeps the tree. */
  lemma {:induction false} JoinKeeps(rank: Ranking, nodes: Nodes, spans: Spans, root: nat, level: nat, p: nat,
                                     j: nat, z: nat, c: Node)
    requires TreeOk(rank, nodes, spans, root, level)
    requires p in nodes && nodes[p].Inner? && j < |nodes[p].links| && spans[p].height > 1
    requires z == Kid(nodes[p], j) || z == Kid(nodes[p], j + 1)
    requires KidOk(rank, nodes[p], spans[p], spans, j) && KidOk(rank, nodes[p], spans[p], spans, j + 1)
    requires NodeOk(rank, c,
                    Span(spans[p].height - 1, spans[Kid(nodes[p], j)].low, spans[Kid(nodes[p], j + 1)].high),
                    spans)
    ensures TreeOk(rank, JoinNodes(nodes, p, j, z, c),
                   JoinSpans(spans, Kid(nodes[p], j), Kid(nodes[p], j + 1), z), root, level)
  {
    hide Apart, NodeOk, KidsOk, WithoutLink, KidOk, KidSpan, Kid;
    var a, b := Kid(nodes[p], j), Kid(nodes[p], j + 1);
    Neighbours(rank, nodes[p], spans[p], spans, j);
    var nodes' := JoinNodes(nodes, p, j, z, c);
    var spans' := JoinSpans(spans, a, b, z);
    assert NodeOk(rank, nodes[p], spans[p], spans);
    IsInner(rank, nodes[p], spans[p], spans);
    JoinApart(spans, a, b, z);
    assert nodes'.Keys == spans'.Keys;
    assert SpansOk(nodes', spans', level);
    forall id | id in nodes'
      ensures NodeOk(rank, nodes'[id], spans'[id], spans')
    {
      assert id == p || id == z || NodeOk(rank, nodes[id], spans[id], spans);
      JoinNode(rank, nodes, spans, level, p, j, z, c, id);
    }
  }

  lemma {:induction false} JoinNode(rank: Ranking, nodes: Nodes, spans: Spans, level: nat, p: nat, j: nat, z: nat,
                                    c: Node, id: nat)
    requires SpansOk(nodes, spans, level)
    requires p in nodes && KidsOk(rank, nodes[p], spans[p], spans) && j < |nodes[p].links|
    requires z == Kid(nodes[p], j) || z == Kid(nodes[p], j + 1)
    requires KidOk(rank, nodes[p], spans[p], spans, j) && KidOk(rank, nodes[p], spans[p], spans, j + 1)
    requires NodeOk(rank, c,
                    Span(spans[p].height - 1, spans[Kid(nodes[p], j)].low, spans[Kid(nodes[p], j + 1)].high),
                    spans)
    requires id in JoinNodes(nodes, p, j, z, c)
    requires id == p || id == z || NodeOk(rank, nodes[id], spans[id], spans)
    ensures var spans' := JoinSpans(spans, Kid(nodes[p], j), Kid(nodes[p], j + 1), z);
            id in spans' && NodeOk(rank, JoinNodes(nodes, p, j, z, c)[id], spans'[id], spans')
  {
    hide Apart, NodeOk, WithoutLink, KidOk, KidSpan, Kid;
    var a, b := Kid(nodes[p], j), Kid(nodes[p], j + 1);
    Neighbours(rank, nodes[p], spans[p], spans, j);
    var nodes' := JoinNodes(nodes, p, j, z, c);
    var spans' := JoinSpans(spans, a, b, z);
    if id == p {
      JoinParent(rank, nodes, spans, level, p, j, z);
      IsInner(rank, nodes'[p], spans[p], spans');
    } else if id == z {
      NodeFrame(rank, c, spans'[z], spans, spans');
    } else if spans[id].height == spans[p].height {
      IsInner(rank, nodes[id], spans[id], spans);
      JoinOther(rank, nodes, spans, level, p, j, z, id);
      IsInner(rank, nodes[id], spans[id], spans');
    } else {
      JoinFrame(rank, nodes[id], spans[id], spans, a, b, z);
    }
  }

  lemma {:induction false} IsInner(rank: Ranking, n: Node, s: Span, spans: Spans)
    requires s.height > 1
    ensures NodeOk(rank, n, s, spans) <==> KidsOk(rank, n, s, spans)
  {
  }

  lemma {:induction false} JoinParent(rank: Ranking, nodes: Nodes, spans: Spans, level: nat, p: nat, j: nat, z: nat)
    requires SpansOk(nodes, spans, level) && p in nodes
    requires KidsOk(rank, nodes[p], spans[p], spans) && j < |nodes[p].links|
    requires KidOk(rank, nodes[p], spans[p], spans, j) && KidOk(rank, nodes[p], spans[p], spans, j + 1)
    requires z == Kid(nodes[p], j) || z == Kid(nodes[p], j + 1)
    ensures Kid(nodes[p], j) != Kid(nodes[p], j + 1)
    ensures KidsOk(rank, WithoutLink(nodes[p], j, z), spans[p],
                   JoinSpans(spans, Kid(nodes[p], j), Kid(nodes[p], j + 1), z))
  {
    hide Apart;
    forall i, k | 0 <= i <= |nodes[p].links| && 0 <= k <= |nodes[p].links| && i != k
      ensures Kid(nodes[p], i) != Kid(nodes[p], k)
    {
      if Kid(nodes[p], i) == Kid(nodes[p], k) {
        OneParent(rank, nodes, spans, spans, level, p, i, p, k);
      }
    }
    JoinedKids(rank, nodes[p], spans[p], spans, j, z);
  }

  /** Another node of the parent's height does not see the join. */
  lemma {:induction false} JoinOther(rank: Ranking, nodes: Nodes, spans: Spans, level: nat, p: nat, j: nat, z: nat,
                                     id: nat)
    requires SpansOk(nodes, spans, level) && p in nodes && id in nodes && id != p
    requires KidsOk(rank, nodes[p], spans[p], spans) && j < |nodes[p].links|
    requires KidsOk(rank, nodes[id], spans[id], spans)
    requires z == Kid(nodes[p], j) || z == Kid(nodes[p], j + 1)
    ensures Kid(nodes[p], j) in spans && Kid(nodes[p], j + 1) in spans
    ensures KidsOk(rank, nodes[id], spans[id],
                   JoinSpans(spans, Kid(nodes[p], j), Kid(nodes[p], j + 1), z))
  {
    hide Apart;
    assert KidOk(rank, nodes[p], spans[p], spans, j) && KidOk(rank, nodes[p], spans[p], spans, j + 1);
    var spans' := JoinSpans(spans, Kid(nodes[p], j), Kid(nodes[p], j + 1), z);
    forall i | 0 <= i <= |nodes[id].links|
      ensures KidOk(rank, nodes[id], spans[id], spans', i)
    {
      assert KidOk(rank, nodes[id], spans[id], spans, i);
      if Kid(nodes[id], i) == Kid(nodes[p], j) {
        OneParent(rank, nodes, spans, spans, level, p, j, id, i);
      } else if Kid(nodes[id], i) == Kid(nodes[p], j + 1) {
        OneParent(rank, nodes, spans, spans, level, p, j + 1, id, i);
      }
    }
  }

  /** A node of any other height does not see it either. */
  lemma {:induction false} JoinFrame(rank: Ranking, n: Node, s: Span, spans: Spans, a: nat, b: nat, z: nat)
    requires NodeOk(rank, n, s, spans)
    requires a in spans && b in spans && spans[a].height == spans[b].height
    requires s.height != spans[a].height + 1 && (z == a || z == b)
    ensures NodeOk(rank, n, s, JoinSpans(spans, a, b, z))
  {
    if s.height != 1 {
      forall j | 0 <= j <= |n.links|
        ensures KidOk(rank, n, s, JoinSpans(spans, a, b, z), j)
      {
        assert KidOk(rank, n, s, spans, j);
      }
    }
  }

  /** Two neighbouring inner nodes as one: the separator between them comes down. */
  function JoinedInner(a: Node, b: Node, key: Bytes): Node
    requires a.Inner? && b.Inner?
  {
    Inner(a.heir, a.links + [Link(key, b.heir)] + b.links)
  }

  lemma {:induction false} JoinedInnerOk(rank: Ranking, a: Node, s: Span, b: Node, t: Span, key: Bytes, spans: Spans)
    requires KidsOk(rank, a, s, spans) && KidsOk(rank, b, t, spans)
    requires s.height == t.height && s.high == t.low == rank(key)
    ensures KidsOk(rank, JoinedInner(a, b, key), Span(s.height, s.low, t.high), spans)
  {
    var c, u := JoinedInner(a, b, key), Span(s.height, s.low, t.high);
    var k := |a.links| + 1;
    forall j | 0 <= j <= |c.links|
      ensures KidOk(rank, c, u, spans, j)
    {
      if j < k {
        assert KidOk(rank, a, s, spans, j);
        assert Kid(c, j) == Kid(a, j);
      } else {
        assert KidOk(rank, b, t, spans, j - k);
        assert Kid(c, j) == Kid(b, j - k);
      }
    }
  }

  /** The two halves of an inner node whose middle link goes up. */
  lemma {:induction false} HalvesOk(rank: Ranking, n: Node, s: Span, spans: Spans, mid: nat)
    requires KidsOk(rank, n, s, spans) && mid < |n.links|
    ensures KidsOk(rank, Inner(n.heir, n.links[..mid]), s.(high := rank(n.links[mid].key)), spans)
    ensures KidsOk(rank, Inner(n.links[mid].child, n.links[mid + 1..]),
                   s.(low := rank(n.links[mid].key)), spans)
  {
    var m := rank(n.links[mid].key);
    var a, b := Inner(n.heir, n.links[..mid]), Inner(n.links[mid].child, n.links[mid + 1..]);
    forall j | 0 <= j <= |a.links|
      ensures KidOk(rank, a, s.(high := m), spans, j)
    {
      assert KidOk(rank, n, s, spans, j);
      assert Kid(a, j) == Kid(n, j);
    }
    forall j | 0 <= j <= |b.links|
      ensures KidOk(rank, b, s.(low := m), spans, j)
    {
      assert KidOk(rank, n, s, spans, j + mid + 1);
      assert Kid(b, j) == Kid(n, j + mid + 1);
    }
  }

  /** A root without links hands the tree over to its only child. */
  lemma {:induction false} CollapseKeeps(rank: Ranking, nodes: Nodes, spans: Spans, root: nat, level: nat)
    requires TreeOk(rank, nodes, spans, root, level)
    requires level > 1 && nodes[root].Inner? && nodes[root].links == []
    ensures TreeOk(rank, nodes - {root}, spans - {root}, nodes[root].heir, level - 1)
  {
    hide Apart;
    var nodes', spans' := nodes - {root}, spans - {root};
    assert KidsOk(rank, nodes[root], spans[root], spans);
    assert KidOk(rank, nodes[root], spans[root], spans, 0);
    forall id | id in spans'
      ensures spans'[id].height <= level - 1
    {
      if spans[id].height == level {
        OneCovers(spans, id, root, spans[id].low);
      }
    }
    forall id | id in nodes'
      ensures NodeOk(rank, nodes'[id], spans'[id], spans')
    {
      assert NodeOk(rank, nodes[id], spans[id], spans);
      NodeFrame(rank, nodes[id], spans[id], spans, spans');
    }
    LessApart(spans, root);
  }

  lemma {:induction false} LessApart(spans: Spans, x: nat)
    requires Apart(spans)
    ensures Apart(spans - {x})
  {
    forall p, q | p in spans - {x} && q in spans - {x} && p != q
      ensures Disjoint((spans - {x})[p], (spans - {x})[q])
    {
      assert Disjoint(spans[p], spans[q]);
    }
  }
}
