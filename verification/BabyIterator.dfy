/** BabyDBM's iterators: a key and a cached leaf, moved along the list of leaves. */
module BabyIteration {
  import opened Common
  import opened BabyTree
  import opened BabyLeaves
  import opened BabyReorganize
  import opened BabyEdit
  import opened BabyDatabase

  /** The key at a position of a sequence of records, if there is one. */
  function KeyAt(rs: seq<Record>, p: int): Option<Bytes> {
    if 0 <= p < |rs| then Some(rs[p].key) else None
  }

  /** The records of the leaves from a position on, and of those before it. */
  ghost function Tail(nodes: Nodes, leaves: seq<nat>, i: nat): seq<Record>
    requires i <= |leaves|
  {
    Gather(nodes, leaves[i..])
  }

  ghost function Head(nodes: Nodes, leaves: seq<nat>, i: nat): seq<Record>
    requires i <= |leaves|
  {
    Gather(nodes, leaves[..i])
  }

  lemma {:induction false} TailStep(nodes: Nodes, leaves: seq<nat>, i: nat)
    requires i < |leaves| && IsLeafNode(nodes, leaves[i])
    ensures Tail(nodes, leaves, i) == nodes[leaves[i]].records + Tail(nodes, leaves, i + 1)
  {
    assert leaves[i..][1..] == leaves[i + 1..];
  }

  lemma {:induction false} HeadStep(nodes: Nodes, leaves: seq<nat>, i: nat)
    requires i < |leaves| && IsLeafNode(nodes, leaves[i])
    ensures Head(nodes, leaves, i + 1) == Head(nodes, leaves, i) + nodes[leaves[i]].records
  {
    assert leaves[..i + 1] == leaves[..i] + [leaves[i]];
    GatherConcat(nodes, leaves[..i], [leaves[i]]);
    GatherTwo(nodes, leaves[i], leaves[i]);
  }

  lemma {:induction false} NoLeaves(nodes: Nodes, leaves: seq<nat>)
    ensures Tail(nodes, leaves, |leaves|) == [] && Head(nodes, leaves, 0) == []
  {
  }

  lemma {:induction false} Whole(nodes: Nodes, leaves: seq<nat>, i: nat)
    requires i < |leaves| && IsLeafNode(nodes, leaves[i])
    ensures Gather(nodes, leaves) ==
            Head(nodes, leaves, i) + nodes[leaves[i]].records + Tail(nodes, leaves, i + 1)
    ensures Gather(nodes, leaves) == Tail(nodes, leaves, 0) == Head(nodes, leaves, |leaves|)
  {
    GatherAt(nodes, leaves, i);
    assert leaves[0..] == leaves == leaves[..|leaves|];
  }

  /** What the search in one leaf says about all records. */
  lemma {:induction false} LeafPlaces(rank: Ranking, a: seq<Record>, rs: seq<Record>, b: seq<Record>, low: real,
                                      high: real, r: real)
    requires AllBelow(rank, a, low) && NoneBelow(rank, b, high) && low <= r < high
    ensures RecordFrom(rank, a + rs + b, r) == |a| + RecordFrom(rank, rs, r)
    ensures RecordAbove(rank, a + rs + b, r) == |a| + RecordAbove(rank, rs, r)
  {
    FromPlace(rank, a, rs, b, r);
    AbovePlace(rank, a, rs, b, r);
  }

  lemma {:induction false} FromPlace(rank: Ranking, a: seq<Record>, rs: seq<Record>, b: seq<Record>, r: real)
    requires AllBelow(rank, a, r)
    requires NoneBelow(rank, b, r) || Reaches(rank, rs, r)
    ensures RecordFrom(rank, a + rs + b, r) == |a| + RecordFrom(rank, rs, r)
  {
    var w, p := a + rs + b, RecordFrom(rank, rs, r);
    forall i | 0 <= i < |a| + p
      ensures rank(w[i].key) < r
    {
      assert w[i] == if i < |a| then a[i] else rs[i - |a|];
    }
    if |a| + p < |w| {
      assert w[|a| + p] == if p < |rs| then rs[p] else b[0];
    }
    FromIs(rank, w, r, |a| + p);
  }

  lemma {:induction false} AbovePlace(rank: Ranking, a: seq<Record>, rs: seq<Record>, b: seq<Record>, r: real)
    requires forall i :: 0 <= i < |a| ==> rank(a[i].key) <= r
    requires forall i :: 0 <= i < |b| ==> r < rank(b[i].key)
    ensures RecordAbove(rank, a + rs + b, r) == |a| + RecordAbove(rank, rs, r)
  {
    var w, p := a + rs + b, RecordAbove(rank, rs, r);
    forall i | 0 <= i < |a| + p
      ensures rank(w[i].key) <= r
    {
      assert w[i] == if i < |a| then a[i] else rs[i - |a|];
    }
    if |a| + p < |w| {
      assert w[|a| + p] == if p < |rs| then rs[p] else b[0];
    }
    AboveIs(rank, w, r, |a| + p);
  }

  lemma {:induction false} AboveIs(rank: Ranking, rs: seq<Record>, r: real, p: nat)
    requires p <= |rs| && (forall i :: 0 <= i < p ==> rank(rs[i].key) <= r)
    requires p < |rs| ==> r < rank(rs[p].key)
    ensures RecordAbove(rank, rs, r) == p
  {
  }

  lemma {:induction false} KeyInWhole(a: seq<Record>, rs: seq<Record>, b: seq<Record>, p: nat)
    requires p <= |rs|
    ensures KeyAt(a + rs + b, |a| + p) == if p < |rs| then Some(rs[p].key) else KeyAt(b, 0)
  {
  }

  /** The facts about a leaf that the iterators need. */
  lemma {:induction false} AtLeaf(dbm: BabyDBM, i: nat)
    requires dbm.Valid() && i < |dbm.leaves|
    ensures var leaf := dbm.leaves[i];
            && IsLeafNode(dbm.nodes, leaf) && leaf in dbm.spans && dbm.spans[leaf].height == 1
            && AllBelow(dbm.rank, Head(dbm.nodes, dbm.leaves, i), dbm.spans[leaf].low)
            && NoneBelow(dbm.rank, Tail(dbm.nodes, dbm.leaves, i + 1), dbm.spans[leaf].high)
            && Inside(dbm.rank, dbm.nodes[leaf].records, dbm.spans[leaf])
            && dbm.nodes[leaf].next == At(dbm.leaves, i + 1) && dbm.nodes[leaf].prev == At(dbm.leaves, i - 1)
            && leaf != 0
  {
    hide TreeOk, ListOk, Gather, QueueOk, Branchy, CursorsOk;
    TreeFacts(dbm.rank, dbm.nodes, dbm.spans, dbm.root, dbm.level);
    SpanFacts(dbm.rank, dbm.nodes, dbm.spans, dbm.root, dbm.level);
    TreeLeavesOk(dbm.rank, dbm.nodes, dbm.spans, dbm.root, dbm.level, dbm.leaves, dbm.first, dbm.last);
    ListFacts(dbm.nodes, dbm.spans, dbm.leaves, dbm.first, dbm.last);
    GatherAround(dbm.rank, dbm.nodes, dbm.spans, dbm.leaves, i);
    PointersAt(dbm.nodes, dbm.spans, dbm.leaves, dbm.first, dbm.last, i);
    assert NodeOk(dbm.rank, dbm.nodes[dbm.leaves[i]], dbm.spans[dbm.leaves[i]], dbm.spans);
  }

  /** The first record from a leaf on; the leaves passed over on the way are empty. */
  method SetPositionFirst(dbm: BabyDBM, leaf: nat, ghost i: nat) returns (c: Cursor, hit: bool, ghost j: nat)
    requires dbm.Valid() && i <= |dbm.leaves| && leaf == At(dbm.leaves, i)
    ensures c.key == KeyAt(Tail(dbm.nodes, dbm.leaves, i), 0) && hit == c.key.Some?
    ensures CursorOk(dbm.rank, dbm.spans, c)
    ensures hit ==> i <= j < |dbm.leaves| && c.leaf == dbm.leaves[j] && c.leaf != 0
    ensures hit ==> Head(dbm.nodes, dbm.leaves, j) == Head(dbm.nodes, dbm.leaves, i)
    ensures hit ==> IsLeafNode(dbm.nodes, c.leaf) && KeyAt(dbm.nodes[c.leaf].records, 0) == c.key
  {
    hide BabyDBM.Valid, Tail, Head;
    var node := leaf;
    j := i;
    NoLeaves(dbm.nodes, dbm.leaves);
    LeafThere(dbm, j);
    while node != 0
      invariant i <= j <= |dbm.leaves| && node == At(dbm.leaves, j)
      invariant j < |dbm.leaves| ==> node != 0
      invariant KeyAt(Tail(dbm.nodes, dbm.leaves, i), 0) == KeyAt(Tail(dbm.nodes, dbm.leaves, j), 0)
      invariant Head(dbm.nodes, dbm.leaves, j) == Head(dbm.nodes, dbm.leaves, i)
      decreases |dbm.leaves| - j
    {
      AtLeaf(dbm, j);
      TailStep(dbm.nodes, dbm.leaves, j);
      var records := dbm.nodes[node].records;
      if records != [] {
        return Cursor(Some(records[0].key), node), true, j;
      }
      HeadStep(dbm.nodes, dbm.leaves, j);
      node := dbm.nodes[node].next;
      j := j + 1;
      LeafThere(dbm, j);
    }
    return Cursor(None, 0), false, j;
  }

  lemma {:induction false} LeafThere(dbm: BabyDBM, i: nat)
    requires dbm.Valid()
    ensures i < |dbm.leaves| ==> dbm.leaves[i] != 0
  {
    hide BabyDBM.Valid, Tail, Head;
    if i < |dbm.leaves| {
      AtLeaf(dbm, i);
    }
  }

  /** The last record up to a leaf, given by the number of leaves up to it. */
  method SetPositionLast(dbm: BabyDBM, leaf: nat, ghost i: nat) returns (c: Cursor, hit: bool)
    requires dbm.Valid() && i <= |dbm.leaves| && leaf == At(dbm.leaves, i - 1)
    ensures var before := Head(dbm.nodes, dbm.leaves, i);
            c.key == KeyAt(before, |before| - 1) && hit == c.key.Some?
    ensures CursorOk(dbm.rank, dbm.spans, c) && (hit ==> c.leaf != 0)
  {
    hide BabyDBM.Valid, Tail, Head;
    var node := leaf;
    ghost var j := i;
    NoLeaves(dbm.nodes, dbm.leaves);
    if 0 < j {
      LeafThere(dbm, j - 1);
    }
    while node != 0
      invariant 0 <= j <= |dbm.leaves| && node == At(dbm.leaves, j - 1)
      invariant 0 < j ==> node != 0
      invariant Head(dbm.nodes, dbm.leaves, j) == Head(dbm.nodes, dbm.leaves, i)
      decreases j
    {
      AtLeaf(dbm, j - 1);
      HeadStep(dbm.nodes, dbm.leaves, j - 1);
      var records := dbm.nodes[node].records;
      if records != [] {
        return Cursor(Some(records[|records| - 1].key), node), true;
      }
      node := dbm.nodes[node].prev;
      j := j - 1;
      if 0 < j {
        LeafThere(dbm, j - 1);
      }
    }
    return Cursor(None, 0), false;
  }

  /** The leaf of a key, with its place in the list. */
  method FindLeaf(dbm: BabyDBM, key: Bytes, cached: nat) returns (leaf: nat, ghost i: nat)
    requires dbm.Valid() && (cached != 0 ==> IsLeafFor(dbm.rank, dbm.spans, cached, key))
    ensures IsLeafFor(dbm.rank, dbm.spans, leaf, key) && (cached != 0 ==> leaf == cached)
    ensures i < |dbm.leaves| && leaf == dbm.leaves[i]
  {
    hide TreeOk, ListOk, Gather, QueueOk, Branchy, CursorsOk;
    leaf := cached;
    if leaf == 0 {
      leaf := dbm.SearchTree(key);
    }
    i := LeafIndex(dbm.nodes, dbm.spans, dbm.leaves, dbm.first, dbm.last, leaf);
  }

  /** Moves to the first record at or above a key, from the cached leaf if there is one. */
  method SyncPosition(dbm: BabyDBM, key: Bytes, cached: nat) returns (c: Cursor, found: bool, ghost j: nat)
    requires dbm.Valid() && (cached != 0 ==> IsLeafFor(dbm.rank, dbm.spans, cached, key))
    ensures c.key == KeyAt(dbm.Contents(), RecordFrom(dbm.rank, dbm.Contents(), dbm.rank(key)))
    ensures found == c.key.Some? && CursorOk(dbm.rank, dbm.spans, c)
    ensures found ==> HoldsFirst(dbm, c.leaf, j, dbm.rank(key)) && c.leaf != 0
  {
    hide BabyDBM.Valid, Tail, Head, BabyDBM.Contents, AllBelow, NoneBelow, Inside, Reaches, CursorOk, KeyAt,
         BabyTree.RecordFrom;
    var leaf, i := FindLeaf(dbm, key, cached);
    AtLeaf(dbm, i);
    LeafKeys(dbm, i, key);
    var records := dbm.nodes[leaf].records;
    var it := RecordFrom(dbm.rank, records, dbm.rank(key));
    if it < |records| {
      return Cursor(Some(records[it].key), leaf), true, i;
    }
    c, found, j := SetPositionFirst(dbm, dbm.nodes[leaf].next, i + 1);
    if found {
      FirstReaches(dbm, key, c.key.value, i + 1, j);
    }
  }

  /** The keys next to a key, as its leaf and the leaves after it tell. */
  lemma {:induction false} LeafKeys(dbm: BabyDBM, i: nat, key: Bytes)
    requires dbm.Valid() && i < |dbm.leaves| && IsLeafNode(dbm.nodes, dbm.leaves[i])
    requires IsLeafFor(dbm.rank, dbm.spans, dbm.leaves[i], key)
    ensures var rs, r := dbm.nodes[dbm.leaves[i]].records, dbm.rank(key);
            var p, q := RecordFrom(dbm.rank, rs, r), RecordAbove(dbm.rank, rs, r);
            var next := KeyAt(Tail(dbm.nodes, dbm.leaves, i + 1), 0);
            && KeyAt(dbm.Contents(), RecordFrom(dbm.rank, dbm.Contents(), r)) ==
               (if p < |rs| then Some(rs[p].key) else next)
            && KeyAt(dbm.Contents(), RecordAbove(dbm.rank, dbm.Contents(), r)) ==
               (if q < |rs| then Some(rs[q].key) else next)
            && (forall k :: 0 <= k < |rs| ==>
                  CursorOk(dbm.rank, dbm.spans, Cursor(Some(rs[k].key), dbm.leaves[i])))
            && AllBelow(dbm.rank, Head(dbm.nodes, dbm.leaves, i), r)
            && (p < |rs| ==> Reaches(dbm.rank, rs, r))
            && (p == |rs| ==> AllBelow(dbm.rank, Head(dbm.nodes, dbm.leaves, i + 1), r))
  {
    hide BabyDBM.Valid, Tail, Head, BabyDBM.Contents, KeyAt, AllBelow, NoneBelow, Reaches, Inside,
         BabyTree.RecordFrom, BabyTree.RecordAbove;
    var rs, r := dbm.nodes[dbm.leaves[i]].records, dbm.rank(key);
    AtLeaf(dbm, i);
    Divided(dbm, i, r);
    var a, b := Head(dbm.nodes, dbm.leaves, i), Tail(dbm.nodes, dbm.leaves, i + 1);
    KeyInWhole(a, rs, b, RecordFrom(dbm.rank, rs, r));
    KeyInWhole(a, rs, b, RecordAbove(dbm.rank, rs, r));
    HeadStep(dbm.nodes, dbm.leaves, i);
    ReachOrBelow(dbm.rank, a, rs, r);
    forall k | 0 <= k < |rs|
      ensures CursorOk(dbm.rank, dbm.spans, Cursor(Some(rs[k].key), dbm.leaves[i]))
    {
      InsideAt(dbm.rank, rs, dbm.spans[dbm.leaves[i]], k);
    }
  }

  lemma {:induction false} InsideAt(rank: Ranking, rs: seq<Record>, s: Span, k: nat)
    requires Inside(rank, rs, s) && k < |rs|
    ensures Covers(s, rank(rs[k].key))
  {
  }

  lemma {:induction false} ReachOrBelow(rank: Ranking, a: seq<Record>, rs: seq<Record>, r: real)
    requires AllBelow(rank, a, r)
    ensures RecordFrom(rank, rs, r) < |rs| ==> Reaches(rank, rs, r)
    ensures RecordFrom(rank, rs, r) == |rs| ==> AllBelow(rank, a + rs, r)
  {
    var p := RecordFrom(rank, rs, r);
    assert p < |rs| ==> r <= rank(rs[p].key);
  }

  /** Some record lies at or above the rank. */
  predicate Reaches(rank: Ranking, rs: seq<Record>, r: real) {
    exists i :: 0 <= i < |rs| && r <= rank(rs[i].key)
  }

  /** The records around a leaf, and where a rank in its span belongs among them. */
  lemma {:induction false} Divided(dbm: BabyDBM, i: nat, r: real)
    requires dbm.Valid() && i < |dbm.leaves| && IsLeafNode(dbm.nodes, dbm.leaves[i])
    requires dbm.leaves[i] in dbm.spans && Covers(dbm.spans[dbm.leaves[i]], r)
    ensures var rs := dbm.nodes[dbm.leaves[i]].records;
            var a, b := Head(dbm.nodes, dbm.leaves, i), Tail(dbm.nodes, dbm.leaves, i + 1);
            && dbm.Contents() == a + rs + b && AllBelow(dbm.rank, a, r)
            && RecordFrom(dbm.rank, dbm.Contents(), r) == |a| + RecordFrom(dbm.rank, rs, r)
            && RecordAbove(dbm.rank, dbm.Contents(), r) == |a| + RecordAbove(dbm.rank, rs, r)
  {
    hide BabyDBM.Valid, Tail, Head;
    AtLeaf(dbm, i);
    Whole(dbm.nodes, dbm.leaves, i);
    LeafPlaces(dbm.rank, Head(dbm.nodes, dbm.leaves, i), dbm.nodes[dbm.leaves[i]].records,
               Tail(dbm.nodes, dbm.leaves, i + 1), dbm.spans[dbm.leaves[i]].low,
               dbm.spans[dbm.leaves[i]].high, r);
  }

  /** Moves to the first record above a key, whether or not the key has a record. */
  method NextImpl(dbm: BabyDBM, c: Cursor, key: Bytes) returns (c': Cursor)
    requires dbm.Valid() && (c.leaf != 0 ==> IsLeafFor(dbm.rank, dbm.spans, c.leaf, key))
    ensures c'.key == KeyAt(dbm.Contents(), RecordAbove(dbm.rank, dbm.Contents(), dbm.rank(key)))
    ensures CursorOk(dbm.rank, dbm.spans, c') && (c'.key.None? ==> c'.leaf == 0)
  {
    hide BabyDBM.Valid, Tail, Head, BabyDBM.Contents, AllBelow, NoneBelow, Inside, Reaches, CursorOk, KeyAt,
         BabyTree.RecordAbove;
    var leaf, i := FindLeaf(dbm, key, c.leaf);
    AtLeaf(dbm, i);
    LeafKeys(dbm, i, key);
    var records := dbm.nodes[leaf].records;
    var it := RecordAbove(dbm.rank, records, dbm.rank(key));
    if it < |records| {
      return Cursor(Some(records[it].key), leaf);
    }
    ghost var j: nat;
    var hit: bool;
    c', hit, j := SetPositionFirst(dbm, dbm.nodes[leaf].next, i + 1);
    if !hit {
      NowhereOk(dbm.rank, dbm.spans);
      c' := Cursor(None, 0);
    }
  }

  /** Moves to the last record before a key, as far as the leaf has a record at or above the
      key.  When all records of the leaf lie below the key they are passed over. */
  method PreviousImpl(dbm: BabyDBM, leaf: nat, key: Bytes, ghost i: nat) returns (c': Cursor)
    requires dbm.Valid() && i < |dbm.leaves| && leaf == dbm.leaves[i] && IsLeafNode(dbm.nodes, leaf)
    requires AllBelow(dbm.rank, Head(dbm.nodes, dbm.leaves, i), dbm.rank(key))
    ensures var rs := dbm.nodes[leaf].records;
            var it := RecordFrom(dbm.rank, rs, dbm.rank(key));
            var a := Head(dbm.nodes, dbm.leaves, i);
            c'.key == if 0 < it < |rs| then Some(rs[it - 1].key) else KeyAt(a, |a| - 1)
    ensures CursorOk(dbm.rank, dbm.spans, c') && (c'.key.None? ==> c'.leaf == 0)
  {
    hide BabyDBM.Valid, Tail, Head;
    AtLeaf(dbm, i);
    var records := dbm.nodes[leaf].records;
    var it := RecordFrom(dbm.rank, records, dbm.rank(key));
    if it < |records| {
      if it != 0 {
        it := it - 1;
        return Cursor(Some(records[it].key), leaf);
      }
    }
    var hit: bool;
    c', hit := SetPositionLast(dbm, dbm.nodes[leaf].prev, i);
    if !hit {
      c' := Cursor(None, 0);
    }
  }

  /** No other iterator has changed. */
  ghost predicate OnlyMoved(cs: seq<Cursor>, cs': seq<Cursor>, it: nat) {
    it < |cs| && it < |cs'| && cs' == cs[it := cs'[it]]
  }

  /** Puts an iterator somewhere. */
  method SetCursor(dbm: BabyDBM, it: nat, c: Cursor)
    requires dbm.Valid() && it < |dbm.cursors| && CursorOk(dbm.rank, dbm.spans, c)
    modifies dbm`cursors
    ensures dbm.Valid() && dbm.cursors == old(dbm.cursors)[it := c]
  {
    hide TreeOk, ListOk, Gather, QueueOk, Branchy, CursorOk;
    dbm.cursors := dbm.cursors[it := c];
  }

  /** Registers a new iterator, which has no position yet. */
  method MakeIterator(dbm: BabyDBM) returns (it: nat)
    requires dbm.Valid()
    modifies dbm`cursors
    ensures dbm.Valid() && it == |old(dbm.cursors)| && dbm.cursors == old(dbm.cursors) + [Cursor(None, 0)]
  {
    hide TreeOk, ListOk, Gather, QueueOk, Branchy;
    it := |dbm.cursors|;
    dbm.cursors := dbm.cursors + [Cursor(None, 0)];
  }

  method First(dbm: BabyDBM, it: nat)
    requires dbm.Valid() && it < |dbm.cursors|
    modifies dbm`cursors
    ensures OnlyMoved(old(dbm.cursors), dbm.cursors, it) && dbm.Valid()
    ensures dbm.cursors[it].key == KeyAt(dbm.Contents(), 0)
    ensures LeastKey(dbm.rank, dbm.Contents(), 0.0, false, dbm.cursors[it].key)
  {
    hide BabyDBM.Valid, Tail, BabyDBM.Contents, LeastKey, Sorted;
    Ends(dbm);
    ContentsSorted(dbm);
    EndKeys(dbm.rank, dbm.Contents());
    var c, hit, j := SetPositionFirst(dbm, dbm.first, 0);
    SetCursor(dbm, it, c);
  }

  method Last(dbm: BabyDBM, it: nat)
    requires dbm.Valid() && it < |dbm.cursors|
    modifies dbm`cursors
    ensures OnlyMoved(old(dbm.cursors), dbm.cursors, it) && dbm.Valid()
    ensures dbm.cursors[it].key == KeyAt(dbm.Contents(), |dbm.Contents()| - 1)
    ensures GreatestKey(dbm.rank, dbm.Contents(), 1.0, false, dbm.cursors[it].key)
  {
    hide BabyDBM.Valid, Head, BabyDBM.Contents, GreatestKey, Sorted;
    Ends(dbm);
    ContentsSorted(dbm);
    EndKeys(dbm.rank, dbm.Contents());
    var c, hit := SetPositionLast(dbm, dbm.last, |dbm.leaves|);
    SetCursor(dbm, it, c);
  }

  lemma {:induction false} EndKeys(rank: Ranking, cs: seq<Record>)
    requires Sorted(rank, cs)
    ensures LeastKey(rank, cs, 0.0, false, KeyAt(cs, 0))
    ensures GreatestKey(rank, cs, 1.0, false, KeyAt(cs, |cs| - 1))
  {
    hide LeastKey, GreatestKey, Sorted;
    FromIs(rank, cs, 0.0, 0);
    AboveIs(rank, cs, 1.0, |cs|);
    LeastAt(rank, cs, 0.0, false);
    GreatestAt(rank, cs, 1.0, false);
  }

  lemma {:induction false} Ends(dbm: BabyDBM)
    requires dbm.Valid()
    ensures |dbm.leaves| > 0 && dbm.first == dbm.leaves[0] && dbm.last == dbm.leaves[|dbm.leaves| - 1]
    ensures dbm.Contents() == Tail(dbm.nodes, dbm.leaves, 0) == Head(dbm.nodes, dbm.leaves, |dbm.leaves|)
  {
    hide TreeOk, Gather, QueueOk, Branchy, CursorsOk, Tiling, AllLeaves;
    assert LeafAt(dbm.nodes, dbm.leaves, 0);
    Whole(dbm.nodes, dbm.leaves, 0);
  }

  /** Next moves to the least key above the iterator's, even if its record is gone. */
  method Next(dbm: BabyDBM, it: nat) returns (ok: bool)
    requires dbm.Valid() && it < |dbm.cursors|
    modifies dbm`cursors
    ensures OnlyMoved(old(dbm.cursors), dbm.cursors, it) && dbm.Valid()
    ensures ok == old(dbm.cursors[it].key).Some?
    ensures !ok ==> dbm.cursors == old(dbm.cursors)
    ensures ok ==>
              var r := dbm.rank(old(dbm.cursors[it].key).value);
              dbm.cursors[it].key == KeyAt(dbm.Contents(), RecordAbove(dbm.rank, dbm.Contents(), r))
    ensures ok ==>
              LeastKey(dbm.rank, dbm.Contents(), dbm.rank(old(dbm.cursors[it].key).value), true, dbm.cursors[it].key)
  {
    hide BabyDBM.Valid, BabyDBM.Contents, LeastKey, Sorted;
    var c := dbm.cursors[it];
    ContentsSorted(dbm);
    if c.key.Some? {
      LeastAt(dbm.rank, dbm.Contents(), dbm.rank(c.key.value), true);
    }
    Registered(dbm, it);
    if c.key.None? {
      return false;
    }
    var c' := NextImpl(dbm, c, c.key.value);
    SetCursor(dbm, it, c');
    return true;
  }

  lemma {:induction false} Registered(dbm: BabyDBM, it: nat)
    requires dbm.Valid() && it < |dbm.cursors|
    ensures CursorOk(dbm.rank, dbm.spans, dbm.cursors[it])
  {
    hide TreeOk, ListOk, Gather, QueueOk, Branchy;
  }

  /** One step back from a key, exact when its leaf is empty or reaches the key. */
  method StepPrevious(dbm: BabyDBM, c: Cursor) returns (c': Cursor, ghost leaf: nat)
    requires dbm.Valid() && CursorOk(dbm.rank, dbm.spans, c) && c.key.Some?
    ensures CursorOk(dbm.rank, dbm.spans, c')
    ensures IsLeafFor(dbm.rank, dbm.spans, leaf, c.key.value) && IsLeafNode(dbm.nodes, leaf)
    ensures ExactIff(dbm.rank, dbm.Contents(), dbm.nodes[leaf].records, c.key.value, c'.key)
    ensures dbm.nodes[leaf].records != [] && !Reaches(dbm.rank, dbm.nodes[leaf].records, dbm.rank(c.key.value)) ==>
              c'.key == KeyAt(dbm.Contents(), RecordFrom(dbm.rank, dbm.Contents(), dbm.spans[leaf].low) - 1)
  {
    hide BabyDBM.Valid, BabyDBM.Contents, Head, Tail, ExactIff, RecordFrom, KeyAt, AllBelow;
    var key := c.key.value;
    var node, i := FindLeaf(dbm, key, c.leaf);
    StepBackIs(dbm, i, key);
    c' := PreviousImpl(dbm, node, key, i);
    leaf := node;
  }

  /** A step back from a leaf whose records all lie below the key passes them over. */
  lemma {:induction false} SkipsTo(dbm: BabyDBM, i: nat, key: Bytes)
    requires dbm.Valid() && i < |dbm.leaves| && IsLeafFor(dbm.rank, dbm.spans, dbm.leaves[i], key)
    requires IsLeafNode(dbm.nodes, dbm.leaves[i])
    ensures var rs := dbm.nodes[dbm.leaves[i]].records;
            var a := Head(dbm.nodes, dbm.leaves, i);
            && KeyAt(a, |a| - 1) ==
               KeyAt(dbm.Contents(), RecordFrom(dbm.rank, dbm.Contents(), dbm.spans[dbm.leaves[i]].low) - 1)
            && (!Reaches(dbm.rank, rs, dbm.rank(key)) ==> RecordFrom(dbm.rank, rs, dbm.rank(key)) == |rs|)
  {
    hide BabyDBM.Valid, BabyDBM.Contents, Head, Tail, RecordFrom, RecordAbove;
    var rs, low := dbm.nodes[dbm.leaves[i]].records, dbm.spans[dbm.leaves[i]].low;
    AtLeaf(dbm, i);
    Divided(dbm, i, low);
    InsideFrom(dbm.rank, rs, dbm.spans[dbm.leaves[i]]);
    FromBounds(dbm.rank, rs, dbm.rank(key));
    var a, b := Head(dbm.nodes, dbm.leaves, i), Tail(dbm.nodes, dbm.leaves, i + 1);
    assert a != [] ==> (a + rs + b)[|a| - 1] == a[|a| - 1];
  }

  lemma {:induction false} InsideFrom(rank: Ranking, rs: seq<Record>, s: Span)
    requires Inside(rank, rs, s)
    ensures RecordFrom(rank, rs, s.low) == 0
  {
    if rs != [] {
      InsideAt(rank, rs, s, 0);
    }
  }

  /** Where a step back from a leaf leads. */
  lemma {:induction false} StepBackIs(dbm: BabyDBM, i: nat, key: Bytes)
    requires dbm.Valid() && i < |dbm.leaves| && IsLeafFor(dbm.rank, dbm.spans, dbm.leaves[i], key)
    ensures IsLeafNode(dbm.nodes, dbm.leaves[i])
    ensures AllBelow(dbm.rank, Head(dbm.nodes, dbm.leaves, i), dbm.rank(key))
    ensures var rs := dbm.nodes[dbm.leaves[i]].records;
            var it := RecordFrom(dbm.rank, rs, dbm.rank(key));
            var a := Head(dbm.nodes, dbm.leaves, i);
            var reached := if 0 < it < |rs| then Some(rs[it - 1].key) else KeyAt(a, |a| - 1);
            && ExactIff(dbm.rank, dbm.Contents(), rs, key, reached)
            && (rs != [] && !Reaches(dbm.rank, rs, dbm.rank(key)) ==>
                  var low := dbm.spans[dbm.leaves[i]].low;
                  reached == KeyAt(dbm.Contents(), RecordFrom(dbm.rank, dbm.Contents(), low) - 1))
  {
    hide BabyDBM.Valid, BabyDBM.Contents, Head, Tail, KeyAt, Reaches, RecordFrom, RecordAbove;
    var leaf := dbm.leaves[i];
    AtLeaf(dbm, i);
    SkipsTo(dbm, i, key);
    Divided(dbm, i, dbm.rank(key));
    PreviousExact(dbm.rank, Head(dbm.nodes, dbm.leaves, i), dbm.nodes[leaf].records,
                  Tail(dbm.nodes, dbm.leaves, i + 1), dbm.spans[leaf], dbm.rank(key));
  }

  /** The key reached is the exact predecessor if and only if the leaf's records are none or
      reach the rank. */
  ghost predicate ExactIff(rank: Ranking, cs: seq<Record>, rs: seq<Record>, key: Bytes, reached: Option<Bytes>) {
    reached == KeyAt(cs, RecordFrom(rank, cs, rank(key)) - 1) <==> rs == [] || Reaches(rank, rs, rank(key))
  }

  /** Previous moves to the greatest key below the iterator's exactly when the leaf of that key
      is empty or still has a record at or above it. */
  method Previous(dbm: BabyDBM, it: nat) returns (ok: bool, ghost leaf: nat)
    requires dbm.Valid() && it < |dbm.cursors|
    modifies dbm`cursors
    ensures OnlyMoved(old(dbm.cursors), dbm.cursors, it) && dbm.Valid()
    ensures ok == old(dbm.cursors[it].key).Some?
    ensures !ok ==> dbm.cursors == old(dbm.cursors)
    ensures ok ==>
              var key := old(dbm.cursors[it].key).value;
              && IsLeafFor(dbm.rank, dbm.spans, leaf, key) && IsLeafNode(dbm.nodes, leaf)
              && (GreatestKey(dbm.rank, dbm.Contents(), dbm.rank(key), true, dbm.cursors[it].key) <==>
                  dbm.nodes[leaf].records == [] || Reaches(dbm.rank, dbm.nodes[leaf].records, dbm.rank(key)))
              && (dbm.nodes[leaf].records != [] && !Reaches(dbm.rank, dbm.nodes[leaf].records, dbm.rank(key)) ==>
                    GreatestKey(dbm.rank, dbm.Contents(), dbm.spans[leaf].low, true, dbm.cursors[it].key))
  {
    hide BabyDBM.Valid, BabyDBM.Contents, ExactIff, GreatestKey, Sorted, Reaches;
    var c := dbm.cursors[it];
    ContentsSorted(dbm);
    Registered(dbm, it);
    if c.key.None? {
      return false, 0;
    }
    var c', node := StepPrevious(dbm, c);
    ExactMeans(dbm.rank, dbm.Contents(), dbm.nodes[node].records, c.key.value, c'.key);
    GreatestAt(dbm.rank, dbm.Contents(), dbm.spans[node].low, true);
    SetCursor(dbm, it, c');
    return true, node;
  }

  lemma {:induction false} ExactMeans(rank: Ranking, cs: seq<Record>, rs: seq<Record>, key: Bytes,
                                      reached: Option<Bytes>)
    requires Sorted(rank, cs) && ExactIff(rank, cs, rs, key, reached)
    ensures GreatestKey(rank, cs, rank(key), true, reached) <==> rs == [] || Reaches(rank, rs, rank(key))
  {
    hide GreatestKey, Sorted, Reaches, KeyAt, RecordFrom;
    var exact := KeyAt(cs, RecordFrom(rank, cs, rank(key)) - 1);
    GreatestAt(rank, cs, rank(key), true);
    if GreatestKey(rank, cs, rank(key), true, reached) {
      GreatestOnly(rank, cs, rank(key), true, reached, exact);
    }
  }

  /** When the step back from a leaf is the exact predecessor. */
  lemma {:induction false} PreviousExact(rank: Ranking, a: seq<Record>, rs: seq<Record>, b: seq<Record>, s: Span,
                                         r: real)
    requires Covers(s, r) && AllBelow(rank, a, s.low) && NoneBelow(rank, b, s.high) && Inside(rank, rs, s)
    ensures var p := RecordFrom(rank, rs, r);
            var key := if 0 < p < |rs| then Some(rs[p - 1].key) else KeyAt(a, |a| - 1);
            key == KeyAt(a + rs + b, |a| + p - 1) <==> rs == [] || Reaches(rank, rs, r)
  {
    var p := RecordFrom(rank, rs, r);
    if p < |rs| {
      assert r <= rank(rs[p].key);
    }
    if 0 < p {
      assert (a + rs + b)[|a| + p - 1] == rs[p - 1];
      assert Covers(s, rank(rs[p - 1].key));
      assert a != [] ==> rank(a[|a| - 1].key) < s.low;
    }
  }

  /** A single record is the whole of its dictionary. */
  lemma {:induction false} OneRecord(rank: Ranking, rs: seq<Record>, rec: Record)
    requires Sorted(rank, rs) && Dict(rank, rs) == map[rank(rec.key) as real := rec]
    ensures rs == [rec]
  {
    hide Dict;
    DictSize(rank, rs);
    HitIsIn(rank, rs, rank(rec.key));
  }

  /** A database with one record has one leaf. */
  lemma {:induction false} LoneLeaf(dbm: BabyDBM, leaf: nat, key: Bytes)
    requires dbm.Valid() && dbm.Sequential() && |dbm.Contents()| == 1
    requires IsLeafFor(dbm.rank, dbm.spans, leaf, key)
    ensures IsLeafNode(dbm.nodes, leaf) && dbm.nodes[leaf].records == dbm.Contents()
  {
    hide TreeOk, ListOk, Gather, QueueOk, Branchy, CursorsOk, Filled, Alone;
    var i := LeafIndex(dbm.nodes, dbm.spans, dbm.leaves, dbm.first, dbm.last, leaf);
    AtLeaf(dbm, i);
    Whole(dbm.nodes, dbm.leaves, i);
    CrowdedBelow(dbm, leaf);
    RootAlone(dbm, i);
  }

  lemma {:induction false} CrowdedBelow(dbm: BabyDBM, leaf: nat)
    requires dbm.Sequential() && leaf in dbm.spans && dbm.spans[leaf].height == 1
    ensures leaf != dbm.root ==> IsLeafNode(dbm.nodes, leaf) && |dbm.nodes[leaf].records| >= 127
  {
    if leaf != dbm.root {
      dbm.NeverBare(leaf);
    }
  }

  lemma {:induction false} RootAlone(dbm: BabyDBM, i: nat)
    requires dbm.Valid() && i < |dbm.leaves| && dbm.leaves[i] == dbm.root
    ensures Head(dbm.nodes, dbm.leaves, i) == [] == Tail(dbm.nodes, dbm.leaves, i + 1)
  {
    hide TreeOk, QueueOk, Branchy, CursorsOk;
    SpanFacts(dbm.rank, dbm.nodes, dbm.spans, dbm.root, dbm.level);
    DistinctLeaves(dbm.spans, dbm.leaves);
    forall j | 0 <= j < |dbm.leaves|
      ensures dbm.leaves[j] == dbm.root
    {
      OnlyLeaf(dbm.rank, dbm.nodes, dbm.spans, dbm.root, dbm.level, dbm.leaves[j]);
    }
    assert dbm.leaves == [dbm.root];
  }

  /** An iterator whose record has been removed: an operation on an empty database, an iterator
      on its record, a record below it, and the removal. */
  method RemovedUnder(rank: Ranking, a: Bytes, b: Bytes, value: Bytes) returns (dbm: BabyDBM)
    requires rank(a) < rank(b)
    ensures fresh(dbm) && dbm.rank == rank && dbm.Valid() && dbm.Sequential()
    ensures dbm.Contents() == [Record(a, value)]
    ensures |dbm.cursors| == 1 && dbm.cursors[0].key == Some(b)
  {
    hide BabyDBM.Valid, BabyDBM.Sequential, BabyDBM.Contents, Sorted;
    dbm := new BabyDBM(rank);
    var _, _ := dbm.Process(b, Processor(_ => Put(value), Put(value)), true);
    ContentsSorted(dbm);
    OneRecord(rank, dbm.Contents(), Record(b, value));
    var it := MakeIterator(dbm);
    First(dbm, it);
    var _, _ := dbm.Process(a, Processor(_ => Put(value), Put(value)), true);
    var _, _ := dbm.Process(b, Processor(_ => Remove, Noop), true);
    ContentsSorted(dbm);
    assert dbm.Dictionary() == map[rank(a) as real := Record(a, value)];
    OneRecord(rank, dbm.Contents(), Record(a, value));
  }

  /** From there the step back misses the record below, which is still there. */
  method PreviousSkips(rank: Ranking, a: Bytes, b: Bytes, value: Bytes) returns (dbm: BabyDBM)
    requires rank(a) < rank(b)
    ensures fresh(dbm) && dbm.rank == rank && dbm.Valid()
    ensures dbm.Contents() == [Record(a, value)]
    ensures |dbm.cursors| == 1 && dbm.cursors[0].key != Some(a)
  {
    hide BabyDBM.Valid, BabyDBM.Sequential, BabyDBM.Contents;
    dbm := RemovedUnder(rank, a, b, value);
    var ok, leaf := Previous(dbm, 0);
    LoneLeaf(dbm, leaf, b);
    FromIs(rank, [Record(a, value)], rank(b), 1);
  }

  /** An iterator whose record is still there steps back exactly. */
  lemma {:induction false} OwnRecordReaches(rank: Ranking, rs: seq<Record>, key: Bytes)
    requires exists i :: 0 <= i < |rs| && rs[i].key == key
    ensures Reaches(rank, rs, rank(key))
  {
    var i :| 0 <= i < |rs| && rs[i].key == key;
    assert rank(key) <= rank(rs[i].key);
  }

  lemma {:induction false} FirstReaches(dbm: BabyDBM, key: Bytes, k: Bytes, i: nat, j: nat)
    requires dbm.Valid() && 0 < i <= j < |dbm.leaves| && IsLeafNode(dbm.nodes, dbm.leaves[j])
    requires IsLeafFor(dbm.rank, dbm.spans, dbm.leaves[i - 1], key)
    requires KeyAt(dbm.nodes[dbm.leaves[j]].records, 0) == Some(k)
    ensures Reaches(dbm.rank, dbm.nodes[dbm.leaves[j]].records, dbm.rank(key))
  {
    hide TreeOk, Gather, QueueOk, Branchy, CursorsOk, Tiling, AllLeaves, Threaded;
    SpanFacts(dbm.rank, dbm.nodes, dbm.spans, dbm.root, dbm.level);
    CutsRise(dbm.spans, dbm.leaves, i - 1, j);
    AtLeaf(dbm, j);
    assert Covers(dbm.spans[dbm.leaves[j]], dbm.rank(k));
    assert dbm.rank(key) <= dbm.rank(dbm.nodes[dbm.leaves[j]].records[0].key);
  }

  /** Whether a rank lies above another, or at it unless that is excluded. */
  predicate Beyond(r: real, low: real, strict: bool) {
    low < r || (!strict && low == r)
  }

  /** The key reached is the least of all beyond a rank, or nothing if there is none. */
  ghost predicate LeastKey(rank: Ranking, cs: seq<Record>, low: real, strict: bool, reached: Option<Bytes>) {
    match reached
    case None => forall i :: 0 <= i < |cs| ==> !Beyond(rank(cs[i].key), low, strict)
    case Some(key) =>
      && (exists i :: 0 <= i < |cs| && cs[i].key == key) && Beyond(rank(key), low, strict)
      && forall i :: 0 <= i < |cs| && Beyond(rank(cs[i].key), low, strict) ==> rank(key) <= rank(cs[i].key)
  }

  /** The key reached is the greatest of all short of a rank, or nothing if there is none. */
  ghost predicate GreatestKey(rank: Ranking, cs: seq<Record>, high: real, strict: bool, reached: Option<Bytes>) {
    match reached
    case None => forall i :: 0 <= i < |cs| ==> !Beyond(high, rank(cs[i].key), strict)
    case Some(key) =>
      && (exists i :: 0 <= i < |cs| && cs[i].key == key) && Beyond(high, rank(key), strict)
      && forall i :: 0 <= i < |cs| && Beyond(high, rank(cs[i].key), strict) ==> rank(cs[i].key) <= rank(key)
  }

  lemma {:induction false} LeastAt(rank: Ranking, cs: seq<Record>, low: real, strict: bool)
    requires Sorted(rank, cs)
    ensures LeastKey(rank, cs, low, strict,
                     KeyAt(cs, if strict then RecordAbove(rank, cs, low) else RecordFrom(rank, cs, low)))
  {
    hide RecordFrom, RecordAbove;
    FromBounds(rank, cs, low);
    var p := if strict then RecordAbove(rank, cs, low) else RecordFrom(rank, cs, low);
    forall i | p <= i < |cs|
      ensures rank(cs[p].key) <= rank(cs[i].key)
    {
      assert p < i ==> rank(cs[p].key) < rank(cs[i].key);
    }
  }

  lemma {:induction false} GreatestAt(rank: Ranking, cs: seq<Record>, high: real, strict: bool)
    requires Sorted(rank, cs)
    ensures GreatestKey(rank, cs, high, strict,
                        KeyAt(cs, (if strict then RecordFrom(rank, cs, high) else RecordAbove(rank, cs, high)) - 1))
  {
    hide RecordFrom, RecordAbove;
    FromBounds(rank, cs, high);
    var p := if strict then RecordFrom(rank, cs, high) else RecordAbove(rank, cs, high);
    if p > 0 {
      assert cs[p - 1].key == cs[p - 1].key;
    }
    forall i | 0 <= i < |cs| && Beyond(high, rank(cs[i].key), strict)
      ensures i < p && rank(cs[i].key) <= rank(cs[p - 1].key)
    {
      Sides(rank, cs, high, i);
      assert i < p - 1 ==> rank(cs[i].key) < rank(cs[p - 1].key);
    }
  }

  /** On which side of a rank a record lies. */
  lemma {:induction false} Sides(rank: Ranking, cs: seq<Record>, r: real, i: nat)
    requires Sorted(rank, cs) && i < |cs|
    ensures rank(cs[i].key) < r <==> i < RecordFrom(rank, cs, r)
    ensures rank(cs[i].key) <= r <==> i < RecordAbove(rank, cs, r)
  {
    hide RecordFrom, RecordAbove;
    FromBounds(rank, cs, r);
  }

  lemma {:induction false} SameRankSame(rank: Ranking, cs: seq<Record>, i: nat, j: nat)
    requires Sorted(rank, cs) && i < |cs| && j < |cs| && rank(cs[i].key) == rank(cs[j].key)
    ensures i == j
  {
  }

  lemma {:induction false} FromBounds(rank: Ranking, cs: seq<Record>, r: real)
    ensures var p := RecordFrom(rank, cs, r);
            p <= |cs| && (forall i :: 0 <= i < p ==> rank(cs[i].key) < r) && (p < |cs| ==> r <= rank(cs[p].key))
    ensures var p := RecordAbove(rank, cs, r);
            p <= |cs| && (forall i :: 0 <= i < p ==> rank(cs[i].key) <= r) && (p < |cs| ==> r < rank(cs[p].key))
  {
  }

  /** There is only one such key. */
  lemma {:induction false} GreatestOnly(rank: Ranking, cs: seq<Record>, high: real, strict: bool, a: Option<Bytes>,
                                        b: Option<Bytes>)
    requires Sorted(rank, cs) && GreatestKey(rank, cs, high, strict, a) && GreatestKey(rank, cs, high, strict, b)
    ensures a == b
  {
    if a.Some? && b.Some? {
      var i :| 0 <= i < |cs| && cs[i].key == a.value;
      var j :| 0 <= j < |cs| && cs[j].key == b.value;
      SameRankSame(rank, cs, i, j);
    }
  }

  /** The key that JumpLower asks for. */
  function LowerKey(rank: Ranking, cs: seq<Record>, r: real, inclusive: bool): Option<Bytes> {
    KeyAt(cs, (if inclusive then RecordAbove(rank, cs, r) else RecordFrom(rank, cs, r)) - 1)
  }

  /** The key that JumpUpper asks for. */
  function UpperKey(rank: Ranking, cs: seq<Record>, r: real, inclusive: bool): Option<Bytes> {
    KeyAt(cs, if inclusive then RecordFrom(rank, cs, r) else RecordAbove(rank, cs, r))
  }

  /** Where the bounds of a rank lie with respect to each other. */
  lemma {:induction false} BoundsAgree(rank: Ranking, cs: seq<Record>, r: real)
    requires Sorted(rank, cs)
    ensures var p := RecordFrom(rank, cs, r);
            RecordAbove(rank, cs, r) == if p < |cs| && rank(cs[p].key) == r then p + 1 else p
  {
    var p := RecordFrom(rank, cs, r);
    AboveIs(rank, cs, r, if p < |cs| && rank(cs[p].key) == r then p + 1 else p);
  }

  lemma {:induction false} LowerIs(rank: Ranking, cs: seq<Record>, r: real, inclusive: bool)
    requires Sorted(rank, cs)
    ensures var p := RecordFrom(rank, cs, r);
            LowerKey(rank, cs, r, inclusive) ==
            if inclusive && Hit(rank, cs, p, r) then Some(cs[p].key) else KeyAt(cs, p - 1)
  {
    hide Sorted;
    BoundsAgree(rank, cs, r);
  }

  lemma {:induction false} ContentsSorted(dbm: BabyDBM)
    requires dbm.Valid()
    ensures Sorted(dbm.rank, dbm.Contents())
  {
    hide TreeOk, ListOk, Gather, QueueOk, Branchy, CursorsOk, Sorted;
    TreeLeavesOk(dbm.rank, dbm.nodes, dbm.spans, dbm.root, dbm.level, dbm.leaves, dbm.first, dbm.last);
    GatherSorted(dbm.rank, dbm.nodes, dbm.spans, dbm.leaves);
  }

  /** The leaf that holds the first record at or above a rank. */
  ghost predicate HoldsFirst(dbm: BabyDBM, leaf: nat, j: nat, r: real)
    reads dbm
  {
    && j < |dbm.leaves| && leaf == dbm.leaves[j] && IsLeafNode(dbm.nodes, leaf)
    && AllBelow(dbm.rank, Head(dbm.nodes, dbm.leaves, j), r) && Reaches(dbm.rank, dbm.nodes[leaf].records, r)
  }

  /** From the first record at or above a key, to the one before it. */
  method StepBackFrom(dbm: BabyDBM, leaf: nat, key: Bytes, ghost j: nat) returns (c: Cursor)
    requires dbm.Valid() && HoldsFirst(dbm, leaf, j, dbm.rank(key))
    ensures c.key == KeyAt(dbm.Contents(), RecordFrom(dbm.rank, dbm.Contents(), dbm.rank(key)) - 1)
    ensures CursorOk(dbm.rank, dbm.spans, c)
  {
    hide BabyDBM.Valid, BabyDBM.Contents, Head, Tail, AllBelow, Reaches;
    StepBack(dbm, j, dbm.rank(key));
    c := PreviousImpl(dbm, leaf, key, j);
  }

  /** Finds the greatest key below a key, or not above it. */
  method FindLower(dbm: BabyDBM, key: Bytes, inclusive: bool) returns (c: Cursor)
    requires dbm.Valid()
    ensures c.key == LowerKey(dbm.rank, dbm.Contents(), dbm.rank(key), inclusive)
    ensures CursorOk(dbm.rank, dbm.spans, c)
  {
    hide BabyDBM.Valid, BabyDBM.Contents, Head, Tail, Sorted, HoldsFirst, CursorOk, LowerKey, BabyTree.RecordFrom;
    var rank, r := dbm.rank, dbm.rank(key);
    ghost var cs := dbm.Contents();
    ghost var p: int := RecordFrom(rank, cs, r);
    ContentsSorted(dbm);
    LowerIs(rank, cs, r, inclusive);
    Ends(dbm);
    var found: bool;
    ghost var j: nat;
    c, found, j := SyncPosition(dbm, key, 0);
    ghost var above := found;
    if !found {
      var hit: bool;
      c, hit := SetPositionLast(dbm, dbm.last, |dbm.leaves|);
      if !hit {
        NowhereOk(dbm.rank, dbm.spans);
        return Cursor(None, 0);
      }
    }
    while c.key.Some?
      invariant CursorOk(rank, dbm.spans, c)
      invariant c.key == KeyAt(cs, if above then p else p - 1)
      invariant above ==> HoldsFirst(dbm, c.leaf, j, r)
      invariant !above && inclusive ==> !Hit(rank, cs, p, r)
      decreases above
    {
      var recKey := c.key.value;
      if rank(recKey) < r || (inclusive && rank(recKey) == r) {
        return;
      }
      c := StepBackFrom(dbm, c.leaf, key, j);
      above := false;
    }
    NowhereOk(dbm.rank, dbm.spans);
    c := Cursor(None, 0);
  }

  lemma {:induction false} NowhereOk(rank: Ranking, spans: Spans)
    ensures CursorOk(rank, spans, Cursor(None, 0))
  {
  }

  /** Moves to the greatest key below a key, or not above it, or to nothing. */
  method JumpLower(dbm: BabyDBM, it: nat, key: Bytes, inclusive: bool)
    requires dbm.Valid() && it < |dbm.cursors|
    modifies dbm`cursors
    ensures OnlyMoved(old(dbm.cursors), dbm.cursors, it) && dbm.Valid()
    ensures dbm.cursors[it].key == LowerKey(dbm.rank, dbm.Contents(), dbm.rank(key), inclusive)
    ensures GreatestKey(dbm.rank, dbm.Contents(), dbm.rank(key), !inclusive, dbm.cursors[it].key)
  {
    hide BabyDBM.Valid, BabyDBM.Contents, GreatestKey, Sorted;
    ContentsSorted(dbm);
    GreatestAt(dbm.rank, dbm.Contents(), dbm.rank(key), !inclusive);
    var c := FindLower(dbm, key, inclusive);
    SetCursor(dbm, it, c);
  }

  /** From the leaf of the first record at or above a rank, one step back is exact. */
  lemma {:induction false} StepBack(dbm: BabyDBM, j: nat, r: real)
    requires dbm.Valid() && j < |dbm.leaves| && IsLeafNode(dbm.nodes, dbm.leaves[j])
    requires AllBelow(dbm.rank, Head(dbm.nodes, dbm.leaves, j), r)
    requires Reaches(dbm.rank, dbm.nodes[dbm.leaves[j]].records, r)
    ensures var rs := dbm.nodes[dbm.leaves[j]].records;
            var p := RecordFrom(dbm.rank, rs, r);
            var a := Head(dbm.nodes, dbm.leaves, j);
            (if 0 < p < |rs| then Some(rs[p - 1].key) else KeyAt(a, |a| - 1)) ==
            KeyAt(dbm.Contents(), RecordFrom(dbm.rank, dbm.Contents(), r) - 1)
  {
    hide BabyDBM.Valid, Head, Tail, Reaches, AllBelow, RecordFrom, Gather;
    Whole(dbm.nodes, dbm.leaves, j);
    var rs := dbm.nodes[dbm.leaves[j]].records;
    var a, b := Head(dbm.nodes, dbm.leaves, j), Tail(dbm.nodes, dbm.leaves, j + 1);
    var p := RecordFrom(dbm.rank, rs, r);
    FromPlace(dbm.rank, a, rs, b, r);
    ReachesWithin(dbm.rank, rs, r);
    if 0 < p {
      assert (a + rs + b)[|a| + p - 1] == rs[p - 1];
    }
  }

  lemma {:induction false} ReachesWithin(rank: Ranking, rs: seq<Record>, r: real)
    requires Reaches(rank, rs, r)
    ensures RecordFrom(rank, rs, r) < |rs|
  {
  }

  /** Finds the least key above a key, or not below it. */
  method FindUpper(dbm: BabyDBM, key: Bytes, inclusive: bool) returns (c: Cursor)
    requires dbm.Valid()
    ensures c.key == UpperKey(dbm.rank, dbm.Contents(), dbm.rank(key), inclusive)
    ensures CursorOk(dbm.rank, dbm.spans, c)
  {
    hide BabyDBM.Valid, BabyDBM.Contents, Head, Tail, Sorted;
    var rank, r := dbm.rank, dbm.rank(key);
    ghost var cs := dbm.Contents();
    ContentsSorted(dbm);
    BoundsAgree(rank, cs, r);
    var found: bool;
    ghost var j: nat;
    c, found, j := SyncPosition(dbm, key, 0);
    if !found {
      return Cursor(None, 0);
    }
    ghost var synced := true;
    while c.key.Some?
      invariant CursorOk(rank, dbm.spans, c)
      invariant synced ==> c.key == KeyAt(cs, RecordFrom(rank, cs, r))
      invariant !synced ==> !inclusive && c.key == KeyAt(cs, RecordAbove(rank, cs, r))
      decreases synced
    {
      var recKey := c.key.value;
      if rank(recKey) > r || (inclusive && rank(recKey) == r) {
        return;
      }
      c := NextImpl(dbm, c, key);
      synced := false;
    }
    c := Cursor(None, 0);
  }

  /** Moves to the least key above a key, or not below it, or to nothing. */
  method JumpUpper(dbm: BabyDBM, it: nat, key: Bytes, inclusive: bool)
    requires dbm.Valid() && it < |dbm.cursors|
    modifies dbm`cursors
    ensures OnlyMoved(old(dbm.cursors), dbm.cursors, it) && dbm.Valid()
    ensures dbm.cursors[it].key == UpperKey(dbm.rank, dbm.Contents(), dbm.rank(key), inclusive)
    ensures LeastKey(dbm.rank, dbm.Contents(), dbm.rank(key), !inclusive, dbm.cursors[it].key)
  {
    hide BabyDBM.Valid, BabyDBM.Contents, LeastKey, Sorted;
    ContentsSorted(dbm);
    LeastAt(dbm.rank, dbm.Contents(), dbm.rank(key), !inclusive);
    var c := FindUpper(dbm, key, inclusive);
    SetCursor(dbm, it, c);
  }

  /** Processes the first record at or above the iterator's key. */
  method ProcessHere(dbm: BabyDBM, it: nat, proc: Processor, writable: bool)
    returns (ok: bool, seen: Option<Bytes>, answer: Action)
    requires dbm.Valid() && dbm.Sequential() && it < |dbm.cursors|
    modifies dbm
    ensures dbm.Valid() && dbm.Sequential()
    ensures old(dbm.cursors[it].key).None? ==> !ok
    ensures !ok ==> seen == None && answer == Noop && dbm.Dictionary() == old(dbm.Dictionary())
    ensures old(dbm.cursors[it].key).Some? ==>
              var cs := old(dbm.Contents());
              var p := RecordFrom(dbm.rank, cs, dbm.rank(old(dbm.cursors[it].key).value));
              && |dbm.cursors| == |old(dbm.cursors)| && dbm.cursors[it].key == KeyAt(cs, p)
              && ok == (p < |cs|)
              && (ok ==> RecordProcessed(dbm.rank, old(dbm.Dictionary()), dbm.Dictionary(), cs[p], proc, writable,
                                         seen, answer))
  {
    hide BabyDBM.Valid, BabyDBM.Contents, Dict, BabyDBM.Sequential, RecordProcessed, RecordFrom, KeyAt;
    seen, answer := None, Noop;
    if writable && dbm.queue != {} {
      dbm.ReorganizeTree();
    }
    if dbm.cursors[it].key.None? {
      return false, None, Noop;
    }
    var c, found, p := Resume(dbm, it);
    if !found {
      return false, None, Noop;
    }
    seen, answer := ProcessStored(dbm, c.leaf, c.key.value, proc, writable, p);
    ok := true;
  }

  /** Moves an iterator to the first record at or above its key. */
  method Resume(dbm: BabyDBM, it: nat) returns (c: Cursor, found: bool, ghost p: nat)
    requires dbm.Valid() && it < |dbm.cursors| && dbm.cursors[it].key.Some?
    modifies dbm`cursors
    ensures dbm.Valid() && OnlyMoved(old(dbm.cursors), dbm.cursors, it) && dbm.cursors[it] == c
    ensures p == RecordFrom(dbm.rank, dbm.Contents(), dbm.rank(old(dbm.cursors[it].key).value))
    ensures c.key == KeyAt(dbm.Contents(), p) && found == (p < |dbm.Contents()|)
    ensures found ==> c.key == Some(dbm.Contents()[p].key) && IsLeafFor(dbm.rank, dbm.spans, c.leaf, c.key.value)
  {
    hide BabyDBM.Valid, BabyDBM.Contents, Head, Tail;
    p := RecordFrom(dbm.rank, dbm.Contents(), dbm.rank(dbm.cursors[it].key.value));
    Registered(dbm, it);
    ghost var j: nat;
    c, found, j := SyncPosition(dbm, dbm.cursors[it].key.value, dbm.cursors[it].leaf);
    SetCursor(dbm, it, c);
  }

  /** Processes a stored record in its leaf. */
  method ProcessStored(dbm: BabyDBM, leaf: nat, key: Bytes, proc: Processor, writable: bool, ghost p: nat)
    returns (seen: Option<Bytes>, answer: Action)
    requires dbm.Valid() && dbm.Sequential() && (writable ==> dbm.queue == {})
    requires IsLeafFor(dbm.rank, dbm.spans, leaf, key)
    requires p < |dbm.Contents()| && dbm.Contents()[p].key == key
    modifies dbm`nodes, dbm`numRecords, dbm`queue
    ensures dbm.Valid() && dbm.Sequential()
    ensures RecordProcessed(dbm.rank, old(dbm.Dictionary()), dbm.Dictionary(), old(dbm.Contents())[p], proc, writable,
                            seen, answer)
  {
    hide TreeOk, ListOk, Gather, Branchy, CursorsOk, Dict, QueueOk, BabyDBM.Sequential, BabyDBM.Contents,
         ApplyRecord, Response, RecordProcessed, Sorted, Overdue;
    ContentsSorted(dbm);
    SpanFacts(dbm.rank, dbm.nodes, dbm.spans, dbm.root, dbm.level);
    if leaf != dbm.root {
      dbm.NeverBare(leaf);
    }
    StoredRecord(dbm.rank, dbm.Contents(), p);
    seen, answer := dbm.ProcessImpl(leaf, key, proc, writable);
    ProcessedIs(dbm.rank, old(dbm.Dictionary()), dbm.Dictionary(), old(dbm.Contents())[p], proc, writable, seen,
                answer);
  }

  /** One call of the processor for a stored record, and what becomes of the record. */
  ghost predicate RecordProcessed(rank: Ranking, m: map<real, Record>, m': map<real, Record>, rec: Record,
                                  proc: Processor, writable: bool, seen: Option<Bytes>, answer: Action) {
    && seen == Some(rec.value) && answer == proc.full(rec.value)
    && (forall r :: r != rank(rec.key) ==> Get(m', r) == Get(m, r))
    && Get(m', rank(rec.key)) == if !writable || answer.Noop? then Some(rec)
                                 else if answer.Remove? then None else Some(Record(rec.key, answer.value))
  }

  lemma {:induction false} ProcessedIs(rank: Ranking, m: map<real, Record>, m': map<real, Record>, rec: Record,
                                       proc: Processor, writable: bool, seen: Option<Bytes>, answer: Action)
    requires Get(m, rank(rec.key)) == Some(rec)
    requires seen == Some(rec.value) && answer == proc.full(rec.value)
    requires forall r :: r != rank(rec.key) ==> Get(m', r) == Get(m, r)
    requires !writable || answer.Noop? ==> m' == m
    requires writable && answer.Remove? ==> rank(rec.key) !in m'
    requires writable && answer.Put? ==> Get(m', rank(rec.key)) == Some(Record(rec.key, answer.value))
    ensures RecordProcessed(rank, m, m', rec, proc, writable, seen, answer)
  {
  }

  /** A record of an ascending sequence is what the dictionary has at its rank. */
  lemma {:induction false} StoredRecord(rank: Ranking, rs: seq<Record>, p: nat)
    requires Sorted(rank, rs) && p < |rs|
    ensures Get(Dict(rank, rs), rank(rs[p].key)) == Some(rs[p])
  {
    hide Dict;
    FromIs(rank, rs, rank(rs[p].key), p);
    HitIsIn(rank, rs, rank(rs[p].key));
  }
}
