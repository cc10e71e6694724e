/** The doubly linked list of leaves under BabyDBM's tree, and the records it holds
    seen as one ascending sequence and as a dictionary. */
module BabyLeaves {
  import opened Common
  import opened BabyTree

  ghost predicate LeafAt(nodes: Nodes, leaves: seq<nat>, i: nat)
    requires i < |leaves|
  {
    && leaves[i] in nodes && nodes[leaves[i]].Leaf?
    && nodes[leaves[i]].prev == At(leaves, i - 1) && nodes[leaves[i]].next == At(leaves, i + 1)
  }

  /** The pointers of the leaves thread them in this order. */
  ghost predicate Threaded(nodes: Nodes, leaves: seq<nat>, first: nat, last: nat) {
    && 0 < |leaves| && first == leaves[0] && last == leaves[|leaves| - 1]
    && forall i :: 0 <= i < |leaves| ==> LeafAt(nodes, leaves, i)
  }

  /** The sequence holds exactly the nodes of height one. */
  ghost predicate AllLeaves(spans: Spans, leaves: seq<nat>) {
    && (forall i :: 0 <= i < |leaves| ==> leaves[i] in spans && spans[leaves[i]].height == 1)
    && (forall id :: id in spans && spans[id].height == 1 ==> id in leaves)
  }

  /** Where the span of the leaf at a position starts; past the last leaf, the end of all ranks. */
  ghost function Cut(spans: Spans, leaves: seq<nat>, k: nat): real {
    if k < |leaves| && leaves[k] in spans then spans[leaves[k]].low else 1.0
  }

  /** The leaves divide all ranks among them, in order. */
  ghost predicate Tiling(spans: Spans, leaves: seq<nat>) {
    && Cut(spans, leaves, 0) == 0.0
    && forall k :: 0 <= k < |leaves| ==>
         leaves[k] in spans && spans[leaves[k]].high == Cut(spans, leaves, k + 1)
  }

  ghost predicate ListOk(nodes: Nodes, spans: Spans, leaves: seq<nat>, first: nat, last: nat) {
    && Threaded(nodes, leaves, first, last) && AllLeaves(spans, leaves) && Tiling(spans, leaves)
  }

  /** The records of the leaves, one leaf after the other. */
  function Gather(nodes: Nodes, leaves: seq<nat>): seq<Record> {
    if leaves == [] then []
    else
      (if leaves[0] in nodes && nodes[leaves[0]].Leaf? then nodes[leaves[0]].records else [])
      + Gather(nodes, leaves[1..])
  }

  lemma {:induction false} GatherConcat(nodes: Nodes, a: seq<nat>, b: seq<nat>)
    ensures Gather(nodes, a + b) == Gather(nodes, a) + Gather(nodes, b)
  {
    if a == [] {
      assert a + b == b;
    } else {
      assert (a + b)[1..] == a[1..] + b;
      GatherConcat(nodes, a[1..], b);
    }
  }

  ghost predicate SameRecords(nodes: Nodes, nodes': Nodes, id: nat) {
    && id in nodes && id in nodes' && nodes[id].Leaf? && nodes'[id].Leaf?
    && nodes'[id].records == nodes[id].records
  }

  lemma {:induction false} GatherFrame(nodes: Nodes, nodes': Nodes, leaves: seq<nat>)
    requires forall i :: 0 <= i < |leaves| ==> SameRecords(nodes, nodes', leaves[i])
    ensures Gather(nodes', leaves) == Gather(nodes, leaves)
  {
    if leaves != [] {
      assert SameRecords(nodes, nodes', leaves[0]);
      forall i | 0 <= i < |leaves[1..]|
        ensures SameRecords(nodes, nodes', leaves[1..][i])
      {
        assert leaves[1..][i] == leaves[i + 1];
      }
      GatherFrame(nodes, nodes', leaves[1..]);
    }
  }

  /** The records around and in one leaf. */
  lemma {:induction false} GatherAt(nodes: Nodes, leaves: seq<nat>, i: nat)
    requires i < |leaves| && leaves[i] in nodes && nodes[leaves[i]].Leaf?
    ensures Gather(nodes, leaves) ==
            Gather(nodes, leaves[..i]) + nodes[leaves[i]].records + Gather(nodes, leaves[i + 1..])
  {
    assert leaves == leaves[..i] + leaves[i..];
    GatherConcat(nodes, leaves[..i], leaves[i..]);
    assert leaves[i..][1..] == leaves[i + 1..];
  }

  /** Where the records gathered from good leaves lie. */
  lemma {:induction false} GatherInside(rank: Ranking, nodes: Nodes, spans: Spans, leaves: seq<nat>, low: real,
                                        high: real)
    requires forall i :: 0 <= i < |leaves| ==>
               && leaves[i] in nodes && leaves[i] in spans && spans[leaves[i]].height == 1
               && NodeOk(rank, nodes[leaves[i]], spans[leaves[i]], spans)
               && low <= spans[leaves[i]].low && spans[leaves[i]].high <= high
    ensures forall k :: 0 <= k < |Gather(nodes, leaves)| ==>
              low <= rank(Gather(nodes, leaves)[k].key) < high
  {
    if leaves != [] {
      var n := nodes[leaves[0]];
      GatherInside(rank, nodes, spans, leaves[1..], low, high);
      forall k | 0 <= k < |Gather(nodes, leaves)|
        ensures low <= rank(Gather(nodes, leaves)[k].key) < high
      {
        if k < |n.records| {
          assert Covers(spans[leaves[0]], rank(n.records[k].key));
        } else {
          assert Gather(nodes, leaves)[k] == Gather(nodes, leaves[1..])[k - |n.records|];
        }
      }
    }
  }

  ghost predicate LeavesOk(rank: Ranking, nodes: Nodes, spans: Spans, leaves: seq<nat>) {
    && (forall i :: 0 <= i < |leaves| ==>
          && leaves[i] in nodes && leaves[i] in spans && spans[leaves[i]].height == 1
          && NodeOk(rank, nodes[leaves[i]], spans[leaves[i]], spans))
    && (forall i, j :: 0 <= i < j < |leaves| ==> spans[leaves[i]].high <= spans[leaves[j]].low)
    && (forall i :: 0 <= i < |leaves| ==> SpanOk(spans[leaves[i]]))
  }

  /** The leaves hold the records in ascending order. */
  lemma {:induction false} GatherSorted(rank: Ranking, nodes: Nodes, spans: Spans, leaves: seq<nat>)
    requires LeavesOk(rank, nodes, spans, leaves)
    ensures Sorted(rank, Gather(nodes, leaves))
  {
    if leaves != [] {
      var rest := leaves[1..];
      assert LeavesOk(rank, nodes, spans, rest);
      GatherSorted(rank, nodes, spans, rest);
      GatherInside(rank, nodes, spans, rest, spans[leaves[0]].high, 1.0);
      SortedConcat(rank, nodes[leaves[0]].records, Gather(nodes, rest), spans[leaves[0]].high);
    }
  }

  lemma {:induction false} SortedConcat(rank: Ranking, a: seq<Record>, b: seq<Record>, r: real)
    requires Sorted(rank, a) && Sorted(rank, b)
    requires forall i :: 0 <= i < |a| ==> rank(a[i].key) < r
    requires forall i :: 0 <= i < |b| ==> r <= rank(b[i].key)
    ensures Sorted(rank, a + b)
  {
  }

  lemma {:induction false} TreeLeavesOk(rank: Ranking, nodes: Nodes, spans: Spans, root: nat, level: nat,
                                        leaves: seq<nat>, first: nat, last: nat)
    requires TreeOk(rank, nodes, spans, root, level) && ListOk(nodes, spans, leaves, first, last)
    ensures LeavesOk(rank, nodes, spans, leaves)
  {
    hide NodeOk, Apart, Tiling;
    forall i, j | 0 <= i < j < |leaves|
      ensures spans[leaves[i]].high <= spans[leaves[j]].low
    {
      CutsRise(spans, leaves, i, j);
    }
    forall i | 0 <= i < |leaves|
      ensures NodeOk(rank, nodes[leaves[i]], spans[leaves[i]], spans)
    {
      assert leaves[i] in nodes;
    }
  }

  /** Later leaves lie above earlier ones. */
  lemma {:induction false} CutsRise(spans: Spans, leaves: seq<nat>, i: nat, j: nat)
    requires Tiling(spans, leaves) && i < j < |leaves|
    requires forall id :: id in spans ==> SpanOk(spans[id])
    ensures leaves[i] in spans && leaves[j] in spans
    ensures spans[leaves[i]].high <= spans[leaves[j]].low
    ensures i + 1 < j ==> spans[leaves[i]].high < spans[leaves[j]].low
    decreases j
  {
    hide Tiling;
    CutNext(spans, leaves, j - 1);
    if i + 1 < j {
      CutsRise(spans, leaves, i, j - 1);
    }
  }

  lemma {:induction false} CutNext(spans: Spans, leaves: seq<nat>, k: nat)
    requires Tiling(spans, leaves) && k + 1 < |leaves|
    ensures leaves[k] in spans && leaves[k + 1] in spans && spans[leaves[k]].high == spans[leaves[k + 1]].low
  {
    assert leaves[k + 1] in spans;
  }

  /** The records before a leaf lie below its span, those after it lie above. */
  lemma {:induction false} GatherAround(rank: Ranking, nodes: Nodes, spans: Spans, leaves: seq<nat>, i: nat)
    requires LeavesOk(rank, nodes, spans, leaves) && i < |leaves|
    ensures AllBelow(rank, Gather(nodes, leaves[..i]), spans[leaves[i]].low)
    ensures NoneBelow(rank, Gather(nodes, leaves[i + 1..]), spans[leaves[i]].high)
  {
    hide NodeOk;
    var before, after := leaves[..i], leaves[i + 1..];
    GatherInside(rank, nodes, spans, before, 0.0, spans[leaves[i]].low);
    forall k | 0 <= k < |after|
      ensures spans[leaves[i]].high <= spans[after[k]].low && spans[after[k]].high <= 1.0
    {
      assert after[k] == leaves[i + 1 + k];
    }
    GatherInside(rank, nodes, spans, after, spans[leaves[i]].high, 1.0);
  }

  predicate AllBelow(rank: Ranking, rs: seq<Record>, r: real) {
    forall k :: 0 <= k < |rs| ==> rank(rs[k].key) < r
  }

  predicate NoneBelow(rank: Ranking, rs: seq<Record>, r: real) {
    forall k :: 0 <= k < |rs| ==> r <= rank(rs[k].key)
  }

  // ----- the dictionary -----

  /** The records by rank. */
  function Dict(rank: Ranking, rs: seq<Record>): map<real, Record> {
    if rs == [] then map[] else Dict(rank, rs[1..])[rank(rs[0].key) as real := rs[0]]
  }

  /** The effect of a processor's answer on the dictionary: an existing record keeps its key. */
  function ApplyRecord(m: map<real, Record>, r: real, key: Bytes, act: Action): map<real, Record> {
    match act
    case Noop => m
    case Remove => m - {r}
    case Put(v) => m[r := Record(if r in m then m[r].key else key, v)]
  }

  /** Whether the record at a position answers to the rank. */
  predicate Hit(rank: Ranking, rs: seq<Record>, p: nat, r: real) {
    p < |rs| && rank(rs[p].key) == r
  }

  function Inserted(rs: seq<Record>, p: nat, rec: Record): (r: seq<Record>)
    requires p <= |rs|
    ensures |r| == |rs| + 1
    ensures forall k :: 0 <= k < |r| ==> r[k] == if k < p then rs[k] else if k == p then rec else rs[k - 1]
  {
    rs[..p] + [rec] + rs[p..]
  }

  function Erased(rs: seq<Record>, p: nat): (r: seq<Record>)
    requires p < |rs|
    ensures |r| == |rs| - 1
    ensures forall k :: 0 <= k < |r| ==> r[k] == rs[if k < p then k else k + 1]
  {
    rs[..p] + rs[p + 1..]
  }

  /** The effect of an answer on ascending records, at the place where the key belongs. */
  function Edit(rs: seq<Record>, p: nat, hit: bool, key: Bytes, act: Action): seq<Record>
    requires p <= |rs| && (hit ==> p < |rs|)
  {
    match act
    case Noop => rs
    case Remove => if hit then Erased(rs, p) else rs
    case Put(v) =>
      if hit then rs[p := Record(rs[p].key, v)] else Inserted(rs, p, Record(key, v))
  }

  lemma {:induction false} DictKeys(rank: Ranking, rs: seq<Record>, r: real)
    ensures r in Dict(rank, rs) <==> exists i :: 0 <= i < |rs| && rank(rs[i].key) == r
  {
    if rs != [] {
      DictKeys(rank, rs[1..], r);
      if i :| 0 <= i < |rs| && rank(rs[i].key) == r {
        assert i > 0 ==> rank(rs[1..][i - 1].key) == r;
      }
      if r in Dict(rank, rs[1..]) {
        var i :| 0 <= i < |rs[1..]| && rank(rs[1..][i].key) == r;
        assert rank(rs[i + 1].key) == r;
      }
    }
  }

  /** Ascending records have different ranks, so none is lost in the dictionary. */
  lemma {:induction false} DictSize(rank: Ranking, rs: seq<Record>)
    requires Sorted(rank, rs)
    ensures |Dict(rank, rs)| == |rs|
  {
    if rs != [] {
      DictSize(rank, rs[1..]);
      DictKeys(rank, rs[1..], rank(rs[0].key));
    }
  }

  /** Finding a record by binary search is looking its rank up. */
  lemma {:induction false} HitIsIn(rank: Ranking, rs: seq<Record>, r: real)
    requires Sorted(rank, rs)
    ensures Hit(rank, rs, RecordFrom(rank, rs, r), r) <==> r in Dict(rank, rs)
    ensures r in Dict(rank, rs) ==> Dict(rank, rs)[r] == rs[RecordFrom(rank, rs, r)]
  {
    if rs != [] {
      if r <= rank(rs[0].key) {
        DictKeys(rank, rs[1..], r);
      } else {
        HitIsIn(rank, rs[1..], r);
      }
    }
  }

  /** Editing the sequence is applying the answer to the dictionary, and keeps the order. */
  lemma {:induction false} EditApplies(rank: Ranking, rs: seq<Record>, key: Bytes, act: Action)
    requires Sorted(rank, rs)
    ensures var p := RecordFrom(rank, rs, rank(key));
            var rs' := Edit(rs, p, Hit(rank, rs, p, rank(key)), key, act);
            Sorted(rank, rs')
            && Dict(rank, rs') == ApplyRecord(Dict(rank, rs), rank(key), key, act)
  {
    hide Dict, ApplyRecord;
    var p := RecordFrom(rank, rs, rank(key));
    EditSorted(rank, rs, p, key, act);
    EditDict(rank, rs, key, act);
  }

  lemma {:induction false} EditSorted(rank: Ranking, rs: seq<Record>, p: nat, key: Bytes, act: Action)
    requires Sorted(rank, rs) && p == RecordFrom(rank, rs, rank(key))
    ensures Sorted(rank, Edit(rs, p, Hit(rank, rs, p, rank(key)), key, act))
  {
    hide Sorted, Inserted, Erased;
    match act
    case Noop =>
    case Remove =>
      if Hit(rank, rs, p, rank(key)) {
        ErasedSorted(rank, rs, p);
      }
    case Put(v) =>
      if Hit(rank, rs, p, rank(key)) {
        UpdatedSorted(rank, rs, p, Record(rs[p].key, v));
      } else {
        InsertedSorted(rank, rs, p, Record(key, v));
      }
  }

  lemma {:induction false} ErasedSorted(rank: Ranking, rs: seq<Record>, p: nat)
    requires Sorted(rank, rs) && p < |rs|
    ensures Sorted(rank, Erased(rs, p))
  {
  }

  lemma {:induction false} UpdatedSorted(rank: Ranking, rs: seq<Record>, p: nat, rec: Record)
    requires Sorted(rank, rs) && p < |rs| && rec.key == rs[p].key
    ensures Sorted(rank, rs[p := rec])
  {
    var rs' := rs[p := rec];
    forall i, j | 0 <= i < j < |rs'|
      ensures rank(rs'[i].key) < rank(rs'[j].key)
    {
      assert rank(rs[i].key) < rank(rs[j].key);
    }
  }

  lemma {:induction false} InsertedSorted(rank: Ranking, rs: seq<Record>, p: nat, rec: Record)
    requires Sorted(rank, rs) && p <= |rs| && (0 < p ==> rank(rs[p - 1].key) < rank(rec.key))
    requires p < |rs| ==> rank(rec.key) < rank(rs[p].key)
    ensures Sorted(rank, Inserted(rs, p, rec))
  {
    var rs' := Inserted(rs, p, rec);
    forall i, j | 0 <= i < j < |rs'|
      ensures rank(rs'[i].key) < rank(rs'[j].key)
    {
      if j == p && i < p - 1 {
        assert rank(rs[i].key) < rank(rs[p - 1].key);
      } else if i == p && p < j - 1 {
        assert rank(rs[p].key) < rank(rs[j - 1].key);
      } else if i != p && j != p {
        assert rank(rs[if i < p then i else i - 1].key) < rank(rs[if j < p then j else j - 1].key);
      }
    }
  }

  lemma {:induction false} EditDict(rank: Ranking, rs: seq<Record>, key: Bytes, act: Action)
    requires Sorted(rank, rs)
    ensures var p := RecordFrom(rank, rs, rank(key));
            Dict(rank, Edit(rs, p, Hit(rank, rs, p, rank(key)), key, act)) ==
            ApplyRecord(Dict(rank, rs), rank(key), key, act)
  {
    hide Edit, Dict, ApplyRecord, Sorted;
    var p := RecordFrom(rank, rs, rank(key));
    if p == 0 {
      EditFront(rank, rs, key, act);
    } else {
      var rest := Edit(rs[1..], p - 1, Hit(rank, rs[1..], p - 1, rank(key)), key, act);
      SortedTail(rank, rs);
      EditDict(rank, rs[1..], key, act);
      EditCons(rs, p, Hit(rank, rs, p, rank(key)), key, act);
      DictCons(rank, rs[0], rest);
      DictCons(rank, rs[0], rs[1..]);
      assert rs == [rs[0]] + rs[1..];
      ApplyApart(Dict(rank, rs[1..]), rank(rs[0].key), rs[0], rank(key), key, act);
    }
  }

  lemma {:induction false} SortedTail(rank: Ranking, rs: seq<Record>)
    requires Sorted(rank, rs) && rs != []
    ensures Sorted(rank, rs[1..])
  {
  }

  lemma {:induction false} DictCons(rank: Ranking, rec: Record, rs: seq<Record>)
    ensures Dict(rank, [rec] + rs) == Dict(rank, rs)[rank(rec.key) as real := rec]
  {
    assert ([rec] + rs)[1..] == rs;
  }

  lemma {:induction false} EditCons(rs: seq<Record>, p: nat, hit: bool, key: Bytes, act: Action)
    requires 0 < p <= |rs| && (hit ==> p < |rs|)
    ensures Edit(rs, p, hit, key, act) == [rs[0]] + Edit(rs[1..], p - 1, hit, key, act)
  {
    hide Inserted, Erased;
    var tail := rs[1..];
    if act.Noop? || (act.Remove? && !hit) {
      assert rs == [rs[0]] + tail;
    } else if act.Remove? {
      ErasedCons(rs, p);
    } else if hit {
      assert rs[p := Record(rs[p].key, act.value)] ==
             [rs[0]] + tail[p - 1 := Record(tail[p - 1].key, act.value)];
    } else {
      InsertedCons(rs, p, Record(key, act.value));
    }
  }

  lemma {:induction false} ErasedCons(rs: seq<Record>, p: nat)
    requires 0 < p < |rs|
    ensures Erased(rs, p) == [rs[0]] + Erased(rs[1..], p - 1)
  {
    assert rs[..p] == [rs[0]] + rs[1..][..p - 1];
    assert rs[p + 1..] == rs[1..][p..];
  }

  lemma {:induction false} InsertedCons(rs: seq<Record>, p: nat, rec: Record)
    requires 0 < p <= |rs|
    ensures Inserted(rs, p, rec) == [rs[0]] + Inserted(rs[1..], p - 1, rec)
  {
    assert rs[..p] == [rs[0]] + rs[1..][..p - 1];
    assert rs[p..] == rs[1..][p - 1..];
  }

  lemma {:induction false} ApplyApart(m: map<real, Record>, q: real, rec: Record, r: real, key: Bytes, act: Action)
    requires q != r
    ensures ApplyRecord(m[q := rec], r, key, act) == ApplyRecord(m, r, key, act)[q := rec]
  {
  }

  lemma {:induction false} EditFront(rank: Ranking, rs: seq<Record>, key: Bytes, act: Action)
    requires Sorted(rank, rs) && (rs != [] ==> rank(key) <= rank(rs[0].key))
    ensures Dict(rank, Edit(rs, 0, Hit(rank, rs, 0, rank(key)), key, act)) ==
            ApplyRecord(Dict(rank, rs), rank(key), key, act)
  {
    hide Dict, Edit, Sorted;
    var r := rank(key) as real;
    EditFrontIs(rs, Hit(rank, rs, 0, r), key, act);
    FrontAlone(rank, rs, r);
    if Hit(rank, rs, 0, r) {
      DictCons(rank, rs[0], rs[1..]);
      if act.Put? {
        DictCons(rank, Record(rs[0].key, act.value), rs[1..]);
      }
    } else if act.Put? {
      DictCons(rank, Record(key, act.value), rs);
    }
  }

  /** An edit at the front. */
  lemma {:induction false} EditFrontIs(rs: seq<Record>, hit: bool, key: Bytes, act: Action)
    requires hit ==> rs != []
    ensures hit ==> rs == [rs[0]] + rs[1..]
    ensures Edit(rs, 0, hit, key, act) ==
            match act {
              case Noop => rs
              case Remove => if hit then rs[1..] else rs
              case Put(v) => if hit then [Record(rs[0].key, v)] + rs[1..] else [Record(key, v)] + rs
            }
  {
  }

  /** A rank not above the first record's is no other record's. */
  lemma {:induction false} FrontAlone(rank: Ranking, rs: seq<Record>, r: real)
    requires Sorted(rank, rs) && (rs != [] ==> r <= rank(rs[0].key))
    ensures rs != [] ==> r !in Dict(rank, rs[1..])
    ensures !Hit(rank, rs, 0, r) ==> r !in Dict(rank, rs)
  {
    hide Dict;
    DictKeys(rank, rs, r);
    if rs != [] {
      DictKeys(rank, rs[1..], r);
    }
  }

  lemma {:induction false} FromIs(rank: Ranking, rs: seq<Record>, r: real, p: nat)
    requires p <= |rs| && (forall i :: 0 <= i < p ==> rank(rs[i].key) < r)
    requires p < |rs| ==> r <= rank(rs[p].key)
    ensures RecordFrom(rank, rs, r) == p
  {
  }

  /** A search in one leaf finds the place among all records. */
  lemma {:induction false} PlaceInWhole(rank: Ranking, a: seq<Record>, rs: seq<Record>, b: seq<Record>, r: real)
    requires forall i :: 0 <= i < |a| ==> rank(a[i].key) < r
    requires forall i :: 0 <= i < |b| ==> r < rank(b[i].key)
    ensures var p := RecordFrom(rank, rs, r);
            && RecordFrom(rank, a + rs + b, r) == |a| + p
            && Hit(rank, a + rs + b, |a| + p, r) == Hit(rank, rs, p, r)
  {
    var p := RecordFrom(rank, rs, r);
    FromIs(rank, a + rs + b, r, |a| + p);
  }

  lemma {:induction false} EditInWhole(a: seq<Record>, rs: seq<Record>, b: seq<Record>, p: nat, hit: bool,
                                       key: Bytes, act: Action)
    requires p <= |rs| && (hit ==> p < |rs|)
    ensures Edit(a + rs + b, |a| + p, hit, key, act) == a + Edit(rs, p, hit, key, act) + b
  {
    var whole := a + rs + b;
    assert whole[..|a| + p] == a + rs[..p];
    match act
    case Noop =>
    case Remove =>
      if hit {
        assert whole[|a| + p + 1..] == rs[p + 1..] + b;
        assert a + rs[..p] + (rs[p + 1..] + b) == a + (rs[..p] + rs[p + 1..]) + b;
      }
    case Put(v) =>
      if hit {
        assert whole[|a| + p := Record(rs[p].key, v)] == a + rs[p := Record(rs[p].key, v)] + b;
      } else {
        var rec := Record(key, v);
        assert whole[|a| + p..] == rs[p..] + b;
        assert a + rs[..p] + [rec] + (rs[p..] + b) == a + (rs[..p] + [rec] + rs[p..]) + b;
      }
  }

  // ----- the list under changes -----

  /** Leaves keep their places when only inner nodes change. */
  lemma {:induction false} ListFrame(nodes: Nodes, spans: Spans, nodes': Nodes, spans': Spans, leaves: seq<nat>,
                                     first: nat, last: nat)
    requires ListOk(nodes, spans, leaves, first, last)
    requires forall id :: id in leaves && id in nodes ==> id in nodes' && nodes'[id] == nodes[id]
    requires forall id :: id in leaves && id in spans ==> id in spans' && spans'[id] == spans[id]
    requires forall id :: id in spans' && spans'[id].height == 1 ==> id in spans && spans[id].height == 1
    ensures ListOk(nodes', spans', leaves, first, last)
    ensures Gather(nodes', leaves) == Gather(nodes, leaves)
  {
    forall i | 0 <= i < |leaves|
      ensures LeafAt(nodes', leaves, i) && SameRecords(nodes, nodes', leaves[i])
    {
      assert LeafAt(nodes, leaves, i) && leaves[i] in leaves;
    }
    forall i | 0 <= i < |leaves|
      ensures leaves[i] in spans' && spans'[leaves[i]] == spans[leaves[i]]
    {
      assert leaves[i] in leaves;
    }
    GatherFrame(nodes, nodes', leaves);
  }

  /** The leaves are distinct. */
  lemma {:induction false} DistinctLeaves(spans: Spans, leaves: seq<nat>)
    requires Tiling(spans, leaves)
    requires forall id :: id in spans ==> SpanOk(spans[id])
    ensures Distinct(leaves)
  {
    forall i, j | 0 <= i < j < |leaves|
      ensures leaves[i] != leaves[j]
    {
      CutsRise(spans, leaves, i, j);
    }
  }

  /** The leaf whose span starts where another's ends comes next. */
  lemma {:induction false} NextLeaf(spans: Spans, leaves: seq<nat>, i: nat, j: nat)
    requires Tiling(spans, leaves) && i < |leaves| && j < |leaves|
    requires forall id :: id in spans ==> SpanOk(spans[id])
    requires spans[leaves[i]].high == spans[leaves[j]].low
    ensures j == i + 1
  {
    if i < j {
      CutsRise(spans, leaves, i, j);
    } else if j < i {
      CutsRise(spans, leaves, j, i);
    }
  }
}
