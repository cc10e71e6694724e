/** Changing one record of a leaf, seen in the tree, in the list and in the dictionary. */
module BabyEdit {
  import opened Common
  import opened BabyTree
  import opened BabyLeaves
  import opened BabyReorganize

  /** The records of a leaf after a processor's answer for a key. */
  function EditedRecords(rank: Ranking, rs: seq<Record>, key: Bytes, act: Action): seq<Record> {
    var p := RecordFrom(rank, rs, rank(key));
    Edit(rs, p, Hit(rank, rs, p, rank(key)), key, act)
  }

  /** The record that a search in ascending records finds for a key. */
  function Found(rank: Ranking, rs: seq<Record>, key: Bytes): Option<Record> {
    var p := RecordFrom(rank, rs, rank(key));
    if Hit(rank, rs, p, rank(key)) then Some(rs[p]) else None
  }

  lemma {:induction false} EditedInside(rank: Ranking, rs: seq<Record>, s: Span, key: Bytes, act: Action)
    requires Inside(rank, rs, s) && Covers(s, rank(key))
    ensures Inside(rank, EditedRecords(rank, rs, key, act), s)
  {
    var rs' := EditedRecords(rank, rs, key, act);
    forall i | 0 <= i < |rs'|
      ensures Covers(s, rank(rs'[i].key))
    {
      assert rs'[i].key == key || (exists k :: 0 <= k < |rs| && rs[k].key == rs'[i].key) by {
        EditedFrom(rank, rs, key, act, i);
      }
    }
  }

  lemma {:induction false} EditedFrom(rank: Ranking, rs: seq<Record>, key: Bytes, act: Action, i: nat)
    requires i < |EditedRecords(rank, rs, key, act)|
    ensures var k := EditedRecords(rank, rs, key, act)[i].key;
            k == key || exists j :: 0 <= j < |rs| && rs[j].key == k
  {
    var p := RecordFrom(rank, rs, rank(key));
    var rs' := EditedRecords(rank, rs, key, act);
    if act.Remove? && Hit(rank, rs, p, rank(key)) {
      assert rs'[i] == rs[if i < p then i else i + 1];
    } else if act.Put? && !Hit(rank, rs, p, rank(key)) && i != p {
      assert rs'[i] == rs[if i < p then i else i - 1];
    } else if act.Put? && Hit(rank, rs, p, rank(key)) {
      assert rs'[i].key == rs[i].key;
    }
  }

  /** The tree and the list stay good. */
  lemma {:induction false} EditKeeps(rank: Ranking, nodes: Nodes, spans: Spans, root: nat, level: nat,
                                     leaves: seq<nat>, first: nat, last: nat, i: nat, key: Bytes, act: Action)
    requires TreeOk(rank, nodes, spans, root, level) && ListOk(nodes, spans, leaves, first, last)
    requires i < |leaves| && leaves[i] in nodes && nodes[leaves[i]].Leaf?
    requires leaves[i] in spans && spans[leaves[i]].height == 1 && Covers(spans[leaves[i]], rank(key))
    ensures var nodes' := WithRecords(nodes, leaves[i], EditedRecords(rank, nodes[leaves[i]].records, key, act));
            TreeOk(rank, nodes', spans, root, level) && ListOk(nodes', spans, leaves, first, last)
  {
    hide Apart, KidsOk, Tiling, AllLeaves, EditedRecords, Sorted, Inside;
    var leaf := leaves[i];
    var n := nodes[leaf];
    var nodes' := WithRecords(nodes, leaf, EditedRecords(rank, n.records, key, act));
    assert NodeOk(rank, n, spans[leaf], spans);
    EditedSorted(rank, n.records, key, act);
    EditedInside(rank, n.records, spans[leaf], key, act);
    forall id | id in nodes'
      ensures NodeOk(rank, nodes'[id], spans[id], spans)
    {
      assert id in nodes && NodeOk(rank, nodes[id], spans[id], spans);
    }
    forall k | 0 <= k < |leaves|
      ensures LeafAt(nodes', leaves, k)
    {
      assert LeafAt(nodes, leaves, k);
    }
  }

  function WithRecords(nodes: Nodes, leaf: nat, rs: seq<Record>): Nodes
    requires leaf in nodes && nodes[leaf].Leaf?
  {
    nodes[leaf := nodes[leaf].(records := rs)]
  }

  lemma {:induction false} EditedSorted(rank: Ranking, rs: seq<Record>, key: Bytes, act: Action)
    requires Sorted(rank, rs)
    ensures Sorted(rank, EditedRecords(rank, rs, key, act))
  {
    EditSorted(rank, rs, RecordFrom(rank, rs, rank(key)), key, act);
  }

  /** The whole sequence of records is edited as its leaf is. */
  lemma {:induction false} EditGather(rank: Ranking, nodes: Nodes, spans: Spans, leaves: seq<nat>, i: nat,
                                      key: Bytes, act: Action)
    requires LeavesOk(rank, nodes, spans, leaves) && i < |leaves| && Distinct(leaves)
    requires nodes[leaves[i]].Leaf? && Covers(spans[leaves[i]], rank(key))
    requires forall k :: 0 <= k < |leaves| ==> leaves[k] in nodes && nodes[leaves[k]].Leaf?
    ensures var rs := nodes[leaves[i]].records;
            var nodes' := WithRecords(nodes, leaves[i], EditedRecords(rank, rs, key, act));
            && Gather(nodes', leaves) == EditedRecords(rank, Gather(nodes, leaves), key, act)
            && Found(rank, Gather(nodes, leaves), key) == Found(rank, rs, key)
            && |Gather(nodes', leaves)| - |Gather(nodes, leaves)| ==
               |EditedRecords(rank, rs, key, act)| - |rs|
  {
    hide Gather, LeavesOk, Edit;
    var leaf := leaves[i];
    var rs := nodes[leaf].records;
    var rs' := EditedRecords(rank, rs, key, act);
    var nodes' := WithRecords(nodes, leaf, rs');
    var before, after := leaves[..i], leaves[i + 1..];
    GatherAt(nodes, leaves, i);
    GatherAt(nodes', leaves, i);
    GatherFrame(nodes, nodes', before);
    forall k | 0 <= k < |after|
      ensures SameRecords(nodes, nodes', after[k])
    {
      assert after[k] == leaves[i + 1 + k];
    }
    GatherFrame(nodes, nodes', after);
    GatherAround(rank, nodes, spans, leaves, i);
    var a, b := Gather(nodes, before), Gather(nodes, after);
    var p := RecordFrom(rank, rs, rank(key));
    PlaceInWhole(rank, a, rs, b, rank(key));
    EditInWhole(a, rs, b, p, Hit(rank, rs, p, rank(key)), key, act);
    assert Hit(rank, rs, p, rank(key)) ==> (a + rs + b)[|a| + p] == rs[p];
  }

  /** A processor's answer to a leaf's records is its answer to the dictionary. */
  lemma {:induction false} EditLeaf(rank: Ranking, nodes: Nodes, spans: Spans, root: nat, level: nat,
                                    leaves: seq<nat>, first: nat, last: nat, i: nat, key: Bytes, act: Action)
    requires TreeOk(rank, nodes, spans, root, level) && ListOk(nodes, spans, leaves, first, last)
    requires i < |leaves| && leaves[i] in nodes && nodes[leaves[i]].Leaf?
    requires leaves[i] in spans && spans[leaves[i]].height == 1 && Covers(spans[leaves[i]], rank(key))
    ensures var rs := nodes[leaves[i]].records;
            var nodes' := WithRecords(nodes, leaves[i], EditedRecords(rank, rs, key, act));
            && TreeOk(rank, nodes', spans, root, level) && ListOk(nodes', spans, leaves, first, last)
            && Dict(rank, Gather(nodes', leaves)) ==
               ApplyRecord(Dict(rank, Gather(nodes, leaves)), rank(key), key, act)
            && Found(rank, rs, key) == Get(Dict(rank, Gather(nodes, leaves)), rank(key))
            && |Gather(nodes', leaves)| - |Gather(nodes, leaves)| ==
               |EditedRecords(rank, rs, key, act)| - |rs|
  {
    hide Gather, LeavesOk, Dict, ApplyRecord, TreeOk, ListOk;
    EditKeeps(rank, nodes, spans, root, level, leaves, first, last, i, key, act);
    TreeLeavesOk(rank, nodes, spans, root, level, leaves, first, last);
    ListFacts(nodes, spans, leaves, first, last);
    SpansAre(rank, nodes, spans, root, level);
    ListDistinct(nodes, spans, leaves, first, last);
    EditGather(rank, nodes, spans, leaves, i, key, act);
    var cs := Gather(nodes, leaves);
    GatherSorted(rank, nodes, spans, leaves);
    EditApplies(rank, cs, key, act);
    HitIsIn(rank, cs, rank(key));
  }

  lemma {:induction false} ListDistinct(nodes: Nodes, spans: Spans, leaves: seq<nat>, first: nat, last: nat)
    requires ListOk(nodes, spans, leaves, first, last)
    requires forall id :: id in spans ==> SpanOk(spans[id])
    ensures Distinct(leaves)
  {
    DistinctLeaves(spans, leaves);
  }
}
