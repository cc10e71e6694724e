/** ShardDBM's iterator: one iterator for each shard, and a heap of those that stand on a
    record, whose front is the current record.  The heap is a set whose front is the slot
    with the least key, or when going backwards the greatest. */
module ShardIteration {
  import opened Common
  import opened BabyTree

  type Shards = seq<seq<Record>>

  /** Shards in ascending order, no two records of which compare equal. */
  ghost predicate OrderedShards(rank: Ranking, shards: Shards) {
    && (forall i :: 0 <= i < |shards| ==> Sorted(rank, shards[i]))
    && (forall i, p, j, q :: InShard(shards, i, p) && InShard(shards, j, q) && i != j ==>
          rank(shards[i][p].key) != rank(shards[j][q].key))
  }

  predicate InShard(shards: Shards, i: int, p: int) {
    0 <= i < |shards| && 0 <= p < |shards[i]|
  }

  ghost predicate Stored(shards: Shards, rec: Record) {
    exists i, p :: InShard(shards, i, p) && shards[i][p] == rec
  }

  /** The record is the least above the rank, or there is none above it. */
  ghost predicate LeastAbove(rank: Ranking, shards: Shards, r: real, rec: Option<Record>) {
    match rec
    case None => forall i, p :: InShard(shards, i, p) ==> rank(shards[i][p].key) <= r
    case Some(x) =>
      && Stored(shards, x) && r < rank(x.key)
      && forall i, p :: InShard(shards, i, p) && r < rank(shards[i][p].key) ==> rank(x.key) <= rank(shards[i][p].key)
  }

  /** The record is the greatest below the rank, or there is none below it. */
  ghost predicate GreatestBelow(rank: Ranking, shards: Shards, r: real, rec: Option<Record>) {
    match rec
    case None => forall i, p :: InShard(shards, i, p) ==> r <= rank(shards[i][p].key)
    case Some(x) =>
      && Stored(shards, x) && rank(x.key) < r
      && forall i, p :: InShard(shards, i, p) && rank(shards[i][p].key) < r ==> rank(shards[i][p].key) <= rank(x.key)
  }

  /** The record is the least of all at or above the rank. */
  ghost predicate LeastFrom(rank: Ranking, shards: Shards, r: real, rec: Option<Record>) {
    match rec
    case None => forall i, p :: InShard(shards, i, p) ==> rank(shards[i][p].key) < r
    case Some(x) =>
      && Stored(shards, x) && r <= rank(x.key)
      && forall i, p :: InShard(shards, i, p) && r <= rank(shards[i][p].key) ==> rank(x.key) <= rank(shards[i][p].key)
  }

  /** The record is the greatest of all at or below the rank. */
  ghost predicate GreatestUpTo(rank: Ranking, shards: Shards, r: real, rec: Option<Record>) {
    match rec
    case None => forall i, p :: InShard(shards, i, p) ==> r < rank(shards[i][p].key)
    case Some(x) =>
      && Stored(shards, x) && rank(x.key) <= r
      && forall i, p :: InShard(shards, i, p) && rank(shards[i][p].key) <= r ==> rank(shards[i][p].key) <= rank(x.key)
  }

  /** Each slot stands before its next record, or has none left. */
  ghost predicate Positioned(shards: Shards, pos: seq<int>) {
    |pos| == |shards| && forall i :: 0 <= i < |shards| ==> 0 <= pos[i] <= |shards[i]|
  }

  /** The slots from whose position on the records are at or above the rank, those before below. */
  ghost predicate FromRank(rank: Ranking, shards: Shards, pos: seq<int>, r: real) {
    Positioned(shards, pos) && forall i :: 0 <= i < |shards| ==> pos[i] == RecordFrom(rank, shards[i], r)
  }

  /** The slots with a record left. */
  ghost predicate OnRecords(shards: Shards, pos: seq<int>, heap: set<nat>)
    requires |pos| == |shards|
  {
    forall i :: i in heap <==> 0 <= i < |shards| && 0 <= pos[i] < |shards[i]|
  }

  /** The slot with the least record. */
  ghost predicate IsFront(rank: Ranking, shards: Shards, pos: seq<int>, heap: set<nat>, f: nat, asc: bool)
    requires |pos| == |shards|
  {
    && f in heap && f < |shards| && InShard(shards, f, pos[f])
    && forall i :: i in heap && i < |shards| && InShard(shards, i, pos[i]) ==>
         if asc then rank(shards[f][pos[f]].key) <= rank(shards[i][pos[i]].key)
         else rank(shards[i][pos[i]].key) <= rank(shards[f][pos[f]].key)
  }

  lemma {:induction false} FrontExists(rank: Ranking, shards: Shards, pos: seq<int>, heap: set<nat>, asc: bool)
    returns (f: nat)
    requires |pos| == |shards| && OnRecords(shards, pos, heap) && heap != {}
    ensures IsFront(rank, shards, pos, heap, f, asc)
  {
    f :| f in heap;
    var rest := heap - {f};
    while rest != {}
      invariant rest <= heap && f in heap
      invariant forall i :: i in heap && i !in rest ==>
                  if asc then rank(shards[f][pos[f]].key) <= rank(shards[i][pos[i]].key)
                  else rank(shards[i][pos[i]].key) <= rank(shards[f][pos[f]].key)
      decreases rest
    {
      var g :| g in rest;
      rest := rest - {g};
      if (if asc then rank(shards[g][pos[g]].key) < rank(shards[f][pos[f]].key)
          else rank(shards[f][pos[f]].key) < rank(shards[g][pos[g]].key)) {
        f := g;
      }
    }
  }

  /** On which side of a position a record lies. */
  lemma {:induction false} BothSides(rank: Ranking, shards: Shards, i: int, p: int, r: real)
    requires OrderedShards(rank, shards) && InShard(shards, i, p)
    ensures rank(shards[i][p].key) <= r <==> p < RecordAbove(rank, shards[i], r)
    ensures rank(shards[i][p].key) < r <==> p < RecordFrom(rank, shards[i], r)
  {
    assert Sorted(rank, shards[i]);
  }

  // ----- ascending -----

  /** Going forwards, the current record is the front of the heap, and every slot stands on
      its first record from there on. */
  ghost predicate Ascending(rank: Ranking, shards: Shards, pos: seq<int>, heap: set<nat>, cur: Option<Record>) {
    && Positioned(shards, pos) && OnRecords(shards, pos, heap)
    && match cur {
         case None => heap == {}
         case Some(x) => Stored(shards, x) && FromRank(rank, shards, pos, rank(x.key))
       }
  }

  /** The current record when the slots stand at or above a rank. */
  lemma {:induction false} SettleFrom(rank: Ranking, shards: Shards, pos: seq<int>, heap: set<nat>, r: real)
    returns (cur: Option<Record>)
    requires OrderedShards(rank, shards) && FromRank(rank, shards, pos, r) && OnRecords(shards, pos, heap)
    ensures Ascending(rank, shards, pos, heap, cur) && LeastFrom(rank, shards, r, cur)
  {
    hide OrderedShards, Sorted;
    if heap == {} {
      cur := None;
      forall i, p | InShard(shards, i, p)
        ensures rank(shards[i][p].key) < r
      {
        assert i !in heap;
      }
    } else {
      var f := FrontExists(rank, shards, pos, heap, true);
      cur := Some(shards[f][pos[f]]);
      LeastOfFronts(rank, shards, pos, heap, f);
      forall i | 0 <= i < |shards|
        ensures pos[i] == RecordFrom(rank, shards[i], rank(cur.value.key))
      {
        FromHere(rank, shards[i], pos[i], rank(cur.value.key));
      }
      assert InShard(shards, f, pos[f]);
    }
  }

  lemma {:induction false} FromHere(rank: Ranking, rs: seq<Record>, p: nat, c: real)
    requires p <= |rs| && (forall k :: 0 <= k < p ==> rank(rs[k].key) < c) && (p < |rs| ==> c <= rank(rs[p].key))
    ensures RecordFrom(rank, rs, c) == p
  {
  }

  /** The front is the least of all records still to come. */
  lemma {:induction false} LeastOfFronts(rank: Ranking, shards: Shards, pos: seq<int>, heap: set<nat>, f: nat)
    requires OrderedShards(rank, shards) && Positioned(shards, pos) && OnRecords(shards, pos, heap)
    requires IsFront(rank, shards, pos, heap, f, true)
    ensures forall i, p :: InShard(shards, i, p) && pos[i] <= p ==>
              rank(shards[f][pos[f]].key) <= rank(shards[i][p].key)
    ensures forall i :: 0 <= i < |shards| && pos[i] < |shards[i]| ==>
              rank(shards[f][pos[f]].key) <= rank(shards[i][pos[i]].key)
  {
    forall i, p | InShard(shards, i, p) && pos[i] <= p
      ensures rank(shards[f][pos[f]].key) <= rank(shards[i][p].key)
    {
      assert i in heap && InShard(shards, i, pos[i]);
      assert Sorted(rank, shards[i]);
      assert pos[i] < p ==> rank(shards[i][pos[i]].key) < rank(shards[i][p].key);
    }
  }

  /** One step forwards: the slot of the current record moves on, and the new front is the
      least record above it. */
  lemma {:induction false} StepForwards(rank: Ranking, shards: Shards, pos: seq<int>, heap: set<nat>, x: Record,
                                        f: nat, pos': seq<int>, heap': set<nat>) returns (cur: Option<Record>)
    requires OrderedShards(rank, shards) && Ascending(rank, shards, pos, heap, Some(x))
    requires IsFront(rank, shards, pos, heap, f, true)
    requires pos' == pos[f := pos[f] + 1] && OnRecords(shards, pos', heap')
    ensures shards[f][pos[f]] == x
    ensures Ascending(rank, shards, pos', heap', cur) && LeastAbove(rank, shards, rank(x.key), cur)
  {
    FrontIs(rank, shards, pos, heap, x, f);
    var r := rank(x.key);
    assert Positioned(shards, pos');
    forall i | 0 <= i < |shards|
      ensures pos'[i] == RecordAbove(rank, shards[i], r)
    {
      SlotAbove(rank, shards, pos, x, f, i);
    }
    cur := SettleAbove(rank, shards, pos', heap', r);
  }

  /** The current record is the one under the front. */
  lemma {:induction false} FrontIs(rank: Ranking, shards: Shards, pos: seq<int>, heap: set<nat>, x: Record, f: nat)
    requires OrderedShards(rank, shards) && Ascending(rank, shards, pos, heap, Some(x))
    requires IsFront(rank, shards, pos, heap, f, true)
    ensures shards[f][pos[f]] == x
  {
    var i, p :| InShard(shards, i, p) && shards[i][p] == x;
    assert pos[i] == RecordFrom(rank, shards[i], rank(x.key));
    assert Sorted(rank, shards[i]);
    assert pos[i] == p;
    assert i in heap && InShard(shards, i, pos[i]);
    assert pos[f] == RecordFrom(rank, shards[f], rank(x.key));
    SameRank(rank, shards, i, p, f, pos[f]);
  }

  lemma {:induction false} SameRank(rank: Ranking, shards: Shards, i: int, p: int, j: int, q: int)
    requires OrderedShards(rank, shards) && InShard(shards, i, p) && InShard(shards, j, q)
    requires rank(shards[i][p].key) == rank(shards[j][q].key)
    ensures i == j && p == q
  {
    assert Sorted(rank, shards[i]);
  }

  lemma {:induction false} SlotAbove(rank: Ranking, shards: Shards, pos: seq<int>, x: Record, f: nat, i: nat)
    requires OrderedShards(rank, shards) && FromRank(rank, shards, pos, rank(x.key))
    requires f < |shards| && pos[f] < |shards[f]| && shards[f][pos[f]] == x && i < |shards|
    ensures RecordAbove(rank, shards[i], rank(x.key)) == if i == f then pos[f] + 1 else pos[i]
  {
    var r := rank(x.key);
    var rs := shards[i];
    assert Sorted(rank, rs) && InShard(shards, f, pos[f]);
    var q := if i == f then pos[f] + 1 else pos[i];
    if i != f && q < |rs| {
      assert InShard(shards, i, q);
    }
    AboveHere(rank, rs, q, r);
  }

  lemma {:induction false} AboveHere(rank: Ranking, rs: seq<Record>, p: nat, r: real)
    requires p <= |rs| && (forall k :: 0 <= k < p ==> rank(rs[k].key) <= r) && (p < |rs| ==> r < rank(rs[p].key))
    ensures RecordAbove(rank, rs, r) == p
  {
  }

  /** The current record when the slots stand above a rank. */
  lemma {:induction false} SettleAbove(rank: Ranking, shards: Shards, pos: seq<int>, heap: set<nat>, r: real)
    returns (cur: Option<Record>)
    requires OrderedShards(rank, shards) && Positioned(shards, pos) && OnRecords(shards, pos, heap)
    requires forall i :: 0 <= i < |shards| ==> pos[i] == RecordAbove(rank, shards[i], r)
    ensures Ascending(rank, shards, pos, heap, cur) && LeastAbove(rank, shards, r, cur)
  {
    hide OrderedShards, Sorted;
    if heap == {} {
      cur := None;
      forall i, p | InShard(shards, i, p)
        ensures rank(shards[i][p].key) <= r
      {
        assert i !in heap;
      }
    } else {
      var f := FrontExists(rank, shards, pos, heap, true);
      cur := Some(shards[f][pos[f]]);
      LeastOfFronts(rank, shards, pos, heap, f);
      assert InShard(shards, f, pos[f]);
      forall i | 0 <= i < |shards|
        ensures pos[i] == RecordFrom(rank, shards[i], rank(cur.value.key))
      {
        FromHere(rank, shards[i], pos[i], rank(cur.value.key));
      }
    }
  }

  // ----- descending -----

  ghost predicate PositionedBack(shards: Shards, pos: seq<int>) {
    |pos| == |shards| && forall i :: 0 <= i < |shards| ==> -1 <= pos[i] < |shards[i]|
  }

  /** Going backwards, the current record is the front of the heap, and every slot stands on
      its last record up to there. */
  ghost predicate Descending(rank: Ranking, shards: Shards, pos: seq<int>, heap: set<nat>, cur: Option<Record>) {
    && PositionedBack(shards, pos) && OnRecords(shards, pos, heap)
    && match cur {
         case None => heap == {}
         case Some(x) =>
           && Stored(shards, x)
           && forall i :: 0 <= i < |shards| ==> pos[i] == RecordAbove(rank, shards[i], rank(x.key)) - 1
       }
  }

  /** The front is the greatest of all records still to come. */
  lemma {:induction false} GreatestOfFronts(rank: Ranking, shards: Shards, pos: seq<int>, heap: set<nat>, f: nat)
    requires OrderedShards(rank, shards) && PositionedBack(shards, pos) && OnRecords(shards, pos, heap)
    requires IsFront(rank, shards, pos, heap, f, false)
    ensures forall i, p :: InShard(shards, i, p) && p <= pos[i] ==>
              rank(shards[i][p].key) <= rank(shards[f][pos[f]].key)
  {
    forall i, p | InShard(shards, i, p) && p <= pos[i]
      ensures rank(shards[i][p].key) <= rank(shards[f][pos[f]].key)
    {
      assert i in heap && InShard(shards, i, pos[i]);
      assert Sorted(rank, shards[i]);
      assert p < pos[i] ==> rank(shards[i][p].key) < rank(shards[i][pos[i]].key);
    }
  }

  /** The current record when the slots stand at or below a rank. */
  lemma {:induction false} SettleUpTo(rank: Ranking, shards: Shards, pos: seq<int>, heap: set<nat>, r: real)
    returns (cur: Option<Record>)
    requires OrderedShards(rank, shards) && PositionedBack(shards, pos) && OnRecords(shards, pos, heap)
    requires forall i :: 0 <= i < |shards| ==> pos[i] == RecordAbove(rank, shards[i], r) - 1
    ensures Descending(rank, shards, pos, heap, cur) && GreatestUpTo(rank, shards, r, cur)
  {
    hide OrderedShards, Sorted;
    if heap == {} {
      cur := None;
      forall i, p | InShard(shards, i, p)
        ensures r < rank(shards[i][p].key)
      {
        assert i !in heap;
        BothSides(rank, shards, i, p, r);
      }
    } else {
      var f := FrontExists(rank, shards, pos, heap, false);
      cur := Some(shards[f][pos[f]]);
      GreatestOfFronts(rank, shards, pos, heap, f);
      assert InShard(shards, f, pos[f]);
      forall i | 0 <= i < |shards|
        ensures pos[i] + 1 == RecordAbove(rank, shards[i], rank(cur.value.key))
      {
        UpToFront(rank, shards, pos, f, i, r);
      }
      forall i, p | InShard(shards, i, p) && rank(shards[i][p].key) <= r
        ensures p <= pos[i]
      {
        BothSides(rank, shards, i, p, r);
      }
    }
  }

  lemma {:induction false} UpToFront(rank: Ranking, shards: Shards, pos: seq<int>, f: nat, i: nat, r: real)
    requires OrderedShards(rank, shards) && PositionedBack(shards, pos) && f < |shards| && i < |shards|
    requires InShard(shards, f, pos[f]) && rank(shards[f][pos[f]].key) <= r
    requires pos[i] == RecordAbove(rank, shards[i], r) - 1
    requires forall j, p :: InShard(shards, j, p) && p <= pos[j] ==>
               rank(shards[j][p].key) <= rank(shards[f][pos[f]].key)
    ensures pos[i] + 1 == RecordAbove(rank, shards[i], rank(shards[f][pos[f]].key))
  {
    forall k | 0 <= k < pos[i] + 1
      ensures rank(shards[i][k].key) <= rank(shards[f][pos[f]].key)
    {
      assert InShard(shards, i, k);
    }
    AboveHere(rank, shards[i], pos[i] + 1, rank(shards[f][pos[f]].key));
  }

  /** The current record when the slots stand below a rank. */
  lemma {:induction false} SettleBelow(rank: Ranking, shards: Shards, pos: seq<int>, heap: set<nat>, r: real)
    returns (cur: Option<Record>)
    requires OrderedShards(rank, shards) && PositionedBack(shards, pos) && OnRecords(shards, pos, heap)
    requires forall i :: 0 <= i < |shards| ==> pos[i] == RecordFrom(rank, shards[i], r) - 1
    ensures Descending(rank, shards, pos, heap, cur) && GreatestBelow(rank, shards, r, cur)
  {
    hide OrderedShards, Sorted;
    if heap == {} {
      cur := None;
      forall i, p | InShard(shards, i, p)
        ensures r <= rank(shards[i][p].key)
      {
        assert i !in heap;
        BothSides(rank, shards, i, p, r);
      }
    } else {
      var f := FrontExists(rank, shards, pos, heap, false);
      cur := Some(shards[f][pos[f]]);
      GreatestOfFronts(rank, shards, pos, heap, f);
      assert InShard(shards, f, pos[f]);
      forall i | 0 <= i < |shards|
        ensures pos[i] + 1 == RecordAbove(rank, shards[i], rank(cur.value.key))
      {
        BelowFront(rank, shards, pos, f, i, r);
      }
      forall i, p | InShard(shards, i, p) && rank(shards[i][p].key) < r
        ensures p <= pos[i]
      {
        BothSides(rank, shards, i, p, r);
      }
    }
  }

  lemma {:induction false} BelowFront(rank: Ranking, shards: Shards, pos: seq<int>, f: nat, i: nat, r: real)
    requires OrderedShards(rank, shards) && PositionedBack(shards, pos) && f < |shards| && i < |shards|
    requires InShard(shards, f, pos[f]) && rank(shards[f][pos[f]].key) < r
    requires pos[i] == RecordFrom(rank, shards[i], r) - 1
    requires forall j, p :: InShard(shards, j, p) && p <= pos[j] ==>
               rank(shards[j][p].key) <= rank(shards[f][pos[f]].key)
    ensures pos[i] + 1 == RecordAbove(rank, shards[i], rank(shards[f][pos[f]].key))
  {
    forall k | 0 <= k < pos[i] + 1
      ensures rank(shards[i][k].key) <= rank(shards[f][pos[f]].key)
    {
      assert InShard(shards, i, k);
    }
    AboveHere(rank, shards[i], pos[i] + 1, rank(shards[f][pos[f]].key));
  }

  /** One step backwards. */
  lemma {:induction false} StepBackwards(rank: Ranking, shards: Shards, pos: seq<int>, heap: set<nat>, x: Record,
                                         f: nat, pos': seq<int>, heap': set<nat>) returns (cur: Option<Record>)
    requires OrderedShards(rank, shards) && Descending(rank, shards, pos, heap, Some(x))
    requires IsFront(rank, shards, pos, heap, f, false)
    requires pos' == pos[f := pos[f] - 1] && OnRecords(shards, pos', heap')
    ensures shards[f][pos[f]] == x
    ensures Descending(rank, shards, pos', heap', cur) && GreatestBelow(rank, shards, rank(x.key), cur)
  {
    BackIs(rank, shards, pos, heap, x, f);
    var r := rank(x.key);
    assert PositionedBack(shards, pos');
    forall i | 0 <= i < |shards|
      ensures pos'[i] == RecordFrom(rank, shards[i], r) - 1
    {
      SlotBelow(rank, shards, pos, x, f, i);
    }
    cur := SettleBelow(rank, shards, pos', heap', r);
  }

  lemma {:induction false} BackIs(rank: Ranking, shards: Shards, pos: seq<int>, heap: set<nat>, x: Record, f: nat)
    requires OrderedShards(rank, shards) && Descending(rank, shards, pos, heap, Some(x))
    requires IsFront(rank, shards, pos, heap, f, false)
    ensures shards[f][pos[f]] == x
  {
    var i, p :| InShard(shards, i, p) && shards[i][p] == x;
    assert pos[i] == RecordAbove(rank, shards[i], rank(x.key)) - 1;
    BothSides(rank, shards, i, p, rank(x.key));
    BothSides(rank, shards, i, pos[i], rank(x.key));
    assert Sorted(rank, shards[i]) && pos[i] == p;
    assert i in heap && InShard(shards, i, pos[i]);
    assert pos[f] == RecordAbove(rank, shards[f], rank(x.key)) - 1;
    SameRank(rank, shards, i, p, f, pos[f]);
  }

  lemma {:induction false} SlotBelow(rank: Ranking, shards: Shards, pos: seq<int>, x: Record, f: nat, i: nat)
    requires OrderedShards(rank, shards) && PositionedBack(shards, pos)
    requires forall j :: 0 <= j < |shards| ==> pos[j] == RecordAbove(rank, shards[j], rank(x.key)) - 1
    requires f < |shards| && 0 <= pos[f] && shards[f][pos[f]] == x && i < |shards|
    ensures RecordFrom(rank, shards[i], rank(x.key)) == if i == f then pos[f] else pos[i] + 1
  {
    var r := rank(x.key);
    var rs := shards[i];
    assert Sorted(rank, rs) && InShard(shards, f, pos[f]);
    var q := if i == f then pos[f] else pos[i] + 1;
    forall k | 0 <= k < q
      ensures rank(rs[k].key) < r
    {
      assert InShard(shards, i, k);
    }
    FromHere(rank, rs, q, r);
  }

  // ----- the iterator -----

  /** Where each shard's own iterator goes: the first record at or above a rank or above it,
      or when going backwards the last one at or below it or below it. */
  function Targets(rank: Ranking, shards: Shards, r: real, above: bool, back: bool): seq<int> {
    seq(|shards|, i requires 0 <= i < |shards| =>
      (if above then RecordAbove(rank, shards[i], r) else RecordFrom(rank, shards[i], r)) - (if back then 1 else 0))
  }

  class ShardIterator {
    const rank: Ranking
    var shards: Shards
    /** The position of each slot's own iterator. */
    var pos: seq<int>
    var heap: set<nat>
    var asc: bool
    /** The current record. */
    ghost var cur: Option<Record>

    ghost predicate Valid()
      reads this
    {
      && OrderedShards(rank, shards)
      && if asc then Ascending(rank, shards, pos, heap, cur) else Descending(rank, shards, pos, heap, cur)
    }

    constructor (rank: Ranking, shards: Shards)
      requires OrderedShards(rank, shards)
      ensures Valid() && this.rank == rank && this.shards == shards && cur == None
    {
      this.rank, this.shards := rank, shards;
      pos, heap, asc := seq(|shards|, i requires 0 <= i < |shards| => |shards[i]|), {}, true;
      cur := None;
    }

    /** Sets the slots' iterators and heaps those that stand on a record. */
    method Place(targets: seq<int>)
      requires |targets| == |shards| == |pos|
      modifies this`pos, this`heap
      ensures pos == targets && OnRecords(shards, pos, heap)
    {
      heap := {};
      var i := 0;
      while i < |shards|
        invariant 0 <= i <= |shards| == |pos| && pos[..i] == targets[..i]
        invariant forall k :: k in heap <==> 0 <= k < i && 0 <= targets[k] < |shards[k]|
      {
        pos := pos[i := targets[i]];
        if 0 <= targets[i] < |shards[i]| {
          heap := heap + {i};
        }
        i := i + 1;
      }
      assert pos == pos[..|pos|] && targets == targets[..|targets|];
    }

    /** The slot at the front of the heap. */
    method Front() returns (f: nat)
      requires |pos| == |shards| && OnRecords(shards, pos, heap) && heap != {}
      ensures IsFront(rank, shards, pos, heap, f, asc)
    {
      var found := false;
      f := 0;
      var i := 0;
      while i < |shards|
        invariant 0 <= i <= |shards|
        invariant found ==> f in heap
        invariant forall k :: k in heap && k < i ==>
                    && found
                    && if asc then rank(shards[f][pos[f]].key) <= rank(shards[k][pos[k]].key)
                       else rank(shards[k][pos[k]].key) <= rank(shards[f][pos[f]].key)
      {
        if i in heap {
          if !found || (if asc then rank(shards[i][pos[i]].key) < rank(shards[f][pos[f]].key)
                        else rank(shards[f][pos[f]].key) < rank(shards[i][pos[i]].key)) {
            f, found := i, true;
          }
        }
        i := i + 1;
      }
      assert found by {
        var g :| g in heap;
      }
    }

    /** Goes to the least record of all. */
    method First()
      requires Valid()
      modifies this`pos, this`heap, this`asc, this`cur
      ensures Valid() && asc && LeastFrom(rank, shards, 0.0, cur)
    {
      hide OrderedShards, Ascending, Descending;
      SlotCount();
      AllAbove(rank, shards);
      Place(seq(|shards|, _ => 0));
      asc := true;
      cur := SettleFrom(rank, shards, pos, heap, 0.0);
    }

    /** Goes to the greatest record of all. */
    method Last()
      requires Valid()
      modifies this`pos, this`heap, this`asc, this`cur
      ensures Valid() && !asc && GreatestUpTo(rank, shards, 1.0, cur)
    {
      hide OrderedShards, Ascending, Descending;
      SlotCount();
      AllBelow(rank, shards);
      var all := shards;
      Place(seq(|all|, i requires 0 <= i < |all| => |all[i]| - 1));
      asc := false;
      cur := SettleUpTo(rank, shards, pos, heap, 1.0);
    }

    /** Goes to the least record at or above a key. */
    method Jump(key: Bytes)
      requires Valid()
      modifies this`pos, this`heap, this`asc, this`cur
      ensures Valid() && asc && LeastFrom(rank, shards, rank(key), cur)
    {
      hide OrderedShards, Ascending, Descending;
      SlotCount();
      Place(Targets(rank, shards, rank(key), false, false));
      asc := true;
      cur := SettleFrom(rank, shards, pos, heap, rank(key));
    }

    /** Goes to the least record above a key, or at or above it. */
    method JumpUpper(key: Bytes, inclusive: bool)
      requires Valid()
      modifies this`pos, this`heap, this`asc, this`cur
      ensures Valid() && asc
      ensures if inclusive then LeastFrom(rank, shards, rank(key), cur) else LeastAbove(rank, shards, rank(key), cur)
    {
      hide OrderedShards, Ascending, Descending;
      SlotCount();
      Place(Targets(rank, shards, rank(key), !inclusive, false));
      asc := true;
      if inclusive {
        cur := SettleFrom(rank, shards, pos, heap, rank(key));
      } else {
        cur := SettleAbove(rank, shards, pos, heap, rank(key));
      }
    }

    /** Goes to the greatest record below a key, or at or below it. */
    method JumpLower(key: Bytes, inclusive: bool)
      requires Valid()
      modifies this`pos, this`heap, this`asc, this`cur
      ensures Valid() && !asc
      ensures if inclusive then GreatestUpTo(rank, shards, rank(key), cur)
              else GreatestBelow(rank, shards, rank(key), cur)
    {
      hide OrderedShards, Ascending, Descending;
      SlotCount();
      Place(Targets(rank, shards, rank(key), inclusive, true));
      asc := false;
      if inclusive {
        cur := SettleUpTo(rank, shards, pos, heap, rank(key));
      } else {
        cur := SettleBelow(rank, shards, pos, heap, rank(key));
      }
    }

    lemma {:induction false} SlotCount()
      requires Valid()
      ensures |pos| == |shards| && OnRecords(shards, pos, heap) && (cur.None? <==> heap == {})
    {
      if cur.Some? {
        InHeap(rank, shards, pos, heap, cur.value, asc);
      }
    }

    /** The current record. */
    method Get() returns (rec: Option<Record>)
      requires Valid()
      ensures rec == cur
    {
      hide OrderedShards, Ascending, Descending;
      SlotCount();
      if heap == {} {
        return None;
      }
      var f := Front();
      if asc {
        FrontIs(rank, shards, pos, heap, cur.value, f);
      } else {
        BackIs(rank, shards, pos, heap, cur.value, f);
      }
      return Some(shards[f][pos[f]]);
    }

    /** Turns round on the current record. */
    method TurnForwards()
      requires Valid() && !asc && cur.Some?
      modifies this`pos, this`heap, this`asc, this`cur
      ensures Valid() && asc && cur == old(cur) && |pos| == |shards| && OnRecords(shards, pos, heap) && heap != {}
    {
      hide OrderedShards, Ascending, Descending;
      SlotCount();
      var f := Front();
      BackIs(rank, shards, pos, heap, cur.value, f);
      CurrentStored(rank, shards, pos, heap, cur.value, asc);
      Jump(shards[f][pos[f]].key);
      Again(rank, shards, old(cur).value, cur);
      SlotCount();
    }

    method TurnBackwards()
      requires Valid() && asc && cur.Some?
      modifies this`pos, this`heap, this`asc, this`cur
      ensures Valid() && !asc && cur == old(cur) && |pos| == |shards| && OnRecords(shards, pos, heap) && heap != {}
    {
      hide OrderedShards, Ascending, Descending;
      SlotCount();
      var f := Front();
      FrontIs(rank, shards, pos, heap, cur.value, f);
      CurrentStored(rank, shards, pos, heap, cur.value, asc);
      JumpLower(shards[f][pos[f]].key, true);
      AgainBack(rank, shards, old(cur).value, cur);
      SlotCount();
    }

    /** Moves to the least record above the current one, whichever way the iterator came. */
    method Next() returns (ok: bool)
      requires Valid()
      modifies this`pos, this`heap, this`asc, this`cur
      ensures Valid() && ok == old(cur).Some?
      ensures !ok ==> cur == None
      ensures ok ==> LeastAbove(rank, shards, rank(old(cur).value.key), cur)
    {
      hide OrderedShards, Ascending, Descending, LeastAbove;
      SlotCount();
      if heap == {} {
        return false;
      }
      if !asc {
        TurnForwards();
      }
      var f := Front();
      ghost var pos0, heap0 := pos, heap;
      heap := heap - {f};
      pos := pos[f := pos[f] + 1];
      if pos[f] < |shards[f]| {
        heap := heap + {f};
      }
      Reheaped(shards, pos0, heap0, pos, heap, f, 1);
      cur := StepForwards(rank, shards, pos0, heap0, cur.value, f, pos, heap);
      return true;
    }

    /** Moves to the greatest record below the current one, whichever way the iterator came. */
    method Previous() returns (ok: bool)
      requires Valid()
      modifies this`pos, this`heap, this`asc, this`cur
      ensures Valid() && ok == old(cur).Some?
      ensures !ok ==> cur == None
      ensures ok ==> GreatestBelow(rank, shards, rank(old(cur).value.key), cur)
    {
      hide OrderedShards, Ascending, Descending, GreatestBelow;
      SlotCount();
      if heap == {} {
        return false;
      }
      if asc {
        TurnBackwards();
      }
      var f := Front();
      ghost var pos0, heap0 := pos, heap;
      heap := heap - {f};
      pos := pos[f := pos[f] - 1];
      if 0 <= pos[f] {
        heap := heap + {f};
      }
      Reheaped(shards, pos0, heap0, pos, heap, f, -1);
      cur := StepBackwards(rank, shards, pos0, heap0, cur.value, f, pos, heap);
      return true;
    }

    /** Removes the current record.  The slot's own iterator then stands on the next record of its
        shard.  The heap is popped and pushed in ascending order whichever way the iterator came,
        so the front must be its least; going backwards it is only when it is alone. */
    method Remove() returns (ok: bool)
      requires Valid() && (asc || |heap| <= 1)
      modifies this
      ensures asc == old(asc) && ok == old(cur).Some?
      ensures !ok ==> Valid() && shards == old(shards) && cur == None
      ensures ok ==> OrderedShards(rank, shards) &&
                     forall y :: Stored(shards, y) <==> Stored(old(shards), y) && y != old(cur).value
      ensures ok && asc ==> Valid() && LeastAbove(rank, shards, rank(old(cur).value.key), cur)
      ensures ok && !asc ==> pos == old(pos) && RemovedAlone(old(shards), shards, pos, heap, old(cur).value)
    {
      hide OrderedShards, Ascending, Descending, LeastAbove, Stored, RemovedAlone;
      SlotCount();
      if heap == {} {
        return false;
      }
      var f := Front();
      ghost var shards0, heap0 := shards, heap;
      ghost var x := cur.value;
      if asc {
        FrontIs(rank, shards, pos, heap, x, f);
      } else {
        BackIs(rank, shards, pos, heap, x, f);
      }
      RemovedOrdered(rank, shards, f, pos[f]);
      heap := heap - {f};
      shards := RemovedFrom(shards, f, pos[f]);
      if pos[f] < |shards[f]| {
        heap := heap + {f};
      }
      RemovedHeap(shards0, pos, heap0, f, heap);
      if asc {
        cur := RemoveForwards(rank, shards0, pos, heap0, x, f, heap);
      } else {
        AloneInHeap(heap0, f);
        LandsInShard(shards0, pos, heap, x, f);
      }
      return true;
    }
  }

  // ----- removal -----

  function RemovedFrom(shards: Shards, f: nat, p: nat): Shards
    requires InShard(shards, f, p)
  {
    shards[f := RemoveAt(shards[f], p)]
  }

  /** The only slot in the heap was that of the removed record, and is now on the next record of its
      shard if there is one. */
  ghost predicate RemovedAlone(shards: Shards, shards': Shards, pos: seq<int>, heap: set<nat>, x: Record) {
    |pos| == |shards| && exists f :: AloneAt(shards, shards', pos, heap, x, f)
  }

  ghost predicate AloneAt(shards: Shards, shards': Shards, pos: seq<int>, heap: set<nat>, x: Record, f: nat)
    requires |pos| == |shards|
  {
    && f < |shards| && InShard(shards, f, pos[f]) && shards[f][pos[f]] == x
    && shards' == RemovedFrom(shards, f, pos[f])
    && heap == if pos[f] < |shards'[f]| then {f} else {}
  }

  lemma {:induction false} LandsInShard(shards: Shards, pos: seq<int>, heap: set<nat>, x: Record, f: nat)
    requires |pos| == |shards| && f < |shards| && InShard(shards, f, pos[f]) && shards[f][pos[f]] == x
    requires heap == if pos[f] < |RemovedFrom(shards, f, pos[f])[f]| then {f} else {}
    ensures RemovedAlone(shards, RemovedFrom(shards, f, pos[f]), pos, heap, x)
  {
    assert AloneAt(shards, RemovedFrom(shards, f, pos[f]), pos, heap, x, f);
  }

  lemma {:induction false} AloneInHeap(heap: set<nat>, f: nat)
    requires f in heap && |heap| <= 1
    ensures heap == {f}
  {
    assert heap == {f} + (heap - {f});
  }

  /** Where a record that stays is after the removal. */
  lemma {:induction false} StillIn(shards: Shards, f: nat, q: nat, i: int, p: int)
    requires InShard(shards, f, q)
    ensures var shards' := RemovedFrom(shards, f, q);
            InShard(shards', i, p) ==>
              var p0 := if i == f && p >= q then p + 1 else p;
              InShard(shards, i, p0) && shards[i][p0] == shards'[i][p] && (i != f || p0 != q)
  {
  }

  /** A removal keeps the shards in order, and all other records. */
  lemma {:induction false} RemovedOrdered(rank: Ranking, shards: Shards, f: nat, q: nat)
    requires OrderedShards(rank, shards) && InShard(shards, f, q)
    ensures var shards' := RemovedFrom(shards, f, q);
            && OrderedShards(rank, shards')
            && forall y :: Stored(shards', y) <==> Stored(shards, y) && y != shards[f][q]
  {
    hide RemoveAt, OrderedShards, Stored;
    var shards' := RemovedFrom(shards, f, q);
    RemovedSorted(rank, shards, f, q);
    forall y
      ensures Stored(shards', y) <==> Stored(shards, y) && y != shards[f][q]
    {
      RemovedStored(rank, shards, f, q, y);
    }
  }

  lemma {:induction false} RemovedSorted(rank: Ranking, shards: Shards, f: nat, q: nat)
    requires OrderedShards(rank, shards) && InShard(shards, f, q)
    ensures OrderedShards(rank, RemovedFrom(shards, f, q))
  {
    var shards' := RemovedFrom(shards, f, q);
    forall i | 0 <= i < |shards'|
      ensures Sorted(rank, shards'[i])
    {
      assert Sorted(rank, shards[i]);
    }
    forall i, p, j, r | InShard(shards', i, p) && InShard(shards', j, r) && i != j
      ensures rank(shards'[i][p].key) != rank(shards'[j][r].key)
    {
      StillIn(shards, f, q, i, p);
      StillIn(shards, f, q, j, r);
    }
  }

  lemma {:induction false} RemovedStored(rank: Ranking, shards: Shards, f: nat, q: nat, y: Record)
    requires OrderedShards(rank, shards) && InShard(shards, f, q)
    ensures Stored(RemovedFrom(shards, f, q), y) <==> Stored(shards, y) && y != shards[f][q]
  {
    hide OrderedShards, RemoveAt, RemovedFrom;
    var shards' := RemovedFrom(shards, f, q);
    if i, p :| InShard(shards', i, p) && shards'[i][p] == y {
      StillIn(shards, f, q, i, p);
      var p0 := if i == f && p >= q then p + 1 else p;
      assert InShard(shards, i, p0);
      OtherRecord(rank, shards, i, p0, f, q);
    }
    if i, p :| InShard(shards, i, p) && shards[i][p] == y && y != shards[f][q] {
      StaysIn(shards, f, q, i, p);
    }
  }

  lemma {:induction false} OtherRecord(rank: Ranking, shards: Shards, i: int, p: int, j: int, q: int)
    requires OrderedShards(rank, shards) && InShard(shards, i, p) && InShard(shards, j, q) && (i != j || p != q)
    ensures shards[i][p] != shards[j][q]
  {
    if shards[i][p] == shards[j][q] {
      SameRank(rank, shards, i, p, j, q);
    }
  }

  lemma {:induction false} StaysIn(shards: Shards, f: nat, q: nat, i: int, p: int)
    requires InShard(shards, f, q) && InShard(shards, i, p) && (i != f || p != q)
    ensures Stored(RemovedFrom(shards, f, q), shards[i][p])
  {
    var shards' := RemovedFrom(shards, f, q);
    var p' := if i == f && p > q then p - 1 else p;
    assert InShard(shards', i, p') && shards'[i][p'] == shards[i][p];
  }

  lemma {:induction false} RemovedHeap(shards: Shards, pos: seq<int>, heap: set<nat>, f: nat, heap': set<nat>)
    requires |pos| == |shards| && OnRecords(shards, pos, heap) && f in heap && InShard(shards, f, pos[f])
    requires heap' == if pos[f] < |RemovedFrom(shards, f, pos[f])[f]| then heap else heap - {f}
    ensures OnRecords(RemovedFrom(shards, f, pos[f]), pos, heap')
  {
  }

  /** Going forwards, the front after a removal is the least record above the removed one. */
  lemma {:induction false} RemoveForwards(rank: Ranking, shards: Shards, pos: seq<int>, heap: set<nat>, x: Record,
                                          f: nat, heap': set<nat>) returns (cur: Option<Record>)
    requires OrderedShards(rank, shards) && Ascending(rank, shards, pos, heap, Some(x))
    requires IsFront(rank, shards, pos, heap, f, true) && OnRecords(RemovedFrom(shards, f, pos[f]), pos, heap')
    ensures shards[f][pos[f]] == x
    ensures var shards' := RemovedFrom(shards, f, pos[f]);
            Ascending(rank, shards', pos, heap', cur) && LeastAbove(rank, shards', rank(x.key), cur)
  {
    hide OrderedShards, LeastAbove;
    FrontIs(rank, shards, pos, heap, x, f);
    RemovedSorted(rank, shards, f, pos[f]);
    var r, shards' := rank(x.key), RemovedFrom(shards, f, pos[f]);
    forall i | 0 <= i < |shards'|
      ensures pos[i] == RecordAbove(rank, shards'[i], r)
    {
      SlotAbove(rank, shards, pos, x, f, i);
      if i == f {
        AboveHere(rank, shards'[f], pos[f], r);
      }
    }
    cur := SettleAbove(rank, shards', pos, heap', r);
  }

  /** Going backwards, the front is also what the ascending order needs exactly when it is alone in
      the heap. */
  lemma {:induction false} RemovableBackwards(rank: Ranking, shards: Shards, pos: seq<int>, heap: set<nat>, f: nat)
    requires OrderedShards(rank, shards) && |pos| == |shards| && OnRecords(shards, pos, heap)
    requires IsFront(rank, shards, pos, heap, f, false)
    ensures IsFront(rank, shards, pos, heap, f, true) <==> |heap| == 1
  {
    if |heap| == 1 {
      AloneInHeap(heap, f);
    } else {
      var g := AnotherSlot(heap, f);
      assert InShard(shards, g, pos[g]);
      assert rank(shards[g][pos[g]].key) < rank(shards[f][pos[f]].key);
    }
  }

  lemma {:induction false} AnotherSlot(heap: set<nat>, f: nat) returns (g: nat)
    requires f in heap && |heap| != 1
    ensures g in heap && g != f
  {
    assert heap == (heap - {f}) + {f};
    g :| g in heap - {f};
  }

  /** After a removal with a lone slot the iterator is on the next record exactly when no other
      shard has a record above the removed one and below the one it is on. */
  lemma {:induction false} LandsOnNext(rank: Ranking, shards: Shards, pos: seq<int>, x: Record, f: nat)
    requires OrderedShards(rank, shards) && |pos| == |shards|
    requires f < |shards| && InShard(shards, f, pos[f]) && shards[f][pos[f]] == x
    ensures var shards' := RemovedFrom(shards, f, pos[f]);
            var landed := if pos[f] < |shards'[f]| then Some(shards'[f][pos[f]]) else None;
            LeastAbove(rank, shards', rank(x.key), landed) <==>
            forall i, p :: InShard(shards, i, p) && i != f && rank(x.key) < rank(shards[i][p].key) ==>
              landed.Some? && rank(landed.value.key) < rank(shards[i][p].key)
  {
    var q := pos[f];
    var shards' := RemovedFrom(shards, f, q);
    var landed := if q < |shards'[f]| then Some(shards'[f][q]) else None;
    assert Sorted(rank, shards[f]);
    if landed.Some? {
      assert InShard(shards', f, q) && Stored(shards', landed.value);
      assert rank(shards[f][q].key) < rank(shards[f][q + 1].key);
    }
    if forall i, p :: InShard(shards, i, p) && i != f && rank(x.key) < rank(shards[i][p].key) ==>
         landed.Some? && rank(landed.value.key) < rank(shards[i][p].key) {
      LandsOnLeast(rank, shards, q, x, f, landed);
    }
    if LeastAbove(rank, shards', rank(x.key), landed) {
      LeastElsewhere(rank, shards, q, x, f, landed);
    }
  }

  lemma {:induction false} LandsOnLeast(rank: Ranking, shards: Shards, q: nat, x: Record, f: nat,
                                        landed: Option<Record>)
    requires OrderedShards(rank, shards) && InShard(shards, f, q) && shards[f][q] == x
    requires landed == if q + 1 < |shards[f]| then Some(shards[f][q + 1]) else None
    requires forall i, p :: InShard(shards, i, p) && i != f && rank(x.key) < rank(shards[i][p].key) ==>
               landed.Some? && rank(landed.value.key) < rank(shards[i][p].key)
    ensures LeastAbove(rank, RemovedFrom(shards, f, q), rank(x.key), landed)
  {
    var shards' := RemovedFrom(shards, f, q);
    assert Sorted(rank, shards[f]);
    forall i, p | InShard(shards', i, p) && rank(x.key) < rank(shards'[i][p].key)
      ensures landed.Some? && rank(landed.value.key) <= rank(shards'[i][p].key)
    {
      StillIn(shards, f, q, i, p);
    }
    if landed.Some? {
      assert InShard(shards', f, q) && shards'[f][q] == landed.value;
    }
  }

  lemma {:induction false} LeastElsewhere(rank: Ranking, shards: Shards, q: nat, x: Record, f: nat,
                                          landed: Option<Record>)
    requires OrderedShards(rank, shards) && InShard(shards, f, q) && shards[f][q] == x
    requires landed == if q + 1 < |shards[f]| then Some(shards[f][q + 1]) else None
    requires LeastAbove(rank, RemovedFrom(shards, f, q), rank(x.key), landed)
    ensures forall i, p :: InShard(shards, i, p) && i != f && rank(x.key) < rank(shards[i][p].key) ==>
              landed.Some? && rank(landed.value.key) < rank(shards[i][p].key)
  {
    var shards' := RemovedFrom(shards, f, q);
    forall i, p | InShard(shards, i, p) && i != f && rank(x.key) < rank(shards[i][p].key)
      ensures landed.Some? && rank(landed.value.key) < rank(shards[i][p].key)
    {
      assert InShard(shards', i, p) && shards'[i][p] == shards[i][p];
      if landed.Some? {
        assert InShard(shards, f, q + 1);
      }
    }
  }

  /** Two shards with a record each: going backwards the front is the greater record, which the
      ascending order does not admit as a front. */
  method NotRemovableBackwards(rank: Ranking, a: Record, b: Record) returns (iter: ShardIterator, f: nat)
    requires rank(a.key) < rank(b.key)
    ensures fresh(iter) && iter.Valid() && !iter.asc && iter.cur == Some(b) && |iter.heap| == 2
    ensures |iter.pos| == |iter.shards|
    ensures IsFront(rank, iter.shards, iter.pos, iter.heap, f, false)
    ensures !IsFront(rank, iter.shards, iter.pos, iter.heap, f, true)
  {
    hide OrderedShards, Descending, Ascending, GreatestUpTo;
    OneEach(rank, a, b);
    iter := new ShardIterator(rank, [[a], [b]]);
    iter.Last();
    BothLast(rank, iter.shards, iter.pos, iter.heap, a, b, iter.cur);
    f := iter.Front();
  }

  lemma {:induction false} BothLast(rank: Ranking, shards: Shards, pos: seq<int>, heap: set<nat>, a: Record,
                                    b: Record, cur: Option<Record>)
    requires rank(a.key) < rank(b.key) && shards == [[a], [b]]
    requires Descending(rank, shards, pos, heap, cur) && GreatestUpTo(rank, shards, 1.0, cur)
    ensures cur == Some(b) && heap == {0, 1} && pos == [0, 0] && |heap| == 2
  {
    hide Descending, RecordAbove;
    assert InShard(shards, 1, 0) && shards[1][0] == b;
    assert cur.Some? && rank(b.key) <= rank(cur.value.key);
    var i, p :| InShard(shards, i, p) && shards[i][p] == cur.value;
    assert cur.value == if i == 0 then a else b;
    BothPlaced(rank, shards, pos, heap, a, b);
  }

  lemma {:induction false} BothPlaced(rank: Ranking, shards: Shards, pos: seq<int>, heap: set<nat>, a: Record,
                                      b: Record)
    requires rank(a.key) < rank(b.key) && shards == [[a], [b]] && Descending(rank, shards, pos, heap, Some(b))
    ensures heap == {0, 1} && pos == [0, 0] && |heap| == 2
  {
    hide RecordAbove, Stored;
    assert shards[0] == [a] && shards[1] == [b];
    AboveHere(rank, [a], 1, rank(b.key));
    AboveHere(rank, [b], 1, rank(b.key));
    assert pos[0] == 0 && pos[1] == 0;
    assert heap == {0, 1};
  }

  /** Three records in two shards: a removal with a lone slot passes the middle record over. */
  method RemovalSkips(rank: Ranking, a: Record, b: Record, c: Record) returns (iter: ShardIterator, reached: Record)
    requires rank(a.key) < rank(b.key) < rank(c.key)
    ensures fresh(iter) && Stored(iter.shards, b) && reached == c
    ensures iter.heap == {0} && |iter.pos| == |iter.shards| && IsFront(rank, iter.shards, iter.pos, iter.heap, 0, true)
    ensures iter.shards[0][iter.pos[0]] == reached
  {
    hide OrderedShards, Descending, Ascending, GreatestUpTo, Stored, RemovedAlone;
    TwoShards(rank, a, b, c);
    iter := new ShardIterator(rank, [[a, c], [b]]);
    iter.JumpLower(a.key, true);
    LoneFirst(rank, iter.shards, iter.pos, iter.heap, a, b, c, iter.cur);
    var ok := iter.Remove();
    AloneFirst(iter.shards, iter.pos, iter.heap, a, b, c);
    reached := iter.shards[0][iter.pos[0]];
  }

  lemma {:induction false} TwoShards(rank: Ranking, a: Record, b: Record, c: Record)
    requires rank(a.key) < rank(b.key) < rank(c.key)
    ensures OrderedShards(rank, [[a, c], [b]])
  {
    var shards := [[a, c], [b]];
    assert shards[0] == [a, c] && shards[1] == [b];
    assert Sorted(rank, [a, c]) && Sorted(rank, [b]);
    forall i, p, j, q | InShard(shards, i, p) && InShard(shards, j, q) && i != j
      ensures rank(shards[i][p].key) != rank(shards[j][q].key)
    {
      assert shards[i][p] == if i == 1 then b else if p == 0 then a else c;
      assert shards[j][q] == if j == 1 then b else if q == 0 then a else c;
    }
  }

  lemma {:induction false} OneEach(rank: Ranking, a: Record, b: Record)
    requires rank(a.key) < rank(b.key)
    ensures OrderedShards(rank, [[a], [b]])
  {
    var shards := [[a], [b]];
    assert shards[0] == [a] && shards[1] == [b];
  }

  lemma {:induction false} LoneFirst(rank: Ranking, shards: Shards, pos: seq<int>, heap: set<nat>, a: Record,
                                     b: Record, c: Record, cur: Option<Record>)
    requires rank(a.key) < rank(b.key) < rank(c.key) && shards == [[a, c], [b]]
    requires Descending(rank, shards, pos, heap, cur) && GreatestUpTo(rank, shards, rank(a.key), cur)
    ensures cur == Some(a) && pos == [0, -1] && heap == {0}
  {
    assert InShard(shards, 0, 0) && shards[0] == [a, c] && shards[1] == [b];
    AboveHere(rank, shards[0], 1, rank(a.key));
    AboveHere(rank, shards[1], 0, rank(a.key));
    var i, p :| InShard(shards, i, p) && Some(shards[i][p]) == cur;
    assert rank(cur.value.key) == rank(a.key);
  }

  lemma {:induction false} AloneFirst(shards': Shards, pos: seq<int>, heap: set<nat>, a: Record, b: Record, c: Record)
    requires RemovedAlone([[a, c], [b]], shards', pos, heap, a) && pos == [0, -1]
    ensures shards' == [[c], [b]] && heap == {0} && Stored(shards', b)
  {
    var f :| AloneAt([[a, c], [b]], shards', pos, heap, a, f);
    assert f == 0 && RemoveAt([a, c], 0) == [c];
    assert InShard(shards', 1, 0) && shards'[1][0] == b;
  }

  /** Every record once, in ascending order: First and then Next to the end. */
  method ListForwards(iter: ShardIterator) returns (out: seq<Record>)
    requires iter.Valid()
    modifies iter`pos, iter`heap, iter`asc, iter`cur
    ensures Sorted(iter.rank, out) && forall x :: x in out <==> Stored(iter.shards, x)
  {
    hide OrderedShards, Ascending, Descending, Stored, LeastAbove, LeastFrom;
    out := [];
    ghost var left := Pairs(iter.shards);
    iter.First();
    ListStarts(iter.rank, iter.shards, iter.cur);
    var rec := iter.Get();
    while rec.Some?
      invariant iter.Valid() && rec == iter.cur
      invariant Sorted(iter.rank, out) && ListedBelow(iter.rank, iter.shards, out, rec)
      invariant rec.Some? ==> Stored(iter.shards, rec.value) && LeftFrom(iter.rank, iter.shards, left, rec.value)
      decreases |left|
    {
      var x := rec.value;
      out := out + [x];
      var ok := iter.Next();
      ListStep(iter.rank, iter.shards, out[..|out| - 1], x, iter.cur);
      assert out[..|out| - 1] + [x] == out;
      left := LeftStep(iter.rank, iter.shards, left, x, iter.cur);
      rec := iter.Get();
    }
    ListEnds(iter.rank, iter.shards, out);
  }

  /** The records listed are those below the one to come. */
  ghost predicate ListedBelow(rank: Ranking, shards: Shards, out: seq<Record>, rec: Option<Record>) {
    forall x :: x in out <==> Stored(shards, x) && (rec.None? || rank(x.key) < rank(rec.value.key))
  }

  ghost function Pairs(shards: Shards): set<(int, int)> {
    set i, p | 0 <= i < |shards| && 0 <= p < |shards[i]| :: (i, p)
  }

  /** The places of the records from one on. */
  ghost predicate LeftFrom(rank: Ranking, shards: Shards, left: set<(int, int)>, rec: Record) {
    forall i, p :: InShard(shards, i, p) && rank(rec.key) <= rank(shards[i][p].key) ==> (i, p) in left
  }

  lemma {:induction false} ListStarts(rank: Ranking, shards: Shards, cur: Option<Record>)
    requires LeastFrom(rank, shards, 0.0, cur)
    ensures ListedBelow(rank, shards, [], cur)
    ensures cur.Some? ==> Stored(shards, cur.value) && LeftFrom(rank, shards, Pairs(shards), cur.value)
  {
    forall x | Stored(shards, x)
      ensures cur.Some? && rank(cur.value.key) <= rank(x.key)
    {
      var i, p :| InShard(shards, i, p) && shards[i][p] == x;
      assert 0.0 <= rank(shards[i][p].key);
    }
  }

  lemma {:induction false} ListStep(rank: Ranking, shards: Shards, out: seq<Record>, x: Record, cur: Option<Record>)
    requires OrderedShards(rank, shards) && Stored(shards, x) && Sorted(rank, out)
    requires ListedBelow(rank, shards, out, Some(x)) && LeastAbove(rank, shards, rank(x.key), cur)
    ensures Sorted(rank, out + [x]) && ListedBelow(rank, shards, out + [x], cur)
    ensures cur.Some? ==> Stored(shards, cur.value)
  {
    forall y
      ensures y in out + [x] <==> Stored(shards, y) && (cur.None? || rank(y.key) < rank(cur.value.key))
    {
      if Stored(shards, y) {
        BesideLeast(rank, shards, x, y, cur);
      }
    }
    forall i | 0 <= i < |out|
      ensures rank(out[i].key) < rank(x.key)
    {
      assert out[i] in out;
    }
  }

  /** A stored record is at most x, or at least the next one. */
  lemma {:induction false} BesideLeast(rank: Ranking, shards: Shards, x: Record, y: Record, cur: Option<Record>)
    requires OrderedShards(rank, shards) && Stored(shards, x) && Stored(shards, y)
    requires LeastAbove(rank, shards, rank(x.key), cur)
    ensures (cur.None? || rank(y.key) < rank(cur.value.key)) <==> rank(y.key) < rank(x.key) || y == x
  {
    var i, p :| InShard(shards, i, p) && shards[i][p] == x;
    var j, q :| InShard(shards, j, q) && shards[j][q] == y;
    if rank(x.key) == rank(y.key) {
      SameRank(rank, shards, i, p, j, q);
    }
  }

  lemma {:induction false} LeftStep(rank: Ranking, shards: Shards, left: set<(int, int)>, x: Record,
                                    cur: Option<Record>)
    returns (left': set<(int, int)>)
    requires OrderedShards(rank, shards) && Stored(shards, x) && LeftFrom(rank, shards, left, x)
    requires LeastAbove(rank, shards, rank(x.key), cur)
    ensures |left'| < |left| && (cur.Some? ==> LeftFrom(rank, shards, left', cur.value))
  {
    var i, p :| InShard(shards, i, p) && shards[i][p] == x;
    left' := left - {(i, p)};
  }

  lemma {:induction false} ListEnds(rank: Ranking, shards: Shards, out: seq<Record>)
    requires ListedBelow(rank, shards, out, None)
    ensures forall x :: x in out <==> Stored(shards, x)
  {
  }

  /** Every record once, in descending order: Last and then Previous to the beginning. */
  method ListBackwards(iter: ShardIterator) returns (out: seq<Record>)
    requires iter.Valid()
    modifies iter`pos, iter`heap, iter`asc, iter`cur
    ensures SortedBack(iter.rank, out) && forall x :: x in out <==> Stored(iter.shards, x)
  {
    hide OrderedShards, Ascending, Descending, Stored, GreatestBelow, GreatestUpTo;
    out := [];
    ghost var left := Pairs(iter.shards);
    iter.Last();
    BackStarts(iter.rank, iter.shards, iter.cur);
    var rec := iter.Get();
    while rec.Some?
      invariant iter.Valid() && rec == iter.cur
      invariant SortedBack(iter.rank, out) && ListedAbove(iter.rank, iter.shards, out, rec)
      invariant rec.Some? ==> Stored(iter.shards, rec.value) && LeftUpTo(iter.rank, iter.shards, left, rec.value)
      decreases |left|
    {
      var x := rec.value;
      out := out + [x];
      var ok := iter.Previous();
      BackStep(iter.rank, iter.shards, out[..|out| - 1], x, iter.cur);
      assert out[..|out| - 1] + [x] == out;
      left := LeftBack(iter.rank, iter.shards, left, x, iter.cur);
      rec := iter.Get();
    }
    BackEnds(iter.rank, iter.shards, out);
  }

  /** Records in strictly descending order. */
  predicate SortedBack(rank: Ranking, rs: seq<Record>) {
    forall i, j :: 0 <= i < j < |rs| ==> rank(rs[j].key) < rank(rs[i].key)
  }

  /** The records listed are those above the one to come. */
  ghost predicate ListedAbove(rank: Ranking, shards: Shards, out: seq<Record>, rec: Option<Record>) {
    forall x :: x in out <==> Stored(shards, x) && (rec.None? || rank(rec.value.key) < rank(x.key))
  }

  ghost predicate LeftUpTo(rank: Ranking, shards: Shards, left: set<(int, int)>, rec: Record) {
    forall i, p :: InShard(shards, i, p) && rank(shards[i][p].key) <= rank(rec.key) ==> (i, p) in left
  }

  lemma {:induction false} BackStarts(rank: Ranking, shards: Shards, cur: Option<Record>)
    requires GreatestUpTo(rank, shards, 1.0, cur)
    ensures ListedAbove(rank, shards, [], cur)
    ensures cur.Some? ==> Stored(shards, cur.value) && LeftUpTo(rank, shards, Pairs(shards), cur.value)
  {
    forall x | Stored(shards, x)
      ensures cur.Some? && rank(x.key) <= rank(cur.value.key)
    {
      var i, p :| InShard(shards, i, p) && shards[i][p] == x;
      assert rank(shards[i][p].key) <= 1.0;
    }
  }

  lemma {:induction false} BackStep(rank: Ranking, shards: Shards, out: seq<Record>, x: Record, cur: Option<Record>)
    requires OrderedShards(rank, shards) && Stored(shards, x) && SortedBack(rank, out)
    requires ListedAbove(rank, shards, out, Some(x)) && GreatestBelow(rank, shards, rank(x.key), cur)
    ensures SortedBack(rank, out + [x]) && ListedAbove(rank, shards, out + [x], cur)
    ensures cur.Some? ==> Stored(shards, cur.value)
  {
    forall y
      ensures y in out + [x] <==> Stored(shards, y) && (cur.None? || rank(cur.value.key) < rank(y.key))
    {
      if Stored(shards, y) {
        BesideGreatest(rank, shards, x, y, cur);
      }
    }
    forall i | 0 <= i < |out|
      ensures rank(x.key) < rank(out[i].key)
    {
      assert out[i] in out;
    }
  }

  lemma {:induction false} BesideGreatest(rank: Ranking, shards: Shards, x: Record, y: Record, cur: Option<Record>)
    requires OrderedShards(rank, shards) && Stored(shards, x) && Stored(shards, y)
    requires GreatestBelow(rank, shards, rank(x.key), cur)
    ensures (cur.None? || rank(cur.value.key) < rank(y.key)) <==> rank(x.key) < rank(y.key) || y == x
  {
    var i, p :| InShard(shards, i, p) && shards[i][p] == x;
    var j, q :| InShard(shards, j, q) && shards[j][q] == y;
    if rank(x.key) == rank(y.key) {
      SameRank(rank, shards, i, p, j, q);
    }
  }

  lemma {:induction false} LeftBack(rank: Ranking, shards: Shards, left: set<(int, int)>, x: Record,
                                    cur: Option<Record>)
    returns (left': set<(int, int)>)
    requires OrderedShards(rank, shards) && Stored(shards, x) && LeftUpTo(rank, shards, left, x)
    requires GreatestBelow(rank, shards, rank(x.key), cur)
    ensures |left'| < |left| && (cur.Some? ==> LeftUpTo(rank, shards, left', cur.value))
  {
    var i, p :| InShard(shards, i, p) && shards[i][p] == x;
    left' := left - {(i, p)};
  }

  lemma {:induction false} BackEnds(rank: Ranking, shards: Shards, out: seq<Record>)
    requires ListedAbove(rank, shards, out, None)
    ensures forall x :: x in out <==> Stored(shards, x)
  {
  }

  lemma {:induction false} AllAbove(rank: Ranking, shards: Shards)
    ensures forall i :: 0 <= i < |shards| ==> RecordFrom(rank, shards[i], 0.0) == 0
  {
    forall i | 0 <= i < |shards|
      ensures RecordFrom(rank, shards[i], 0.0) == 0
    {
      FromHere(rank, shards[i], 0, 0.0);
    }
  }

  lemma {:induction false} AllBelow(rank: Ranking, shards: Shards)
    ensures forall i :: 0 <= i < |shards| ==> RecordAbove(rank, shards[i], 1.0) == |shards[i]|
  {
    forall i | 0 <= i < |shards|
      ensures RecordAbove(rank, shards[i], 1.0) == |shards[i]|
    {
      AboveHere(rank, shards[i], |shards[i]|, 1.0);
    }
  }

  lemma {:induction false} InHeap(rank: Ranking, shards: Shards, pos: seq<int>, heap: set<nat>, x: Record, asc: bool)
    requires OrderedShards(rank, shards)
    requires if asc then Ascending(rank, shards, pos, heap, Some(x)) else Descending(rank, shards, pos, heap, Some(x))
    ensures heap != {}
  {
    var i, p :| InShard(shards, i, p) && shards[i][p] == x;
    BothSides(rank, shards, i, p, rank(x.key));
    assert i in heap;
  }

  lemma {:induction false} CurrentStored(rank: Ranking, shards: Shards, pos: seq<int>, heap: set<nat>, x: Record,
                                         asc: bool)
    requires if asc then Ascending(rank, shards, pos, heap, Some(x)) else Descending(rank, shards, pos, heap, Some(x))
    ensures Stored(shards, x)
  {
  }

  /** Jumping to the key of a stored record finds that record. */
  lemma {:induction false} Again(rank: Ranking, shards: Shards, x: Record, cur: Option<Record>)
    requires OrderedShards(rank, shards) && Stored(shards, x) && LeastFrom(rank, shards, rank(x.key), cur)
    ensures cur == Some(x)
  {
    var i, p :| InShard(shards, i, p) && shards[i][p] == x;
    var j, q :| InShard(shards, j, q) && Some(shards[j][q]) == cur;
    SameRank(rank, shards, i, p, j, q);
  }

  lemma {:induction false} AgainBack(rank: Ranking, shards: Shards, x: Record, cur: Option<Record>)
    requires OrderedShards(rank, shards) && Stored(shards, x) && GreatestUpTo(rank, shards, rank(x.key), cur)
    ensures cur == Some(x)
  {
    var i, p :| InShard(shards, i, p) && shards[i][p] == x;
    var j, q :| InShard(shards, j, q) && Some(shards[j][q]) == cur;
    SameRank(rank, shards, i, p, j, q);
  }

  lemma {:induction false} Reheaped(shards: Shards, pos: seq<int>, heap: set<nat>, pos': seq<int>, heap': set<nat>,
                                    f: nat, step: int)
    requires |pos| == |shards| && OnRecords(shards, pos, heap) && f < |shards| && f in heap
    requires pos' == pos[f := pos[f] + step]
    requires heap' == if 0 <= pos'[f] < |shards[f]| then heap else heap - {f}
    ensures OnRecords(shards, pos', heap')
  {
  }
}
