/** The validator of a hash database file, and what it accepts and counts. */
module HashValidate {
  import opened Common
  import opened HashStore
  import opened HashAppend
  import opened HashInPlace
  import opened RecordSize
  import opened HashDatabase

  datatype Verdict = Fine | WrongBucket | NotFound

  /** The walk along every bucket chain ends: `chains` are the offsets it meets. */
  ghost predicate Walkable(s: Store, chains: Chains, bucketOf: Bytes -> nat) {
    && BucketsOk(s, bucketOf) && |chains| == |s.buckets|
    && forall b :: 0 <= b < |chains| ==> Linked(s.recs, s.buckets[b], chains[b])
  }

  /** A record on the chain that accounts for the record at `offset`: itself, or in appending mode
      a newer one for the same key. */
  predicate Answers(recs: Records, o: nat, appending: bool, offset: nat)
    requires offset in recs
  {
    o == offset || (appending && o > offset && o in recs && recs[o].key == recs[offset].key)
  }

  /** Position `i` of the chain accounts for the record, and all before it are of its bucket. */
  predicate AnsweredAt(recs: Records, bucketOf: Bytes -> nat, c: seq<nat>, appending: bool, offset: nat, i: nat)
    requires offset in recs && AllIn(recs, c)
  {
    && i < |c| && Answers(recs, c[i], appending, offset)
    && forall j :: 0 <= j < i ==> bucketOf(recs[c[j]].key) == bucketOf(recs[offset].key)
  }

  predicate ChainPasses(recs: Records, bucketOf: Bytes -> nat, c: seq<nat>, appending: bool, offset: nat)
    requires offset in recs && AllIn(recs, c)
  {
    exists i | 0 <= i < |c| :: AnsweredAt(recs, bucketOf, c, appending, offset, i)
  }

  predicate ChildPasses(recs: Records, bucketOf: Bytes -> nat, offset: nat)
    requires offset in recs
  {
    var child := recs[offset].child;
    child == 0 || (child in recs && bucketOf(recs[child].key) == bucketOf(recs[offset].key))
  }

  /** Looks for a record on the chain of its bucket. */
  method CheckHashChain(s: Store, bucketOf: Bytes -> nat, appending: bool, offset: nat, ghost chains: Chains)
    returns (verdict: Verdict)
    requires Walkable(s, chains, bucketOf) && offset in s.recs
    ensures verdict.Fine? <==>
              ChainPasses(s.recs, bucketOf, chains[bucketOf(s.recs[offset].key)], appending, offset)
    ensures verdict.Fine? ==>
              var c: seq<nat> := chains[bucketOf(s.recs[offset].key)];
              offset in c || (appending && exists i :: 0 <= i < |c| && c[i] > offset &&
                                                       s.recs[c[i]].key == s.recs[offset].key)
    ensures verdict.NotFound? ==>
              forall i :: 0 <= i < |chains[bucketOf(s.recs[offset].key)]| ==>
                !Answers(s.recs, chains[bucketOf(s.recs[offset].key)][i], appending, offset)
  {
    var key := s.recs[offset].key;
    var b := bucketOf(key);
    var current := s.buckets[b];
    ghost var c := chains[b];
    ghost var i := 0;
    assert Linked(s.recs, s.buckets[b], c);
    while current > 0
      invariant 0 <= i <= |c| && current == (if i < |c| then c[i] else 0)
      invariant forall j :: 0 <= j < i ==>
                  !Answers(s.recs, c[j], appending, offset) && bucketOf(s.recs[c[j]].key) == b
      decreases |c| - i
    {
      if current == offset {
        assert AnsweredAt(s.recs, bucketOf, c, appending, offset, i);
        return Fine;
      }
      var rec := s.recs[current];
      if bucketOf(rec.key) != b {
        return WrongBucket;
      }
      if appending && current > offset && rec.key == key {
        assert AnsweredAt(s.recs, bucketOf, c, appending, offset, i);
        return Fine;
      }
      current := rec.child;
      i := i + 1;
    }
    return NotFound;
  }

  predicate Increasing(offs: seq<nat>) {
    forall i, j :: 0 <= i < j < |offs| ==> offs[i] < offs[j]
  }

  lemma {:induction false} ScanSorted(recs: Records, from: nat, end: nat)
    ensures Increasing(Scan(recs, from, end))
    decreases if from < end then end - from else 0
  {
    if from < end && from in recs {
      var rest := Scan(recs, from + recs[from].size, end);
      ScanSorted(recs, from + recs[from].size, end);
      assert Scan(recs, from, end) == [from] + rest;
    }
  }

  /** No record for a key lies behind its last record. */
  lemma {:induction false} LastIsGreatest(recs: Records, offs: seq<nat>, o: nat, k: Bytes)
    requires AllIn(recs, offs) && o in offs && Matches(recs[o], k)
    requires Increasing(offs)
    ensures LastFor(recs, offs, k).Some? && LastFor(recs, offs, k).value >= o
    decreases |offs|
  {
    var n := |offs| - 1;
    if Matches(recs[offs[n]], k) {
      var i :| 0 <= i <= n && offs[i] == o;
    } else {
      assert o in offs[..n];
      LastIsGreatest(recs, offs[..n], o, k);
    }
  }

  /** The checks of the validator: tiling, the chain of every record, the bucket of every child. */
  ghost predicate Accepts(s: Store, chains: Chains, bucketOf: Bytes -> nat, inPlace: bool)
    requires Walkable(s, chains, bucketOf)
  {
    && Tiled(s.recs, s.base, s.size)
    && forall i :: 0 <= i < |Order(s)| ==> RecordPasses(s, chains, bucketOf, inPlace, Order(s)[i])
  }

  ghost predicate RecordPasses(s: Store, chains: Chains, bucketOf: Bytes -> nat, inPlace: bool, o: nat)
    requires Walkable(s, chains, bucketOf) && o in s.recs
  {
    s.recs[o].op.OpVoid? ||
    (ChainPasses(s.recs, bucketOf, chains[bucketOf(s.recs[o].key)], !inPlace, o) &&
     ChildPasses(s.recs, bucketOf, o))
  }

  /** Every file written in one mode is accepted. */
  lemma {:induction false} Complete(s: Store, chains: Chains, bucketOf: Bytes -> nat, inPlace: bool)
    requires if inPlace then InPlaceInv(s, chains, bucketOf) else Inv(s, chains, bucketOf)
    ensures Walkable(s, chains, bucketOf) && Accepts(s, chains, bucketOf, inPlace)
  {
    hide Scan, Distinct, UniqueKeys, Agree;
    if inPlace {
      InPlaceIsInv(s, chains, bucketOf);
    }
    InvWalkable(s, chains, bucketOf);
    forall i | 0 <= i < |Order(s)|
      ensures RecordPasses(s, chains, bucketOf, inPlace, Order(s)[i])
    {
      var o := Order(s)[i];
      if !s.recs[o].op.OpVoid? {
        ChainCheckPasses(s, chains, bucketOf, inPlace, o);
      }
    }
  }

  lemma {:induction false} InvWalkable(s: Store, chains: Chains, bucketOf: Bytes -> nat)
    requires Inv(s, chains, bucketOf)
    ensures Walkable(s, chains, bucketOf)
  {
    hide Layout, Agree, ChildrenOk;
    forall b | 0 <= b < |chains|
      ensures Linked(s.recs, s.buckets[b], chains[b])
    {
      assert ChainOk(s.recs, bucketOf, b, s.buckets[b], chains[b]);
    }
  }

  lemma {:induction false} ChainCheckPasses(s: Store, chains: Chains, bucketOf: Bytes -> nat, inPlace: bool,
                                            offset: nat)
    requires if inPlace then InPlaceInv(s, chains, bucketOf) else Inv(s, chains, bucketOf)
    requires offset in s.recs && !s.recs[offset].op.OpVoid?
    requires AllIn(s.recs, chains[bucketOf(s.recs[offset].key)])
    ensures ChainPasses(s.recs, bucketOf, chains[bucketOf(s.recs[offset].key)], !inPlace, offset)
  {
    hide ChainOk, Scan, Tiled, ChildrenOk, UniqueKeys;
    var key := s.recs[offset].key;
    var c := chains[bucketOf(key)];
    ChainKinds(s, chains, bucketOf, bucketOf(key));
    var i: nat;
    if inPlace {
      i :| 0 <= i < |c| && c[i] == offset;
    } else {
      ScanSorted(s.recs, s.base, s.size);
      LastIsGreatest(s.recs, Order(s), offset, key);
      var last := LastFor(s.recs, Order(s), key).value;
      assert FirstFor(s.recs, c, key) == Some(last);
      i :| 0 <= i < |c| && c[i] == last;
    }
    assert AnsweredAt(s.recs, bucketOf, c, !inPlace, offset, i);
  }

  /** What acceptance says: the sizes lead exactly to the end, every record that is not void is on the
      chain of its bucket or, when appending, overtaken there by a later one of its key, and its child is
      of the same bucket. */
  lemma {:induction false} AcceptedRecords(s: Store, chains: Chains, bucketOf: Bytes -> nat, inPlace: bool)
    requires Walkable(s, chains, bucketOf) && Accepts(s, chains, bucketOf, inPlace)
    ensures Tiled(s.recs, s.base, s.size)
    ensures forall o :: o in Order(s) && !s.recs[o].op.OpVoid? ==>
              var c: seq<nat> := chains[bucketOf(s.recs[o].key)];
              o in c || (!inPlace && exists i :: 0 <= i < |c| && c[i] > o && s.recs[c[i]].key == s.recs[o].key)
    ensures forall o :: o in Order(s) && !s.recs[o].op.OpVoid? && s.recs[o].child != 0 ==>
              s.recs[o].child in s.recs && bucketOf(s.recs[s.recs[o].child].key) == bucketOf(s.recs[o].key)
  {
    hide Scan, Tiled;
    forall o | o in Order(s) && !s.recs[o].op.OpVoid?
      ensures RecordPasses(s, chains, bucketOf, inPlace, o)
    {
      var i :| 0 <= i < |Order(s)| && Order(s)[i] == o;
    }
  }

  /** Where the chains are sound, a file is accepted as an in-place one exactly when every record that
      is not void is on its chain. */
  lemma {:induction false} SoundInPlace(s: Store, chains: Chains, bucketOf: Bytes -> nat)
    requires Chained(s, chains, bucketOf)
    ensures Walkable(s, chains, bucketOf)
    ensures Accepts(s, chains, bucketOf, true) <==> InPlaceInv(s, chains, bucketOf)
  {
    hide Scan, Tiled, Distinct, UniqueKeys, RecordPasses;
    ChainsWalkable(s, chains, bucketOf);
    if Accepts(s, chains, bucketOf, true) {
      AcceptedRecords(s, chains, bucketOf, true);
    }
    if InPlaceInv(s, chains, bucketOf) {
      Complete(s, chains, bucketOf, true);
    }
  }

  lemma {:induction false} ChainsWalkable(s: Store, chains: Chains, bucketOf: Bytes -> nat)
    requires BucketsOk(s, bucketOf) && ChainsOk(s, chains, bucketOf)
    ensures Walkable(s, chains, bucketOf)
  {
    forall b | 0 <= b < |chains|
      ensures Linked(s.recs, s.buckets[b], chains[b])
    {
      assert ChainOk(s.recs, bucketOf, b, s.buckets[b], chains[b]);
    }
  }

  /** The newest record of a chain comes first. */
  predicate NewestFirst(c: seq<nat>) {
    forall i, j :: 0 <= i < j < |c| ==> c[i] > c[j]
  }

  /** A log: sound chains with the newest record first, and no void records. */
  ghost predicate LogShaped(s: Store, chains: Chains, bucketOf: Bytes -> nat) {
    && BucketsOk(s, bucketOf) && Layout(s) && ChainsOk(s, chains, bucketOf)
    && (forall b :: 0 <= b < |chains| ==> NewestFirst(chains[b]))
    && (forall o :: o in s.recs ==> !s.recs[o].op.OpVoid?)
  }

  /** A log is accepted exactly when walking its chains gives what its records replay to, and every
      child is of its record's bucket. */
  lemma {:induction false} SoundLog(s: Store, chains: Chains, bucketOf: Bytes -> nat)
    requires LogShaped(s, chains, bucketOf)
    ensures Walkable(s, chains, bucketOf)
    ensures Accepts(s, chains, bucketOf, false) <==> Inv(s, chains, bucketOf)
    ensures Accepts(s, chains, bucketOf, false) ==> LooksUp(s, chains, bucketOf, Logged(s))
  {
    hide Scan, Tiled, RecordPasses, LooksUp, NewestFirst, Replay;
    ChainsWalkable(s, chains, bucketOf);
    if Accepts(s, chains, bucketOf, false) {
      AcceptedRecords(s, chains, bucketOf, false);
      forall k
        ensures FirstFor(s.recs, chains[bucketOf(k)], k) == LastFor(s.recs, Order(s), k)
      {
        NewestIsLast(s, chains, bucketOf, k);
      }
      InvLooksUp(s, chains, bucketOf);
    }
    if Inv(s, chains, bucketOf) {
      Complete(s, chains, bucketOf, false);
    }
  }

  lemma {:induction false} NewestIsLast(s: Store, chains: Chains, bucketOf: Bytes -> nat, k: Bytes)
    requires LogShaped(s, chains, bucketOf) && Walkable(s, chains, bucketOf)
    requires Accepts(s, chains, bucketOf, false)
    ensures FirstFor(s.recs, chains[bucketOf(k)], k) == LastFor(s.recs, Order(s), k)
  {
    hide Scan, Tiled, Accepts, LastFor, FirstFor;
    var c, offs := chains[bucketOf(k)], Order(s);
    AcceptedRecords(s, chains, bucketOf, false);
    ScanSorted(s.recs, s.base, s.size);
    var first, last := FirstFor(s.recs, c, k), LastFor(s.recs, offs, k);
    if first.Some? {
      LastIsGreatest(s.recs, offs, first.value, k);
    }
    if last.Some? {
      OnChain(s, c, k, last.value);
      FirstIsGreatest(s.recs, c, last.value, k);
    }
  }

  /** The last record of a key is overtaken by none. */
  lemma {:induction false} OnChain(s: Store, c: seq<nat>, k: Bytes, o: nat)
    requires AllIn(s.recs, c) && Layout(s) && LastFor(s.recs, Order(s), k) == Some(o) && Matches(s.recs[o], k)
    requires forall p :: p in s.recs ==> !s.recs[p].op.OpVoid?
    requires o in c || exists i :: 0 <= i < |c| && c[i] > o && s.recs[c[i]].key == k
    ensures o in c
  {
    hide Scan, Tiled, LastFor;
    if i :| 0 <= i < |c| && c[i] > o && s.recs[c[i]].key == k {
      ScanSorted(s.recs, s.base, s.size);
      LastIsGreatest(s.recs, Order(s), c[i], k);
    }
  }

  /** The first record for a key of a chain with the newest first is the newest. */
  lemma {:induction false} FirstIsGreatest(recs: Records, c: seq<nat>, o: nat, k: Bytes)
    requires AllIn(recs, c) && NewestFirst(c) && o in c && Matches(recs[o], k)
    ensures FirstFor(recs, c, k).Some? && FirstFor(recs, c, k).value >= o
  {
    if !Matches(recs[c[0]], k) {
      FirstIsGreatest(recs, c[1..], o, k);
    }
  }

  // ----- the recount -----

  /** What a record adds to the count of records. */
  function CountOf(r: Rec, inPlace: bool): int {
    match r.op
    case OpVoid => 0
    case OpSet => if inPlace then 1 else 0
    case OpAdd => 1
    case OpRemove => -1
  }

  /** What a record adds to the total size. */
  function SizeOf(r: Rec, inPlace: bool): int {
    CountOf(r, inPlace) * (|r.key| + |r.value|)
  }

  function Recount(recs: Records, offs: seq<nat>, inPlace: bool): int
    requires AllIn(recs, offs)
  {
    if |offs| == 0 then 0
    else Recount(recs, offs[..|offs| - 1], inPlace) + CountOf(recs[offs[|offs| - 1]], inPlace)
  }

  function Resize(recs: Records, offs: seq<nat>, inPlace: bool): int
    requires AllIn(recs, offs)
  {
    if |offs| == 0 then 0
    else Resize(recs, offs[..|offs| - 1], inPlace) + SizeOf(recs[offs[|offs| - 1]], inPlace)
  }

  lemma {:induction false} RecountSnoc(recs: Records, offs: seq<nat>, o: nat, inPlace: bool)
    requires AllIn(recs, offs) && o in recs
    ensures Recount(recs, offs + [o], inPlace) == Recount(recs, offs, inPlace) + CountOf(recs[o], inPlace)
    ensures Resize(recs, offs + [o], inPlace) == Resize(recs, offs, inPlace) + SizeOf(recs[o], inPlace)
  {
    assert (offs + [o])[..|offs + [o]| - 1] == offs;
  }

  /** Checks every record of the file and counts them again. */
  method ValidateRecords(s: Store, bucketOf: Bytes -> nat, inPlace: bool, ghost chains: Chains)
    returns (ok: bool, count: int, size: int)
    requires Walkable(s, chains, bucketOf) && s.base <= s.size
    ensures ok <==> Accepts(s, chains, bucketOf, inPlace)
    ensures ok ==> Tiled(s.recs, s.base, s.size)
    ensures ok ==>
              forall o :: o in Order(s) && !s.recs[o].op.OpVoid? ==>
                var c: seq<nat> := chains[bucketOf(s.recs[o].key)];
                o in c || (!inPlace && exists i :: 0 <= i < |c| && c[i] > o && s.recs[c[i]].key == s.recs[o].key)
    ensures ok ==>
              forall o :: o in Order(s) && !s.recs[o].op.OpVoid? && s.recs[o].child != 0 ==>
                s.recs[o].child in s.recs && bucketOf(s.recs[s.recs[o].child].key) == bucketOf(s.recs[o].key)
    ensures ok ==> count == Recount(s.recs, Order(s), inPlace)
    ensures ok ==> size == Resize(s.recs, Order(s), inPlace)
  {
    hide Recount, Resize, Walkable, Scan, Tiled, CountOf, SizeOf, RecordPasses;
    var offset := s.base;
    count, size := 0, 0;
    ghost var done: seq<nat> := [];
    StartCount(s.recs, inPlace);
    SplitEmpty(s.recs, s.base, s.size);
    while offset < s.size
      invariant s.base <= offset && Tiled(s.recs, s.base, s.size) == Tiled(s.recs, offset, s.size)
      invariant AllIn(s.recs, done) && done + Scan(s.recs, offset, s.size) == Order(s)
      invariant forall i :: 0 <= i < |done| ==> RecordPasses(s, chains, bucketOf, inPlace, done[i])
      invariant count == Recount(s.recs, done, inPlace) && size == Resize(s.recs, done, inPlace)
      decreases s.size - offset
    {
      TileStep(s.recs, offset, s.size);
      if offset !in s.recs {
        return false, 0, 0;
      }
      SplitStep(s.recs, done, offset, s.size);
      var rec := s.recs[offset];
      var fine := CheckRecord(s, bucketOf, inPlace, offset, chains);
      assert Order(s)[|done|] == offset;
      if !fine {
        return false, 0, 0;
      }
      count, size := count + CountOf(rec, inPlace), size + SizeOf(rec, inPlace);
      RecountSnoc(s.recs, done, offset, inPlace);
      done := done + [offset];
      offset := offset + rec.size;
    }
    SplitEnd(s.recs, offset, s.size);
    assert done + [] == done;
    ok := offset == s.size;
    if ok {
      AcceptedRecords(s, chains, bucketOf, inPlace);
    }
  }

  /** The chain check of one record, and the bucket of its child. */
  method CheckRecord(s: Store, bucketOf: Bytes -> nat, inPlace: bool, offset: nat, ghost chains: Chains)
    returns (fine: bool)
    requires Walkable(s, chains, bucketOf) && offset in s.recs
    ensures fine <==> RecordPasses(s, chains, bucketOf, inPlace, offset)
  {
    hide Walkable, ChainPasses;
    fine := true;
    if !s.recs[offset].op.OpVoid? {
      var verdict := CheckHashChain(s, bucketOf, !inPlace, offset, chains);
      fine := verdict.Fine? && ChildPasses(s.recs, bucketOf, offset);
    }
  }

  lemma {:induction false} StartCount(recs: Records, inPlace: bool)
    ensures Recount(recs, [], inPlace) == 0 && Resize(recs, [], inPlace) == 0
  {
  }

  lemma {:induction false} SplitEmpty(recs: Records, from: nat, end: nat)
    ensures [] + Scan(recs, from, end) == Scan(recs, from, end)
  {
  }

  lemma {:induction false} SplitStep(recs: Records, done: seq<nat>, offset: nat, end: nat)
    requires offset < end && offset in recs
    ensures done + [offset] + Scan(recs, offset + recs[offset].size, end) ==
            done + Scan(recs, offset, end)
  {
  }

  lemma {:induction false} SplitEnd(recs: Records, offset: nat, end: nat)
    requires offset >= end
    ensures Tiled(recs, offset, end) == (offset == end) && Scan(recs, offset, end) == []
  {
  }

  // ----- the recount of an in-place file -----

  /** No two live records have the same key, and there are no removals. */
  predicate OneEach(recs: Records, offs: seq<nat>)
    requires AllIn(recs, offs)
  {
    && (forall i :: 0 <= i < |offs| ==> !recs[offs[i]].op.OpRemove?)
    && forall i, j :: 0 <= i < j < |offs| && Live(recs[offs[i]]) && Live(recs[offs[j]]) ==>
         recs[offs[i]].key != recs[offs[j]].key
  }

  lemma {:induction false} RecountOneEach(recs: Records, offs: seq<nat>)
    requires AllIn(recs, offs) && OneEach(recs, offs)
    ensures Recount(recs, offs, true) == |Replay(recs, offs)|
    ensures Resize(recs, offs, true) == DataSize(Replay(recs, offs))
  {
    hide DataSize, LastFor;
    if |offs| == 0 {
      EmptySize();
    } else {
      var n := |offs| - 1;
      RecountOneEach(recs, offs[..n]);
      var m, r := Replay(recs, offs[..n]), recs[offs[n]];
      if Live(r) {
        ReplayGet(recs, offs[..n], r.key);
        assert r.key !in m;
        PutSizes(m, r.key, r.value);
      }
    }
  }

  lemma {:induction false} EmptySize()
    ensures DataSize(map[]) == 0
  {
  }

  /** The recount of an in-place file is its number of records, and the total of their sizes. */
  lemma {:induction false} RecountInPlace(s: Store, chains: Chains, bucketOf: Bytes -> nat)
    requires InPlaceInv(s, chains, bucketOf)
    ensures Recount(s.recs, Order(s), true) == |Logged(s)|
    ensures Resize(s.recs, Order(s), true) == DataSize(Logged(s))
  {
    hide Recount, Resize, DataSize, Tiled, Scan, ChainOk;
    ScanSorted(s.recs, s.base, s.size);
    var offs := Order(s);
    forall i, j | 0 <= i < j < |offs| && Live(s.recs[offs[i]]) && Live(s.recs[offs[j]])
      ensures s.recs[offs[i]].key != s.recs[offs[j]].key
    {
      LiveApart(s, chains, bucketOf, offs[i], offs[j]);
    }
    RecountOneEach(s.recs, offs);
  }

  /** Two live records of an in-place file have different keys. */
  lemma {:induction false} LiveApart(s: Store, chains: Chains, bucketOf: Bytes -> nat, o: nat, p: nat)
    requires InPlaceInv(s, chains, bucketOf) && o in s.recs && p in s.recs && o != p
    requires Live(s.recs[o]) && Live(s.recs[p])
    ensures s.recs[o].key != s.recs[p].key
  {
    hide Layout, ChainOk;
    var c, d := chains[bucketOf(s.recs[o].key)], chains[bucketOf(s.recs[p].key)];
    InChain(s, chains, bucketOf, bucketOf(s.recs[o].key));
    var x :| 0 <= x < |c| && c[x] == o;
    var y :| 0 <= y < |d| && d[y] == p;
    assert UniqueKeys(s.recs, c);
  }

  // ----- the recount of an appended file -----

  /** An addition adds a missing key and a setting sets a present one. */
  predicate Proper(m: Contents, r: Rec) {
    && !r.op.OpVoid?
    && (r.op.OpAdd? ==> r.key !in m)
    && (r.op.OpSet? ==> r.key in m)
  }

  predicate WellLogged(recs: Records, offs: seq<nat>)
    requires AllIn(recs, offs)
  {
    |offs| == 0 ||
    (WellLogged(recs, offs[..|offs| - 1]) &&
     Proper(Replay(recs, offs[..|offs| - 1]), recs[offs[|offs| - 1]]))
  }

  /** The number of removals of keys that were not there. */
  function Phantoms(recs: Records, offs: seq<nat>): nat
    requires AllIn(recs, offs)
  {
    if |offs| == 0 then 0
    else
      var r := recs[offs[|offs| - 1]];
      Phantoms(recs, offs[..|offs| - 1]) +
      if r.op.OpRemove? && r.key !in Replay(recs, offs[..|offs| - 1]) then 1 else 0
  }

  /** The recount of a log falls short by the removals of missing keys. */
  lemma {:induction false} RecountLog(recs: Records, offs: seq<nat>)
    requires AllIn(recs, offs) && WellLogged(recs, offs)
    ensures Recount(recs, offs, false) == |Replay(recs, offs)| - Phantoms(recs, offs)
  {
    if |offs| > 0 {
      var n := |offs| - 1;
      RecountLog(recs, offs[..n]);
      var m, r := Replay(recs, offs[..n]), recs[offs[n]];
      if r.op.OpRemove? {
        RemoveSizes(m, r.key);
      } else {
        PutSizes(m, r.key, r.value);
      }
    }
  }

  /** By how much one record of a log throws the recounted size off: a setting is not counted, and
      a removal counts what the removing record holds and not what was removed. */
  function Drift(m: Contents, r: Rec): int {
    match r.op
    case OpVoid => 0
    case OpAdd => 0
    case OpSet => if r.key in m then |m[r.key]| - |r.value| else 0
    case OpRemove => if r.key in m then |m[r.key]| - |r.value| else -|r.key| - |r.value|
  }

  function Drifts(recs: Records, offs: seq<nat>): int
    requires AllIn(recs, offs)
  {
    if |offs| == 0 then 0
    else Drifts(recs, offs[..|offs| - 1]) +
         Drift(Replay(recs, offs[..|offs| - 1]), recs[offs[|offs| - 1]])
  }

  /** The recounted size of a log is the size of its data and the drift of its records. */
  lemma {:induction false} ResizeLog(recs: Records, offs: seq<nat>)
    requires AllIn(recs, offs) && WellLogged(recs, offs)
    ensures Resize(recs, offs, false) == DataSize(Replay(recs, offs)) + Drifts(recs, offs)
  {
    hide DataSize;
    if |offs| == 0 {
      EmptySize();
    } else {
      var n := |offs| - 1;
      ResizeLog(recs, offs[..n]);
      ResizeStep(Replay(recs, offs[..n]), recs[offs[n]]);
    }
  }

  lemma {:induction false} ResizeStep(m: Contents, r: Rec)
    requires Proper(m, r)
    ensures DataSize(m) + SizeOf(r, false) == DataSize(ApplyRec(m, r)) + Drift(m, r)
  {
    hide DataSize;
    if r.op.OpRemove? {
      RemoveSizes(m, r.key);
    } else {
      PutSizes(m, r.key, r.value);
    }
  }

  lemma {:induction false} LogFrame(recs: Records, recs1: Records, offs: seq<nat>)
    requires AllIn(recs, offs) && SameAt(recs, recs1, offs)
    ensures WellLogged(recs1, offs) == WellLogged(recs, offs)
    ensures Phantoms(recs1, offs) == Phantoms(recs, offs) && Drifts(recs1, offs) == Drifts(recs, offs)
    ensures Replay(recs1, offs) == Replay(recs, offs)
  {
    ReplayFrame(recs, recs1, offs);
    if |offs| > 0 {
      LogFrame(recs, recs1, offs[..|offs| - 1]);
    }
  }

  lemma {:induction false} LogSnoc(recs: Records, offs: seq<nat>, o: nat)
    requires AllIn(recs, offs) && o in recs
    ensures WellLogged(recs, offs + [o]) ==
            (WellLogged(recs, offs) && Proper(Replay(recs, offs), recs[o]))
    ensures Phantoms(recs, offs + [o]) ==
            Phantoms(recs, offs) +
            if recs[o].op.OpRemove? && recs[o].key !in Replay(recs, offs) then 1 else 0
    ensures Drifts(recs, offs + [o]) == Drifts(recs, offs) + Drift(Replay(recs, offs), recs[o])
  {
    assert (offs + [o])[..|offs + [o]| - 1] == offs;
  }

  /** Appending a proper record keeps the log well formed. */
  lemma {:induction false} LogAppend(s: Store, r: Rec)
    requires Layout(s) && WellLogged(s.recs, Order(s)) && Proper(Logged(s), r)
    ensures var s1 := AppendRec(s, r);
            && WellLogged(s1.recs, Order(s1))
            && Phantoms(s1.recs, Order(s1)) ==
               Phantoms(s.recs, Order(s)) +
               (if r.op.OpRemove? && r.key !in Logged(s) then 1 else 0)
            && Drifts(s1.recs, Order(s1)) == Drifts(s.recs, Order(s)) + Drift(Logged(s), r)
  {
    hide WellLogged, Phantoms, Drifts, Drift, Scan, Tiled, Replay;
    LayoutAppend(s, r);
    LogFrame(s.recs, AppendRec(s, r).recs, Order(s));
    LogSnoc(AppendRec(s, r).recs, Order(s), s.size);
  }
}
