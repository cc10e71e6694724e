/** In-place mode: a record is overwritten where it lies when the new one fits, and otherwise
    moved to a free block or to the end of the file, its old place becoming a void record. */
module HashInPlace {
  import opened Common
  import opened HashStore
  import opened HashAppend

  predicate UniqueKeys(recs: Records, c: seq<nat>)
    requires AllIn(recs, c)
  {
    forall i, j :: 0 <= i < j < |c| ==> recs[c[i]].key != recs[c[j]].key
  }

  /** What every file write of this mode keeps: the tiling, the chains, one record a key on each
      chain, and no removal records anywhere. */
  ghost predicate Chained(s: Store, chains: Chains, bucketOf: Bytes -> nat) {
    && BucketsOk(s, bucketOf)
    && Layout(s)
    && ChainsOk(s, chains, bucketOf)
    && (forall o :: o in s.recs ==> !s.recs[o].op.OpRemove?)
    && (forall b :: 0 <= b < |chains| ==> UniqueKeys(s.recs, chains[b]))
  }

  /** Every live record is on the chain of its key's bucket, those of `except` aside. */
  ghost predicate Covered(s: Store, chains: Chains, bucketOf: Bytes -> nat, except: set<nat>)
    requires BucketsOk(s, bucketOf) && ChainsOk(s, chains, bucketOf)
  {
    forall o :: o in s.recs && !s.recs[o].op.OpVoid? && o !in except ==>
      o in chains[bucketOf(s.recs[o].key)]
  }

  /** What holds of the file in this mode, between operations. */
  ghost predicate InPlaceInv(s: Store, chains: Chains, bucketOf: Bytes -> nat) {
    Chained(s, chains, bucketOf) && Covered(s, chains, bucketOf, {})
  }

  lemma {:induction false} UniqueFirst(recs: Records, c: seq<nat>, k: Bytes, i: nat)
    requires AllIn(recs, c) && UniqueKeys(recs, c)
    requires i < |c| && Matches(recs[c[i]], k)
    ensures FirstFor(recs, c, k) == Some(c[i])
  {
    var first := FirstFor(recs, c, k);
    assert first.Some?;
    var j :| 0 <= j < |c| && c[j] == first.value;
  }

  /** The in-place invariant gives the one shared with appending mode. */
  lemma {:induction false} InPlaceIsInv(s: Store, chains: Chains, bucketOf: Bytes -> nat)
    requires InPlaceInv(s, chains, bucketOf)
    ensures Inv(s, chains, bucketOf)
  {
    forall k
      ensures FirstFor(s.recs, chains[bucketOf(k)], k) == LastFor(s.recs, Order(s), k)
    {
      InPlaceAgrees(s, chains, bucketOf, k);
    }
    InPlaceChildren(s, chains, bucketOf);
  }

  lemma {:induction false} InPlaceAgrees(s: Store, chains: Chains, bucketOf: Bytes -> nat, k: Bytes)
    requires InPlaceInv(s, chains, bucketOf)
    ensures FirstFor(s.recs, chains[bucketOf(k)], k) == LastFor(s.recs, Order(s), k)
  {
    var c := chains[bucketOf(k)];
    assert ChainOk(s.recs, bucketOf, bucketOf(k), s.buckets[bucketOf(k)], c);
    var last := LastFor(s.recs, Order(s), k);
    if last.Some? {
      var i :| 0 <= i < |c| && c[i] == last.value;
      UniqueFirst(s.recs, c, k, i);
    } else {
      assert forall i :: 0 <= i < |c| ==> c[i] in Order(s);
    }
  }

  lemma {:induction false} InPlaceChildren(s: Store, chains: Chains, bucketOf: Bytes -> nat)
    requires InPlaceInv(s, chains, bucketOf)
    ensures ChildrenOk(s, bucketOf)
  {
    forall o | o in s.recs && !s.recs[o].op.OpVoid? && s.recs[o].child != 0
      ensures && s.recs[o].child in s.recs
              && !s.recs[s.recs[o].child].op.OpVoid?
              && bucketOf(s.recs[s.recs[o].child].key) == bucketOf(s.recs[o].key)
    {
      var b := bucketOf(s.recs[o].key);
      var c := chains[b];
      assert ChainOk(s.recs, bucketOf, b, s.buckets[b], c);
      var i :| 0 <= i < |c| && c[i] == o;
      assert s.recs[c[i]].child == Succ(c, i);
    }
  }

  // ----- placing a new record at the end of the file or in a free block -----

  predicate Placeable(s: Store, n: nat, r: Rec) {
    n == s.size || (n in s.recs && s.recs[n].op.OpVoid? && s.recs[n].size == r.size)
  }

  function Place(s: Store, n: nat, r: Rec): Store {
    if n == s.size then AppendRec(s, r) else WriteRec(s, n, r)
  }

  lemma {:induction false} PlaceLayout(s: Store, n: nat, r: Rec)
    requires Layout(s) && Placeable(s, n, r)
    ensures Layout(Place(s, n, r))
    ensures n != 0
    ensures n in s.recs ==> s.recs[n].op.OpVoid?
  {
    if n == s.size {
      LayoutAppend(s, r);
    } else {
      LayoutWrite(s, n, r);
      assert n in Order(s);
    }
  }

  /** The last record for a key after the write: the new one, or the one it was. */
  lemma {:induction false} LastPlaced(s: Store, n: nat, r: Rec, k: Bytes)
    requires Layout(s) && Placeable(s, n, r) && Live(r)
    ensures var last := LastFor(Place(s, n, r).recs, Order(Place(s, n, r)), k);
            || last == LastFor(s.recs, Order(s), k)
            || (k == r.key && last == Some(n))
    ensures k == r.key && LastFor(s.recs, Order(s), k).None? ==>
              LastFor(Place(s, n, r).recs, Order(Place(s, n, r)), k) == Some(n)
  {
    var s1 := Place(s, n, r);
    if n == s.size {
      LastAppended(s, r, k);
    } else {
      LayoutWrite(s, n, r);
      if k != r.key {
        LastForFrame(s.recs, s1.recs, Order(s), k);
      } else {
        PlaceLast(s.recs, Order(s), n, r);
      }
    }
  }

  lemma {:induction false} PlaceLast(recs: Records, offs: seq<nat>, n: nat, r: Rec)
    requires AllIn(recs, offs) && n in recs && recs[n].op.OpVoid? && Live(r) && n in offs
    ensures LastFor(recs[n := r], offs, r.key) in {Some(n), LastFor(recs, offs, r.key)}
    ensures LastFor(recs, offs, r.key).None? ==> LastFor(recs[n := r], offs, r.key) == Some(n)
  {
    var last := offs[|offs| - 1];
    if last != n && !Matches(recs[last], r.key) {
      assert n in offs[..|offs| - 1];
      PlaceLast(recs, offs[..|offs| - 1], n, r);
    }
  }

  /** After the write replay gives the old or the updated map, and the updated one when the file
      had no record for the key. */
  lemma {:induction false} PlaceReplays(s: Store, n: nat, r: Rec)
    requires Layout(s) && Placeable(s, n, r) && Live(r)
    ensures var s1 := Place(s, n, r);
            Replays(s1, Logged(s)[r.key := r.value]) ||
            (Replays(s1, Logged(s)) && LastFor(s.recs, Order(s), r.key).Some?)
  {
    PlaceLayout(s, n, r);
    var s1 := Place(s, n, r);
    var m := Logged(s);
    forall k
      ensures k != r.key ==> Get(Logged(s1), k) == Get(m, k)
      ensures k == r.key ==> Get(Logged(s1), k) in {Some(r.value), Get(m, k)}
      ensures k == r.key && LastFor(s.recs, Order(s), k).None? ==> Get(Logged(s1), k) == Some(r.value)
    {
      PlacedValue(s, n, r, k);
    }
    if Get(Logged(s1), r.key) == Some(r.value) {
      MapsAgree(Logged(s1), m[r.key := r.value]);
    } else {
      MapsAgree(Logged(s1), m);
    }
  }

  lemma {:induction false} PlacedValue(s: Store, n: nat, r: Rec, k: Bytes)
    requires Layout(s) && Placeable(s, n, r) && Live(r)
    ensures k != r.key ==> Get(Logged(Place(s, n, r)), k) == Get(Logged(s), k)
    ensures k == r.key ==> Get(Logged(Place(s, n, r)), k) in {Some(r.value), Get(Logged(s), k)}
    ensures k == r.key && LastFor(s.recs, Order(s), k).None? ==>
              Get(Logged(Place(s, n, r)), k) == Some(r.value)
  {
    ReplayGet(s.recs, Order(s), k);
    ReplayGet(Place(s, n, r).recs, Order(Place(s, n, r)), k);
    LastPlaced(s, n, r, k);
    PlaceLayout(s, n, r);
  }

  /** The write leaves all chains as they were; only the new record is off its chain. */
  lemma {:induction false} PlaceKeeps(s: Store, chains: Chains, bucketOf: Bytes -> nat, n: nat, r: Rec)
    requires InPlaceInv(s, chains, bucketOf) && Placeable(s, n, r) && Live(r)
    ensures Chained(Place(s, n, r), chains, bucketOf)
    ensures Covered(Place(s, n, r), chains, bucketOf, {n})
    ensures LooksUp(Place(s, n, r), chains, bucketOf, Logged(s))
    ensures n != 0 && forall b :: 0 <= b < |chains| ==> n !in chains[b]
  {
    hide Tiled, Scan, LooksUp, Logged, Agree, ChildrenOk;
    var s1 := Place(s, n, r);
    PlaceLayout(s, n, r);
    InPlaceIsInv(s, chains, bucketOf);
    InvLooksUp(s, chains, bucketOf);
    forall b | 0 <= b < |chains|
      ensures SameAt(s.recs, s1.recs, chains[b]) && n !in chains[b]
    {
      PlaceOffChain(s, chains, bucketOf, n, r, b);
    }
    LookupFrame(s, s1, chains, bucketOf, Logged(s));
  }

  /** A record is never written over one that is on a chain. */
  lemma {:induction false} PlaceOffChain(s: Store, chains: Chains, bucketOf: Bytes -> nat, n: nat, r: Rec, b: nat)
    requires Layout(s) && ChainsOk(s, chains, bucketOf) && Placeable(s, n, r) && b < |chains|
    ensures SameAt(s.recs, Place(s, n, r).recs, chains[b]) && n !in chains[b]
  {
    hide Tiled, Scan;
    assert ChainOk(s.recs, bucketOf, b, s.buckets[b], chains[b]);
    if n == s.size {
      LayoutAppend(s, r);
    }
  }

  // ----- relinking -----

  function Spliced(c: seq<nat>, i: nat, mid: seq<nat>): (r: seq<nat>)
    requires i < |c|
    ensures |r| == |c| - 1 + |mid|
    ensures forall j :: 0 <= j < |r| ==>
              r[j] == if j < i then c[j] else if j < i + |mid| then mid[j - i] else c[j - |mid| + 1]
  {
    c[..i] + mid + c[i + 1..]
  }

  /** `mid` may stand for position `i` of the chain `c`: nothing, or one record off the chain that
      already points to the successor. */
  predicate Replaces(recs: Records, c: seq<nat>, i: nat, mid: seq<nat>)
    requires AllIn(recs, c) && i < |c|
  {
    || mid == []
    || (|mid| == 1 && mid[0] != 0 && mid[0] in recs && mid[0] !in c && Live(recs[mid[0]]) &&
        recs[mid[0]].key == recs[c[i]].key && recs[mid[0]].child == Succ(c, i))
  }

  /** One write makes the predecessor of position `i` point past it, or to its replacement. */
  function SpliceWrite(s: Store, chains: Chains, b: nat, i: nat, mid: seq<nat>): Store
    requires b < |s.buckets| == |chains| && i < |chains[b]| && AllIn(s.recs, chains[b])
  {
    Relink(s, b, chains[b], i, Head(mid + chains[b][i + 1..]))
  }

  lemma {:induction false} SpliceLinked(recs: Records, recs1: Records, head: nat, head1: nat, c: seq<nat>, i: nat,
                                        mid: seq<nat>)
    requires Linked(recs, head, c) && Distinct(c) && i < |c| && Replaces(recs, c, i, mid)
    requires i == 0 ==> recs1 == recs && head1 == Head(mid + c[1..])
    requires i > 0 ==>
               && head1 == head
               && recs1 == recs[c[i - 1] := recs[c[i - 1]].(child := Head(mid + c[i + 1..]))]
    ensures Linked(recs1, head1, Spliced(c, i, mid))
  {
    var c1 := Spliced(c, i, mid);
    forall j | 0 <= j < |c1|
      ensures c1[j] in recs1 && c1[j] != 0 && recs1[c1[j]].child == Succ(c1, j)
    {
      if j < i {
        assert c1[j] == c[j] && recs[c[j]].child == Succ(c, j);
      } else if j >= i + |mid| {
        var d := j - |mid| + 1;
        assert c1[j] == c[d] && recs[c[d]].child == Succ(c, d);
      }
    }
  }

  /** The two sets of records differ in child offsets only. */
  predicate SameData(recs: Records, recs1: Records) {
    && recs.Keys == recs1.Keys
    && forall o :: o in recs ==> recs1[o] == recs[o].(child := recs1[o].child)
  }

  lemma {:induction false} SpliceMembers(recs: Records, recs1: Records, bucketOf: Bytes -> nat, b: nat, c: seq<nat>,
                                         i: nat, mid: seq<nat>)
    requires AllIn(recs, c) && Distinct(c) && UniqueKeys(recs, c) && SameData(recs, recs1)
    requires forall j :: 0 <= j < |c| ==> !recs[c[j]].op.OpVoid? && bucketOf(recs[c[j]].key) == b
    requires i < |c| && Replaces(recs, c, i, mid)
    ensures var c1 := Spliced(c, i, mid);
            && AllIn(recs1, c1) && Distinct(c1) && UniqueKeys(recs1, c1)
            && forall j :: 0 <= j < |c1| ==>
                 !recs1[c1[j]].op.OpVoid? && bucketOf(recs1[c1[j]].key) == b
  {
  }

  lemma {:induction false} SpliceChain(s: Store, chains: Chains, bucketOf: Bytes -> nat, b: nat, i: nat, mid: seq<nat>)
    requires b < |s.buckets| == |chains| && ChainOk(s.recs, bucketOf, b, s.buckets[b], chains[b])
    requires UniqueKeys(s.recs, chains[b])
    requires i < |chains[b]| && Replaces(s.recs, chains[b], i, mid)
    ensures var s1 := SpliceWrite(s, chains, b, i, mid);
            var c1 := Spliced(chains[b], i, mid);
            ChainOk(s1.recs, bucketOf, b, s1.buckets[b], c1) && UniqueKeys(s1.recs, c1)
  {
    var s1 := SpliceWrite(s, chains, b, i, mid);
    SpliceLinked(s.recs, s1.recs, s.buckets[b], s1.buckets[b], chains[b], i, mid);
    SpliceMembers(s.recs, s1.recs, bucketOf, b, chains[b], i, mid);
  }

  /** The relinking write keeps the chains, and puts the replaced record off its chain. */
  lemma {:induction false} SpliceKeeps(s: Store, chains: Chains, bucketOf: Bytes -> nat, b: nat, i: nat, mid: seq<nat>)
    requires Chained(s, chains, bucketOf) && b < |chains| && i < |chains[b]|
    requires Replaces(s.recs, chains[b], i, mid)
    requires Covered(s, chains, bucketOf, set o | o in mid)
    ensures var s1 := SpliceWrite(s, chains, b, i, mid);
            var chains1 := chains[b := Spliced(chains[b], i, mid)];
            && Chained(s1, chains1, bucketOf)
            && Covered(s1, chains1, bucketOf, {chains[b][i]})
            && Replays(s1, Logged(s))
  {
    var s1 := SpliceWrite(s, chains, b, i, mid);
    SpliceChains(s, chains, bucketOf, b, i, mid);
    SpliceCovered(s, chains, bucketOf, b, i, mid);
    assert Layout(s1) && SameData(s.recs, s1.recs) && BucketsOk(s1, bucketOf) &&
           Replays(s1, Logged(s)) by {
      RelinkLayout(s, b, chains[b], i, Head(mid + chains[b][i + 1..]));
    }
  }

  lemma {:induction false} SpliceChains(s: Store, chains: Chains, bucketOf: Bytes -> nat, b: nat, i: nat, mid: seq<nat>)
    requires ChainsOk(s, chains, bucketOf) && b < |chains| && i < |chains[b]|
    requires forall x :: 0 <= x < |chains| ==> UniqueKeys(s.recs, chains[x])
    requires Replaces(s.recs, chains[b], i, mid)
    ensures var s1 := SpliceWrite(s, chains, b, i, mid);
            var chains1 := chains[b := Spliced(chains[b], i, mid)];
            && ChainsOk(s1, chains1, bucketOf)
            && forall x :: 0 <= x < |chains1| ==> UniqueKeys(s1.recs, chains1[x])
  {
    var s1 := SpliceWrite(s, chains, b, i, mid);
    var chains1 := chains[b := Spliced(chains[b], i, mid)];
    forall x | 0 <= x < |chains1|
      ensures ChainOk(s1.recs, bucketOf, x, s1.buckets[x], chains1[x])
      ensures UniqueKeys(s1.recs, chains1[x])
    {
      assert ChainOk(s.recs, bucketOf, b, s.buckets[b], chains[b]);
      assert ChainOk(s.recs, bucketOf, x, s.buckets[x], chains[x]);
      if x == b {
        SpliceChain(s, chains, bucketOf, b, i, mid);
      } else {
        assert SameAt(s.recs, s1.recs, chains[x]);
        ChainFrame(s.recs, s1.recs, bucketOf, x, s.buckets[x], chains[x]);
      }
    }
  }

  lemma {:induction false} RelinkLayout(s: Store, b: nat, c: seq<nat>, i: nat, to: nat)
    requires Layout(s) && b < |s.buckets| && i <= |c| && AllIn(s.recs, c)
    ensures Replays(Relink(s, b, c, i, to), Logged(s))
    ensures SameData(s.recs, Relink(s, b, c, i, to).recs)
    ensures |Relink(s, b, c, i, to).buckets| == |s.buckets|
  {
    if i > 0 {
      LayoutWrite(s, c[i - 1], s.recs[c[i - 1]].(child := to));
      ReplayFrame(s.recs, Relink(s, b, c, i, to).recs, Order(s));
    }
  }

  lemma {:induction false} SpliceCovered(s: Store, chains: Chains, bucketOf: Bytes -> nat, b: nat, i: nat,
                                         mid: seq<nat>)
    requires Chained(s, chains, bucketOf) && b < |chains| && i < |chains[b]|
    requires Replaces(s.recs, chains[b], i, mid)
    requires Covered(s, chains, bucketOf, set o | o in mid)
    requires ChainsOk(SpliceWrite(s, chains, b, i, mid), chains[b := Spliced(chains[b], i, mid)],
                      bucketOf)
    ensures Covered(SpliceWrite(s, chains, b, i, mid), chains[b := Spliced(chains[b], i, mid)],
                    bucketOf, {chains[b][i]})
  {
    hide Layout;
    var s1 := SpliceWrite(s, chains, b, i, mid);
    var c := chains[b];
    var c1 := Spliced(c, i, mid);
    assert ChainOk(s.recs, bucketOf, b, s.buckets[b], c);
    forall o | o in s1.recs && !s1.recs[o].op.OpVoid? && o != c[i]
      ensures o in chains[b := c1][bucketOf(s1.recs[o].key)]
    {
      assert s1.recs[o].key == s.recs[o].key && s1.recs[o].op == s.recs[o].op;
      if o in mid || bucketOf(s.recs[o].key) == b {
        SplicedHas(c, i, mid, o);
      }
    }
  }

  lemma {:induction false} SplicedHas(c: seq<nat>, i: nat, mid: seq<nat>, o: nat)
    requires i < |c| && (o in mid || (o in c && o != c[i]))
    ensures o in Spliced(c, i, mid)
  {
    if o !in mid {
      assert o in c[..i] || o in c[i + 1..];
    }
  }

  /** A unique-key chain without a record for `k` finds nothing. */
  lemma {:induction false} NoneFirst(recs: Records, c: seq<nat>, k: Bytes)
    requires AllIn(recs, c) && forall i :: 0 <= i < |c| ==> recs[c[i]].key != k
    ensures FirstFor(recs, c, k).None?
  {
  }

  lemma {:induction false} SpliceFirst(recs: Records, recs1: Records, c: seq<nat>, i: nat, mid: seq<nat>, k: Bytes)
    requires AllIn(recs, c) && UniqueKeys(recs, c) && SameData(recs, recs1)
    requires forall j :: 0 <= j < |c| ==> !recs[c[j]].op.OpVoid?
    requires i < |c| && Replaces(recs, c, i, mid)
    requires AllIn(recs1, Spliced(c, i, mid)) && UniqueKeys(recs1, Spliced(c, i, mid))
    ensures FirstFor(recs1, Spliced(c, i, mid), k) ==
            if k != recs[c[i]].key then FirstFor(recs, c, k)
            else if mid == [] then None else Some(mid[0])
  {
    var c1 := Spliced(c, i, mid);
    if k == recs[c[i]].key {
      if mid == [] {
        NoneFirst(recs1, c1, k);
      } else {
        UniqueFirst(recs1, c1, k, i);
      }
    } else if FirstFor(recs, c, k).Some? {
      var j :| 0 <= j < |c| && c[j] == FirstFor(recs, c, k).value;
      UniqueFirst(recs1, c1, k, if j < i then j else j - 1 + |mid|);
    } else {
      NoneFirst(recs1, c1, k);
    }
  }

  /** The relinking write alone makes lookups see the update. */
  lemma {:induction false} SpliceLooksUp(s: Store, chains: Chains, bucketOf: Bytes -> nat, b: nat, i: nat,
                                         mid: seq<nat>, m: Contents)
    requires Chained(s, chains, bucketOf) && b < |chains| && i < |chains[b]|
    requires Replaces(s.recs, chains[b], i, mid)
    requires LooksUp(s, chains, bucketOf, m)
    ensures var key := s.recs[chains[b][i]].key;
            LooksUp(SpliceWrite(s, chains, b, i, mid), chains[b := Spliced(chains[b], i, mid)],
                    bucketOf, if mid == [] then m - {key} else m[key := s.recs[mid[0]].value])
  {
    hide FirstFor, ValueOf, Layout, ChainOk, UniqueKeys;
    InChain(s, chains, bucketOf, b);
    SpliceChains(s, chains, bucketOf, b, i, mid);
    var key := s.recs[chains[b][i]].key;
    var m1 := if mid == [] then m - {key} else m[key := s.recs[mid[0]].value];
    forall k
      ensures Lookup(SpliceWrite(s, chains, b, i, mid), chains[b := Spliced(chains[b], i, mid)],
                     bucketOf, k) == Get(m1, k)
    {
      SpliceLookup(s, chains, bucketOf, b, i, mid, k);
      assert Lookup(s, chains, bucketOf, k) == Get(m, k);
    }
  }

  lemma {:induction false} InChain(s: Store, chains: Chains, bucketOf: Bytes -> nat, b: nat)
    requires ChainsOk(s, chains, bucketOf) && b < |chains|
    ensures AllIn(s.recs, chains[b])
  {
  }

  lemma {:induction false} SpliceLookup(s: Store, chains: Chains, bucketOf: Bytes -> nat, b: nat, i: nat,
                                        mid: seq<nat>, k: Bytes)
    requires ChainsOk(s, chains, bucketOf) && b < |chains| && i < |chains[b]|
    requires UniqueKeys(s.recs, chains[b]) && Replaces(s.recs, chains[b], i, mid)
    requires bucketOf(k) < |chains|
    requires var s1 := SpliceWrite(s, chains, b, i, mid);
             var chains1 := chains[b := Spliced(chains[b], i, mid)];
             ChainsOk(s1, chains1, bucketOf) && UniqueKeys(s1.recs, chains1[b])
    ensures Lookup(SpliceWrite(s, chains, b, i, mid), chains[b := Spliced(chains[b], i, mid)],
                   bucketOf, k) ==
            if k != s.recs[chains[b][i]].key then Lookup(s, chains, bucketOf, k)
            else if mid == [] then None else Some(s.recs[mid[0]].value)
  {
    hide ChainOk, UniqueKeys, Spliced;
    ChainKinds(s, chains, bucketOf, b);
    InChain(s, chains, bucketOf, bucketOf(k));
    var s1 := SpliceWrite(s, chains, b, i, mid);
    var chains1 := chains[b := Spliced(chains[b], i, mid)];
    InChain(s1, chains1, bucketOf, bucketOf(k));
    assert SameData(s.recs, s1.recs);
    if bucketOf(k) == b {
      SpliceFirst(s.recs, s1.recs, chains[b], i, mid, k);
    } else {
      OtherFirst(s.recs, s1.recs, chains[bucketOf(k)], k);
    }
  }

  lemma {:induction false} ChainKinds(s: Store, chains: Chains, bucketOf: Bytes -> nat, b: nat)
    requires ChainsOk(s, chains, bucketOf) && b < |chains|
    ensures AllIn(s.recs, chains[b])
    ensures forall i :: 0 <= i < |chains[b]| ==>
              !s.recs[chains[b][i]].op.OpVoid? && bucketOf(s.recs[chains[b][i]].key) == b
  {
    assert ChainOk(s.recs, bucketOf, b, s.buckets[b], chains[b]);
  }

  lemma {:induction false} OtherFirst(recs: Records, recs1: Records, c: seq<nat>, k: Bytes)
    requires AllIn(recs, c) && SameData(recs, recs1)
    ensures FirstFor(recs1, c, k) == FirstFor(recs, c, k)
    ensures ValueOf(recs1, FirstFor(recs, c, k)) == ValueOf(recs, FirstFor(recs, c, k))
  {
    FirstForFrame(recs, recs1, c, k);
  }

  // ----- inserting at the head of a chain -----

  /** A record off its chain, pointing to the chain's head, whose key is not on the chain. */
  ghost predicate Pushable(s: Store, chains: Chains, bucketOf: Bytes -> nat, n: nat)
    requires BucketsOk(s, bucketOf) && ChainsOk(s, chains, bucketOf)
  {
    && n != 0 && n in s.recs && Live(s.recs[n])
    && var b := bucketOf(s.recs[n].key);
       && n !in chains[b]
       && s.recs[n].child == s.buckets[b]
       && forall i :: 0 <= i < |chains[b]| ==> s.recs[chains[b][i]].key != s.recs[n].key
  }

  lemma {:induction false} PushKeeps(s: Store, chains: Chains, bucketOf: Bytes -> nat, n: nat)
    requires Chained(s, chains, bucketOf) && Pushable(s, chains, bucketOf, n)
    requires Covered(s, chains, bucketOf, {n})
    ensures var b := bucketOf(s.recs[n].key);
            && InPlaceInv(SetBucket(s, b, n), chains[b := [n] + chains[b]], bucketOf)
            && Logged(SetBucket(s, b, n)) == Logged(s)
  {
    var b := bucketOf(s.recs[n].key);
    var s1 := SetBucket(s, b, n);
    assert Order(s1) == Order(s);
    PushChain(s.recs, bucketOf, b, s.buckets[b], chains[b], n);
  }

  lemma {:induction false} PushChain(recs: Records, bucketOf: Bytes -> nat, b: nat, head: nat, c: seq<nat>, n: nat)
    requires ChainOk(recs, bucketOf, b, head, c) && UniqueKeys(recs, c)
    requires n != 0 && n in recs && Live(recs[n]) && bucketOf(recs[n].key) == b
    requires n !in c && recs[n].child == head
    requires forall i :: 0 <= i < |c| ==> recs[c[i]].key != recs[n].key
    ensures ChainOk(recs, bucketOf, b, n, [n] + c) && UniqueKeys(recs, [n] + c)
  {
    var c1 := [n] + c;
    forall i | 0 <= i < |c1|
      ensures c1[i] != 0 && recs[c1[i]].child == Succ(c1, i)
    {
      if i > 0 {
        assert recs[c[i - 1]].child == Succ(c, i - 1);
      }
    }
  }

  lemma {:induction false} PushLooksUp(s: Store, chains: Chains, bucketOf: Bytes -> nat, n: nat, m: Contents)
    requires Chained(s, chains, bucketOf) && Pushable(s, chains, bucketOf, n)
    requires Covered(s, chains, bucketOf, {n})
    requires LooksUp(s, chains, bucketOf, m)
    ensures var b := bucketOf(s.recs[n].key);
            LooksUp(SetBucket(s, b, n), chains[b := [n] + chains[b]], bucketOf,
                    m[s.recs[n].key := s.recs[n].value])
  {
    hide Layout, Covered;
    var b := bucketOf(s.recs[n].key);
    var s1, chains1 := SetBucket(s, b, n), chains[b := [n] + chains[b]];
    var m1 := m[s.recs[n].key := s.recs[n].value];
    PushKeeps(s, chains, bucketOf, n);
    forall k
      ensures Lookup(s1, chains1, bucketOf, k) == Get(m1, k)
    {
      assert Lookup(s, chains, bucketOf, k) == Get(m, k);
      if bucketOf(k) == b {
        FirstForCons(s.recs, n, chains[b], k);
      }
    }
  }

  // ----- overwriting -----

  function VoidRec(size: Pos): Rec {
    Rec(OpVoid, [], [], 0, size)
  }

  /** Voiding the one record that is off its chain completes the operation. */
  lemma {:induction false} VoidKeeps(s: Store, chains: Chains, bucketOf: Bytes -> nat, o: nat, m: Contents)
    requires Chained(s, chains, bucketOf) && Covered(s, chains, bucketOf, {o}) && o in s.recs
    requires forall b :: 0 <= b < |chains| ==> o !in chains[b]
    requires LooksUp(s, chains, bucketOf, m)
    ensures InPlaceInv(WriteRec(s, o, VoidRec(s.recs[o].size)), chains, bucketOf)
    ensures LooksUp(WriteRec(s, o, VoidRec(s.recs[o].size)), chains, bucketOf, m)
  {
    var s1 := WriteRec(s, o, VoidRec(s.recs[o].size));
    LayoutWrite(s, o, VoidRec(s.recs[o].size));
    forall b | 0 <= b < |chains|
      ensures SameAt(s.recs, s1.recs, chains[b]) && UniqueKeys(s1.recs, chains[b])
    {
      assert ChainOk(s.recs, bucketOf, b, s.buckets[b], chains[b]);
    }
    LookupFrame(s, s1, chains, bucketOf, m);
  }

  /** The record at position `i` of a chain may be overwritten by `r`: same key, child and size. */
  predicate Overwrites(recs: Records, c: seq<nat>, i: nat, r: Rec)
    requires AllIn(recs, c) && i < |c|
  {
    Live(r) && recs[c[i]].(op := r.op, value := r.value) == r
  }

  lemma {:induction false} OverwriteChains(s: Store, chains: Chains, bucketOf: Bytes -> nat, b: nat, i: nat, r: Rec)
    requires ChainsOk(s, chains, bucketOf) && b < |chains| && i < |chains[b]|
    requires forall x :: 0 <= x < |chains| ==> UniqueKeys(s.recs, chains[x])
    requires Overwrites(s.recs, chains[b], i, r)
    ensures ChainsOk(WriteRec(s, chains[b][i], r), chains, bucketOf)
    ensures forall x :: 0 <= x < |chains| ==>
              UniqueKeys(WriteRec(s, chains[b][i], r).recs, chains[x])
  {
    var s1 := WriteRec(s, chains[b][i], r);
    forall x | 0 <= x < |chains|
      ensures ChainOk(s1.recs, bucketOf, x, s1.buckets[x], chains[x])
      ensures UniqueKeys(s1.recs, chains[x])
    {
      ChainFrame(s.recs, s1.recs, bucketOf, x, s.buckets[x], chains[x]);
    }
  }

  /** Overwriting a chained record where it lies. */
  lemma {:induction false} OverwriteKeeps(s: Store, chains: Chains, bucketOf: Bytes -> nat, b: nat, i: nat, r: Rec)
    requires InPlaceInv(s, chains, bucketOf) && b < |chains| && i < |chains[b]|
    requires Overwrites(s.recs, chains[b], i, r)
    ensures InPlaceInv(WriteRec(s, chains[b][i], r), chains, bucketOf)
  {
    LayoutWrite(s, chains[b][i], r);
    OverwriteChains(s, chains, bucketOf, b, i, r);
  }

  lemma {:induction false} OverwriteLooksUp(s: Store, chains: Chains, bucketOf: Bytes -> nat, b: nat, i: nat,
                                            r: Rec, m: Contents)
    requires InPlaceInv(s, chains, bucketOf) && b < |chains| && i < |chains[b]|
    requires Overwrites(s.recs, chains[b], i, r)
    requires LooksUp(s, chains, bucketOf, m)
    ensures LooksUp(WriteRec(s, chains[b][i], r), chains, bucketOf, m[r.key := r.value])
  {
    OverwriteChains(s, chains, bucketOf, b, i, r);
    var s1 := WriteRec(s, chains[b][i], r);
    var m1 := m[r.key := r.value];
    forall k
      ensures Lookup(s1, chains, bucketOf, k) == Get(m1, k)
    {
      assert Lookup(s, chains, bucketOf, k) == Get(m, k);
      OverwriteLookup(s, chains, bucketOf, b, i, r, k);
    }
  }

  lemma {:induction false} OverwriteLookup(s: Store, chains: Chains, bucketOf: Bytes -> nat, b: nat, i: nat, r: Rec,
                                           k: Bytes)
    requires ChainsOk(s, chains, bucketOf) && b < |chains| && i < |chains[b]|
    requires UniqueKeys(s.recs, chains[b]) && Overwrites(s.recs, chains[b], i, r)
    requires bucketOf(k) < |chains|
    requires ChainsOk(WriteRec(s, chains[b][i], r), chains, bucketOf)
    ensures Lookup(WriteRec(s, chains[b][i], r), chains, bucketOf, k) ==
            if k == r.key then Some(r.value) else Lookup(s, chains, bucketOf, k)
  {
    var s1 := WriteRec(s, chains[b][i], r);
    assert ChainOk(s.recs, bucketOf, b, s.buckets[b], chains[b]);
    FirstForFrame(s.recs, s1.recs, chains[bucketOf(k)], k);
    if k == r.key {
      UniqueFirst(s1.recs, chains[b], k, i);
    }
  }

  /** Between operations the two readings of the file agree, so one determines the other. */
  lemma {:induction false} LoggedIs(s: Store, chains: Chains, bucketOf: Bytes -> nat, m: Contents)
    requires InPlaceInv(s, chains, bucketOf) && LooksUp(s, chains, bucketOf, m)
    ensures Logged(s) == m
  {
    InPlaceIsInv(s, chains, bucketOf);
    InvLooksUp(s, chains, bucketOf);
    forall k
      ensures Get(Logged(s), k) == Get(m, k)
    {
      assert Lookup(s, chains, bucketOf, k) == Get(m, k);
      assert Lookup(s, chains, bucketOf, k) == Get(Logged(s), k);
    }
    MapsAgree(Logged(s), m);
  }
}
