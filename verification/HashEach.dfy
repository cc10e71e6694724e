/** The three ways a hash database enumerates its records. */
module HashEach {
  import opened Common
  import opened HashStore
  import opened HashAppend
  import opened HashInPlace
  import opened HashValidate

  type Items = seq<(Bytes, Bytes)>

  /** The items are exactly those of the map, each once. */
  ghost predicate Enumerates(items: Items, m: Contents) {
    && (forall i, j :: 0 <= i < j < |items| ==> items[i].0 != items[j].0)
    && (forall i :: 0 <= i < |items| ==> Get(m, items[i].0) == Some(items[i].1))
    && (forall k :: k in m ==> exists i :: 0 <= i < |items| && items[i].0 == k)
  }

  // ----- scanning the records of an in-place file -----

  function LiveItems(recs: Records, offs: seq<nat>): Items
    requires AllIn(recs, offs)
  {
    if |offs| == 0 then []
    else
      var r := recs[offs[|offs| - 1]];
      LiveItems(recs, offs[..|offs| - 1]) + if Live(r) then [(r.key, r.value)] else []
  }

  lemma {:induction false} LiveItemsSnoc(recs: Records, offs: seq<nat>, o: nat)
    requires AllIn(recs, offs) && o in recs
    ensures LiveItems(recs, offs + [o]) ==
            LiveItems(recs, offs) + if Live(recs[o]) then [(recs[o].key, recs[o].value)] else []
  {
    assert (offs + [o])[..|offs + [o]| - 1] == offs;
  }

  /** The live records of a file with one record a key are what replay gives. */
  lemma {:induction false} LiveItemsEnumerate(recs: Records, offs: seq<nat>)
    requires AllIn(recs, offs) && OneEach(recs, offs)
    ensures Enumerates(LiveItems(recs, offs), Replay(recs, offs))
  {
    if |offs| > 0 {
      var n := |offs| - 1;
      LiveItemsEnumerate(recs, offs[..n]);
      var r := recs[offs[n]];
      if Live(r) {
        ReplayGet(recs, offs[..n], r.key);
        AddItem(LiveItems(recs, offs[..n]), Replay(recs, offs[..n]), r.key, r.value);
      } else {
        assert LiveItems(recs, offs[..n]) + [] == LiveItems(recs, offs[..n]);
      }
    }
  }

  lemma {:induction false} AddItem(items: Items, m: Contents, key: Bytes, value: Bytes)
    requires Enumerates(items, m) && key !in m
    ensures Enumerates(items + [(key, value)], m[key := value])
  {
    var items1, m1 := items + [(key, value)], m[key := value];
    forall k | k in m1
      ensures exists i :: 0 <= i < |items1| && items1[i].0 == k
    {
      if k == key {
        assert items1[|items|].0 == k;
      } else {
        var i :| 0 <= i < |items| && items[i].0 == k;
        assert items1[i].0 == k;
      }
    }
    forall i | 0 <= i < |items1|
      ensures Get(m1, items1[i].0) == Some(items1[i].1)
    {
      assert i < |items| ==> Get(m, items[i].0) == Some(items[i].1);
    }
    forall i, j | 0 <= i < j < |items1|
      ensures items1[i].0 != items1[j].0
    {
      assert Get(m, items[i].0) == Some(items[i].1);
    }
  }

  /** Steps through the records of an in-place file and visits the live ones. */
  method ScanRecords(s: Store, bucketOf: Bytes -> nat, ghost chains: Chains) returns (items: Items)
    requires InPlaceInv(s, chains, bucketOf)
    ensures Enumerates(items, Logged(s))
  {
    hide LiveItems, Scan, Tiled, Chained, Covered, Enumerates;
    InPlaceLayout(s, chains, bucketOf);
    var offset := s.base;
    items := [];
    ghost var done: seq<nat> := [];
    NoItems(s.recs);
    SplitEmpty(s.recs, s.base, s.size);
    while offset < s.size
      invariant s.base <= offset && Tiled(s.recs, offset, s.size)
      invariant AllIn(s.recs, done) && done + Scan(s.recs, offset, s.size) == Order(s)
      invariant items == LiveItems(s.recs, done)
      decreases s.size - offset
    {
      TileStep(s.recs, offset, s.size);
      SplitStep(s.recs, done, offset, s.size);
      LiveItemsSnoc(s.recs, done, offset);
      var rec := s.recs[offset];
      if Live(rec) {
        items := items + [(rec.key, rec.value)];
      }
      done := done + [offset];
      offset := offset + rec.size;
    }
    SplitEnd(s.recs, offset, s.size);
    assert done + [] == done;
    LiveItemsEnumerate(s.recs, Order(s));
  }

  lemma {:induction false} NoItems(recs: Records)
    ensures LiveItems(recs, []) == []
  {
  }

  lemma {:induction false} InPlaceLayout(s: Store, chains: Chains, bucketOf: Bytes -> nat)
    requires InPlaceInv(s, chains, bucketOf)
    ensures Tiled(s.recs, s.base, s.size) && OneEach(s.recs, Order(s))
  {
    hide Tiled, Scan, ChainOk;
    ScanSorted(s.recs, s.base, s.size);
    var offs := Order(s);
    forall i, j | 0 <= i < j < |offs| && Live(s.recs[offs[i]]) && Live(s.recs[offs[j]])
      ensures s.recs[offs[i]].key != s.recs[offs[j]].key
    {
      LiveApart(s, chains, bucketOf, offs[i], offs[j]);
    }
  }

  // ----- walking the bucket chains -----

  lemma {:induction false} FirstForSnoc(recs: Records, c: seq<nat>, o: nat, k: Bytes)
    requires AllIn(recs, c) && o in recs
    ensures FirstFor(recs, c + [o], k) ==
            if FirstFor(recs, c, k).Some? then FirstFor(recs, c, k)
            else if Matches(recs[o], k) then Some(o) else None
    decreases |c|
  {
    if |c| == 0 {
      assert c + [o] == [o];
    } else {
      assert (c + [o])[1..] == c[1..] + [o];
      FirstForSnoc(recs, c[1..], o, k);
    }
  }

  /** The value the first record for a key gives, along a part of a chain. */
  function FirstValue(recs: Records, c: seq<nat>, k: Bytes): Option<Bytes>
    requires AllIn(recs, c)
  {
    ValueOf(recs, FirstFor(recs, c, k))
  }

  /** The items visited so far along a chain, the keys met and the keys found removed. */
  ghost predicate Visited(recs: Records, c: seq<nat>, items: Items, keys: set<Bytes>, dead: set<Bytes>)
    requires AllIn(recs, c)
  {
    && (forall i, j :: 0 <= i < j < |items| ==> items[i].0 != items[j].0)
    && (forall i :: 0 <= i < |items| ==> FirstValue(recs, c, items[i].0) == Some(items[i].1))
    && (forall k :: k in keys <==> FirstValue(recs, c, k).Some?)
    && (forall k :: k in keys ==> exists i :: 0 <= i < |items| && items[i].0 == k)
    && (forall k :: k in dead <==> FirstFor(recs, c, k).Some? && FirstValue(recs, c, k).None?)
  }

  /** One more record of the chain, not void. */
  lemma {:induction false} VisitStep(recs: Records, c: seq<nat>, o: nat, items: Items, keys: set<Bytes>,
                                     dead: set<Bytes>)
    requires AllIn(recs, c) && o in recs && !recs[o].op.OpVoid? && Visited(recs, c, items, keys, dead)
    ensures var r := recs[o];
            if r.key in keys || r.key in dead then Visited(recs, c + [o], items, keys, dead)
            else if Live(r) then
              Visited(recs, c + [o], items + [(r.key, r.value)], keys + {r.key}, dead)
            else Visited(recs, c + [o], items, keys, dead + {r.key})
  {
    hide FirstFor, Visited;
    var r := recs[o];
    if r.key in keys || r.key in dead {
      VisitSkip(recs, c, o, items, keys, dead);
    } else if Live(r) {
      VisitLive(recs, c, o, items, keys, dead);
    } else {
      VisitDead(recs, c, o, items, keys, dead);
    }
  }

  lemma {:induction false} FirstAfter(recs: Records, c: seq<nat>, o: nat)
    requires AllIn(recs, c) && o in recs && !recs[o].op.OpVoid?
    ensures forall k :: FirstFor(recs, c + [o], k) ==
                        if k != recs[o].key || FirstFor(recs, c, k).Some? then FirstFor(recs, c, k)
                        else Some(o)
  {
    forall k
      ensures FirstFor(recs, c + [o], k) ==
              if k != recs[o].key || FirstFor(recs, c, k).Some? then FirstFor(recs, c, k) else Some(o)
    {
      FirstForSnoc(recs, c, o, k);
    }
  }

  lemma {:induction false} VisitSkip(recs: Records, c: seq<nat>, o: nat, items: Items, keys: set<Bytes>,
                                     dead: set<Bytes>)
    requires AllIn(recs, c) && o in recs && !recs[o].op.OpVoid? && Visited(recs, c, items, keys, dead)
    requires recs[o].key in keys || recs[o].key in dead
    ensures Visited(recs, c + [o], items, keys, dead)
  {
    hide FirstFor;
    FirstAfter(recs, c, o);
    assert FirstFor(recs, c, recs[o].key).Some?;
  }

  lemma {:induction false} VisitDead(recs: Records, c: seq<nat>, o: nat, items: Items, keys: set<Bytes>,
                                     dead: set<Bytes>)
    requires AllIn(recs, c) && o in recs && !recs[o].op.OpVoid? && Visited(recs, c, items, keys, dead)
    requires recs[o].key !in keys && recs[o].key !in dead && !Live(recs[o])
    ensures Visited(recs, c + [o], items, keys, dead + {recs[o].key})
  {
    hide FirstFor;
    FirstAfter(recs, c, o);
    assert FirstFor(recs, c, recs[o].key).None?;
  }

  lemma {:induction false} VisitLive(recs: Records, c: seq<nat>, o: nat, items: Items, keys: set<Bytes>,
                                     dead: set<Bytes>)
    requires AllIn(recs, c) && o in recs && !recs[o].op.OpVoid? && Visited(recs, c, items, keys, dead)
    requires recs[o].key !in keys && recs[o].key !in dead && Live(recs[o])
    ensures Visited(recs, c + [o], items + [(recs[o].key, recs[o].value)], keys + {recs[o].key}, dead)
  {
    hide FirstFor;
    FirstAfter(recs, c, o);
    var r := recs[o];
    assert FirstFor(recs, c, r.key).None?;
    var items1 := items + [(r.key, r.value)];
    forall k | k in keys + {r.key}
      ensures exists i :: 0 <= i < |items1| && items1[i].0 == k
    {
      if k == r.key {
        assert items1[|items|].0 == k;
      } else {
        var i :| 0 <= i < |items| && items[i].0 == k;
        assert items1[i].0 == k;
      }
    }
    assert forall i :: 0 <= i < |items| ==> items[i].0 in keys;
  }

  /** Walks one chain and visits the keys whose first record is live. */
  method WalkBucket(s: Store, bucketOf: Bytes -> nat, b: nat, ghost chains: Chains)
    returns (items: Items)
    requires ChainsOk(s, chains, bucketOf) && b < |chains|
    ensures exists keys, dead :: Visited(s.recs, chains[b], items, keys, dead)
  {
    hide Visited, FirstFor;
    var current := s.buckets[b];
    ghost var c := chains[b];
    ghost var i := 0;
    assert ChainOk(s.recs, bucketOf, b, s.buckets[b], c);
    items := [];
    var keys: set<Bytes>, dead: set<Bytes> := {}, {};
    NoneVisited(s.recs);
    assert c[..0] == [];
    while current > 0
      invariant 0 <= i <= |c| && current == (if i < |c| then c[i] else 0)
      invariant AllIn(s.recs, c[..i]) && Visited(s.recs, c[..i], items, keys, dead)
      decreases |c| - i
    {
      var rec := s.recs[current];
      VisitStep(s.recs, c[..i], current, items, keys, dead);
      assert c[..i] + [current] == c[..i + 1];
      current := rec.child;
      i := i + 1;
      if rec.key !in keys && rec.key !in dead {
        if Live(rec) {
          items := items + [(rec.key, rec.value)];
          keys := keys + {rec.key};
        } else {
          dead := dead + {rec.key};
        }
      }
    }
    assert c[..i] == c;
  }

  lemma {:induction false} NoneVisited(recs: Records)
    ensures Visited(recs, [], [], {}, {})
  {
  }

  /** The part of a map whose keys belong to the first `n` buckets. */
  ghost function UpTo(m: Contents, bucketOf: Bytes -> nat, n: nat): Contents {
    map k | k in m && bucketOf(k) < n :: m[k]
  }

  /** The items of one more bucket. */
  lemma {:induction false} AddBucket(s: Store, chains: Chains, bucketOf: Bytes -> nat, b: nat, items: Items,
                                     more: Items, keys: set<Bytes>, dead: set<Bytes>)
    requires Inv(s, chains, bucketOf) && b < |chains| && AllIn(s.recs, chains[b])
    requires Enumerates(items, UpTo(Logged(s), bucketOf, b))
    requires Visited(s.recs, chains[b], more, keys, dead)
    ensures Enumerates(items + more, UpTo(Logged(s), bucketOf, b + 1))
  {
    hide Visited, Enumerates, Logged, Inv;
    ForBucket(s, chains, bucketOf, b, more, keys, dead);
    var m := Logged(s);
    JoinItems(items, more, UpTo(m, bucketOf, b),
              map k | k in m && bucketOf(k) == b :: m[k]);
    assert UpTo(m, bucketOf, b) + (map k | k in m && bucketOf(k) == b :: m[k]) ==
           UpTo(m, bucketOf, b + 1);
  }

  lemma {:induction false} ForBucket(s: Store, chains: Chains, bucketOf: Bytes -> nat, b: nat, items: Items,
                                     keys: set<Bytes>, dead: set<Bytes>)
    requires Inv(s, chains, bucketOf) && b < |chains| && AllIn(s.recs, chains[b])
    requires Visited(s.recs, chains[b], items, keys, dead)
    ensures var m := Logged(s);
            Enumerates(items, map k | k in m && bucketOf(k) == b :: m[k])
  {
    hide FirstFor, Layout, Agree, ChildrenOk, Logged;
    InvLooksUp(s, chains, bucketOf);
    ChainKinds(s, chains, bucketOf, b);
    var m := Logged(s);
    var mb := map k | k in m && bucketOf(k) == b :: m[k];
    forall k
      ensures Get(mb, k) == FirstValue(s.recs, chains[b], k)
    {
      assert Lookup(s, chains, bucketOf, k) == Get(m, k);
    }
    forall k | k in mb
      ensures exists i :: 0 <= i < |items| && items[i].0 == k
    {
      assert FirstValue(s.recs, chains[b], k) == Get(mb, k);
      assert k in keys;
    }
    forall i | 0 <= i < |items|
      ensures Get(mb, items[i].0) == Some(items[i].1)
    {
      assert Get(mb, items[i].0) == FirstValue(s.recs, chains[b], items[i].0);
    }
  }

  lemma {:induction false} JoinItems(a: Items, b: Items, m: Contents, n: Contents)
    requires Enumerates(a, m) && Enumerates(b, n) && m.Keys !! n.Keys
    ensures Enumerates(a + b, m + n)
  {
    var c := a + b;
    forall i | 0 <= i < |c|
      ensures Get(m + n, c[i].0) == Some(c[i].1)
    {
      if i < |a| {
        assert Get(m, a[i].0) == Some(a[i].1);
      } else {
        assert Get(n, b[i - |a|].0) == Some(b[i - |a|].1);
      }
    }
    forall i, j | 0 <= i < j < |c|
      ensures c[i].0 != c[j].0
    {
      if i < |a| <= j {
        assert Get(m, a[i].0).Some? && Get(n, b[j - |a|].0).Some?;
      }
    }
    forall k | k in m + n
      ensures exists i :: 0 <= i < |c| && c[i].0 == k
    {
      if k in m {
        var i :| 0 <= i < |a| && a[i].0 == k;
        assert c[i].0 == k;
      } else {
        var i :| 0 <= i < |b| && b[i].0 == k;
        assert c[|a| + i].0 == k;
      }
    }
  }

  /** Walks every bucket chain. */
  method WalkBuckets(s: Store, bucketOf: Bytes -> nat, ghost chains: Chains) returns (items: Items)
    requires Inv(s, chains, bucketOf)
    ensures Enumerates(items, Logged(s))
  {
    hide Visited, Enumerates, Logged, UpTo, Layout, Agree, ChildrenOk, ChainOk;
    items := [];
    NoBuckets(Logged(s), bucketOf);
    for b := 0 to |s.buckets|
      invariant Enumerates(items, UpTo(Logged(s), bucketOf, b))
    {
      InChain(s, chains, bucketOf, b);
      var more := WalkBucket(s, bucketOf, b, chains);
      ghost var keys, dead :| Visited(s.recs, chains[b], more, keys, dead);
      AddBucket(s, chains, bucketOf, b, items, more, keys, dead);
      items := items + more;
    }
    AllBuckets(s, bucketOf);
  }

  lemma {:induction false} NoBuckets(m: Contents, bucketOf: Bytes -> nat)
    ensures Enumerates([], UpTo(m, bucketOf, 0))
  {
  }

  lemma {:induction false} AllBuckets(s: Store, bucketOf: Bytes -> nat)
    requires BucketsOk(s, bucketOf)
    ensures UpTo(Logged(s), bucketOf, |s.buckets|) == Logged(s)
  {
    hide Logged;
  }

  // ----- the iterator -----

  /** The keys read so far along a chain with the set of removed keys only: a key is read exactly
      when its first record is live, however often it is met. */
  ghost predicate Read(recs: Records, c: seq<nat>, keys: set<Bytes>, dead: set<Bytes>)
    requires AllIn(recs, c)
  {
    && (forall k :: k in keys <==> FirstValue(recs, c, k).Some?)
    && (forall k :: FirstFor(recs, c, k).Some? && FirstValue(recs, c, k).None? ==> k in dead)
    && (forall k :: k in dead ==> FirstFor(recs, c, k).Some?)
  }

  lemma {:induction false} ReadStep(recs: Records, c: seq<nat>, o: nat, keys: set<Bytes>, dead: set<Bytes>)
    requires AllIn(recs, c) && o in recs && !recs[o].op.OpVoid? && Read(recs, c, keys, dead)
    ensures var r := recs[o];
            if r.key in dead then Read(recs, c + [o], keys, dead)
            else if Live(r) then Read(recs, c + [o], keys + {r.key}, dead)
            else Read(recs, c + [o], keys, dead + {r.key})
  {
    hide FirstFor;
    forall k
      ensures FirstFor(recs, c + [o], k) ==
              if FirstFor(recs, c, k).Some? then FirstFor(recs, c, k)
              else if k == recs[o].key then Some(o) else None
    {
      FirstForSnoc(recs, c, o, k);
    }
  }

  lemma {:induction false} NoneRead(recs: Records)
    ensures Read(recs, [], {}, {})
  {
  }

  /** Reads the keys of one bucket for an iterator. */
  method ReadBucketKeys(s: Store, bucketOf: Bytes -> nat, b: nat, ghost chains: Chains)
    returns (keys: set<Bytes>)
    requires Inv(s, chains, bucketOf) && b < |chains|
    ensures forall k :: k in keys <==> k in Logged(s) && bucketOf(k) == b
  {
    hide Read, FirstFor, Logged, Layout, Agree, ChildrenOk;
    var current := s.buckets[b];
    ghost var c := chains[b];
    ghost var i := 0;
    assert ChainOk(s.recs, bucketOf, b, s.buckets[b], c);
    var dead: set<Bytes> := {};
    keys := {};
    NoneRead(s.recs);
    assert c[..0] == [];
    while current > 0
      invariant 0 <= i <= |c| && current == (if i < |c| then c[i] else 0)
      invariant AllIn(s.recs, c[..i]) && Read(s.recs, c[..i], keys, dead)
      decreases |c| - i
    {
      var rec := s.recs[current];
      ReadStep(s.recs, c[..i], current, keys, dead);
      assert c[..i] + [current] == c[..i + 1];
      current := rec.child;
      i := i + 1;
      if rec.key !in dead {
        if Live(rec) {
          keys := keys + {rec.key};
        } else {
          dead := dead + {rec.key};
        }
      }
    }
    assert c[..i] == c;
    ReadKeys(s, chains, bucketOf, b, keys, dead);
  }

  lemma {:induction false} ReadKeys(s: Store, chains: Chains, bucketOf: Bytes -> nat, b: nat, keys: set<Bytes>,
                                    dead: set<Bytes>)
    requires Inv(s, chains, bucketOf) && b < |chains| && AllIn(s.recs, chains[b])
    requires Read(s.recs, chains[b], keys, dead)
    ensures forall k :: k in keys <==> k in Logged(s) && bucketOf(k) == b
  {
    hide FirstFor, Layout, Agree, ChildrenOk, Logged;
    InvLooksUp(s, chains, bucketOf);
    ChainKinds(s, chains, bucketOf, b);
    forall k
      ensures k in keys <==> k in Logged(s) && bucketOf(k) == b
    {
      assert Lookup(s, chains, bucketOf, k) == Get(Logged(s), k);
      assert k in keys <==> FirstValue(s.recs, chains[b], k).Some?;
    }
  }
}
