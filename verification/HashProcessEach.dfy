/** Processing every record of a hash database: bucket by bucket, the live keys of a chain are
    collected first and then processed one by one. */
module HashProcessEach {
  import opened Common
  import opened HashStore
  import opened HashAppend
  import opened HashDatabase
  import opened HashEach

  /** What the processor makes of the record of a key. */
  function Outcome(m: Contents, proc: Processor, k: Bytes): Option<Bytes> {
    if k !in m then None
    else match proc.full(m[k])
      case Noop => Some(m[k])
      case Remove => None
      case Put(v) => Some(v)
  }

  /** The records of the buckets before `b`, and those of `b` that are not left, are processed; the
      others are as they were. */
  ghost predicate Partly(m0: Contents, m: Contents, proc: Processor, bucketOf: Bytes -> nat, b: nat,
                         left: set<Bytes>) {
    forall k :: Get(m, k) == if bucketOf(k) < b || (bucketOf(k) == b && k !in left) then Outcome(m0, proc, k)
                             else Get(m0, k)
  }

  lemma {:induction false} WrittenBuckets(s: Store, w: Write)
    ensures |Written(s, w).buckets| == |s.buckets|
  {
  }

  /** One file write keeps the number of buckets, and so do the writes of an operation. */
  lemma {:induction false} SameBuckets(start: Store, steps: seq<Step>, i: nat)
    requires Journal(start, steps) && i < |steps|
    ensures |steps[i].store.buckets| == |start.buckets|
  {
    hide Written;
    if i > 0 {
      SameBuckets(start, steps, i - 1);
    }
    WrittenBuckets(Before(start, steps, i), steps[i].write);
    assert steps[i].store == Written(Before(start, steps, i), steps[i].write);
  }

  lemma {:induction false} CompletedBuckets(start: Store, steps: seq<Step>, end: Store, chains: Chains,
                                            bucketOf: Bytes -> nat)
    requires Completed(start, steps, end, chains, bucketOf)
    ensures |end.buckets| == |start.buckets|
  {
    hide Journal, AtomicSteps;
    if steps != [] {
      SameBuckets(start, steps, |steps| - 1);
    }
  }

  /** Processes one record. */
  method ProcessKey(db: HashDBM, key: Bytes, proc: Processor)
    requires db.Valid() && key in db.Map()
    modifies db, db.pool
    ensures db.Valid() && db.inPlace == old(db.inPlace) && |db.store.buckets| == |old(db.store.buckets)|
    ensures forall k :: Get(db.Map(), k) ==
                        if k == key then Outcome(old(db.Map()), proc, key) else Get(old(db.Map()), k)
  {
    hide HashDBM.Valid, HashDBM.Map, Completed, AppendProcess, ChainsOk;
    var _, _ := db.ProcessImpl(key, proc, true, true);
    CompletedBuckets(old(db.store), db.steps, db.store, db.chains, db.bucketOf);
  }

  /** Processes the keys that one bucket had. */
  method ProcessBucket(db: HashDBM, keys: set<Bytes>, proc: Processor, b: nat, ghost m0: Contents)
    requires db.Valid() && Partly(m0, db.Map(), proc, db.bucketOf, b, keys)
    requires forall k :: k in keys ==> k in db.Map() && db.bucketOf(k) == b
    modifies db, db.pool
    ensures db.Valid() && db.inPlace == old(db.inPlace) && |db.store.buckets| == |old(db.store.buckets)|
    ensures Partly(m0, db.Map(), proc, db.bucketOf, b + 1, set k | k in db.Map() && db.bucketOf(k) == b + 1)
  {
    hide HashDBM.Valid, HashDBM.Map, Partly;
    var left := keys;
    while left != {}
      invariant db.Valid() && db.inPlace == old(db.inPlace) && |db.store.buckets| == |old(db.store.buckets)|
      invariant Partly(m0, db.Map(), proc, db.bucketOf, b, left)
      invariant forall k :: k in left ==> db.bucketOf(k) == b
      invariant forall k :: k in left ==> k in db.Map()
      decreases left
    {
      var key :| key in left;
      ghost var m := db.Map();
      ProcessKey(db, key, proc);
      OneMore(m0, m, db.Map(), proc, db.bucketOf, b, left, key);
      left := left - {key};
    }
    NextBucket(m0, db.Map(), proc, db.bucketOf, b);
  }

  lemma {:induction false} OneMore(m0: Contents, m: Contents, m': Contents, proc: Processor, bucketOf: Bytes -> nat,
                                   b: nat, left: set<Bytes>, key: Bytes)
    requires Partly(m0, m, proc, bucketOf, b, left) && key in left && bucketOf(key) == b && key in m
    requires forall k :: Get(m', k) == if k == key then Outcome(m, proc, key) else Get(m, k)
    ensures Partly(m0, m', proc, bucketOf, b, left - {key})
  {
    assert Get(m, key) == Get(m0, key);
  }

  lemma {:induction false} NextBucket(m0: Contents, m: Contents, proc: Processor, bucketOf: Bytes -> nat, b: nat)
    requires Partly(m0, m, proc, bucketOf, b, {})
    ensures Partly(m0, m, proc, bucketOf, b + 1, set k | k in m && bucketOf(k) == b + 1)
  {
    forall k
      ensures Get(m, k) == if bucketOf(k) < b + 1 || (bucketOf(k) == b + 1 && !(k in m && bucketOf(k) == b + 1))
                           then Outcome(m0, proc, k) else Get(m0, k)
    {
    }
  }

  /** The keys of a bucket, as its chain gives them. */
  method BucketKeys(db: HashDBM, b: nat) returns (keys: set<Bytes>)
    requires db.Valid() && b < |db.store.buckets|
    ensures forall k :: k in keys <==> k in db.Map() && db.bucketOf(k) == b
  {
    hide Visited, Enumerates, Inv, FileOk, Logged, DataSize, ChainsOk;
    FileInv(db.store, db.chains, db.bucketOf, db.geometry, db.inPlace, db.pool.Blocks());
    ChainThere(db.store, db.chains, db.bucketOf, b);
    var items := WalkBucket(db.store, db.bucketOf, b, db.chains);
    ghost var live, dead :| Visited(db.store.recs, db.chains[b], items, live, dead);
    ForBucket(db.store, db.chains, db.bucketOf, b, items, live, dead);
    keys := set i | 0 <= i < |items| :: items[i].0;
    ItemKeys(items, db.Map(), db.bucketOf, b, keys);
  }

  lemma {:induction false} ChainThere(s: Store, chains: Chains, bucketOf: Bytes -> nat, b: nat)
    requires Inv(s, chains, bucketOf) && b < |s.buckets|
    ensures ChainsOk(s, chains, bucketOf) && b < |chains| && AllIn(s.recs, chains[b])
  {
    assert ChainOk(s.recs, bucketOf, b, s.buckets[b], chains[b]);
  }

  lemma {:induction false} ItemKeys(items: Items, m: Contents, bucketOf: Bytes -> nat, b: nat, keys: set<Bytes>)
    requires keys == set i | 0 <= i < |items| :: items[i].0
    requires Enumerates(items, map k | k in m && bucketOf(k) == b :: m[k])
    ensures forall k :: k in keys <==> k in m && bucketOf(k) == b
  {
    var mb := map k | k in m && bucketOf(k) == b :: m[k];
    forall i | 0 <= i < |items|
      ensures items[i].0 in mb
    {
      assert Get(mb, items[i].0) == Some(items[i].1);
    }
    forall k | k in mb
      ensures k in keys
    {
      var i :| 0 <= i < |items| && items[i].0 == k;
    }
  }

  /** Processes every record: the map afterwards has, for each key that it had, what the processor
      makes of the record that was there, and no other key. */
  method ProcessEach(db: HashDBM, proc: Processor)
    requires db.Valid()
    modifies db, db.pool
    ensures db.Valid() && db.inPlace == old(db.inPlace)
    ensures forall k :: Get(db.Map(), k) == Outcome(old(db.Map()), proc, k)
  {
    hide HashDBM.Valid, HashDBM.Map, Partly;
    ghost var m0 := db.Map();
    var b := 0;
    var numBuckets := |db.store.buckets|;
    NoneDone(m0, proc, db.bucketOf);
    while b < numBuckets
      invariant 0 <= b <= numBuckets == |db.store.buckets| && db.Valid() && db.inPlace == old(db.inPlace)
      invariant Partly(m0, db.Map(), proc, db.bucketOf, b, set k | k in db.Map() && db.bucketOf(k) == b)
    {
      var keys := BucketKeys(db, b);
      assert keys == set k | k in db.Map() && db.bucketOf(k) == b;
      ProcessBucket(db, keys, proc, b, m0);
      b := b + 1;
    }
    AllDone(db, m0, proc);
  }

  lemma {:induction false} NoneDone(m0: Contents, proc: Processor, bucketOf: Bytes -> nat)
    ensures Partly(m0, m0, proc, bucketOf, 0, set k | k in m0 && bucketOf(k) == 0)
  {
  }

  lemma {:induction false} AllDone(db: HashDBM, m0: Contents, proc: Processor)
    requires db.Valid()
    requires Partly(m0, db.Map(), proc, db.bucketOf, |db.store.buckets|,
                    set k | k in db.Map() && db.bucketOf(k) == |db.store.buckets|)
    ensures forall k :: Get(db.Map(), k) == Outcome(m0, proc, k)
  {
    hide Layout, ChainsOk, Agree, ChildrenOk, Logged, DataSize;
    FileInv(db.store, db.chains, db.bucketOf, db.geometry, db.inPlace, db.pool.Blocks());
    assert BucketsOk(db.store, db.bucketOf);
  }
}
