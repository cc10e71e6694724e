/** What the file of a database in in-place mode looks like between operations. */
module HashShape {
  import opened Common
  import opened HashStore
  import opened HashAppend
  import opened HashInPlace
  import opened RecordSize
  import opened FreeBlocks
  import opened HashDatabase

  lemma {:induction false} ScanAligned(recs: Records, from: nat, end: nat, align: Pos)
    requires from % align == 0
    requires forall o :: o in recs ==> recs[o].size % align == 0
    ensures forall i :: 0 <= i < |Scan(recs, from, end)| ==> Scan(recs, from, end)[i] % align == 0
    decreases if from < end then end - from else 0
  {
    if from < end && from in recs {
      SumAligned(from, recs[from].size, align);
      ScanAligned(recs, from + recs[from].size, end, align);
    }
  }

  lemma {:induction false} SumAligned(a: nat, b: nat, align: Pos)
    requires a % align == 0 && b % align == 0
    ensures (a + b) % align == 0
  {
    var n := a / align + b / align - (a + b) / align;
    assert align * n == (a + b) % align;
    assert n == 0;
  }

  /** No other position of a chain holds what position `i` of the chain of bucket `b` holds. */
  ghost predicate OnlyAt(chains: Chains, b: nat, i: nat)
    requires b < |chains| && i < |chains[b]|
  {
    forall c, j :: 0 <= c < |chains| && 0 <= j < |chains[c]| && chains[c][j] == chains[b][i] ==>
      c == b && j == i
  }

  /** The offset lies at one position of one chain, that of bucket `b`. */
  ghost predicate LiesOnce(chains: Chains, b: nat, o: nat) {
    && b < |chains|
    && exists i :: 0 <= i < |chains[b]| && chains[b][i] == o && OnlyAt(chains, b, i)
  }

  lemma {:induction false} LiveLiesOnce(s: Store, chains: Chains, bucketOf: Bytes -> nat, o: nat)
    requires InPlaceInv(s, chains, bucketOf)
    requires o in s.recs && !s.recs[o].op.OpVoid?
    ensures LiesOnce(chains, bucketOf(s.recs[o].key), o)
  {
    hide Layout;
    var b := bucketOf(s.recs[o].key);
    assert o in chains[b];
    var i :| 0 <= i < |chains[b]| && chains[b][i] == o;
    forall c, j | 0 <= c < |chains| && 0 <= j < |chains[c]| && chains[c][j] == o
      ensures c == b && j == i
    {
      assert ChainOk(s.recs, bucketOf, c, s.buckets[c], chains[c]);
      assert c == b;
      assert Distinct(chains[b]);
    }
    assert OnlyAt(chains, b, i);
  }

  /** Aligned records tile the record section; each live record lies once on the chain of its
      key's bucket and nothing else lies on a chain; each pool block is one void record; and
      walking chains gives exactly what the database holds. */
  lemma {:induction false} InPlaceShape(db: HashDBM)
    requires db.Valid() && db.inPlace
    ensures Layout(db.store)
    ensures forall o :: o in db.store.recs ==>
              o % db.geometry.align == 0 && db.store.recs[o].size % db.geometry.align == 0
    ensures forall o :: o in db.store.recs && !db.store.recs[o].op.OpVoid? ==>
              LiesOnce(db.chains, db.bucketOf(db.store.recs[o].key), o)
    ensures forall b, i :: 0 <= b < |db.chains| && 0 <= i < |db.chains[b]| ==>
              db.chains[b][i] in db.store.recs && !db.store.recs[db.chains[b][i]].op.OpVoid?
    ensures PoolOk(db.pool.Blocks(), db.store.recs)
    ensures LooksUp(db.store, db.chains, db.bucketOf, db.Map())
  {
    hide LiesOnce, LooksUp, Logged;
    var s := db.store;
    assert InPlaceInv(s, db.chains, db.bucketOf);
    InPlaceIsInv(s, db.chains, db.bucketOf);
    InvLooksUp(s, db.chains, db.bucketOf);
    ScanAligned(s.recs, s.base, s.size, db.geometry.align);
    forall o | o in s.recs && !s.recs[o].op.OpVoid?
      ensures LiesOnce(db.chains, db.bucketOf(s.recs[o].key), o)
    {
      LiveLiesOnce(s, db.chains, db.bucketOf, o);
    }
    forall b, i | 0 <= b < |db.chains| && 0 <= i < |db.chains[b]|
      ensures db.chains[b][i] in s.recs && !s.recs[db.chains[b][i]].op.OpVoid?
    {
      assert ChainOk(s.recs, db.bucketOf, b, s.buckets[b], db.chains[b]);
    }
  }
}
