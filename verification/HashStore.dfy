/** The file of a hash database as a value: records at offsets, bucket heads, and the two
    readings of it, walking a bucket chain and replaying the record section from its start. */
module HashStore {
  import opened Common

  datatype Op = OpVoid | OpSet | OpRemove | OpAdd

  /** A record: its operation, key and value, the offset of the next record of its bucket
      chain (0 for none) and the whole size it occupies, padding included. */
  datatype Rec = Rec(op: Op, key: Bytes, value: Bytes, child: nat, size: Pos)

  type Records = map<nat, Rec>
  type Contents = map<Bytes, Bytes>
  type Chains = seq<seq<nat>>

  /** The file: bucket heads, records by offset, the start of the record section and the end
      of the file. */
  datatype Store = Store(base: Pos, buckets: seq<nat>, recs: Records, size: nat)

  // ----- the record section, read from its start -----

  /** The offsets met by stepping from `from` by whole sizes. */
  function Scan(recs: Records, from: nat, end: nat): (offs: seq<nat>)
    ensures forall i :: 0 <= i < |offs| ==> offs[i] in recs && from <= offs[i] < end
    decreases if from < end then end - from else 0
  {
    if from < end && from in recs
    then [from] + Scan(recs, from + recs[from].size, end)
    else []
  }

  /** Stepping by whole sizes lands exactly on the end. */
  predicate Tiled(recs: Records, from: nat, end: nat)
    decreases if from < end then end - from else 0
  {
    from == end || (from < end && from in recs && Tiled(recs, from + recs[from].size, end))
  }

  lemma {:induction false} TileStep(recs: Records, offset: nat, end: nat)
    requires offset < end
    ensures Tiled(recs, offset, end) ==
            (offset in recs && Tiled(recs, offset + recs[offset].size, end))
  {
  }

  function Order(s: Store): (offs: seq<nat>)
    ensures forall i :: 0 <= i < |offs| ==> offs[i] in s.recs && s.base <= offs[i] < s.size
  {
    Scan(s.recs, s.base, s.size)
  }

  /** Records tile the record section, and there are no others. */
  predicate Layout(s: Store) {
    && Tiled(s.recs, s.base, s.size)
    && forall o :: o in s.recs ==> o in Order(s)
  }

  predicate AllIn(recs: Records, offs: seq<nat>) {
    forall i :: 0 <= i < |offs| ==> offs[i] in recs
  }

  function ApplyRec(m: Contents, r: Rec): Contents {
    match r.op
    case OpVoid => m
    case OpRemove => m - {r.key}
    case _ => m[r.key := r.value]
  }

  /** Last-writer-wins replay of the records at the given offsets. */
  function Replay(recs: Records, offs: seq<nat>): Contents
    requires AllIn(recs, offs)
  {
    if |offs| == 0 then map[]
    else ApplyRec(Replay(recs, offs[..|offs| - 1]), recs[offs[|offs| - 1]])
  }

  /** What the record section says the database holds. */
  function Logged(s: Store): Contents {
    Replay(s.recs, Order(s))
  }

  // ----- lookups -----

  predicate Matches(r: Rec, k: Bytes) {
    !r.op.OpVoid? && r.key == k
  }

  predicate Live(r: Rec) {
    r.op.OpSet? || r.op.OpAdd?
  }

  function ValueOf(recs: Records, o: Option<nat>): Option<Bytes>
    requires o.Some? ==> o.value in recs
  {
    if o.Some? && Live(recs[o.value]) then Some(recs[o.value].value) else None
  }

  /** The last record for a key in a list of offsets. */
  function LastFor(recs: Records, offs: seq<nat>, k: Bytes): (r: Option<nat>)
    requires AllIn(recs, offs)
    ensures r.Some? ==> r.value in offs && r.value in recs && Matches(recs[r.value], k)
    ensures r.None? ==> forall i :: 0 <= i < |offs| ==> !Matches(recs[offs[i]], k)
  {
    if |offs| == 0 then None
    else if Matches(recs[offs[|offs| - 1]], k) then Some(offs[|offs| - 1])
    else LastFor(recs, offs[..|offs| - 1], k)
  }

  /** The first record for a key in a list of offsets. */
  function FirstFor(recs: Records, offs: seq<nat>, k: Bytes): (r: Option<nat>)
    requires AllIn(recs, offs)
    ensures r.Some? ==> r.value in offs && r.value in recs && Matches(recs[r.value], k)
    ensures r.None? ==> forall i :: 0 <= i < |offs| ==> !Matches(recs[offs[i]], k)
  {
    if |offs| == 0 then None
    else if Matches(recs[offs[0]], k) then Some(offs[0])
    else FirstFor(recs, offs[1..], k)
  }

  /** Replay binds a key as the last record for that key says. */
  lemma {:induction false} ReplayGet(recs: Records, offs: seq<nat>, k: Bytes)
    requires AllIn(recs, offs)
    ensures Get(Replay(recs, offs), k) == ValueOf(recs, LastFor(recs, offs, k))
  {
    if |offs| > 0 {
      ReplayGet(recs, offs[..|offs| - 1], k);
    }
  }

  // ----- bucket chains -----

  function Succ(c: seq<nat>, i: nat): nat
    requires i < |c|
  {
    if i + 1 < |c| then c[i + 1] else 0
  }

  function Head(c: seq<nat>): nat {
    if |c| == 0 then 0 else c[0]
  }

  /** `c` is the list of offsets met by following child offsets from `head`. */
  predicate Linked(recs: Records, head: nat, c: seq<nat>) {
    && head == Head(c)
    && AllIn(recs, c)
    && forall i :: 0 <= i < |c| ==> c[i] != 0 && recs[c[i]].child == Succ(c, i)
  }

  /** The chain of bucket `b`: linked, acyclic, without void records, all of that bucket. */
  predicate ChainOk(recs: Records, bucketOf: Bytes -> nat, b: nat, head: nat, c: seq<nat>) {
    && Linked(recs, head, c)
    && Distinct(c)
    && forall i :: 0 <= i < |c| ==> !recs[c[i]].op.OpVoid? && bucketOf(recs[c[i]].key) == b
  }

  predicate ChainsOk(s: Store, chains: Chains, bucketOf: Bytes -> nat) {
    && |chains| == |s.buckets|
    && forall b :: 0 <= b < |chains| ==> ChainOk(s.recs, bucketOf, b, s.buckets[b], chains[b])
  }

  ghost predicate BucketsOk(s: Store, bucketOf: Bytes -> nat) {
    forall k :: bucketOf(k) < |s.buckets|
  }

  /** The value found by walking the chain of the key's bucket. */
  function Lookup(s: Store, chains: Chains, bucketOf: Bytes -> nat, k: Bytes): Option<Bytes>
    requires ChainsOk(s, chains, bucketOf)
    requires bucketOf(k) < |s.buckets|
  {
    ValueOf(s.recs, FirstFor(s.recs, chains[bucketOf(k)], k))
  }

  /** Walking chains gives exactly the map `m`. */
  ghost predicate LooksUp(s: Store, chains: Chains, bucketOf: Bytes -> nat, m: Contents) {
    && BucketsOk(s, bucketOf)
    && ChainsOk(s, chains, bucketOf)
    && forall k :: Lookup(s, chains, bucketOf, k) == Get(m, k)
  }

  /** Replaying the record section gives exactly the map `m`. */
  ghost predicate Replays(s: Store, m: Contents) {
    Layout(s) && Logged(s) == m
  }

  // ----- single file writes -----

  function WriteRec(s: Store, o: nat, r: Rec): Store {
    s.(recs := s.recs[o := r])
  }

  function AppendRec(s: Store, r: Rec): Store {
    s.(recs := s.recs[s.size := r], size := s.size + r.size)
  }

  function WriteChild(s: Store, o: nat, child: nat): Store
    requires o in s.recs
  {
    WriteRec(s, o, s.recs[o].(child := child))
  }

  function SetBucket(s: Store, b: nat, head: nat): Store
    requires b < |s.buckets|
  {
    s.(buckets := s.buckets[b := head])
  }

  /** The write that makes the predecessor of position `i` of a chain point to `to`. */
  function Relink(s: Store, b: nat, c: seq<nat>, i: nat, to: nat): Store
    requires b < |s.buckets| && i <= |c| && AllIn(s.recs, c)
  {
    if i == 0 then SetBucket(s, b, to) else WriteChild(s, c[i - 1], to)
  }

  lemma {:induction false} ScanFrame(recs: Records, recs': Records, from: nat, end: nat)
    requires recs.Keys == recs'.Keys
    requires forall o :: o in recs ==> recs[o].size == recs'[o].size
    ensures Scan(recs, from, end) == Scan(recs', from, end)
    ensures Tiled(recs, from, end) == Tiled(recs', from, end)
    decreases if from < end then end - from else 0
  {
    if from < end && from in recs {
      ScanFrame(recs, recs', from + recs[from].size, end);
    }
  }

  lemma {:induction false} ScanAppend(recs: Records, from: nat, end: nat, r: Rec)
    requires Tiled(recs, from, end)
    ensures Tiled(recs[end := r], from, end + r.size)
    ensures Scan(recs[end := r], from, end + r.size) == Scan(recs, from, end) + [end]
    decreases if from < end then end - from else 0
  {
    if from < end {
      ScanAppend(recs, from + recs[from].size, end, r);
    } else {
      assert Scan(recs[end := r], end + r.size, end + r.size) == [];
    }
  }

  lemma {:induction false} LayoutWrite(s: Store, o: nat, r: Rec)
    requires Layout(s) && o in s.recs && r.size == s.recs[o].size
    ensures Layout(WriteRec(s, o, r)) && Order(WriteRec(s, o, r)) == Order(s)
  {
    ScanFrame(s.recs, s.recs[o := r], s.base, s.size);
  }

  lemma {:induction false} LayoutAppend(s: Store, r: Rec)
    requires Layout(s)
    ensures Layout(AppendRec(s, r)) && Order(AppendRec(s, r)) == Order(s) + [s.size]
    ensures s.size !in s.recs
  {
    ScanAppend(s.recs, s.base, s.size, r);
  }

  lemma {:induction false} LastForFrame(recs: Records, recs': Records, offs: seq<nat>, k: Bytes)
    requires AllIn(recs, offs) && AllIn(recs', offs)
    requires forall i :: 0 <= i < |offs| ==> Matches(recs[offs[i]], k) == Matches(recs'[offs[i]], k)
    ensures LastFor(recs, offs, k) == LastFor(recs', offs, k)
  {
    if |offs| > 0 {
      LastForFrame(recs, recs', offs[..|offs| - 1], k);
    }
  }

  lemma {:induction false} FirstForFrame(recs: Records, recs': Records, offs: seq<nat>, k: Bytes)
    requires AllIn(recs, offs) && AllIn(recs', offs)
    requires forall i :: 0 <= i < |offs| ==> Matches(recs[offs[i]], k) == Matches(recs'[offs[i]], k)
    ensures FirstFor(recs, offs, k) == FirstFor(recs', offs, k)
  {
    if |offs| > 0 {
      FirstForFrame(recs, recs', offs[1..], k);
    }
  }

  lemma {:induction false} ReplayFrame(recs: Records, recs': Records, offs: seq<nat>)
    requires AllIn(recs, offs) && AllIn(recs', offs)
    requires forall i :: 0 <= i < |offs| ==> recs[offs[i]].(child := 0) == recs'[offs[i]].(child := 0)
    ensures Replay(recs, offs) == Replay(recs', offs)
  {
    if |offs| > 0 {
      ReplayFrame(recs, recs', offs[..|offs| - 1]);
    }
  }

  lemma {:induction false} ReplaySnoc(recs: Records, offs: seq<nat>, o: nat)
    requires AllIn(recs, offs) && o in recs
    ensures Replay(recs, offs + [o]) == ApplyRec(Replay(recs, offs), recs[o])
  {
    assert (offs + [o])[..|offs + [o]| - 1] == offs;
  }

  lemma {:induction false} LastForSnoc(recs: Records, offs: seq<nat>, o: nat, k: Bytes)
    requires AllIn(recs, offs) && o in recs
    ensures LastFor(recs, offs + [o], k) ==
            if Matches(recs[o], k) then Some(o) else LastFor(recs, offs, k)
  {
    assert (offs + [o])[..|offs + [o]| - 1] == offs;
  }

  lemma {:induction false} FirstForCons(recs: Records, o: nat, offs: seq<nat>, k: Bytes)
    requires AllIn(recs, offs) && o in recs
    ensures FirstFor(recs, [o] + offs, k) ==
            if Matches(recs[o], k) then Some(o) else FirstFor(recs, offs, k)
  {
    assert ([o] + offs)[1..] == offs;
  }

  /** `recs'` holds the same records as `recs` at the given offsets. */
  predicate SameAt(recs: Records, recs': Records, offs: seq<nat>)
    requires AllIn(recs, offs)
  {
    forall i :: 0 <= i < |offs| ==> offs[i] in recs' && recs'[offs[i]] == recs[offs[i]]
  }

  /** A chain stays a chain under writes that keep the key, the child and the kind of its records. */
  lemma {:induction false} ChainFrame(recs: Records, recs': Records, bucketOf: Bytes -> nat, b: nat, head: nat,
                                      c: seq<nat>)
    requires ChainOk(recs, bucketOf, b, head, c) && AllIn(recs', c)
    requires forall i :: 0 <= i < |c| ==>
               var r, r' := recs[c[i]], recs'[c[i]];
               r'.child == r.child && r'.key == r.key && r'.op.OpVoid? == r.op.OpVoid?
    ensures ChainOk(recs', bucketOf, b, head, c)
  {
  }

  /** A write that touches no record on a chain and no bucket leaves every lookup as it was. */
  lemma {:induction false} LookupFrame(s: Store, s': Store, chains: Chains, bucketOf: Bytes -> nat, m: Contents)
    requires LooksUp(s, chains, bucketOf, m)
    requires s'.buckets == s.buckets
    requires forall b :: 0 <= b < |chains| ==> SameAt(s.recs, s'.recs, chains[b])
    ensures LooksUp(s', chains, bucketOf, m)
  {
    forall b | 0 <= b < |chains|
      ensures ChainOk(s'.recs, bucketOf, b, s'.buckets[b], chains[b])
    {
      ChainFrame(s.recs, s'.recs, bucketOf, b, s.buckets[b], chains[b]);
    }
    forall k
      ensures Lookup(s', chains, bucketOf, k) == Get(m, k)
    {
      FirstForFrame(s.recs, s'.recs, chains[bucketOf(k)], k);
      assert Lookup(s, chains, bucketOf, k) == Get(m, k);
    }
  }
}
