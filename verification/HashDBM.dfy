/** The hash database: one operation at a time on the file, with the writes it makes recorded so
    that the state after each of them can be spoken of. */
module HashDatabase {
  import opened Common
  import opened HashStore
  import opened HashAppend
  import opened HashInPlace
  import opened RecordSize
  import opened FreeBlocks

  /** A single write to the file. */
  datatype Write =
    | AtEnd(rec: Rec)
    | AtRecord(offset: nat, rec: Rec)
    | AtChild(offset: nat, child: nat)
    | AtBucket(bucket: nat, head: nat)

  function Written(s: Store, w: Write): Store {
    match w
    case AtEnd(r) => AppendRec(s, r)
    case AtRecord(o, r) => WriteRec(s, o, r)
    case AtChild(o, child) => if o in s.recs then WriteChild(s, o, child) else s
    case AtBucket(b, head) => if b < |s.buckets| then SetBucket(s, b, head) else s
  }

  /** A write, the file after it, and the bucket chains of that file. */
  datatype Step = Step(write: Write, store: Store, chains: Chains)

  /** The file before a step. */
  function Before(start: Store, steps: seq<Step>, i: nat): Store
    requires i <= |steps|
  {
    if i == 0 then start else steps[i - 1].store
  }

  /** The steps are the successive single writes that lead from `start`. */
  ghost predicate Journal(start: Store, steps: seq<Step>) {
    forall i :: 0 <= i < |steps| ==> steps[i].store == Written(Before(start, steps, i), steps[i].write)
  }

  /** Each reading of the file, lookup and replay, gives one of the two maps. */
  ghost predicate Atomic(step: Step, bucketOf: Bytes -> nat, before: Contents, after: Contents) {
    && (|| LooksUp(step.store, step.chains, bucketOf, before)
        || LooksUp(step.store, step.chains, bucketOf, after))
    && (Replays(step.store, before) || Replays(step.store, after))
  }

  /** After every one of the writes, each reading gives the map before or the map after. */
  ghost predicate AtomicSteps(steps: seq<Step>, bucketOf: Bytes -> nat, before: Contents, after: Contents) {
    forall i :: 0 <= i < |steps| ==> Atomic(steps[i], bucketOf, before, after)
  }

  // ----- the invariant of the file -----

  function VoidSize(g: Geometry): Pos {
    WholeSize(g, [], [], 0)
  }

  /** An aligned size, large enough for a void record. */
  predicate SizeOk(g: Geometry, size: Pos) {
    size % g.align == 0 && size >= VoidSize(g)
  }

  lemma {:induction false} WholeSizeOk(g: Geometry, key: Bytes, value: Bytes, ideal: nat)
    ensures SizeOk(g, WholeSize(g, key, value, ideal))
  {
    var base := BaseSize(g, |key|, |value|);
    var raw := if base > ideal then base else ideal;
    AlignMonotone(BaseSize(g, 0, 0), raw, g.align);
  }

  lemma {:induction false} VoidFits(g: Geometry, size: Pos)
    requires SizeOk(g, size)
    ensures WholeSize(g, [], [], size) == size
  {
  }

  lemma {:induction false} BlockFits(g: Geometry, key: Bytes, value: Bytes, size: Pos)
    requires SizeOk(g, size) && size >= WholeSize(g, key, value, 0)
    ensures WholeSize(g, key, value, size) == size
  {
  }

  /** Records are aligned, and large enough to be turned into void records. */
  ghost predicate Aligned(s: Store, g: Geometry) {
    && s.base % g.align == 0
    && forall o :: o in s.recs ==> SizeOk(g, s.recs[o].size)
  }

  /** Every registered free block is exactly one void record. */
  ghost predicate PoolOk(blocks: set<FreeBlock>, recs: Records) {
    forall fb :: fb in blocks ==>
      fb.offset in recs && recs[fb.offset].op.OpVoid? && recs[fb.offset].size == fb.size
  }

  ghost predicate FileOk(s: Store, chains: Chains, bucketOf: Bytes -> nat, g: Geometry, inPlace: bool,
                         blocks: set<FreeBlock>) {
    && Aligned(s, g)
    && (if inPlace then InPlaceInv(s, chains, bucketOf) && PoolOk(blocks, s.recs)
        else Inv(s, chains, bucketOf))
  }

  /** The writes lead from `start` to `end`; after each of them both readings give what `start`
      or what `end` holds. */
  ghost predicate Completed(start: Store, steps: seq<Step>, end: Store, chains: Chains, bucketOf: Bytes -> nat) {
    && Journal(start, steps)
    && AtomicSteps(steps, bucketOf, Logged(start), Logged(end))
    && (if steps == [] then end == start
        else steps[|steps| - 1].store == end && steps[|steps| - 1].chains == chains)
  }

  function TwoSteps(s: Store, w1: Write, chains1: Chains, w2: Write, chains2: Chains): seq<Step> {
    [Step(w1, Written(s, w1), chains1), Step(w2, Written(Written(s, w1), w2), chains2)]
  }

  lemma {:induction false} EndIsFree(s: Store, chains: Chains, bucketOf: Bytes -> nat, g: Geometry, inPlace: bool,
                                     blocks: set<FreeBlock>)
    requires FileOk(s, chains, bucketOf, g, inPlace, blocks)
    ensures s.size !in s.recs
  {
    assert Layout(s);
  }

  lemma {:induction false} OnChain(s: Store, chains: Chains, bucketOf: Bytes -> nat, g: Geometry, inPlace: bool,
                                   blocks: set<FreeBlock>, b: nat, i: nat)
    requires FileOk(s, chains, bucketOf, g, inPlace, blocks) && b < |chains| && i < |chains[b]|
    ensures |chains| == |s.buckets| && AllIn(s.recs, chains[b]) && chains[b][i] != 0
    ensures !s.recs[chains[b][i]].op.OpVoid? && bucketOf(s.recs[chains[b][i]].key) == b
    ensures s.recs[chains[b][i]].child == Succ(chains[b], i)
  {
    assert ChainOk(s.recs, bucketOf, b, s.buckets[b], chains[b]);
  }

  function ThreeSteps(s: Store, w1: Write, chains1: Chains, w2: Write, chains2: Chains, w3: Write, chains3: Chains)
    : seq<Step> {
    TwoSteps(s, w1, chains1, w2, chains2) +
    [Step(w3, Written(Written(Written(s, w1), w2), w3), chains3)]
  }

  // ----- removing a record -----

  /** Unlinking, then voiding. */
  lemma {:induction false} RemoveWrites(s: Store, chains: Chains, bucketOf: Bytes -> nat, b: nat, i: nat)
    requires InPlaceInv(s, chains, bucketOf) && b < |chains| && i < |chains[b]|
    ensures var key := s.recs[chains[b][i]].key;
            var before, after := Logged(s), Logged(s) - {key};
            var s1 := SpliceWrite(s, chains, b, i, []);
            var chains1 := chains[b := Spliced(chains[b], i, [])];
            var s2 := WriteRec(s1, chains[b][i], VoidRec(s.recs[chains[b][i]].size));
            && LooksUp(s1, chains1, bucketOf, after) && Replays(s1, before)
            && LooksUp(s2, chains1, bucketOf, after) && Replays(s2, after)
            && InPlaceInv(s2, chains1, bucketOf)
  {
    InPlaceIsInv(s, chains, bucketOf);
    InvLooksUp(s, chains, bucketOf);
    var key := s.recs[chains[b][i]].key;
    var s1 := SpliceWrite(s, chains, b, i, []);
    var chains1 := chains[b := Spliced(chains[b], i, [])];
    SpliceKeeps(s, chains, bucketOf, b, i, []);
    SpliceLooksUp(s, chains, bucketOf, b, i, [], Logged(s));
    SplicedOff(s, chains, bucketOf, b, i, []);
    VoidKeeps(s1, chains1, bucketOf, chains[b][i], Logged(s) - {key});
    LoggedIs(WriteRec(s1, chains[b][i], VoidRec(s.recs[chains[b][i]].size)), chains1, bucketOf,
             Logged(s) - {key});
  }

  /** The two writes of a removal. */
  predicate IsRemoval(s: Store, chains: Chains, g: Geometry, b: nat, i: nat, w1: Write, w2: Write) {
    && b < |s.buckets| == |chains| && i < |chains[b]| && AllIn(s.recs, chains[b])
    && var o := chains[b][i];
       && w1 == (if i == 0 then AtBucket(b, s.recs[o].child)
                 else AtChild(chains[b][i - 1], s.recs[o].child))
       && w2 == AtRecord(o, VoidRec(WholeSize(g, [], [], s.recs[o].size)))
  }

  lemma {:induction false} RemovalStores(s: Store, chains: Chains, bucketOf: Bytes -> nat, g: Geometry,
                                         blocks: set<FreeBlock>, b: nat, i: nat, w1: Write, w2: Write)
    requires FileOk(s, chains, bucketOf, g, true, blocks)
    requires IsRemoval(s, chains, g, b, i, w1, w2)
    ensures var o := chains[b][i];
            && Written(s, w1) == SpliceWrite(s, chains, b, i, [])
            && Written(Written(s, w1), w2) ==
               WriteRec(SpliceWrite(s, chains, b, i, []), o, VoidRec(s.recs[o].size))
  {
    hide Layout, WholeSize, SizeOk;
    OnChain(s, chains, bucketOf, g, true, blocks, b, i);
    VoidFits(g, s.recs[chains[b][i]].size);
    assert s.recs[chains[b][i]].child == Head([] + chains[b][i + 1..]);
  }

  /** After the two writes of a removal the file is in order and the key is gone. */
  lemma {:induction false} RemovalKeeps(s: Store, chains: Chains, bucketOf: Bytes -> nat, g: Geometry,
                                        blocks: set<FreeBlock>, b: nat, i: nat, w1: Write, w2: Write,
                                        blocks1: set<FreeBlock>)
    requires FileOk(s, chains, bucketOf, g, true, blocks)
    requires IsRemoval(s, chains, g, b, i, w1, w2)
    requires blocks1 <= blocks + {FreeBlock(chains[b][i], s.recs[chains[b][i]].size)}
    ensures var s2 := Written(Written(s, w1), w2);
            && FileOk(s2, chains[b := Spliced(chains[b], i, [])], bucketOf, g, true, blocks1)
            && Logged(s2) == Logged(s) - {s.recs[chains[b][i]].key}
  {
    hide InPlaceInv, LooksUp, Logged, Layout, SizeOk, WholeSize;
    RemovalStores(s, chains, bucketOf, g, blocks, b, i, w1, w2);
    assert SameData(s.recs, Written(s, w1).recs);
    RemoveWrites(s, chains, bucketOf, b, i);
  }

  /** Both writes of a removal are atomic. */
  lemma {:induction false} RemovalCompletes(s: Store, chains: Chains, bucketOf: Bytes -> nat, g: Geometry,
                                            blocks: set<FreeBlock>, b: nat, i: nat, w1: Write, w2: Write)
    requires FileOk(s, chains, bucketOf, g, true, blocks)
    requires IsRemoval(s, chains, g, b, i, w1, w2)
    ensures var chains1 := chains[b := Spliced(chains[b], i, [])];
            Completed(s, TwoSteps(s, w1, chains1, w2, chains1), Written(Written(s, w1), w2), chains1,
                      bucketOf)
  {
    hide InPlaceInv, LooksUp, Logged, Layout, SizeOk, WholeSize;
    RemovalStores(s, chains, bucketOf, g, blocks, b, i, w1, w2);
    RemoveWrites(s, chains, bucketOf, b, i);
  }

  /** The record taken out by a splice is on no chain afterwards, and keeps its size. */
  lemma {:induction false} SplicedOff(s: Store, chains: Chains, bucketOf: Bytes -> nat, b: nat, i: nat, mid: seq<nat>)
    requires ChainsOk(s, chains, bucketOf) && b < |chains| && i < |chains[b]|
    requires Replaces(s.recs, chains[b], i, mid)
    ensures var chains1 := chains[b := Spliced(chains[b], i, mid)];
            forall x :: 0 <= x < |chains1| ==> chains[b][i] !in chains1[x]
    ensures var s1 := SpliceWrite(s, chains, b, i, mid);
            chains[b][i] in s1.recs && s1.recs[chains[b][i]].size == s.recs[chains[b][i]].size
  {
    assert ChainOk(s.recs, bucketOf, b, s.buckets[b], chains[b]);
    var chains1 := chains[b := Spliced(chains[b], i, mid)];
    forall x | 0 <= x < |chains1|
      ensures chains[b][i] !in chains1[x]
    {
      assert ChainOk(s.recs, bucketOf, x, s.buckets[x], chains[x]);
    }
  }

  /** Placing the new record, relinking, then voiding the old place. */
  lemma {:induction false} MoveWrites(s: Store, chains: Chains, bucketOf: Bytes -> nat, b: nat, i: nat, n: nat, r: Rec)
    requires InPlaceInv(s, chains, bucketOf) && b < |chains| && i < |chains[b]|
    requires Placeable(s, n, r) && Live(r)
    requires r.key == s.recs[chains[b][i]].key && r.child == s.recs[chains[b][i]].child
    ensures var before, after := Logged(s), Logged(s)[r.key := r.value];
            var o := chains[b][i];
            var s1 := Place(s, n, r);
            AllIn(s1.recs, chains[b]) &&
            var s2 := SpliceWrite(s1, chains, b, i, [n]);
            var chains2 := chains[b := Spliced(chains[b], i, [n])];
            var s3 := WriteRec(s2, o, VoidRec(s.recs[o].size));
            && LooksUp(s1, chains, bucketOf, before)
            && (Replays(s1, before) || Replays(s1, after))
            && LooksUp(s2, chains2, bucketOf, after)
            && (Replays(s2, before) || Replays(s2, after))
            && LooksUp(s3, chains2, bucketOf, after) && Replays(s3, after)
            && InPlaceInv(s3, chains2, bucketOf)
  {
    var o := chains[b][i];
    var s1 := Place(s, n, r);
    var after := Logged(s)[r.key := r.value];
    PlaceReplays(s, n, r);
    PlaceKeeps(s, chains, bucketOf, n, r);
    assert ChainOk(s.recs, bucketOf, b, s.buckets[b], chains[b]);
    assert ChainOk(s1.recs, bucketOf, b, s1.buckets[b], chains[b]);
    assert s1.recs[o] == s.recs[o] && s1.recs[n] == r;
    MoveRelinks(s1, chains, bucketOf, b, i, n, Logged(s));
  }

  lemma {:induction false} MoveRelinks(s: Store, chains: Chains, bucketOf: Bytes -> nat, b: nat, i: nat, n: nat,
                                       m: Contents)
    requires Chained(s, chains, bucketOf) && b < |chains| && i < |chains[b]|
    requires Replaces(s.recs, chains[b], i, [n]) && Covered(s, chains, bucketOf, {n})
    requires LooksUp(s, chains, bucketOf, m)
    ensures var o := chains[b][i];
            var after := m[s.recs[n].key := s.recs[n].value];
            var s2 := SpliceWrite(s, chains, b, i, [n]);
            var chains2 := chains[b := Spliced(chains[b], i, [n])];
            var s3 := WriteRec(s2, o, VoidRec(s.recs[o].size));
            && LooksUp(s2, chains2, bucketOf, after) && Replays(s2, Logged(s))
            && LooksUp(s3, chains2, bucketOf, after) && Replays(s3, after)
            && InPlaceInv(s3, chains2, bucketOf)
  {
    var o := chains[b][i];
    var after := m[s.recs[n].key := s.recs[n].value];
    var s2 := SpliceWrite(s, chains, b, i, [n]);
    var chains2 := chains[b := Spliced(chains[b], i, [n])];
    assert (set x | x in [n]) == {n};
    SpliceKeeps(s, chains, bucketOf, b, i, [n]);
    SpliceLooksUp(s, chains, bucketOf, b, i, [n], m);
    SplicedOff(s, chains, bucketOf, b, i, [n]);
    VoidKeeps(s2, chains2, bucketOf, o, after);
    LoggedIs(WriteRec(s2, o, VoidRec(s.recs[o].size)), chains2, bucketOf, after);
  }

  // ----- moving a record -----

  /** The three writes of a move: the new record at the end of the file or in a free block, the
      link to it, and the void record in the old place. */
  ghost predicate IsMove(s: Store, chains: Chains, g: Geometry, b: nat, i: nat, n: nat, r: Rec, w1: Write,
                         w2: Write, w3: Write) {
    && b < |s.buckets| == |chains| && i < |chains[b]| && AllIn(s.recs, chains[b])
    && Placeable(s, n, r) && Live(r)
    && var o := chains[b][i];
       && r.key == s.recs[o].key && r.child == s.recs[o].child
       && w1 == (if n == s.size then AtEnd(r) else AtRecord(n, r))
       && w2 == (if i == 0 then AtBucket(b, n) else AtChild(chains[b][i - 1], n))
       && w3 == AtRecord(o, VoidRec(WholeSize(g, [], [], s.recs[o].size)))
  }

  lemma {:induction false} MoveStores(s: Store, chains: Chains, bucketOf: Bytes -> nat, g: Geometry,
                                      blocks: set<FreeBlock>, b: nat, i: nat, n: nat, r: Rec, w1: Write, w2: Write,
                                      w3: Write)
    requires FileOk(s, chains, bucketOf, g, true, blocks)
    requires IsMove(s, chains, g, b, i, n, r, w1, w2, w3)
    ensures var o := chains[b][i];
            var s1 := Place(s, n, r);
            && Written(s, w1) == s1
            && AllIn(s1.recs, chains[b])
            && Written(s1, w2) == SpliceWrite(s1, chains, b, i, [n])
            && Written(Written(s1, w2), w3) ==
               WriteRec(SpliceWrite(s1, chains, b, i, [n]), o, VoidRec(s.recs[o].size))
  {
    hide Layout, WholeSize, SizeOk;
    OnChain(s, chains, bucketOf, g, true, blocks, b, i);
    VoidFits(g, s.recs[chains[b][i]].size);
    assert Head([n] + chains[b][i + 1..]) == n;
  }

  lemma {:induction false} MoveKeeps(s: Store, chains: Chains, bucketOf: Bytes -> nat, g: Geometry,
                                     blocks: set<FreeBlock>, b: nat, i: nat, n: nat, r: Rec, w1: Write, w2: Write,
                                     w3: Write, blocks1: set<FreeBlock>)
    requires FileOk(s, chains, bucketOf, g, true, blocks)
    requires IsMove(s, chains, g, b, i, n, r, w1, w2, w3)
    requires SizeOk(g, r.size)
    requires blocks1 <= blocks - {FreeBlock(n, r.size)} +
                        {FreeBlock(chains[b][i], s.recs[chains[b][i]].size)}
    ensures var s3 := Written(Written(Written(s, w1), w2), w3);
            && FileOk(s3, chains[b := Spliced(chains[b], i, [n])], bucketOf, g, true, blocks1)
            && Logged(s3) == Logged(s)[r.key := r.value]
  {
    hide InPlaceInv, LooksUp, Logged, Layout, SizeOk;
    EndIsFree(s, chains, bucketOf, g, true, blocks);
    OnChain(s, chains, bucketOf, g, true, blocks, b, i);
    MoveStores(s, chains, bucketOf, g, blocks, b, i, n, r, w1, w2, w3);
    assert SameData(Written(s, w1).recs, Written(Written(s, w1), w2).recs);
    MoveWrites(s, chains, bucketOf, b, i, n, r);
    var s2 := Written(Written(s, w1), w2);
    MoveSizes(s, s2, g, blocks, blocks1, chains[b][i], n, r);
  }

  /** The new record after the three writes of a move. */
  lemma {:induction false} MovedRecord(s: Store, chains: Chains, bucketOf: Bytes -> nat, g: Geometry,
                                       blocks: set<FreeBlock>, b: nat, i: nat, n: nat, r: Rec, w1: Write, w2: Write,
                                       w3: Write)
    requires FileOk(s, chains, bucketOf, g, true, blocks)
    requires IsMove(s, chains, g, b, i, n, r, w1, w2, w3)
    ensures var s3 := Written(Written(Written(s, w1), w2), w3);
            && n in s3.recs && s3.recs[n].key == r.key && s3.recs[n].value == r.value && s3.recs[n].size == r.size
            && chains[b][i] in s3.recs && s3.recs[chains[b][i]] == VoidRec(s.recs[chains[b][i]].size)
  {
    hide InPlaceInv, Layout, SizeOk, WholeSize, FileOk;
    EndIsFree(s, chains, bucketOf, g, true, blocks);
    OnChain(s, chains, bucketOf, g, true, blocks, b, i);
    ChainSize(s, chains, bucketOf, g, true, blocks, chains[b][i]);
    if i > 0 {
      OnChain(s, chains, bucketOf, g, true, blocks, b, i - 1);
    }
  }

  lemma {:induction false} MoveSizes(s: Store, s2: Store, g: Geometry, blocks: set<FreeBlock>,
                                     blocks1: set<FreeBlock>, o: nat, n: nat, r: Rec)
    requires Aligned(s, g) && PoolOk(blocks, s.recs) && SizeOk(g, r.size)
    requires o in s.recs && !s.recs[o].op.OpVoid? && Placeable(s, n, r) && s.size !in s.recs
    requires SameData(Place(s, n, r).recs, s2.recs) && s2.base == s.base
    requires blocks1 <= blocks - {FreeBlock(n, r.size)} + {FreeBlock(o, s.recs[o].size)}
    ensures var s3 := WriteRec(s2, o, VoidRec(s.recs[o].size));
            Aligned(s3, g) && PoolOk(blocks1, s3.recs)
  {
    hide SizeOk;
  }

  lemma {:induction false} MoveCompletes(s: Store, chains: Chains, bucketOf: Bytes -> nat, g: Geometry,
                                         blocks: set<FreeBlock>, b: nat, i: nat, n: nat, r: Rec, w1: Write,
                                         w2: Write, w3: Write)
    requires FileOk(s, chains, bucketOf, g, true, blocks)
    requires IsMove(s, chains, g, b, i, n, r, w1, w2, w3)
    ensures var chains2 := chains[b := Spliced(chains[b], i, [n])];
            Completed(s, ThreeSteps(s, w1, chains, w2, chains2, w3, chains2),
                      Written(Written(Written(s, w1), w2), w3), chains2, bucketOf)
  {
    hide InPlaceInv, LooksUp, Logged, Layout, SizeOk;
    MoveStores(s, chains, bucketOf, g, blocks, b, i, n, r, w1, w2, w3);
    MoveWrites(s, chains, bucketOf, b, i, n, r);
  }

  // ----- inserting a record -----

  /** Placing the new record, then making it the head of its chain. */
  lemma {:induction false} InsertWrites(s: Store, chains: Chains, bucketOf: Bytes -> nat, n: nat, r: Rec)
    requires InPlaceInv(s, chains, bucketOf) && Placeable(s, n, r) && Live(r)
    requires r.child == s.buckets[bucketOf(r.key)] && r.key !in Logged(s)
    ensures var after := Logged(s)[r.key := r.value];
            var b := bucketOf(r.key);
            var s1 := Place(s, n, r);
            b < |s1.buckets| &&
            var s2 := SetBucket(s1, b, n);
            var chains2 := chains[b := [n] + chains[b]];
            && LooksUp(s1, chains, bucketOf, Logged(s)) && Replays(s1, after)
            && LooksUp(s2, chains2, bucketOf, after) && Replays(s2, after)
            && InPlaceInv(s2, chains2, bucketOf)
  {
    var b := bucketOf(r.key);
    var s1 := Place(s, n, r);
    var after := Logged(s)[r.key := r.value];
    AbsentKey(s, chains, bucketOf, r.key);
    PlaceReplays(s, n, r);
    PlaceKeeps(s, chains, bucketOf, n, r);
    assert ChainOk(s.recs, bucketOf, b, s.buckets[b], chains[b]);
    assert SameAt(s.recs, s1.recs, chains[b]);
    assert Pushable(s1, chains, bucketOf, n);
    PushKeeps(s1, chains, bucketOf, n);
    PushLooksUp(s1, chains, bucketOf, n, Logged(s));
  }

  /** A key the database does not hold has no record, on a chain or elsewhere. */
  lemma {:induction false} AbsentKey(s: Store, chains: Chains, bucketOf: Bytes -> nat, k: Bytes)
    requires InPlaceInv(s, chains, bucketOf) && k !in Logged(s)
    ensures LastFor(s.recs, Order(s), k).None?
    ensures forall i :: 0 <= i < |chains[bucketOf(k)]| ==> s.recs[chains[bucketOf(k)][i]].key != k
  {
    ReplayGet(s.recs, Order(s), k);
    InPlaceAgrees(s, chains, bucketOf, k);
    assert ChainOk(s.recs, bucketOf, bucketOf(k), s.buckets[bucketOf(k)], chains[bucketOf(k)]);
  }

  ghost predicate IsInsertion(s: Store, bucketOf: Bytes -> nat, n: nat, r: Rec, w1: Write, w2: Write) {
    && BucketsOk(s, bucketOf) && Placeable(s, n, r) && Live(r)
    && r.child == s.buckets[bucketOf(r.key)] && r.key !in Logged(s)
    && w1 == (if n == s.size then AtEnd(r) else AtRecord(n, r))
    && w2 == AtBucket(bucketOf(r.key), n)
  }

  lemma {:induction false} InsertKeeps(s: Store, chains: Chains, bucketOf: Bytes -> nat, g: Geometry,
                                       blocks: set<FreeBlock>, n: nat, r: Rec, w1: Write, w2: Write)
    requires FileOk(s, chains, bucketOf, g, true, blocks)
    requires IsInsertion(s, bucketOf, n, r, w1, w2)
    requires SizeOk(g, r.size)
    ensures var s2 := Written(Written(s, w1), w2);
            && |chains| == |s.buckets|
            && FileOk(s2, chains[bucketOf(r.key) := [n] + chains[bucketOf(r.key)]], bucketOf, g, true,
                      blocks - {FreeBlock(n, r.size)})
            && Logged(s2) == Logged(s)[r.key := r.value]
  {
    hide InPlaceInv, LooksUp, Logged, Layout, SizeOk;
    EndIsFree(s, chains, bucketOf, g, true, blocks);
    InsertWrites(s, chains, bucketOf, n, r);
    assert |chains| == |s.buckets| by {
      ChainCount(s, chains, bucketOf, g, blocks);
    }
  }

  lemma {:induction false} ChainCount(s: Store, chains: Chains, bucketOf: Bytes -> nat, g: Geometry,
                                      blocks: set<FreeBlock>)
    requires FileOk(s, chains, bucketOf, g, true, blocks)
    ensures |chains| == |s.buckets|
  {
  }

  lemma {:induction false} InsertCompletes(s: Store, chains: Chains, bucketOf: Bytes -> nat, g: Geometry,
                                           blocks: set<FreeBlock>, n: nat, r: Rec, w1: Write, w2: Write)
    requires FileOk(s, chains, bucketOf, g, true, blocks)
    requires IsInsertion(s, bucketOf, n, r, w1, w2)
    ensures |chains| == |s.buckets| &&
            var chains2 := chains[bucketOf(r.key) := [n] + chains[bucketOf(r.key)]];
            Completed(s, TwoSteps(s, w1, chains, w2, chains2), Written(Written(s, w1), w2), chains2,
                      bucketOf)
  {
    hide LooksUp, Logged, Layout, Covered, SizeOk;
    InsertWrites(s, chains, bucketOf, n, r);
  }

  // ----- overwriting a record -----

  lemma {:induction false} OverwriteCompletes(s: Store, chains: Chains, bucketOf: Bytes -> nat, g: Geometry,
                                              blocks: set<FreeBlock>, b: nat, i: nat, r: Rec)
    requires FileOk(s, chains, bucketOf, g, true, blocks) && b < |chains| && i < |chains[b]|
    requires AllIn(s.recs, chains[b]) && Overwrites(s.recs, chains[b], i, r)
    ensures var w := AtRecord(chains[b][i], r);
            var s1 := Written(s, w);
            && FileOk(s1, chains, bucketOf, g, true, blocks)
            && Logged(s1) == Logged(s)[r.key := r.value]
            && Completed(s, [Step(w, s1, chains)], s1, chains, bucketOf)
  {
    hide InPlaceInv, LooksUp, Logged, Layout, SizeOk;
    OnChain(s, chains, bucketOf, g, true, blocks, b, i);
    OverwriteWrites(s, chains, bucketOf, b, i, r);
  }

  lemma {:induction false} OverwriteWrites(s: Store, chains: Chains, bucketOf: Bytes -> nat, b: nat, i: nat, r: Rec)
    requires InPlaceInv(s, chains, bucketOf) && b < |chains| && i < |chains[b]|
    requires AllIn(s.recs, chains[b]) && Overwrites(s.recs, chains[b], i, r)
    ensures var s1 := WriteRec(s, chains[b][i], r);
            var after := Logged(s)[r.key := r.value];
            InPlaceInv(s1, chains, bucketOf) && LooksUp(s1, chains, bucketOf, after) &&
            Replays(s1, after)
  {
    hide LooksUp, Logged, Covered;
    InPlaceIsInv(s, chains, bucketOf);
    InvLooksUp(s, chains, bucketOf);
    OverwriteKeeps(s, chains, bucketOf, b, i, r);
    OverwriteLooksUp(s, chains, bucketOf, b, i, r, Logged(s));
    LoggedIs(WriteRec(s, chains[b][i], r), chains, bucketOf, Logged(s)[r.key := r.value]);
  }

  // ----- appending a record -----

  lemma {:induction false} AppendCompletes(s: Store, chains: Chains, bucketOf: Bytes -> nat, g: Geometry,
                                           blocks: set<FreeBlock>, op: Op, k: Bytes, v: Bytes, w1: Write, w2: Write)
    requires FileOk(s, chains, bucketOf, g, false, blocks) && !op.OpVoid?
    requires ChainsOk(s, chains, bucketOf) && BucketsOk(s, bucketOf)
    requires w1 == AtEnd(NewRec(s, chains, bucketOf, op, k, v, WholeSize(g, k, v, 0)))
    requires w2 == AtBucket(bucketOf(k), s.size)
    ensures var chains2 := NewChains(s, chains, bucketOf, k);
            var s2 := Written(Written(s, w1), w2);
            && s2 == Appended(s, chains, bucketOf, op, k, v, WholeSize(g, k, v, 0))
            && FileOk(s2, chains2, bucketOf, g, false, blocks)
            && Logged(s2) == ApplyRec(Logged(s), w1.rec)
            && Completed(s, TwoSteps(s, w1, chains, w2, chains2), s2, chains2, bucketOf)
  {
    hide LooksUp, Logged, Layout, Agree, ChildrenOk, SizeOk, WholeSize;
    WholeSizeOk(g, k, v, 0);
    AppendKeeps(s, chains, bucketOf, op, k, v, WholeSize(g, k, v, 0));
    AppendOnly(s, chains, bucketOf, w1.rec);
    var s2 := Written(Written(s, w1), w2);
    InvLooksUp(s2, NewChains(s, chains, bucketOf, k), bucketOf);
  }

  // ----- what an operation does -----

  /** The answer that takes effect: none unless the operation may write.  An operation that does
      not read values shows the processor an empty one. */
  function Answer(m: Contents, key: Bytes, proc: Processor, readable: bool, writable: bool): Action {
    if !writable then Noop
    else if key in m then proc.full(if readable then m[key] else [])
    else proc.empty
  }

  /** One call of the processor: with a value, or for a missing record. */
  function Call(proc: Processor, seen: Option<Bytes>): Action {
    match seen
    case Some(v) => proc.full(v)
    case None => proc.empty
  }

  /** What the processor was shown of the record that is there, and what it answered. */
  ghost predicate Shown(found: Option<Bytes>, readable: bool, proc: Processor, seen: Option<Bytes>, answer: Action) {
    && (seen.Some? <==> found.Some?)
    && (seen.Some? ==> seen.value == if readable then found.value else [])
    && answer == Call(proc, seen)
  }

  lemma {:induction false} AnswerTakesEffect(m: Contents, key: Bytes, proc: Processor, readable: bool, writable: bool,
                                             seen: Option<Bytes>, answer: Action)
    requires Shown(Get(m, key), readable, proc, seen, answer)
    ensures var m' := ApplyAction(m, key, Answer(m, key, proc, readable, writable));
            && (seen.Some? <==> key in m)
            && (seen.Some? ==> seen.value == if readable then m[key] else [])
            && answer == (if seen.Some? then proc.full(seen.value) else proc.empty)
            && (forall k :: k != key ==> Get(m', k) == Get(m, k))
            && (!writable || answer.Noop? ==> m' == m)
            && (writable && answer.Remove? ==> key !in m')
            && (writable && answer.Put? ==> Get(m', key) == Some(answer.value))
  {
  }

  /** The record that appending mode adds, if any.  Removing a key whose last record is a removal
      adds another one; removing a key without records adds nothing. */
  function AppendOp(s: Store, chains: Chains, bucketOf: Bytes -> nat, key: Bytes, proc: Processor, readable: bool,
                    writable: bool): Option<(Op, Bytes)>
    requires ChainsOk(s, chains, bucketOf) && bucketOf(key) < |s.buckets|
  {
    var first := FirstFor(s.recs, chains[bucketOf(key)], key);
    var live := first.Some? && Live(s.recs[first.value]);
    var act := if live then proc.full(if readable then s.recs[first.value].value else [])
               else proc.empty;
    if !writable || act.Noop? || (act.Remove? && first.None?) then None
    else if act.Remove? then Some((OpRemove, []))
    else Some((if live then OpSet else OpAdd, act.value))
  }

  /** A whole operation of appending mode on the file and its chains. */
  function AppendProcess(s: Store, chains: Chains, bucketOf: Bytes -> nat, g: Geometry, key: Bytes, proc: Processor,
                         readable: bool, writable: bool): (Store, Chains)
    requires ChainsOk(s, chains, bucketOf) && bucketOf(key) < |s.buckets|
  {
    match AppendOp(s, chains, bucketOf, key, proc, readable, writable)
    case None => (s, chains)
    case Some((op, v)) =>
      (Appended(s, chains, bucketOf, op, key, v, WholeSize(g, key, v, 0)),
       NewChains(s, chains, bucketOf, key))
  }

  /** Walking a chain past other keys and meeting the key means meeting its current record. */
  lemma {:induction false} FoundAt(s: Store, chains: Chains, bucketOf: Bytes -> nat, g: Geometry, inPlace: bool,
                                   blocks: set<FreeBlock>, key: Bytes, i: nat)
    requires FileOk(s, chains, bucketOf, g, inPlace, blocks)
    requires bucketOf(key) < |chains| && i < |chains[bucketOf(key)]|
    requires AllIn(s.recs, chains[bucketOf(key)]) && s.recs[chains[bucketOf(key)][i]].key == key
    requires forall j :: 0 <= j < i ==> s.recs[chains[bucketOf(key)][j]].key != key
    ensures FirstFor(s.recs, chains[bucketOf(key)], key) == Some(chains[bucketOf(key)][i])
    ensures Get(Logged(s), key) == ValueOf(s.recs, Some(chains[bucketOf(key)][i]))
    ensures inPlace ==> key in Logged(s)
  {
    hide Layout, Covered, Aligned, PoolOk, ChildrenOk, Logged, UniqueKeys;
    var c := chains[bucketOf(key)];
    var r := s.recs[c[i]];
    assert ChainOk(s.recs, bucketOf, bucketOf(key), s.buckets[bucketOf(key)], c);
    assert !r.op.OpVoid?;
    assert inPlace ==> !r.op.OpRemove?;
    FirstAt(s.recs, c, key, i);
    FileInv(s, chains, bucketOf, g, inPlace, blocks);
    InvLooksUp(s, chains, bucketOf);
    assert Lookup(s, chains, bucketOf, key) == Get(Logged(s), key);
  }

  lemma {:induction false} FirstAt(recs: Records, c: seq<nat>, k: Bytes, i: nat)
    requires AllIn(recs, c) && i < |c| && Matches(recs[c[i]], k)
    requires forall j :: 0 <= j < i ==> !Matches(recs[c[j]], k)
    ensures FirstFor(recs, c, k) == Some(c[i])
  {
    if i > 0 {
      FirstAt(recs, c[1..], k, i - 1);
    }
  }

  /** A key met nowhere on its chain is not in the database. */
  lemma {:induction false} NotOnChain(s: Store, chains: Chains, bucketOf: Bytes -> nat, g: Geometry, inPlace: bool,
                                      blocks: set<FreeBlock>, key: Bytes)
    requires FileOk(s, chains, bucketOf, g, inPlace, blocks)
    requires bucketOf(key) < |chains| && AllIn(s.recs, chains[bucketOf(key)])
    requires forall j :: 0 <= j < |chains[bucketOf(key)]| ==>
               s.recs[chains[bucketOf(key)][j]].key != key
    ensures FirstFor(s.recs, chains[bucketOf(key)], key).None? && key !in Logged(s)
  {
    hide Layout, Covered, Aligned, PoolOk, ChildrenOk, Logged, UniqueKeys;
    FileInv(s, chains, bucketOf, g, inPlace, blocks);
    InvLooksUp(s, chains, bucketOf);
    assert Lookup(s, chains, bucketOf, key) == Get(Logged(s), key);
  }

  lemma {:induction false} FileInv(s: Store, chains: Chains, bucketOf: Bytes -> nat, g: Geometry, inPlace: bool,
                                   blocks: set<FreeBlock>)
    requires FileOk(s, chains, bucketOf, g, inPlace, blocks)
    ensures Inv(s, chains, bucketOf)
  {
    hide InPlaceInv, Inv, Aligned, PoolOk;
    if inPlace {
      InPlaceIsInv(s, chains, bucketOf);
    }
  }

  /** Where a new record goes: to the end when no free block is large enough, and else to the block
      that leaves the least over, the first of those. */
  ghost predicate BestPlace(blocks: set<FreeBlock>, size: nat, end: nat, n: nat, taken: nat) {
    if forall fb :: fb in blocks ==> fb.size < size then n == end && taken == size
    else
      && FreeBlock(n, taken) in blocks && size <= taken
      && forall fb :: fb in blocks && size <= fb.size ==>
           taken < fb.size || (taken == fb.size && n <= fb.offset)
  }

  /** The pool with a place that has become free: it is added if there is room, and whatever has to
      go is no larger than anything that stays. */
  ghost predicate Registered(blocks: set<FreeBlock>, room: bool, blocks': set<FreeBlock>, place: FreeBlock) {
    && blocks' <= blocks + {place} && (room ==> blocks' == blocks + {place})
    && forall x, y :: x in blocks + {place} && x !in blocks' && y in blocks' ==> x.size <= y.size
  }

  class HashDBM {
    const bucketOf: Bytes -> nat
    const geometry: Geometry
    const pool: FreeBlockPool
    var inPlace: bool
    var store: Store
    var numRecords: int
    var effDataSize: int
    /** The bucket chains of `store`. */
    ghost var chains: Chains
    /** The file writes of the last operation. */
    ghost var steps: seq<Step>

    ghost predicate FileValid()
      reads this, pool
    {
      pool.Valid() && FileOk(store, chains, bucketOf, geometry, inPlace, pool.Blocks())
    }

    ghost predicate Valid()
      reads this, pool
    {
      && FileValid()
      && numRecords == |Logged(store)|
      && effDataSize == DataSize(Logged(store))
    }

    /** What the database holds. */
    ghost function Map(): Contents
      reads this
    {
      Logged(store)
    }

    /** A new database with empty buckets. */
    constructor (bucketOf: Bytes -> nat, numBuckets: Pos, geometry: Geometry, base: Pos,
                 inPlace: bool, poolCapacity: int)
      requires forall k :: bucketOf(k) < numBuckets
      requires base % geometry.align == 0 && poolCapacity >= 1
      ensures Valid() && Map() == map[] && fresh(pool)
      ensures this.bucketOf == bucketOf && this.inPlace == inPlace && this.geometry == geometry
    {
      this.bucketOf := bucketOf;
      this.geometry := geometry;
      this.pool := new FreeBlockPool(poolCapacity);
      this.inPlace := inPlace;
      this.store := Store(base, seq(numBuckets, _ => 0), map[], base);
      this.numRecords := 0;
      this.effDataSize := 0;
      this.chains := seq(numBuckets, _ => []);
      this.steps := [];
      new;
      EmptyOk(store, chains, bucketOf);
    }

    /** Switches to appending.  The file need not change: what in-place mode keeps of it includes
        what appending mode needs. */
    method SetUpdateModeAppending()
      requires Valid()
      modifies this`inPlace
      ensures Valid() && !inPlace && store == old(store) && Map() == old(Map())
    {
      hide InPlaceInv, Inv, Aligned, PoolOk;
      FileInv(store, chains, bucketOf, geometry, inPlace, pool.Blocks());
      inPlace := false;
    }

    /** One write to the file. */
    method Perform(w: Write, ghost newChains: Chains)
      modifies this`store, this`chains, this`steps
      ensures store == Written(old(store), w) && chains == newChains
      ensures steps == old(steps) + [Step(w, store, chains)]
    {
      store := Written(store, w);
      chains := newChains;
      steps := steps + [Step(w, store, chains)];
    }

    /** Where a chain walk stands: at `current`, reached from `parent`, `i` records down. */
    ghost predicate At(b: nat, current: nat, parent: nat, i: nat)
      reads this
    {
      && b < |chains| && i < |chains[b]|
      && current == chains[b][i]
      && parent == if i == 0 then 0 else chains[b][i - 1]
    }

    /** Takes a record off its chain and turns it into a void record. */
    method RemoveInPlace(b: nat, current: nat, parent: nat, ghost i: nat)
      requires FileValid() && inPlace && steps == [] && At(b, current, parent, i)
      modifies this`store, this`chains, this`steps, pool
      ensures FileValid() && Completed(old(store), steps, store, chains, bucketOf)
      ensures Map() == old(Map()) - {old(store.recs[current].key)}
      ensures Registered(old(pool.Blocks()), old(|pool.data|) < pool.capacity, pool.Blocks(),
                         FreeBlock(current, old(store.recs[current].size)))
      ensures current in store.recs && store.recs[current] == VoidRec(old(store.recs[current].size))
      ensures store.size == old(store.size)
    {
      hide FileOk, Completed, Logged;
      OnChain(store, chains, bucketOf, geometry, inPlace, pool.Blocks(), b, i);
      if i > 0 {
        OnChain(store, chains, bucketOf, geometry, inPlace, pool.Blocks(), b, i - 1);
      }
      var child, size := store.recs[current].child, store.recs[current].size;
      ChainSize(store, chains, bucketOf, geometry, inPlace, pool.Blocks(), current);
      var w1 := if parent > 0 then AtChild(parent, child) else AtBucket(b, child);
      var w2 := AtRecord(current, VoidRec(WholeSize(geometry, [], [], size)));
      ghost var chains1 := chains[b := Spliced(chains[b], i, [])];
      RemovalCompletes(store, chains, bucketOf, geometry, pool.Blocks(), b, i, w1, w2);
      Perform(w1, chains1);
      Perform(w2, chains1);
      pool.InsertFreeBlock(current, size);
      RemovalKeeps(old(store), old(chains), bucketOf, geometry, old(pool.Blocks()), b, i, w1, w2,
                   pool.Blocks());
      assert steps == TwoSteps(old(store), w1, chains1, w2, chains1);
    }

    /** Writes a new value over a record whose place is large enough for it. */
    method OverwriteInPlace(value: Bytes, b: nat, current: nat, parent: nat, ghost i: nat)
      requires FileValid() && inPlace && steps == [] && At(b, current, parent, i)
      requires current in store.recs
      requires WholeSize(geometry, store.recs[current].key, value, store.recs[current].size) ==
               store.recs[current].size
      modifies this`store, this`chains, this`steps
      ensures FileValid() && Completed(old(store), steps, store, chains, bucketOf)
      ensures Map() == old(Map())[old(store.recs[current].key) := value]
      ensures store == WriteRec(old(store), current, old(store.recs[current]).(op := OpSet, value := value))
    {
      hide FileOk, Completed, Logged, WholeSize;
      OnChain(store, chains, bucketOf, geometry, inPlace, pool.Blocks(), b, i);
      var rec := store.recs[current];
      var r := Rec(OpSet, rec.key, value, rec.child,
                   WholeSize(geometry, rec.key, value, rec.size));
      OverwriteCompletes(store, chains, bucketOf, geometry, pool.Blocks(), b, i, r);
      Perform(AtRecord(current, r), chains);
      assert steps == [Step(AtRecord(current, r), store, chains)];
    }

    /** Finds a place for a new record: the best fitting free block, or the end of the file. */
    method Allocate(op: Op, key: Bytes, value: Bytes, child: nat) returns (n: nat, r: Rec, w: Write)
      requires FileValid() && inPlace && (op.OpSet? || op.OpAdd?)
      modifies pool
      ensures pool.Valid() && pool.Blocks() <= old(pool.Blocks()) - {FreeBlock(n, r.size)}
      ensures Placeable(store, n, r) && SizeOk(geometry, r.size)
      ensures r == Rec(op, key, value, child, r.size)
      ensures BestPlace(old(pool.Blocks()), WholeSize(geometry, key, value, 0), store.size, n, r.size)
      ensures pool.Blocks() == old(pool.Blocks()) - {FreeBlock(n, r.size)}
      ensures pool.capacity == old(pool.capacity)
      ensures |pool.data| == old(|pool.data|) - if n == store.size then 0 else 1
      ensures w == if n == store.size then AtEnd(r) else AtRecord(n, r)
    {
      hide InPlaceInv, SizeOk, WholeSize;
      EndIsFree(store, chains, bucketOf, geometry, inPlace, pool.Blocks());
      var size := WholeSize(geometry, key, value, 0);
      WholeSizeOk(geometry, key, value, 0);
      n, r := store.size, Rec(op, key, value, child, size);
      w := AtEnd(r);
      var found := pool.FetchFreeBlock(size);
      if found.Some? {
        var block := found.value;
        BlockFits(geometry, key, value, block.size);
        n, r := block.offset, Rec(op, key, value, child, WholeSize(geometry, key, value, block.size));
        w := AtRecord(n, r);
      }
    }

    /** Stores a value that does not fit where the record lies. */
    method MoveInPlace(value: Bytes, b: nat, current: nat, parent: nat, ghost i: nat) returns (n: nat)
      requires FileValid() && inPlace && steps == [] && At(b, current, parent, i)
      requires current in store.recs
      modifies this`store, this`chains, this`steps, pool
      ensures FileValid() && Completed(old(store), steps, store, chains, bucketOf)
      ensures Map() == old(Map())[old(store.recs[current].key) := value]
      ensures n in store.recs && store.recs[n].key == old(store.recs[current].key) && store.recs[n].value == value
      ensures BestPlace(old(pool.Blocks()), WholeSize(geometry, store.recs[n].key, value, 0), old(store.size), n,
                        store.recs[n].size)
      ensures Registered(old(pool.Blocks()) - {FreeBlock(n, store.recs[n].size)},
                         n != old(store.size) || old(|pool.data|) < pool.capacity, pool.Blocks(),
                         FreeBlock(current, old(store.recs[current].size)))
      ensures current in store.recs && store.recs[current] == VoidRec(old(store.recs[current].size))
    {
      hide FileOk, Completed, Logged, WholeSize, SizeOk, BestPlace, Written;
      OnChain(store, chains, bucketOf, geometry, inPlace, pool.Blocks(), b, i);
      if i > 0 {
        OnChain(store, chains, bucketOf, geometry, inPlace, pool.Blocks(), b, i - 1);
      }
      var rec := store.recs[current];
      var r, w1;
      n, r, w1 := Allocate(OpSet, rec.key, value, rec.child);
      var w2 := if parent > 0 then AtChild(parent, n) else AtBucket(b, n);
      var w3 := AtRecord(current, VoidRec(WholeSize(geometry, [], [], rec.size)));
      ghost var chains2 := chains[b := Spliced(chains[b], i, [n])];
      MoveCompletes(store, chains, bucketOf, geometry, old(pool.Blocks()), b, i, n, r, w1, w2, w3);
      MovedRecord(store, chains, bucketOf, geometry, old(pool.Blocks()), b, i, n, r, w1, w2, w3);
      Perform(w1, chains);
      Perform(w2, chains2);
      Perform(w3, chains2);
      pool.InsertFreeBlock(current, rec.size);
      MoveKeeps(old(store), old(chains), bucketOf, geometry, old(pool.Blocks()), b, i, n, r,
                w1, w2, w3, pool.Blocks());
      assert steps == ThreeSteps(old(store), w1, old(chains), w2, chains2, w3, chains2);
    }

    /** Stores a record for a key that has none. */
    method InsertInPlace(key: Bytes, value: Bytes, b: nat, top: nat) returns (n: nat)
      requires FileValid() && inPlace && steps == [] && key !in Map()
      requires b == bucketOf(key) && b < |store.buckets| && top == store.buckets[b]
      modifies this`store, this`chains, this`steps, pool
      ensures FileValid() && Completed(old(store), steps, store, chains, bucketOf)
      ensures Map() == old(Map())[key := value]
      ensures n in store.recs && store.recs[n].key == key && store.recs[n].value == value
      ensures BestPlace(old(pool.Blocks()), WholeSize(geometry, key, value, 0), old(store.size), n,
                        store.recs[n].size)
      ensures pool.Blocks() == old(pool.Blocks()) - {FreeBlock(n, store.recs[n].size)}
      ensures |store.buckets| == |old(store.buckets)| && store.buckets[b] == n && store.recs[n].child == top
    {
      hide Completed, Logged, WholeSize, SizeOk, Layout, ChainsOk, Covered, BestPlace;
      var r, w1;
      n, r, w1 := Allocate(OpAdd, key, value, top);
      var w2 := AtBucket(b, n);
      InsertCompletes(store, chains, bucketOf, geometry, old(pool.Blocks()), n, r, w1, w2);
      InsertKeeps(store, chains, bucketOf, geometry, old(pool.Blocks()), n, r, w1, w2);
      ghost var chains2 := chains[b := [n] + chains[b]];
      Perform(w1, chains);
      Perform(w2, chains2);
      assert steps == TwoSteps(old(store), w1, old(chains), w2, chains2);
    }

    /** Appends a record and makes it the head of its chain. */
    method AppendUpdate(op: Op, key: Bytes, value: Bytes, b: nat, child: nat)
      requires FileValid() && !inPlace && steps == [] && !op.OpVoid?
      requires b == bucketOf(key) && b < |store.buckets| && ChainsOk(store, chains, bucketOf)
      requires child == NewRec(store, chains, bucketOf, op, key, value, 1).child
      modifies this`store, this`chains, this`steps
      ensures FileValid() && Completed(old(store), steps, store, chains, bucketOf)
      ensures store == Appended(old(store), old(chains), bucketOf, op, key, value,
                                WholeSize(geometry, key, value, 0))
      ensures chains == NewChains(old(store), old(chains), bucketOf, key)
      ensures Map() == ApplyRec(old(Map()), Rec(op, key, value, 0, 1))
      ensures b < |chains| == |old(chains)| && AllIn(old(store.recs), old(chains[b]))
      ensures chains[b] == [old(store.size)] +
                           if old(chains[b]) != [] && old(store.recs)[old(chains[b])[0]].key == key
                           then old(chains[b])[1..] else old(chains[b])
      ensures store.size == old(store.size) + WholeSize(geometry, key, value, 0)
    {
      hide Completed, Logged, WholeSize, Layout, ChainsOk;
      var r := Rec(op, key, value, child, WholeSize(geometry, key, value, 0));
      var w1, w2 := AtEnd(r), AtBucket(b, store.size);
      AppendCompletes(store, chains, bucketOf, geometry, pool.Blocks(), op, key, value, w1, w2);
      ghost var chains2 := NewChains(store, chains, bucketOf, key);
      Perform(w1, chains);
      Perform(w2, chains2);
      assert steps == TwoSteps(old(store), w1, old(chains), w2, chains2);
      ChainOf(old(store), old(chains), bucketOf, b);
    }

    /** Writes the processor's answer, in the way of the update mode. */
    method WriteFound(key: Bytes, b: nat, top: nat, current: nat, parent: nat, act: Action, ghost i: nat)
      requires FileValid() && steps == [] && b == bucketOf(key) && b < |store.buckets|
      requires top == store.buckets[b] && At(b, current, parent, i) && !act.Noop?
      requires ChainsOk(store, chains, bucketOf) && store.recs[current].key == key
      requires FirstFor(store.recs, chains[b], key) == Some(current)
      requires Get(Map(), key) == ValueOf(store.recs, Some(current))
      modifies this`store, this`chains, this`steps, pool
      ensures FileValid() && Completed(old(store), steps, store, chains, bucketOf)
      ensures Map() == ApplyAction(old(Map()), key, act)
      ensures inPlace && act.Remove? ==>
                current in store.recs && store.recs[current].op.OpVoid? && store.size == old(store.size)
      ensures inPlace && act.Put? ==>
                var rec := old(store.recs[current]);
                WholeSize(geometry, key, act.value, rec.size) == rec.size ==>
                  && store == WriteRec(old(store), current, rec.(op := OpSet, value := act.value))
                  && pool.Blocks() == old(pool.Blocks())
      ensures !inPlace ==>
                var op := if act.Remove? then OpRemove
                          else if Live(old(store.recs[current])) then OpSet else OpAdd;
                var value := if act.Remove? then [] else act.value;
                && store == Appended(old(store), old(chains), bucketOf, op, key, value,
                                     WholeSize(geometry, key, value, 0))
                && chains == NewChains(old(store), old(chains), bucketOf, key)
    {
      hide FileOk, Completed, Logged, WholeSize, ChainsOk, FirstFor;
      var rec := store.recs[current];
      var live := Live(rec);
      if inPlace {
        var newSize := if act.Remove? then WholeSize(geometry, [], [], rec.size)
                       else WholeSize(geometry, key, act.value, rec.size);
        ChainSize(store, chains, bucketOf, geometry, inPlace, pool.Blocks(), current);
        if newSize == rec.size {
          if act.Remove? {
            RemoveInPlace(b, current, parent, i);
          } else {
            OverwriteInPlace(act.value, b, current, parent, i);
          }
        } else {
          var _ := MoveInPlace(act.value, b, current, parent, i);
        }
      } else {
        HeadIsFirst(store, chains, bucketOf, key, i);
        var child := if parent == 0 then rec.child else top;
        AppendUpdate(if act.Remove? then OpRemove else if live then OpSet else OpAdd,
                     key, if act.Remove? then [] else act.value, b, child);
      }
    }

    /** Keeps the record count and the total size up to date. */
    method Tally(key: Bytes, act: Action, live: bool, value: Bytes, ghost m: Contents)
      requires numRecords == |m| && effDataSize == DataSize(m) && !act.Noop?
      requires Get(m, key) == if live then Some(value) else None
      modifies this`numRecords, this`effDataSize
      ensures numRecords == |ApplyAction(m, key, act)|
      ensures effDataSize == DataSize(ApplyAction(m, key, act))
    {
      hide DataSize;
      if act.Remove? {
        RemoveSizes(m, key);
        if live {
          numRecords := numRecords - 1;
          effDataSize := effDataSize - (|key| + |value|);
        }
      } else {
        PutSizes(m, key, act.value);
        if live {
          effDataSize := effDataSize + (|act.value| - |value|);
        } else {
          numRecords := numRecords + 1;
          effDataSize := effDataSize + (|key| + |act.value|);
        }
      }
    }

    /** Applies the processor to the record found on the chain. */
    method ProcessFound(key: Bytes, b: nat, top: nat, current: nat, parent: nat, proc: Processor, readable: bool,
                        writable: bool, ghost i: nat) returns (seen: Option<Bytes>, answer: Action)
      requires Valid() && steps == [] && b == bucketOf(key) && b < |store.buckets|
      requires top == store.buckets[b] && At(b, current, parent, i)
      requires ChainsOk(store, chains, bucketOf) && store.recs[current].key == key
      requires FirstFor(store.recs, chains[b], key) == Some(current)
      requires Get(Map(), key) == ValueOf(store.recs, Some(current))
      requires inPlace ==> key in Map()
      modifies this`store, this`chains, this`steps, this`numRecords, this`effDataSize, pool
      ensures Valid() && Completed(old(store), steps, store, chains, bucketOf)
      ensures Shown(Get(old(Map()), key), readable, proc, seen, answer)
      ensures Map() == ApplyAction(old(Map()), key,
                                   Answer(old(Map()), key, proc, readable, writable))
      ensures !inPlace ==>
                (store, chains) == AppendProcess(old(store), old(chains), bucketOf, geometry, key,
                                                 proc, readable, writable)
    {
      hide FileOk, Completed, Logged, WholeSize, ChainsOk, FirstFor, DataSize, Appended, NewChains,
           AppendProcess;
      var rec := store.recs[current];
      var live := Live(rec);
      seen := if live then Some(if readable then rec.value else []) else None;
      answer := Call(proc, seen);
      FoundProcess(store, chains, bucketOf, geometry, key, proc, readable, writable, current);
      if answer.Noop? || !writable {
        NoSteps(store, chains, bucketOf);
        return;
      }
      ghost var m := Map();
      WriteFound(key, b, top, current, parent, answer, i);
      Tally(key, answer, live, rec.value, m);
    }

    /** Applies the processor to a key that has no record on its chain. */
    method ProcessMissing(key: Bytes, b: nat, top: nat, proc: Processor, readable: bool, writable: bool)
      returns (seen: Option<Bytes>, answer: Action)
      requires Valid() && steps == [] && b == bucketOf(key) && b < |store.buckets|
      requires top == store.buckets[b] && ChainsOk(store, chains, bucketOf)
      requires FirstFor(store.recs, chains[b], key).None? && key !in Map()
      requires forall j :: 0 <= j < |chains[b]| ==> store.recs[chains[b][j]].key != key
      modifies this`store, this`chains, this`steps, this`numRecords, this`effDataSize, pool
      ensures Valid() && Completed(old(store), steps, store, chains, bucketOf)
      ensures Shown(Get(old(Map()), key), readable, proc, seen, answer)
      ensures Map() == ApplyAction(old(Map()), key,
                                   Answer(old(Map()), key, proc, readable, writable))
      ensures !inPlace ==>
                (store, chains) == AppendProcess(old(store), old(chains), bucketOf, geometry, key,
                                                 proc, readable, writable)
    {
      hide FileOk, Completed, Logged, WholeSize, FirstFor, DataSize, ChainsOk, AppendProcess, Appended,
           NewChains;
      ghost var m := Map();
      seen := None;
      answer := Call(proc, seen);
      MissingProcess(store, chains, bucketOf, geometry, key, proc, readable, writable);
      if answer.Put? && writable {
        var value := answer.value;
        if inPlace {
          var _ := InsertInPlace(key, value, b, top);
        } else {
          AppendUpdate(OpAdd, key, value, b, top);
        }
        Tally(key, answer, false, [], m);
      } else {
        NoSteps(store, chains, bucketOf);
        RemoveSizes(m, key);
      }
    }

    /** Looks a key up, gives the record or its absence to the processor and stores the answer.
        Afterwards the database holds the map updated by the answer; after each file write made
        on the way, chain lookup and replay each give the map before or the map after. */
    method ProcessImpl(key: Bytes, proc: Processor, readable: bool, writable: bool)
      returns (seen: Option<Bytes>, answer: Action)
      requires Valid()
      modifies this`store, this`chains, this`steps, this`numRecords, this`effDataSize, pool
      ensures Valid() && Completed(old(store), steps, store, chains, bucketOf)
      ensures seen.Some? <==> key in old(Map())
      ensures seen.Some? ==> seen.value == if readable then old(Map())[key] else []
      ensures answer == if seen.Some? then proc.full(seen.value) else proc.empty
      ensures forall k :: k != key ==> Get(Map(), k) == Get(old(Map()), k)
      ensures !writable || answer.Noop? ==> Map() == old(Map())
      ensures writable && answer.Remove? ==> key !in Map()
      ensures writable && answer.Put? ==> Get(Map(), key) == Some(answer.value)
      ensures Map() == ApplyAction(old(Map()), key,
                                   Answer(old(Map()), key, proc, readable, writable))
      ensures !inPlace ==>
                && old(ChainsOk(store, chains, bucketOf) && bucketOf(key) < |store.buckets|)
                && (store, chains) == AppendProcess(old(store), old(chains), bucketOf, geometry, key,
                                                    proc, readable, writable)
    {
      hide Completed, Logged, WholeSize, DataSize, Linked, Layout, Covered, Agree, ChildrenOk,
           PoolOk, UniqueKeys, Aligned, AppendProcess;
      steps := [];
      var b := bucketOf(key);
      var top := store.buckets[b];
      var current, parent := top, 0;
      ghost var c := chains[b];
      ghost var i := 0;
      ChainHead(store, chains, bucketOf, b);
      while current > 0
        invariant store == old(store) && chains == old(chains) && steps == [] && Valid()
        invariant 0 <= i <= |c| && current == (if i < |c| then c[i] else 0)
        invariant parent == (if i == 0 then 0 else c[i - 1])
        invariant forall j :: 0 <= j < i ==> store.recs[c[j]].key != key
        decreases |c| - i
      {
        OnChain(store, chains, bucketOf, geometry, inPlace, pool.Blocks(), b, i);
        if store.recs[current].key == key {
          FoundAt(store, chains, bucketOf, geometry, inPlace, pool.Blocks(), key, i);
          seen, answer := ProcessFound(key, b, top, current, parent, proc, readable, writable, i);
          AnswerTakesEffect(old(Map()), key, proc, readable, writable, seen, answer);
          return;
        }
        parent := current;
        current := store.recs[current].child;
        i := i + 1;
      }
      if i < |c| {
        OnChain(store, chains, bucketOf, geometry, inPlace, pool.Blocks(), b, i);
      }
      NotOnChain(store, chains, bucketOf, geometry, inPlace, pool.Blocks(), key);
      seen, answer := ProcessMissing(key, b, top, proc, readable, writable);
      AnswerTakesEffect(old(Map()), key, proc, readable, writable, seen, answer);
    }

    /** Whether a key is in the database, by the same walk. */
    method Contains(key: Bytes) returns (found: bool)
      requires Valid()
      ensures found == (key in Map())
    {
      hide Logged, WholeSize, DataSize, Linked, Layout, Covered, Agree, ChildrenOk, PoolOk,
           UniqueKeys, Aligned;
      var b := bucketOf(key);
      var current := store.buckets[b];
      ghost var c := chains[b];
      ghost var i := 0;
      ChainHead(store, chains, bucketOf, b);
      while current > 0
        invariant 0 <= i <= |c| && current == (if i < |c| then c[i] else 0)
        invariant forall j :: 0 <= j < i ==> store.recs[c[j]].key != key
        decreases |c| - i
      {
        OnChain(store, chains, bucketOf, geometry, inPlace, pool.Blocks(), b, i);
        if store.recs[current].key == key {
          FoundAt(store, chains, bucketOf, geometry, inPlace, pool.Blocks(), key, i);
          return Live(store.recs[current]);
        }
        current := store.recs[current].child;
        i := i + 1;
      }
      if i < |c| {
        OnChain(store, chains, bucketOf, geometry, inPlace, pool.Blocks(), b, i);
      }
      NotOnChain(store, chains, bucketOf, geometry, inPlace, pool.Blocks(), key);
      return false;
    }
  }

  lemma {:induction false} ChainOf(s: Store, chains: Chains, bucketOf: Bytes -> nat, b: nat)
    requires ChainsOk(s, chains, bucketOf) && b < |s.buckets|
    ensures |chains| == |s.buckets| && AllIn(s.recs, chains[b])
  {
    assert ChainOk(s.recs, bucketOf, b, s.buckets[b], chains[b]);
  }

  lemma {:induction false} ChainHead(s: Store, chains: Chains, bucketOf: Bytes -> nat, b: nat)
    requires ChainsOk(s, chains, bucketOf) && b < |chains|
    ensures s.buckets[b] == Head(chains[b]) && AllIn(s.recs, chains[b])
  {
    assert ChainOk(s.recs, bucketOf, b, s.buckets[b], chains[b]);
  }

  /** The key is met at the head of its chain exactly when the head is its record. */
  lemma {:induction false} HeadIsFirst(s: Store, chains: Chains, bucketOf: Bytes -> nat, key: Bytes, i: nat)
    requires ChainsOk(s, chains, bucketOf) && bucketOf(key) < |s.buckets|
    requires i < |chains[bucketOf(key)]| && s.recs[chains[bucketOf(key)][i]].key == key
    requires FirstFor(s.recs, chains[bucketOf(key)], key) == Some(chains[bucketOf(key)][i])
    ensures HeadMatches(s.recs, chains[bucketOf(key)], key) <==> i == 0
    ensures i > 0 ==> chains[bucketOf(key)][i - 1] != 0
  {
    assert ChainOk(s.recs, bucketOf, bucketOf(key), s.buckets[bucketOf(key)],
                   chains[bucketOf(key)]);
  }

  /** What appending mode does with a key that has no record. */
  lemma {:induction false} MissingProcess(s: Store, chains: Chains, bucketOf: Bytes -> nat, g: Geometry, key: Bytes,
                                          proc: Processor, readable: bool, writable: bool)
    requires ChainsOk(s, chains, bucketOf) && bucketOf(key) < |s.buckets|
    requires FirstFor(s.recs, chains[bucketOf(key)], key).None?
    requires forall j :: 0 <= j < |chains[bucketOf(key)]| ==> s.recs[chains[bucketOf(key)][j]].key != key
    ensures AppendProcess(s, chains, bucketOf, g, key, proc, readable, writable) ==
            if writable && proc.empty.Put?
            then (Appended(s, chains, bucketOf, OpAdd, key, proc.empty.value,
                           WholeSize(g, key, proc.empty.value, 0)),
                  NewChains(s, chains, bucketOf, key))
            else (s, chains)
    ensures writable && proc.empty.Put? ==>
              NewRec(s, chains, bucketOf, OpAdd, key, proc.empty.value, 1).child == s.buckets[bucketOf(key)]
  {
    hide Appended, NewChains, WholeSize, ChainsOk;
  }

  /** What appending mode does with a record found on the chain. */
  lemma {:induction false} FoundProcess(s: Store, chains: Chains, bucketOf: Bytes -> nat, g: Geometry, key: Bytes,
                                        proc: Processor, readable: bool, writable: bool, current: nat)
    requires ChainsOk(s, chains, bucketOf) && bucketOf(key) < |s.buckets| && current in s.recs
    requires FirstFor(s.recs, chains[bucketOf(key)], key) == Some(current)
    ensures var live := Live(s.recs[current]);
            var act := if live then proc.full(if readable then s.recs[current].value else [])
                       else proc.empty;
            var op := if act.Remove? then OpRemove else if live then OpSet else OpAdd;
            var value := if act.Put? then act.value else [];
            AppendProcess(s, chains, bucketOf, g, key, proc, readable, writable) ==
            if act.Noop? || !writable then (s, chains)
            else (Appended(s, chains, bucketOf, op, key, value, WholeSize(g, key, value, 0)),
                  NewChains(s, chains, bucketOf, key))
  {
    hide ChainsOk, FirstFor, Appended, NewChains, WholeSize;
  }

  lemma {:induction false} NoSteps(s: Store, chains: Chains, bucketOf: Bytes -> nat)
    ensures Completed(s, [], s, chains, bucketOf)
  {
  }

  /** A void record fits exactly where any record lies. */
  lemma {:induction false} ChainSize(s: Store, chains: Chains, bucketOf: Bytes -> nat, g: Geometry, inPlace: bool,
                                     blocks: set<FreeBlock>, o: nat)
    requires FileOk(s, chains, bucketOf, g, inPlace, blocks) && o in s.recs
    ensures WholeSize(g, [], [], s.recs[o].size) == s.recs[o].size
  {
    hide InPlaceInv, Inv;
    VoidFits(g, s.recs[o].size);
  }

  lemma {:induction false} EmptyOk(s: Store, chains: Chains, bucketOf: Bytes -> nat)
    requires s.recs == map[] && s.size == s.base && |chains| == |s.buckets|
    requires forall k :: bucketOf(k) < |s.buckets|
    requires forall b :: 0 <= b < |chains| ==> chains[b] == [] && s.buckets[b] == 0
    ensures InPlaceInv(s, chains, bucketOf) && Inv(s, chains, bucketOf)
    ensures Logged(s) == map[]
  {
    assert InPlaceInv(s, chains, bucketOf);
    InPlaceIsInv(s, chains, bucketOf);
  }
}
