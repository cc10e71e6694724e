/** Appending mode: every update is a new record at the end of the file, put at the head of its
    bucket chain. */
module HashAppend {
  import opened Common
  import opened HashStore

  /** The first record for a key on its chain is the last record for that key in the file. */
  ghost predicate Agree(s: Store, chains: Chains, bucketOf: Bytes -> nat)
    requires BucketsOk(s, bucketOf) && ChainsOk(s, chains, bucketOf)
  {
    forall k :: FirstFor(s.recs, chains[bucketOf(k)], k) == LastFor(s.recs, Order(s), k)
  }

  /** Every record's child, on a chain or not, is a record of the same bucket. */
  ghost predicate ChildrenOk(s: Store, bucketOf: Bytes -> nat) {
    forall o :: o in s.recs && !s.recs[o].op.OpVoid? && s.recs[o].child != 0 ==>
      var child := s.recs[o].child;
      && child in s.recs
      && !s.recs[child].op.OpVoid?
      && bucketOf(s.recs[child].key) == bucketOf(s.recs[o].key)
  }

  /** What holds of the file in either mode, between operations. */
  ghost predicate Inv(s: Store, chains: Chains, bucketOf: Bytes -> nat) {
    && BucketsOk(s, bucketOf)
    && Layout(s)
    && ChainsOk(s, chains, bucketOf)
    && Agree(s, chains, bucketOf)
    && ChildrenOk(s, bucketOf)
  }

  /** Chain lookup equals last-writer-wins replay. */
  lemma {:induction false} InvLooksUp(s: Store, chains: Chains, bucketOf: Bytes -> nat)
    requires Inv(s, chains, bucketOf)
    ensures LooksUp(s, chains, bucketOf, Logged(s))
  {
    forall k
      ensures Lookup(s, chains, bucketOf, k) == Get(Logged(s), k)
    {
      ReplayGet(s.recs, Order(s), k);
    }
  }

  predicate HeadMatches(recs: Records, c: seq<nat>, k: Bytes)
    requires AllIn(recs, c)
  {
    |c| > 0 && recs[c[0]].key == k
  }

  /** The record appended for `k`: an update of the chain's head drops the head from the chain,
      any other update keeps the whole chain behind it. */
  function NewRec(s: Store, chains: Chains, bucketOf: Bytes -> nat, op: Op, k: Bytes, v: Bytes, size: Pos): Rec
    requires ChainsOk(s, chains, bucketOf) && bucketOf(k) < |s.buckets|
  {
    var b := bucketOf(k);
    var child := if HeadMatches(s.recs, chains[b], k) then s.recs[chains[b][0]].child
                 else s.buckets[b];
    Rec(op, k, v, child, size)
  }

  function NewChains(s: Store, chains: Chains, bucketOf: Bytes -> nat, k: Bytes): Chains
    requires ChainsOk(s, chains, bucketOf) && bucketOf(k) < |s.buckets|
  {
    var b := bucketOf(k);
    var c := chains[b];
    chains[b := [s.size] + if HeadMatches(s.recs, c, k) then c[1..] else c]
  }

  /** The file after the append and after the bucket update. */
  function Appended(s: Store, chains: Chains, bucketOf: Bytes -> nat, op: Op, k: Bytes, v: Bytes, size: Pos): Store
    requires ChainsOk(s, chains, bucketOf) && bucketOf(k) < |s.buckets|
  {
    SetBucket(AppendRec(s, NewRec(s, chains, bucketOf, op, k, v, size)), bucketOf(k), s.size)
  }

  /** The append alone: replay already sees the update, lookup does not yet. */
  lemma {:induction false} AppendOnly(s: Store, chains: Chains, bucketOf: Bytes -> nat, r: Rec)
    requires Inv(s, chains, bucketOf)
    ensures LooksUp(AppendRec(s, r), chains, bucketOf, Logged(s))
    ensures Replays(AppendRec(s, r), ApplyRec(Logged(s), r))
  {
    hide Layout, Logged, Agree, ChildrenOk;
    var s1 := AppendRec(s, r);
    LayoutAppend(s, r);
    ReplayAppend(s, r);
    InvLooksUp(s, chains, bucketOf);
    LookupFrame(s, s1, chains, bucketOf, Logged(s));
  }

  lemma {:induction false} ReplayAppend(s: Store, r: Rec)
    requires Layout(s)
    ensures Logged(AppendRec(s, r)) == ApplyRec(Logged(s), r)
  {
    var s1 := AppendRec(s, r);
    LayoutAppend(s, r);
    ReplayFrame(s.recs, s1.recs, Order(s));
    ReplaySnoc(s1.recs, Order(s), s.size);
  }

  lemma {:induction false} AppendChains(s: Store, chains: Chains, bucketOf: Bytes -> nat, op: Op, k: Bytes,
                                        v: Bytes, size: Pos)
    requires Inv(s, chains, bucketOf) && !op.OpVoid?
    ensures ChainsOk(Appended(s, chains, bucketOf, op, k, v, size),
                     NewChains(s, chains, bucketOf, k), bucketOf)
  {
    hide Agree, ChildrenOk, Tiled, Scan;
    LayoutAppend(s, NewRec(s, chains, bucketOf, op, k, v, size));
    var s2 := Appended(s, chains, bucketOf, op, k, v, size);
    var chains2 := NewChains(s, chains, bucketOf, k);
    forall b | 0 <= b < |chains2|
      ensures ChainOk(s2.recs, bucketOf, b, s2.buckets[b], chains2[b])
    {
      assert ChainOk(s.recs, bucketOf, b, s.buckets[b], chains[b]);
      if b == bucketOf(k) {
        AppendChainLinked(s.recs, s2.recs, bucketOf, b, s.buckets[b], chains[b], s.size, k);
      }
    }
  }

  lemma {:induction false} AppendChainLinked(recs: Records, recs2: Records, bucketOf: Bytes -> nat, b: nat,
                                             head: nat, c: seq<nat>, n: nat, k: Bytes)
    requires ChainOk(recs, bucketOf, b, head, c) && SameAt(recs, recs2, c)
    requires n != 0 && n !in recs && n in recs2 && !recs2[n].op.OpVoid? && bucketOf(recs2[n].key) == b
    requires recs2[n].child == if HeadMatches(recs, c, k) then recs[c[0]].child else head
    ensures ChainOk(recs2, bucketOf, b, n, [n] + if HeadMatches(recs, c, k) then c[1..] else c)
  {
    var c2 := [n] + if HeadMatches(recs, c, k) then c[1..] else c;
    var d := if HeadMatches(recs, c, k) then 0 else 1;
    forall i | 0 <= i < |c2|
      ensures c2[i] in recs2 && c2[i] != 0 && recs2[c2[i]].child == Succ(c2, i)
    {
      if i > 0 {
        assert c2[i] == c[i - d];
        assert recs[c[i - d]].child == Succ(c, i - d);
      }
    }
  }

  /** The whole update keeps the invariant and makes the file hold the updated map. */
  lemma {:induction false} AppendKeeps(s: Store, chains: Chains, bucketOf: Bytes -> nat, op: Op, k: Bytes, v: Bytes,
                                       size: Pos)
    requires Inv(s, chains, bucketOf) && !op.OpVoid?
    ensures Inv(Appended(s, chains, bucketOf, op, k, v, size), NewChains(s, chains, bucketOf, k),
                bucketOf)
    ensures Logged(Appended(s, chains, bucketOf, op, k, v, size)) ==
            ApplyRec(Logged(s), NewRec(s, chains, bucketOf, op, k, v, size))
  {
    hide Tiled, Scan, LastFor, FirstFor, NewRec, NewChains, ChildrenOk, Replay;
    var r := NewRec(s, chains, bucketOf, op, k, v, size);
    var s1 := AppendRec(s, r);
    var s2 := Appended(s, chains, bucketOf, op, k, v, size);
    var chains2 := NewChains(s, chains, bucketOf, k);
    LayoutAppend(s, r);
    ReplayAppend(s, r);
    assert Order(s2) == Order(s1);
    AppendChains(s, chains, bucketOf, op, k, v, size);
    forall j
      ensures FirstFor(s2.recs, chains2[bucketOf(j)], j) == LastFor(s2.recs, Order(s2), j)
    {
      AppendAgrees(s, chains, bucketOf, op, k, v, size, j);
    }
    AppendChildren(s, chains, bucketOf, op, k, v, size);
  }

  lemma {:induction false} AppendAgrees(s: Store, chains: Chains, bucketOf: Bytes -> nat, op: Op, k: Bytes,
                                        v: Bytes, size: Pos, j: Bytes)
    requires Inv(s, chains, bucketOf) && !op.OpVoid?
    requires ChainsOk(Appended(s, chains, bucketOf, op, k, v, size),
                      NewChains(s, chains, bucketOf, k), bucketOf)
    ensures var s2 := Appended(s, chains, bucketOf, op, k, v, size);
            var chains2 := NewChains(s, chains, bucketOf, k);
            FirstFor(s2.recs, chains2[bucketOf(j)], j) == LastFor(s2.recs, Order(s2), j)
  {
    hide Tiled, Scan, ChildrenOk;
    var s2 := Appended(s, chains, bucketOf, op, k, v, size);
    var c := chains[bucketOf(j)];
    LastAppended(s, NewRec(s, chains, bucketOf, op, k, v, size), j);
    assert ChainOk(s.recs, bucketOf, bucketOf(j), s.buckets[bucketOf(j)], c);
    assert SameAt(s.recs, s2.recs, c);
    FirstForFrame(s.recs, s2.recs, c, j);
    if bucketOf(j) == bucketOf(k) {
      AppendFirst(s.recs, s2.recs, c, s.size, k, j);
    }
  }

  lemma {:induction false} LastAppended(s: Store, r: Rec, j: Bytes)
    requires Layout(s)
    ensures s.size !in s.recs
    ensures LastFor(AppendRec(s, r).recs, Order(AppendRec(s, r)), j) ==
            if Matches(r, j) then Some(s.size) else LastFor(s.recs, Order(s), j)
  {
    LayoutAppend(s, r);
    LastForFrame(s.recs, AppendRec(s, r).recs, Order(s), j);
    LastForSnoc(AppendRec(s, r).recs, Order(s), s.size, j);
  }

  /** A chain with a new head answers for the new head's key, and otherwise as before. */
  lemma {:induction false} AppendFirst(recs: Records, recs2: Records, c: seq<nat>, n: nat, k: Bytes, j: Bytes)
    requires AllIn(recs, c) && SameAt(recs, recs2, c)
    requires forall i :: 0 <= i < |c| ==> !recs[c[i]].op.OpVoid?
    requires n in recs2 && recs2[n].key == k && !recs2[n].op.OpVoid?
    ensures FirstFor(recs2, [n] + if HeadMatches(recs, c, k) then c[1..] else c, j) ==
            if j == k then Some(n) else FirstFor(recs2, c, j)
  {
    if HeadMatches(recs, c, k) {
      FirstForCons(recs2, n, c[1..], j);
      FirstForCons(recs2, c[0], c[1..], j);
      assert [c[0]] + c[1..] == c;
    } else {
      FirstForCons(recs2, n, c, j);
    }
  }

  lemma {:induction false} AppendChildren(s: Store, chains: Chains, bucketOf: Bytes -> nat, op: Op, k: Bytes,
                                          v: Bytes, size: Pos)
    requires Inv(s, chains, bucketOf) && !op.OpVoid?
    ensures ChildrenOk(Appended(s, chains, bucketOf, op, k, v, size), bucketOf)
  {
    var r := NewRec(s, chains, bucketOf, op, k, v, size);
    LayoutAppend(s, r);
    var b := bucketOf(k);
    var c := chains[b];
    assert ChainOk(s.recs, bucketOf, b, s.buckets[b], c);
    if HeadMatches(s.recs, c, k) {
      assert r.child == Succ(c, 0);
    }
  }
}
