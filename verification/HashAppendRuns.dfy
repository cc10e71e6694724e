/** Whole runs of a database in appending mode, from an empty file. */
module HashAppendRuns {
  import opened Common
  import opened HashStore
  import opened HashAppend
  import opened RecordSize
  import opened HashDatabase
  import opened HashValidate

  datatype Request = Request(key: Bytes, proc: Processor, readable: bool, writable: bool)

  /** A request that answers a missing record with a removal, for a key whose last record is a
      removal: it logs another one. */
  ghost predicate PhantomRequest(s: Store, chains: Chains, bucketOf: Bytes -> nat, q: Request)
    requires BucketsOk(s, bucketOf) && ChainsOk(s, chains, bucketOf)
  {
    var first := FirstFor(s.recs, chains[bucketOf(q.key)], q.key);
    q.writable && q.proc.empty.Remove? && first.Some? && !Live(s.recs[first.value])
  }

  /** The file and its chains after a request. */
  ghost function After(s: Store, chains: Chains, bucketOf: Bytes -> nat, g: Geometry, q: Request)
    : (Store, Chains)
    requires BucketsOk(s, bucketOf) && ChainsOk(s, chains, bucketOf)
  {
    AppendProcess(s, chains, bucketOf, g, q.key, q.proc, q.readable, q.writable)
  }

  /** By how much a request throws the recounted size of the log off: a setting by the difference of
      the value sizes, a removal by the size of the removed value, a phantom by the key's. */
  ghost function RequestDrift(s: Store, chains: Chains, bucketOf: Bytes -> nat, q: Request): int
    requires BucketsOk(s, bucketOf) && ChainsOk(s, chains, bucketOf)
  {
    var m := Logged(s);
    match Answer(m, q.key, q.proc, q.readable, q.writable)
    case Noop => 0
    case Put(v) => if q.key in m then |m[q.key]| - |v| else 0
    case Remove => if q.key in m then |m[q.key]|
                   else if PhantomRequest(s, chains, bucketOf, q) then -|q.key| else 0
  }

  /** One request keeps the invariant and the form of the log, and does what its answer says. */
  lemma {:induction false} RequestKeeps(s: Store, chains: Chains, bucketOf: Bytes -> nat, g: Geometry, q: Request)
    requires Inv(s, chains, bucketOf) && WellLogged(s.recs, Order(s))
    ensures var (s1, chains1) := After(s, chains, bucketOf, g, q);
            && Inv(s1, chains1, bucketOf) && WellLogged(s1.recs, Order(s1))
            && Phantoms(s1.recs, Order(s1)) ==
               Phantoms(s.recs, Order(s)) + (if PhantomRequest(s, chains, bucketOf, q) then 1 else 0)
            && Drifts(s1.recs, Order(s1)) ==
               Drifts(s.recs, Order(s)) + RequestDrift(s, chains, bucketOf, q)
            && Logged(s1) == ApplyAction(Logged(s), q.key,
                                         Answer(Logged(s), q.key, q.proc, q.readable, q.writable))
  {
    hide Inv, WellLogged, Phantoms, Drifts, Logged, WholeSize, Appended, NewChains, FirstFor, Order;
    InvParts(s, chains, bucketOf, q.key);
    var op := AppendOp(s, chains, bucketOf, q.key, q.proc, q.readable, q.writable);
    if op.Some? {
      var (o, v) := op.value;
      AppendedKeeps(s, chains, bucketOf, o, q.key, v, WholeSize(g, q.key, v, 0));
    }
    AnswerLogged(s, chains, bucketOf, q);
  }

  /** The record logged for a request is its answer. */
  lemma {:induction false} AnswerLogged(s: Store, chains: Chains, bucketOf: Bytes -> nat, q: Request)
    requires BucketsOk(s, bucketOf) && ChainsOk(s, chains, bucketOf)
    requires Get(Logged(s), q.key) ==
             ValueOf(s.recs, FirstFor(s.recs, chains[bucketOf(q.key)], q.key))
    ensures var op := AppendOp(s, chains, bucketOf, q.key, q.proc, q.readable, q.writable);
            ApplyAction(Logged(s), q.key,
                        Answer(Logged(s), q.key, q.proc, q.readable, q.writable)) ==
            if op.None? then Logged(s)
            else ApplyRec(Logged(s), Rec(op.value.0, q.key, op.value.1, 0, 1))
  {
    hide Logged, FirstFor, ChainsOk;
    var m := Logged(s);
    var act := Answer(m, q.key, q.proc, q.readable, q.writable);
    if act.Remove? && q.key !in m {
      RemoveSizes(m, q.key);
    }
  }

  lemma {:induction false} AppendedKeeps(s: Store, chains: Chains, bucketOf: Bytes -> nat, o: Op, k: Bytes,
                                         v: Bytes, size: Pos)
    requires Inv(s, chains, bucketOf) && WellLogged(s.recs, Order(s))
    requires ChainsOk(s, chains, bucketOf) && bucketOf(k) < |s.buckets|
    requires Proper(Logged(s), Rec(o, k, v, 0, 1))
    ensures var s1 := Appended(s, chains, bucketOf, o, k, v, size);
            && Inv(s1, NewChains(s, chains, bucketOf, k), bucketOf)
            && WellLogged(s1.recs, Order(s1))
            && Phantoms(s1.recs, Order(s1)) ==
               Phantoms(s.recs, Order(s)) + (if o.OpRemove? && k !in Logged(s) then 1 else 0)
            && Drifts(s1.recs, Order(s1)) ==
               Drifts(s.recs, Order(s)) + Drift(Logged(s), Rec(o, k, v, 0, 1))
            && Logged(s1) == ApplyRec(Logged(s), Rec(o, k, v, 0, 1))
  {
    hide Inv, WellLogged, Phantoms, Drifts, Logged, NewRec, NewChains, Scan;
    InvParts(s, chains, bucketOf, k);
    var r := NewRec(s, chains, bucketOf, o, k, v, size);
    NewRecIs(s, chains, bucketOf, o, k, v, size);
    AppendKeeps(s, chains, bucketOf, o, k, v, size);
    LogAppend(s, r);
    assert Order(AppendRec(s, r)) == Order(Appended(s, chains, bucketOf, o, k, v, size));
  }

  lemma {:induction false} NewRecIs(s: Store, chains: Chains, bucketOf: Bytes -> nat, op: Op, k: Bytes, v: Bytes,
                                    size: Pos)
    requires ChainsOk(s, chains, bucketOf) && bucketOf(k) < |s.buckets|
    ensures var r := NewRec(s, chains, bucketOf, op, k, v, size);
            r.op == op && r.key == k && r.value == v
  {
  }

  /** What the chain says about a key is what the log says. */
  lemma {:induction false} InvParts(s: Store, chains: Chains, bucketOf: Bytes -> nat, k: Bytes)
    requires Inv(s, chains, bucketOf)
    ensures BucketsOk(s, bucketOf) && ChainsOk(s, chains, bucketOf) && Layout(s)
    ensures Get(Logged(s), k) == ValueOf(s.recs, FirstFor(s.recs, chains[bucketOf(k)], k))
  {
    InvLooksUp(s, chains, bucketOf);
    assert Lookup(s, chains, bucketOf, k) == Get(Logged(s), k);
  }

  /** The file after a list of requests. */
  ghost function Serve(s: Store, chains: Chains, bucketOf: Bytes -> nat, g: Geometry, qs: seq<Request>)
    : (r: (Store, Chains))
    requires Inv(s, chains, bucketOf) && WellLogged(s.recs, Order(s))
    ensures Inv(r.0, r.1, bucketOf) && WellLogged(r.0.recs, Order(r.0))
    decreases |qs|
  {
    if |qs| == 0 then (s, chains)
    else
      var r := Serve(s, chains, bucketOf, g, qs[..|qs| - 1]);
      RequestKeeps(r.0, r.1, bucketOf, g, qs[|qs| - 1]);
      After(r.0, r.1, bucketOf, g, qs[|qs| - 1])
  }

  /** The map after a list of requests, without a file. */
  function ServeMap(m: Contents, qs: seq<Request>): Contents
    decreases |qs|
  {
    if |qs| == 0 then m
    else
      var q := qs[|qs| - 1];
      var m1 := ServeMap(m, qs[..|qs| - 1]);
      ApplyAction(m1, q.key, Answer(m1, q.key, q.proc, q.readable, q.writable))
  }

  /** The request at position `i` is a phantom where it is served. */
  ghost predicate PhantomAt(s: Store, chains: Chains, bucketOf: Bytes -> nat, g: Geometry, qs: seq<Request>, i: nat)
    requires Inv(s, chains, bucketOf) && WellLogged(s.recs, Order(s)) && i < |qs|
  {
    var r := Serve(s, chains, bucketOf, g, qs[..i]);
    PhantomRequest(r.0, r.1, bucketOf, qs[i])
  }

  /** On every run the file holds what the requests ask for, and the validator accepts it. */
  lemma {:induction false} RunsRefine(s: Store, chains: Chains, bucketOf: Bytes -> nat, g: Geometry,
                                      qs: seq<Request>)
    requires Inv(s, chains, bucketOf) && WellLogged(s.recs, Order(s))
    ensures var r := Serve(s, chains, bucketOf, g, qs);
            && Logged(r.0) == ServeMap(Logged(s), qs)
            && LooksUp(r.0, r.1, bucketOf, ServeMap(Logged(s), qs))
            && Walkable(r.0, r.1, bucketOf) && Accepts(r.0, r.1, bucketOf, false)
    decreases |qs|
  {
    hide Inv, WellLogged, After, Logged, ApplyAction, Answer, LooksUp, Accepts, Walkable;
    var r := Serve(s, chains, bucketOf, g, qs);
    if |qs| > 0 {
      var n := |qs| - 1;
      var p := Serve(s, chains, bucketOf, g, qs[..n]);
      RunsRefine(s, chains, bucketOf, g, qs[..n]);
      RequestKeeps(p.0, p.1, bucketOf, g, qs[n]);
    }
    InvLooksUp(r.0, r.1, bucketOf);
    Complete(r.0, r.1, bucketOf, false);
  }

  /** The recount is the number of records exactly when no request of the run was a phantom. */
  lemma {:induction false} RunsRecount(s: Store, chains: Chains, bucketOf: Bytes -> nat, g: Geometry,
                                       qs: seq<Request>)
    requires Inv(s, chains, bucketOf) && WellLogged(s.recs, Order(s))
    requires Phantoms(s.recs, Order(s)) == 0
    ensures var r := Serve(s, chains, bucketOf, g, qs);
            Recount(r.0.recs, Order(r.0), false) == |Logged(r.0)| <==>
            forall i :: 0 <= i < |qs| ==> !PhantomAt(s, chains, bucketOf, g, qs, i)
  {
    hide Inv, WellLogged, Phantoms, Recount, PhantomAt;
    var r := Serve(s, chains, bucketOf, g, qs);
    RecountLog(r.0.recs, Order(r.0));
    RunsPhantoms(s, chains, bucketOf, g, qs);
  }

  lemma {:induction false} RunsPhantoms(s: Store, chains: Chains, bucketOf: Bytes -> nat, g: Geometry,
                                        qs: seq<Request>)
    requires Inv(s, chains, bucketOf) && WellLogged(s.recs, Order(s))
    requires Phantoms(s.recs, Order(s)) == 0
    ensures var r := Serve(s, chains, bucketOf, g, qs);
            Phantoms(r.0.recs, Order(r.0)) == 0 <==>
            forall i :: 0 <= i < |qs| ==> !PhantomAt(s, chains, bucketOf, g, qs, i)
    decreases |qs|
  {
    hide Inv, WellLogged, Phantoms, PhantomRequest, After, Order;
    if |qs| > 0 {
      var n := |qs| - 1;
      var p := Serve(s, chains, bucketOf, g, qs[..n]);
      RunsPhantoms(s, chains, bucketOf, g, qs[..n]);
      RequestKeeps(p.0, p.1, bucketOf, g, qs[n]);
      assert forall i :: 0 <= i < n ==> qs[..n][..i] == qs[..i];
      assert forall i :: 0 <= i < n ==> PhantomAt(s, chains, bucketOf, g, qs[..n], i) ==
                                        PhantomAt(s, chains, bucketOf, g, qs, i);
      InvParts(p.0, p.1, bucketOf, qs[n].key);
      assert PhantomAt(s, chains, bucketOf, g, qs, n) == PhantomRequest(p.0, p.1, bucketOf, qs[n]);
    }
  }

  /** What the requests of a run throw the recounted size off by, each where it is served. */
  ghost function RunDrift(s: Store, chains: Chains, bucketOf: Bytes -> nat, g: Geometry, qs: seq<Request>): int
    requires Inv(s, chains, bucketOf) && WellLogged(s.recs, Order(s))
    decreases |qs|
  {
    if |qs| == 0 then 0
    else
      var r := Serve(s, chains, bucketOf, g, qs[..|qs| - 1]);
      RunDrift(s, chains, bucketOf, g, qs[..|qs| - 1]) + RequestDrift(r.0, r.1, bucketOf, qs[|qs| - 1])
  }

  /** On every run the recounted size differs from the size of the data by the drift of the requests,
      so it is right exactly when they cancel out. */
  lemma {:induction false} RunsResize(s: Store, chains: Chains, bucketOf: Bytes -> nat, g: Geometry,
                                      qs: seq<Request>)
    requires Inv(s, chains, bucketOf) && WellLogged(s.recs, Order(s))
    ensures var r := Serve(s, chains, bucketOf, g, qs);
            Resize(r.0.recs, Order(r.0), false) ==
            DataSize(Logged(r.0)) + Drifts(s.recs, Order(s)) + RunDrift(s, chains, bucketOf, g, qs)
  {
    hide Inv, WellLogged, Drifts, Resize, RunDrift, Serve, DataSize, Replay;
    var r := Serve(s, chains, bucketOf, g, qs);
    RunsDrift(s, chains, bucketOf, g, qs);
    ResizeLog(r.0.recs, Order(r.0));
  }

  lemma {:induction false} RunsDrift(s: Store, chains: Chains, bucketOf: Bytes -> nat, g: Geometry, qs: seq<Request>)
    requires Inv(s, chains, bucketOf) && WellLogged(s.recs, Order(s))
    ensures var r := Serve(s, chains, bucketOf, g, qs);
            Drifts(r.0.recs, Order(r.0)) == Drifts(s.recs, Order(s)) + RunDrift(s, chains, bucketOf, g, qs)
    decreases |qs|
  {
    hide Inv, WellLogged, Drifts, After, Order, RequestDrift;
    if |qs| > 0 {
      var p := Serve(s, chains, bucketOf, g, qs[..|qs| - 1]);
      RunsDrift(s, chains, bucketOf, g, qs[..|qs| - 1]);
      RequestKeeps(p.0, p.1, bucketOf, g, qs[|qs| - 1]);
      InvParts(p.0, p.1, bucketOf, qs[|qs| - 1].key);
    }
  }

  /** In every state whose recounted size is right, setting a record to a value of another length
      makes it wrong. */
  lemma {:induction false} SettingMissizes(s: Store, chains: Chains, bucketOf: Bytes -> nat, g: Geometry, k: Bytes,
                                           v: Bytes)
    requires Inv(s, chains, bucketOf) && WellLogged(s.recs, Order(s))
    requires Resize(s.recs, Order(s), false) == DataSize(Logged(s))
    requires k in Logged(s) && |v| != |Logged(s)[k]|
    ensures var q := Request(k, Processor(_ => Put(v), Put(v)), false, true);
            var r := Serve(s, chains, bucketOf, g, [q]);
            Resize(r.0.recs, Order(r.0), false) == DataSize(Logged(r.0)) + |Logged(s)[k]| - |v|
  {
    hide Inv, WellLogged, Drifts, After, Order, Resize, DataSize, Logged, PhantomRequest;
    var q := Request(k, Processor(_ => Put(v), Put(v)), false, true);
    assert [q][..0] == [];
    assert Serve(s, chains, bucketOf, g, []) == (s, chains);
    InvParts(s, chains, bucketOf, k);
    LoggedResize(s);
    RunsResize(s, chains, bucketOf, g, [q]);
  }

  lemma {:induction false} LoggedResize(s: Store)
    requires WellLogged(s.recs, Order(s))
    ensures Resize(s.recs, Order(s), false) == DataSize(Logged(s)) + Drifts(s.recs, Order(s))
  {
    ResizeLog(s.recs, Order(s));
  }

  /** A processor that asks for a removal whether or not there is a record. */
  function AnyRemover(): Processor {
    Processor(_ => Remove, Remove)
  }

  /** After a logged removal the key's first chain record is that removal. */
  lemma {:induction false} RemovalIsFirst(s: Store, chains: Chains, bucketOf: Bytes -> nat, g: Geometry, k: Bytes)
    requires Inv(s, chains, bucketOf) && k in Logged(s)
    requires BucketsOk(s, bucketOf) && ChainsOk(s, chains, bucketOf)
    ensures var q := Request(k, AnyRemover(), false, true);
            var (s1, chains1) := After(s, chains, bucketOf, g, q);
            && BucketsOk(s1, bucketOf) && ChainsOk(s1, chains1, bucketOf)
            && !PhantomRequest(s, chains, bucketOf, q) && PhantomRequest(s1, chains1, bucketOf, q)
  {
    hide Inv, WholeSize;
    InvParts(s, chains, bucketOf, k);
    var first := FirstFor(s.recs, chains[bucketOf(k)], k);
    assert first.Some? && Live(s.recs[first.value]);
    var size := WholeSize(g, k, [], 0);
    AppendKeeps(s, chains, bucketOf, OpRemove, k, [], size);
    var s1 := Appended(s, chains, bucketOf, OpRemove, k, [], size);
    var chains1 := NewChains(s, chains, bucketOf, k);
    InvParts(s1, chains1, bucketOf, k);
    assert chains1[bucketOf(k)][0] == s.size && Matches(s1.recs[s.size], k);
  }

  /** In every state, two such removals in a row of a record make the recount one too small. */
  lemma {:induction false} PhantomMiscounts(s: Store, chains: Chains, bucketOf: Bytes -> nat, g: Geometry, k: Bytes)
    requires Inv(s, chains, bucketOf) && WellLogged(s.recs, Order(s))
    requires Phantoms(s.recs, Order(s)) == 0 && k in Logged(s)
    ensures var q := Request(k, AnyRemover(), false, true);
            var r := Serve(s, chains, bucketOf, g, [q, q]);
            Recount(r.0.recs, Order(r.0), false) == |Logged(r.0)| - 1
  {
    hide Inv, WellLogged, Phantoms, PhantomRequest, After, Order, Logged, Recount, Serve;
    var q := Request(k, AnyRemover(), false, true);
    InvParts(s, chains, bucketOf, k);
    RemovalIsFirst(s, chains, bucketOf, g, k);
    RequestKeeps(s, chains, bucketOf, g, q);
    var p := After(s, chains, bucketOf, g, q);
    RequestKeeps(p.0, p.1, bucketOf, g, q);
    ServeTwice(s, chains, bucketOf, g, q);
    var r := After(p.0, p.1, bucketOf, g, q);
    LoggedRecount(r.0);
  }

  lemma {:induction false} LoggedRecount(s: Store)
    requires WellLogged(s.recs, Order(s))
    ensures Recount(s.recs, Order(s), false) == |Logged(s)| - Phantoms(s.recs, Order(s))
  {
    RecountLog(s.recs, Order(s));
  }

  lemma {:induction false} ServeTwice(s: Store, chains: Chains, bucketOf: Bytes -> nat, g: Geometry, q: Request)
    requires Inv(s, chains, bucketOf) && WellLogged(s.recs, Order(s))
    requires BucketsOk(s, bucketOf) && ChainsOk(s, chains, bucketOf)
    ensures var p := After(s, chains, bucketOf, g, q);
            && BucketsOk(p.0, bucketOf) && ChainsOk(p.0, p.1, bucketOf)
            && Serve(s, chains, bucketOf, g, [q, q]) == After(p.0, p.1, bucketOf, g, q)
  {
    hide Inv, WellLogged, After, Order;
    assert [q, q][..1] == [q] && [q][..0] == [];
    assert Serve(s, chains, bucketOf, g, []) == (s, chains);
    var p := Serve(s, chains, bucketOf, g, [q]);
    InvParts(p.0, p.1, bucketOf, q.key);
  }
}
