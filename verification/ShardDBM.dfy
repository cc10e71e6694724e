/** ShardDBM: one database made of several, each key belonging to one of them.  The
    compare-and-exchange over many records nests the work of each shard in a callback of the
    shard before it, so that all locks are held when the first record is written. */
module Shards {
  import opened Common
  import opened CompareExchange

  /** The conditions and the desired values of one shard. */
  datatype Command = Command(shard: nat, expected: seq<Condition>, desired: seq<Condition>)

  ghost predicate Routed(shardOf: Bytes -> nat, shards: seq<Records>) {
    && (forall k :: shardOf(k) < |shards|)
    && (forall i, k :: 0 <= i < |shards| && k in shards[i] ==> shardOf(k) == i)
  }

  /** The records of all shards together. */
  ghost function Union(shards: seq<Records>): Records {
    if shards == [] then map[] else Union(shards[..|shards| - 1]) + shards[|shards| - 1]
  }

  ghost predicate Belongs(shardOf: Bytes -> nat, cs: seq<Condition>, shard: nat) {
    forall i :: 0 <= i < |cs| ==> shardOf(cs[i].key) == shard
  }

  /** Commands for different shards in ascending order, none of them without work. */
  ghost predicate Ordered(shardOf: Bytes -> nat, numShards: nat, commands: seq<Command>) {
    && (forall i, j :: 0 <= i < j < |commands| ==> commands[i].shard < commands[j].shard)
    && (forall i :: 0 <= i < |commands| ==> commands[i].shard < numShards)
    && (forall i :: 0 <= i < |commands| ==> commands[i].expected != [] || commands[i].desired != [])
    && (forall i :: 0 <= i < |commands| ==>
          && Belongs(shardOf, commands[i].expected, commands[i].shard)
          && Belongs(shardOf, commands[i].desired, commands[i].shard))
  }

  /** Every condition from a command on is met. */
  ghost predicate AllFeasible(shards: seq<Records>, commands: seq<Command>, c: nat) {
    forall i :: c <= i < |commands| && commands[i].shard < |shards| ==>
      Feasible(shards[commands[i].shard], commands[i].expected)
  }

  /** One shard after the commands from one on: changed if one of them is for it. */
  ghost predicate ShardAfter(shard: Records, shard': Records, s: nat, commands: seq<Command>, c: nat) {
    && (forall i :: c <= i < |commands| && commands[i].shard == s ==> shard' == ExchangeAll(shard, commands[i].desired))
    && ((forall i :: c <= i < |commands| ==> commands[i].shard != s) ==> shard' == shard)
  }

  ghost predicate AllExchanged(shards: seq<Records>, shards': seq<Records>, commands: seq<Command>, c: nat) {
    && |shards'| == |shards|
    && forall s :: 0 <= s < |shards| ==> ShardAfter(shards[s], shards'[s], s, commands, c)
  }

  /** What the commands from one on have done: everything if every condition was met, and
      otherwise nothing. */
  ghost predicate Done(shards: seq<Records>, shards': seq<Records>, ok: bool, commands: seq<Command>, c: nat) {
    && ok == AllFeasible(shards, commands, c)
    && if ok then AllExchanged(shards, shards', commands, c) else shards' == shards
  }

  /** Which conditions those are. */
  lemma {:induction false} AllFeasibleMeans(shards: seq<Records>, commands: seq<Command>, c: nat)
    requires forall i :: 0 <= i < |commands| ==> commands[i].shard < |shards|
    ensures AllFeasible(shards, commands, c) <==>
            forall i, j :: c <= i < |commands| && 0 <= j < |commands[i].expected| ==>
              var m, e := shards[commands[i].shard], commands[i].expected[j];
              if e.value.Some? then e.key in m && m[e.key] == e.value.value else e.key !in m
  {
    forall i | c <= i < |commands|
      ensures Feasible(shards[commands[i].shard], commands[i].expected) <==>
              forall j :: 0 <= j < |commands[i].expected| ==>
                var m, e := shards[commands[i].shard], commands[i].expected[j];
                if e.value.Some? then e.key in m && m[e.key] == e.value.value else e.key !in m
    {
      FeasibleMeans(shards[commands[i].shard], commands[i].expected);
    }
  }

  /** What the commands leave: the last value desired for each key, and every other record as it was. */
  lemma {:induction false} AllExchangedMeans(shards: seq<Records>, shards': seq<Records>, commands: seq<Command>,
                                             c: nat)
    requires forall i :: 0 <= i < |commands| ==> commands[i].shard < |shards|
    requires AllExchanged(shards, shards', commands, c)
    ensures forall i, j ::
              && c <= i < |commands| && 0 <= j < |commands[i].desired|
              && (forall l :: j < l < |commands[i].desired| ==>
                    commands[i].desired[l].key != commands[i].desired[j].key) ==>
                var m, d := shards'[commands[i].shard], commands[i].desired[j];
                if d.value.Some? then d.key in m && m[d.key] == d.value.value else d.key !in m
    ensures forall s, k ::
              && 0 <= s < |shards|
              && (forall i, j :: c <= i < |commands| && commands[i].shard == s && 0 <= j < |commands[i].desired| ==>
                    commands[i].desired[j].key != k) ==>
                (k in shards'[s] <==> k in shards[s]) && (k in shards[s] ==> shards'[s][k] == shards[s][k])
  {
    hide ExchangeAll;
    forall i, j |
      && c <= i < |commands| && 0 <= j < |commands[i].desired|
      && (forall l :: j < l < |commands[i].desired| ==> commands[i].desired[l].key != commands[i].desired[j].key)
      ensures var m, d := shards'[commands[i].shard], commands[i].desired[j];
              if d.value.Some? then d.key in m && m[d.key] == d.value.value else d.key !in m
    {
      var s := commands[i].shard;
      assert ShardAfter(shards[s], shards'[s], s, commands, c);
      DesiredStays(shards[s], commands[i].desired, j);
    }
    forall s, k |
      && 0 <= s < |shards|
      && (forall i, j :: c <= i < |commands| && commands[i].shard == s && 0 <= j < |commands[i].desired| ==>
            commands[i].desired[j].key != k)
      ensures (k in shards'[s] <==> k in shards[s]) && (k in shards[s] ==> shards'[s][k] == shards[s][k])
    {
      assert ShardAfter(shards[s], shards'[s], s, commands, c);
      if i :| c <= i < |commands| && commands[i].shard == s {
        UndesiredStays(shards[s], commands[i].desired, k);
      }
    }
  }

  class ShardDBM {
    const shardOf: Bytes -> nat
    var shards: seq<Records>
    /** The status shared by the processors of one call. */
    var ok: bool
    /** The shards locked by the call, in the order of locking. */
    ghost var held: seq<nat>
    /** Whether the call has written a record. */
    ghost var written: bool

    ghost predicate Valid()
      reads this`shards
    {
      |shards| > 0 && Routed(shardOf, shards)
    }

    constructor (shardOf: Bytes -> nat, numShards: Pos)
      requires forall k :: shardOf(k) < numShards
      ensures Valid() && shards == seq(numShards, _ => map[])
    {
      this.shardOf := shardOf;
      shards, ok := seq(numShards, _ => map[]), true;
      held, written := [], false;
    }

    /** Locks a shard.  The shards locked already must all come before it. */
    method Lock(shard: nat)
      requires forall i :: 0 <= i < |held| ==> held[i] < shard
      modifies this`held
      ensures held == old(held) + [shard]
    {
      held := held + [shard];
    }

    method Unlock(shard: nat)
      requires held != [] && held[|held| - 1] == shard
      modifies this`held
      ensures held == old(held)[..|old(held)| - 1]
    {
      held := held[..|held| - 1];
    }

    /** Checks a condition on a locked shard.  No record may have been written yet. */
    method Check(shard: nat, c: Condition)
      requires shard < |shards| && held != [] && held[|held| - 1] == shard && !written
      modifies this`ok
      ensures ok == (old(ok) && Met(shards[shard], c))
    {
      if !ok {
        return;
      }
      if !Met(shards[shard], c) {
        ok := false;
      }
    }

    /** Writes to a locked shard. */
    method Write(shard: nat, c: Condition)
      requires Valid() && shard < |shards| && held != [] && held[|held| - 1] == shard && ok
      requires shardOf(c.key) == shard
      modifies this`shards, this`written
      ensures Valid() && shards == old(shards)[shard := Exchange(old(shards[shard]), c)]
    {
      shards := shards[shard := Exchange(shards[shard], c)];
      written := true;
    }

    /** Runs a command on its shard: the checkers in turn, then the setters.  The last checker,
        or the first setter if there is no checker, runs the next command. */
    method ProcessMulti(commands: seq<Command>, c: nat)
      requires Valid() && Ordered(shardOf, |shards|, commands) && c < |commands| && ok && !written
      requires forall i :: 0 <= i < |held| ==> held[i] < commands[c].shard
      modifies this`shards, this`ok, this`held, this`written
      ensures Valid() && |shards| == |old(shards)| && held == old(held)
      ensures Done(old(shards), shards, ok, commands, c)
      ensures ok <==>
              forall i, j :: c <= i < |commands| && 0 <= j < |commands[i].expected| ==>
                var m, e := old(shards)[commands[i].shard], commands[i].expected[j];
                if e.value.Some? then e.key in m && m[e.key] == e.value.value else e.key !in m
      ensures ok ==>
                forall i, j ::
                  && c <= i < |commands| && 0 <= j < |commands[i].desired|
                  && (forall l :: j < l < |commands[i].desired| ==>
                        commands[i].desired[l].key != commands[i].desired[j].key) ==>
                    var m, d := shards[commands[i].shard], commands[i].desired[j];
                    if d.value.Some? then d.key in m && m[d.key] == d.value.value else d.key !in m
      ensures ok ==>
                forall s, k ::
                  && 0 <= s < |shards|
                  && (forall i, j :: c <= i < |commands| && commands[i].shard == s && 0 <= j < |commands[i].desired| ==>
                        commands[i].desired[j].key != k) ==>
                    && (k in shards[s] <==> k in old(shards)[s])
                    && (k in shards[s] ==> shards[s][k] == old(shards)[s][k])
      ensures !ok ==> shards == old(shards)
      decreases |commands| - c, 2
    {
      hide Routed, AllFeasible, AllExchanged, Belongs;
      var shard := commands[c].shard;
      Lock(shard);
      if commands[c].expected != [] {
        RunCheckers(commands, c);
        StartMidway(shardOf, old(shards), shards, ok, commands, c);
      }
      RunSetters(commands, c, old(shards));
      Unlock(shard);
      AllFeasibleMeans(old(shards), commands, c);
      if ok {
        AllExchangedMeans(old(shards), shards, commands, c);
      }
    }

    method RunCheckers(commands: seq<Command>, c: nat)
      requires Valid() && Ordered(shardOf, |shards|, commands) && c < |commands| && ok && !written
      requires commands[c].expected != []
      requires held != [] && held[|held| - 1] == commands[c].shard
      requires forall i :: 0 <= i < |held| ==> held[i] <= commands[c].shard
      modifies this`shards, this`ok, this`held, this`written
      ensures Valid() && |shards| == |old(shards)| && held == old(held)
      ensures ok == (Feasible(old(shards)[commands[c].shard], commands[c].expected)
                     && AllFeasible(old(shards), commands, c + 1))
      ensures if ok then AllExchanged(old(shards), shards, commands, c + 1) else shards == old(shards)
      decreases |commands| - c, 1
    {
      hide Routed, AllFeasible, AllExchanged, Belongs;
      var expected, shard := commands[c].expected, commands[c].shard;
      var i := 0;
      while i < |expected| - 1
        invariant 0 <= i < |expected|
        invariant shards == old(shards) && held == old(held) && !written
        invariant ok == Feasible(old(shards)[shard], expected[..i])
      {
        Check(shard, expected[i]);
        assert expected[..i + 1] == expected[..i] + [expected[i]];
        i := i + 1;
      }
      Check(shard, expected[i]);
      assert expected == expected[..i] + [expected[i]];
      NoMore(shards, commands, c + 1);
      if ok && c + 1 < |commands| {
        ProcessMulti(commands, c + 1);
      }
    }

    method RunSetters(commands: seq<Command>, c: nat, ghost shards0: seq<Records>)
      requires Valid() && Ordered(shardOf, |shards|, commands) && c < |commands|
      requires held != [] && held[|held| - 1] == commands[c].shard
      requires forall i :: 0 <= i < |held| ==> held[i] <= commands[c].shard
      requires |shards0| == |shards|
      requires commands[c].expected == [] ==> ok && !written && shards == shards0
      requires commands[c].expected != [] ==> Midway(shards0, shards, ok, commands, c, 0)
      modifies this`shards, this`ok, this`held, this`written
      ensures Valid() && |shards| == |old(shards)| && held == old(held)
      ensures Done(shards0, shards, ok, commands, c)
      decreases |commands| - c, 1
    {
      hide Routed, AllFeasible, AllExchanged, Belongs, Feasible, ExchangeAll, Midway, Ordered, Done;
      ShardInRange(shardOf, commands, c, |shards|);
      var expected, desired, shard := commands[c].expected, commands[c].desired, commands[c].shard;
      var i := 0;
      while i < |desired|
        invariant 0 <= i <= |desired| && Valid() && held == old(held)
        invariant |shards| == |shards0| && Ordered(shardOf, |shards|, commands)
        invariant i == 0 && expected == [] ==> ok && !written && shards == shards0
        invariant i > 0 || expected != [] ==> Midway(shards0, shards, ok, commands, c, i)
      {
        if ok {
          if expected == [] && i == 0 {
            if c + 1 < |commands| {
              ProcessMulti(commands, c + 1);
            } else {
              NoneLeft(shards, commands, c + 1);
            }
            NothingExpected(shardOf, shards0, shards, ok, commands, c);
          }
          if ok {
            DesiredAt(shardOf, commands, c, i, |shards|);
            MidwayStep(shards0, shards, commands, c, i);
            Write(shard, desired[i]);
          } else {
            MidwayFails(shards0, shards, commands, c, i);
          }
        } else {
          MidwayFails(shards0, shards, commands, c, i);
        }
        i := i + 1;
      }
      MidwayDone(shardOf, shards0, shards, ok, commands, c);
    }

    /** Groups the conditions and desired values by shard, in the order of the shards. */
    method GroupByShard(expected: seq<Condition>, desired: seq<Condition>) returns (commands: seq<Command>)
      requires Valid()
      ensures Ordered(shardOf, |shards|, commands)
      ensures Grouped(shardOf, expected, desired, commands)
    {
      hide Routed;
      var groups: map<nat, Command> := map[];
      for i := 0 to |expected|
        invariant GroupsOk(shardOf, expected[..i], [], groups)
      {
        var s := shardOf(expected[i].key);
        var g := if s in groups then groups[s] else Command(s, [], []);
        ExpectOne(shardOf, expected, i, groups);
        groups := groups[s := g.(expected := g.expected + [expected[i]])];
      }
      assert expected[..|expected|] == expected;
      for i := 0 to |desired|
        invariant GroupsOk(shardOf, expected, desired[..i], groups)
      {
        var s := shardOf(desired[i].key);
        var g := if s in groups then groups[s] else Command(s, [], []);
        DesireOne(shardOf, expected, desired, i, groups);
        groups := groups[s := g.(desired := g.desired + [desired[i]])];
      }
      assert desired[..|desired|] == desired;
      commands := ListGroups(groups, expected, desired);
    }

    /** The groups in the order of their shards. */
    method ListGroups(groups: map<nat, Command>, ghost expected: seq<Condition>, ghost desired: seq<Condition>)
      returns (commands: seq<Command>)
      requires Valid() && GroupsOk(shardOf, expected, desired, groups)
      ensures Ordered(shardOf, |shards|, commands)
      ensures Grouped(shardOf, expected, desired, commands)
    {
      hide Filter, Belongs;
      commands := [];
      for s := 0 to |shards|
        invariant forall i :: 0 <= i < |commands| ==> commands[i].shard < s && InGroups(groups, commands[i])
        invariant forall i, j :: 0 <= i < j < |commands| ==> commands[i].shard < commands[j].shard
        invariant forall t :: t in groups && t < s ==> groups[t] in commands
      {
        if s in groups {
          commands := commands + [groups[s]];
        }
      }
      GroupsListed(shardOf, expected, desired, groups, commands, |shards|);
    }

    /** The sharded operation is the single-database one on the records of all shards. */
    method CompareExchangeMulti(expected: seq<Condition>, desired: seq<Condition>) returns (success: bool)
      requires Valid() && held == []
      modifies this
      ensures Valid() && held == []
      ensures success == Feasible(Union(old(shards)), expected)
      ensures Union(shards) == if success then ExchangeAll(Union(old(shards)), desired) else Union(old(shards))
      ensures !success ==> shards == old(shards)
      ensures success <==>
              forall i :: 0 <= i < |expected| ==>
                var e := expected[i];
                if e.value.Some? then e.key in Union(old(shards)) && Union(old(shards))[e.key] == e.value.value
                else e.key !in Union(old(shards))
      ensures success ==>
                forall i ::
                  0 <= i < |desired| && (forall j :: i < j < |desired| ==> desired[j].key != desired[i].key) ==>
                    var d := desired[i];
                    if d.value.Some? then d.key in Union(shards) && Union(shards)[d.key] == d.value.value
                    else d.key !in Union(shards)
      ensures success ==>
                forall k :: (forall i :: 0 <= i < |desired| ==> desired[i].key != k) ==>
                  && (k in Union(shards) <==> k in Union(old(shards)))
                  && (k in Union(old(shards)) ==> Union(shards)[k] == Union(old(shards))[k])
    {
      FeasibleMeans(Union(shards), expected);
      ExchangeMeans(Union(shards), desired);
      hide Routed, Feasible, ExchangeAll, Ordered, Grouped, Union, Done;
      var commands := GroupByShard(expected, desired);
      ok, written := true, false;
      if commands == [] {
        NothingAsked(shardOf, shards, expected, desired, commands);
        return true;
      }
      ProcessMulti(commands, 0);
      success := ok;
      ShardsTogether(shardOf, old(shards), shards, ok, expected, desired, commands);
    }
  }

  /** The commands after c are done and i of the desired values of command c are set, if all
      conditions were met, and otherwise nothing has been done. */
  ghost predicate Midway(shards: seq<Records>, shards': seq<Records>, ok: bool, commands: seq<Command>, c: nat, i: nat)
  {
    && |shards'| == |shards| && c < |commands| && i <= |commands[c].desired| && commands[c].shard < |shards|
    && ok == AllFeasible(shards, commands, c)
    && if ok then
         && shards'[commands[c].shard] == ExchangeAll(shards[commands[c].shard], commands[c].desired[..i])
         && (forall s :: 0 <= s < |shards| && s != commands[c].shard ==>
               ShardAfter(shards[s], shards'[s], s, commands, c + 1))
       else shards' == shards
  }

  /** The conditions of a command and of those after it. */
  lemma {:induction false} FeasibleStep(shards: seq<Records>, commands: seq<Command>, c: nat)
    requires c < |commands| && commands[c].shard < |shards|
    ensures AllFeasible(shards, commands, c) <==>
            Feasible(shards[commands[c].shard], commands[c].expected) && AllFeasible(shards, commands, c + 1)
  {
  }

  /** The later commands leave the shard of command c alone. */
  lemma {:induction false} LaterElsewhere(shardOf: Bytes -> nat, shards: seq<Records>, shards': seq<Records>,
                                          commands: seq<Command>, c: nat)
    requires Ordered(shardOf, |shards|, commands) && c < |commands|
    requires AllExchanged(shards, shards', commands, c + 1)
    ensures shards'[commands[c].shard] == shards[commands[c].shard]
    ensures Midway(shards, shards', AllFeasible(shards, commands, c), commands, c, 0)
            || !AllFeasible(shards, commands, c)
  {
    hide AllFeasible;
    assert ShardAfter(shards[commands[c].shard], shards'[commands[c].shard], commands[c].shard, commands, c + 1);
    assert commands[c].desired[..0] == [];
  }

  lemma {:induction false} StartMidway(shardOf: Bytes -> nat, shards: seq<Records>, shards': seq<Records>, ok: bool,
                                       commands: seq<Command>, c: nat)
    requires Ordered(shardOf, |shards|, commands) && c < |commands|
    requires ok == (Feasible(shards[commands[c].shard], commands[c].expected) && AllFeasible(shards, commands, c + 1))
    requires if ok then AllExchanged(shards, shards', commands, c + 1) else shards' == shards
    ensures Midway(shards, shards', ok, commands, c, 0)
  {
    hide AllFeasible, Feasible;
    FeasibleStep(shards, commands, c);
    if ok {
      LaterElsewhere(shardOf, shards, shards', commands, c);
    }
  }

  lemma {:induction false} NothingExpected(shardOf: Bytes -> nat, shards: seq<Records>, shards': seq<Records>,
                                           ok: bool, commands: seq<Command>, c: nat)
    requires Ordered(shardOf, |shards|, commands) && c < |commands| && commands[c].expected == []
    requires Done(shards, shards', ok, commands, c + 1)
    ensures Midway(shards, shards', ok, commands, c, 0)
  {
    hide AllFeasible;
    StartMidway(shardOf, shards, shards', ok, commands, c);
  }

  lemma {:induction false} DesiredAt(shardOf: Bytes -> nat, commands: seq<Command>, c: nat, i: nat, n: nat)
    requires Ordered(shardOf, n, commands) && c < |commands| && i < |commands[c].desired|
    ensures shardOf(commands[c].desired[i].key) == commands[c].shard
  {
  }

  lemma {:induction false} MidwayStep(shards: seq<Records>, shards': seq<Records>, commands: seq<Command>, c: nat,
                                      i: nat)
    requires Midway(shards, shards', true, commands, c, i) && i < |commands[c].desired|
    ensures var shard, d := commands[c].shard, commands[c].desired[i];
            && shard < |shards'|
            && Midway(shards, shards'[shard := Exchange(shards'[shard], d)], true, commands, c, i + 1)
  {
    hide AllFeasible;
    var desired := commands[c].desired;
    assert desired[..i + 1][..i] == desired[..i];
  }

  lemma {:induction false} MidwayFails(shards: seq<Records>, shards': seq<Records>, commands: seq<Command>, c: nat,
                                       i: nat)
    requires Midway(shards, shards', false, commands, c, i) && i < |commands[c].desired|
    ensures Midway(shards, shards', false, commands, c, i + 1)
  {
  }

  lemma {:induction false} MidwayDone(shardOf: Bytes -> nat, shards: seq<Records>, shards': seq<Records>, ok: bool,
                                      commands: seq<Command>, c: nat)
    requires Ordered(shardOf, |shards|, commands) && c < |commands|
    requires Midway(shards, shards', ok, commands, c, |commands[c].desired|)
    ensures Done(shards, shards', ok, commands, c)
  {
    hide AllFeasible;
    var desired := commands[c].desired;
    assert desired[..|desired|] == desired;
    if ok {
      forall s | 0 <= s < |shards|
        ensures ShardAfter(shards[s], shards'[s], s, commands, c)
      {
        assert s != commands[c].shard ==> ShardAfter(shards[s], shards'[s], s, commands, c + 1);
      }
    }
  }

  lemma {:induction false} NoneLeft(shards: seq<Records>, commands: seq<Command>, c: nat)
    requires c >= |commands|
    ensures Done(shards, shards, true, commands, c)
  {
  }

  lemma {:induction false} ShardInRange(shardOf: Bytes -> nat, commands: seq<Command>, c: nat, n: nat)
    requires Ordered(shardOf, n, commands) && c < |commands|
    ensures commands[c].shard < n && (commands[c].expected != [] || commands[c].desired != [])
    ensures c + 1 < |commands| ==> commands[c].shard < commands[c + 1].shard
  {
  }

  lemma {:induction false} NoMore(shards: seq<Records>, commands: seq<Command>, c: nat)
    ensures c >= |commands| ==> AllFeasible(shards, commands, c) && AllExchanged(shards, shards, commands, c)
  {
  }

  // ----- grouping -----

  /** The conditions on the keys of one shard. */
  function Filter(shardOf: Bytes -> nat, cs: seq<Condition>, s: nat): seq<Condition> {
    if cs == [] then []
    else
      var rest := Filter(shardOf, cs[..|cs| - 1], s);
      if shardOf(cs[|cs| - 1].key) == s then rest + [cs[|cs| - 1]] else rest
  }

  lemma {:induction false} FilterStep(shardOf: Bytes -> nat, cs: seq<Condition>, i: nat, s: nat)
    requires i < |cs|
    ensures Filter(shardOf, cs[..i + 1], s) ==
            if shardOf(cs[i].key) == s then Filter(shardOf, cs[..i], s) + [cs[i]] else Filter(shardOf, cs[..i], s)
  {
    assert cs[..i + 1][..i] == cs[..i];
  }

  ghost predicate GroupsOk(shardOf: Bytes -> nat, expected: seq<Condition>, desired: seq<Condition>,
                           groups: map<nat, Command>)
  {
    forall s :: if s in groups then GroupIs(shardOf, expected, desired, s, groups[s])
                else Filter(shardOf, expected, s) == [] && Filter(shardOf, desired, s) == []
  }

  ghost predicate GroupIs(shardOf: Bytes -> nat, expected: seq<Condition>, desired: seq<Condition>, s: nat,
                          g: Command) {
    && g == Command(s, Filter(shardOf, expected, s), Filter(shardOf, desired, s))
    && (g.expected != [] || g.desired != [])
  }

  lemma {:induction false} ExpectOne(shardOf: Bytes -> nat, expected: seq<Condition>, i: nat, groups: map<nat, Command>)
    requires i < |expected| && GroupsOk(shardOf, expected[..i], [], groups)
    ensures var s := shardOf(expected[i].key);
            var g := if s in groups then groups[s] else Command(s, [], []);
            GroupsOk(shardOf, expected[..i + 1], [], groups[s := g.(expected := g.expected + [expected[i]])])
  {
    hide Filter;
    var s := shardOf(expected[i].key);
    var g := if s in groups then groups[s] else Command(s, [], []);
    var groups' := groups[s := g.(expected := g.expected + [expected[i]])];
    FilterNone(shardOf);
    forall t: nat
      ensures if t in groups' then GroupIs(shardOf, expected[..i + 1], [], t, groups'[t])
              else Filter(shardOf, expected[..i + 1], t) == [] && Filter(shardOf, [], t) == []
    {
      FilterStep(shardOf, expected, i, t);
      assert t in groups ==> GroupIs(shardOf, expected[..i], [], t, groups[t]);
    }
  }

  lemma {:induction false} FilterNone(shardOf: Bytes -> nat)
    ensures forall s: nat :: Filter(shardOf, [], s) == []
  {
  }

  lemma {:induction false} DesireOne(shardOf: Bytes -> nat, expected: seq<Condition>, desired: seq<Condition>,
                                     i: nat, groups: map<nat, Command>)
    requires i < |desired| && GroupsOk(shardOf, expected, desired[..i], groups)
    ensures var s := shardOf(desired[i].key);
            var g := if s in groups then groups[s] else Command(s, [], []);
            GroupsOk(shardOf, expected, desired[..i + 1], groups[s := g.(desired := g.desired + [desired[i]])])
  {
    hide Filter;
    var s := shardOf(desired[i].key);
    var g := if s in groups then groups[s] else Command(s, [], []);
    var groups' := groups[s := g.(desired := g.desired + [desired[i]])];
    forall t: nat
      ensures if t in groups' then GroupIs(shardOf, expected, desired[..i + 1], t, groups'[t])
              else Filter(shardOf, expected, t) == [] && Filter(shardOf, desired[..i + 1], t) == []
    {
      FilterStep(shardOf, desired, i, t);
      assert t in groups ==> GroupIs(shardOf, expected, desired[..i], t, groups[t]);
    }
  }

  ghost predicate InGroups(groups: map<nat, Command>, g: Command) {
    g.shard in groups && groups[g.shard] == g
  }

  /** Each command has the conditions of its shard, and each shard with conditions a command. */
  ghost predicate Grouped(shardOf: Bytes -> nat, expected: seq<Condition>, desired: seq<Condition>,
                          commands: seq<Command>) {
    && (forall i :: 0 <= i < |commands| ==>
          commands[i] == Command(commands[i].shard, Filter(shardOf, expected, commands[i].shard),
                                 Filter(shardOf, desired, commands[i].shard)))
    && (forall s: nat :: (forall i :: 0 <= i < |commands| ==> commands[i].shard != s) ==>
          Filter(shardOf, expected, s) == [] && Filter(shardOf, desired, s) == [])
  }

  lemma {:induction false} FilterBelongs(shardOf: Bytes -> nat, cs: seq<Condition>, s: nat)
    ensures Belongs(shardOf, Filter(shardOf, cs, s), s)
  {
    if cs != [] {
      FilterBelongs(shardOf, cs[..|cs| - 1], s);
    }
  }

  lemma {:induction false} GroupsListed(shardOf: Bytes -> nat, expected: seq<Condition>, desired: seq<Condition>,
                                        groups: map<nat, Command>, commands: seq<Command>, n: nat)
    requires GroupsOk(shardOf, expected, desired, groups) && forall k :: shardOf(k) < n
    requires forall i :: 0 <= i < |commands| ==> commands[i].shard < n && InGroups(groups, commands[i])
    requires forall i, j :: 0 <= i < j < |commands| ==> commands[i].shard < commands[j].shard
    requires forall t :: t in groups && t < n ==> groups[t] in commands
    ensures Ordered(shardOf, n, commands) && Grouped(shardOf, expected, desired, commands)
  {
    hide Filter, Belongs;
    forall i | 0 <= i < |commands|
      ensures GroupIs(shardOf, expected, desired, commands[i].shard, commands[i])
      ensures Belongs(shardOf, commands[i].expected, commands[i].shard)
      ensures Belongs(shardOf, commands[i].desired, commands[i].shard)
    {
      assert InGroups(groups, commands[i]);
      assert commands[i].shard in groups;
      FilterBelongs(shardOf, expected, commands[i].shard);
      FilterBelongs(shardOf, desired, commands[i].shard);
    }
    forall s: nat | forall i :: 0 <= i < |commands| ==> commands[i].shard != s
      ensures Filter(shardOf, expected, s) == [] && Filter(shardOf, desired, s) == []
    {
      assert s < n ==> s !in groups;
      if s >= n {
        FilterBeyond(shardOf, expected, s);
        FilterBeyond(shardOf, desired, s);
      }
    }
  }

  lemma {:induction false} FilterBeyond(shardOf: Bytes -> nat, cs: seq<Condition>, s: nat)
    requires forall k :: shardOf(k) != s
    ensures Filter(shardOf, cs, s) == []
  {
    if cs != [] {
      FilterBeyond(shardOf, cs[..|cs| - 1], s);
    }
  }

  // ----- the shards together -----

  /** A key is in the union what it is in its shard. */
  lemma {:induction false} UnionGet(shardOf: Bytes -> nat, shards: seq<Records>, n: nat, k: Bytes)
    requires Routed(shardOf, shards) && n <= |shards|
    ensures Get(Union(shards[..n]), k) == if shardOf(k) < n then Get(shards[shardOf(k)], k) else None
  {
    if n > 0 {
      UnionGet(shardOf, shards, n - 1, k);
      assert shards[..n][..n - 1] == shards[..n - 1];
    }
  }

  lemma {:induction false} UnionAt(shardOf: Bytes -> nat, shards: seq<Records>, k: Bytes)
    requires Routed(shardOf, shards)
    ensures shardOf(k) < |shards| && Get(Union(shards), k) == Get(shards[shardOf(k)], k)
  {
    UnionGet(shardOf, shards, |shards|, k);
    assert shards[..|shards|] == shards;
  }

  /** Filtering by a key's shard keeps what is desired for the key. */
  lemma {:induction false} FilterDesired(shardOf: Bytes -> nat, desired: seq<Condition>, k: Bytes)
    ensures LastDesired(Filter(shardOf, desired, shardOf(k)), k) == LastDesired(desired, k)
  {
    if desired != [] {
      var n := |desired| - 1;
      FilterDesired(shardOf, desired[..n], k);
      var rest := Filter(shardOf, desired[..n], shardOf(k));
      assert (rest + [desired[n]])[..|rest|] == rest;
    }
  }

  lemma {:induction false} FilterFeasible(shardOf: Bytes -> nat, shards: seq<Records>, cs: seq<Condition>)
    requires Routed(shardOf, shards)
    ensures Feasible(Union(shards), cs) <==>
            forall s :: 0 <= s < |shards| ==> Feasible(shards[s], Filter(shardOf, cs, s))
  {
    hide Routed, Union;
    if cs != [] {
      var n := |cs| - 1;
      var c := cs[n];
      FilterFeasible(shardOf, shards, cs[..n]);
      UnionAt(shardOf, shards, c.key);
      assert cs == cs[..n] + [c];
      forall s | 0 <= s < |shards|
        ensures Feasible(shards[s], Filter(shardOf, cs, s)) <==>
                Feasible(shards[s], Filter(shardOf, cs[..n], s)) && (shardOf(c.key) == s ==> Met(shards[s], c))
      {
        FeasibleSnoc(shards[s], Filter(shardOf, cs[..n], s), c);
      }
      FeasibleSnoc(Union(shards), cs[..n], c);
    }
  }

  lemma {:induction false} FeasibleSnoc(m: Records, cs: seq<Condition>, c: Condition)
    ensures Feasible(m, cs + [c]) <==> Feasible(m, cs) && Met(m, c)
  {
    if Feasible(m, cs + [c]) {
      assert (cs + [c])[|cs|] == c;
      forall i | 0 <= i < |cs|
        ensures Met(m, cs[i])
      {
        assert (cs + [c])[i] == cs[i];
      }
    }
  }

  lemma {:induction false} AllShardsFeasible(shardOf: Bytes -> nat, shards: seq<Records>, expected: seq<Condition>,
                                             desired: seq<Condition>, commands: seq<Command>)
    requires Ordered(shardOf, |shards|, commands) && Grouped(shardOf, expected, desired, commands)
    ensures AllFeasible(shards, commands, 0) <==>
            forall s :: 0 <= s < |shards| ==> Feasible(shards[s], Filter(shardOf, expected, s))
  {
    hide Filter;
    if AllFeasible(shards, commands, 0) {
      forall s | 0 <= s < |shards|
        ensures Feasible(shards[s], Filter(shardOf, expected, s))
      {
        if i :| 0 <= i < |commands| && commands[i].shard == s {
          assert Feasible(shards[commands[i].shard], commands[i].expected);
        } else {
          assert Filter(shardOf, expected, s) == [];
        }
      }
    }
  }

  lemma {:induction false} ShardValue(shardOf: Bytes -> nat, shards: seq<Records>, shards': seq<Records>,
                                      expected: seq<Condition>, desired: seq<Condition>, commands: seq<Command>,
                                      k: Bytes)
    requires Grouped(shardOf, expected, desired, commands) && AllExchanged(shards, shards', commands, 0)
    requires shardOf(k) < |shards|
    ensures shards'[shardOf(k)] == ExchangeAll(shards[shardOf(k)], Filter(shardOf, desired, shardOf(k)))
  {
    hide Filter;
    var s := shardOf(k);
    assert ShardAfter(shards[s], shards'[s], s, commands, 0);
    if i :| 0 <= i < |commands| && commands[i].shard == s {
      assert commands[i].desired == Filter(shardOf, desired, s);
    } else {
      assert Filter(shardOf, desired, s) == [];
    }
  }

  /** The commands together do what the single-database operation does to the union. */
  lemma {:induction false} ShardsTogether(shardOf: Bytes -> nat, shards: seq<Records>, shards': seq<Records>,
                                          ok: bool, expected: seq<Condition>, desired: seq<Condition>,
                                          commands: seq<Command>)
    requires Routed(shardOf, shards) && Routed(shardOf, shards') && |shards'| == |shards|
    requires Ordered(shardOf, |shards|, commands) && Grouped(shardOf, expected, desired, commands)
    requires Done(shards, shards', ok, commands, 0)
    ensures ok == Feasible(Union(shards), expected)
    ensures Union(shards') == if ok then ExchangeAll(Union(shards), desired) else Union(shards)
    ensures !ok ==> shards' == shards
  {
    hide Routed, Filter, Union, AllFeasible, AllExchanged, Ordered, Grouped, ExchangeAll, Feasible;
    FilterFeasible(shardOf, shards, expected);
    AllShardsFeasible(shardOf, shards, expected, desired, commands);
    if ok {
      var whole, whole' := Union(shards), Union(shards');
      forall k
        ensures Get(whole', k) == Get(ExchangeAll(whole, desired), k)
      {
        var s := shardOf(k);
        UnionAt(shardOf, shards, k);
        UnionAt(shardOf, shards', k);
        ShardValue(shardOf, shards, shards', expected, desired, commands, k);
        ExchangedValue(shards[s], Filter(shardOf, desired, s), k);
        ExchangedValue(whole, desired, k);
        FilterDesired(shardOf, desired, k);
      }
      MapsAgree(whole', ExchangeAll(whole, desired));
    }
  }

  lemma {:induction false} NothingAsked(shardOf: Bytes -> nat, shards: seq<Records>, expected: seq<Condition>,
                                        desired: seq<Condition>, commands: seq<Command>)
    requires Routed(shardOf, shards) && Ordered(shardOf, |shards|, commands)
    requires Grouped(shardOf, expected, desired, commands) && commands == []
    ensures Feasible(Union(shards), expected) && ExchangeAll(Union(shards), desired) == Union(shards)
  {
    hide Routed, Filter, Union, Ordered, Grouped, ExchangeAll, Feasible;
    NoneLeft(shards, commands, 0);
    ShardsTogether(shardOf, shards, shards, true, expected, desired, commands);
  }

  // ----- waiting -----

  /** A caller in the middle of an operation: the shards it has locked and the one it waits for. */
  datatype Caller = Caller(held: set<nat>, waiting: Option<nat>)

  /** Locks are taken in ascending order. */
  ghost predicate Ascends(c: Caller) {
    c.waiting.Some? ==> forall s :: s in c.held ==> s < c.waiting.value
  }

  ghost predicate WaitsFor(a: Caller, b: Caller) {
    a.waiting.Some? && a.waiting.value in b.held
  }

  /** Callers that lock in ascending order never wait for each other in a circle. */
  lemma {:induction false} NoWaitingCircle(callers: seq<Caller>)
    requires |callers| > 0 && forall i :: 0 <= i < |callers| ==> Ascends(callers[i])
    requires forall i, j :: 0 <= i && j == i + 1 && j < |callers| ==> WaitsFor(callers[i], callers[j])
    ensures !WaitsFor(callers[|callers| - 1], callers[0])
  {
    WaitRises(callers, |callers| - 1);
  }

  lemma {:induction false} WaitRises(callers: seq<Caller>, n: nat)
    requires n < |callers| && forall i :: 0 <= i < |callers| ==> Ascends(callers[i])
    requires forall i, j :: 0 <= i && j == i + 1 && j < |callers| ==> WaitsFor(callers[i], callers[j])
    ensures callers[0].waiting.Some? && callers[n].waiting.Some? ==>
              callers[0].waiting.value <= callers[n].waiting.value
    ensures n > 0 ==> callers[0].waiting.Some?
  {
    if n > 0 {
      WaitRises(callers, n - 1);
      assert WaitsFor(callers[n - 1], callers[n]);
    }
  }
}
