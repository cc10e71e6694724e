/** Compare-and-exchange over many records, as one database does it: every expected value is
    checked, and only if all are there are the desired values set. */
module CompareExchange {
  import opened Common

  type Records = map<Bytes, Bytes>

  /** A key with the value it should have, or no value. */
  datatype Condition = Condition(key: Bytes, value: Option<Bytes>)

  predicate Met(m: Records, c: Condition) {
    Get(m, c.key) == c.value
  }

  predicate Feasible(m: Records, expected: seq<Condition>) {
    forall i :: 0 <= i < |expected| ==> Met(m, expected[i])
  }

  function Exchange(m: Records, c: Condition): Records {
    match c.value
    case None => m - {c.key}
    case Some(v) => m[c.key := v]
  }

  /** The desired values set one after the other. */
  function ExchangeAll(m: Records, desired: seq<Condition>): Records {
    if desired == [] then m
    else Exchange(ExchangeAll(m, desired[..|desired| - 1]), desired[|desired| - 1])
  }

  /** The last value desired for a key, if any. */
  function LastDesired(desired: seq<Condition>, key: Bytes): Option<Condition> {
    if desired == [] then None
    else if desired[|desired| - 1].key == key then Some(desired[|desired| - 1])
    else LastDesired(desired[..|desired| - 1], key)
  }

  /** What a key holds afterwards: what was desired for it last, or what it held before. */
  lemma {:induction false} ExchangedValue(m: Records, desired: seq<Condition>, key: Bytes)
    ensures Get(ExchangeAll(m, desired), key) ==
            match LastDesired(desired, key) {
              case Some(c) => c.value
              case None => Get(m, key)
            }
  {
    if desired != [] {
      ExchangedValue(m, desired[..|desired| - 1], key);
    }
  }

  /** The conditions hold when every value expected is there and every key expected to have none has none. */
  lemma {:induction false} FeasibleMeans(m: Records, expected: seq<Condition>)
    ensures Feasible(m, expected) <==>
            forall i :: 0 <= i < |expected| ==>
              if expected[i].value.Some? then expected[i].key in m && m[expected[i].key] == expected[i].value.value
              else expected[i].key !in m
  {
    forall i | 0 <= i < |expected|
      ensures Met(m, expected[i]) <==>
              if expected[i].value.Some? then expected[i].key in m && m[expected[i].key] == expected[i].value.value
              else expected[i].key !in m
    {
    }
  }

  /** Afterwards a key has the value that the last desire for it names, or none if that names none. */
  lemma {:induction false} DesiredStays(m: Records, desired: seq<Condition>, i: nat)
    requires i < |desired| && forall j :: i < j < |desired| ==> desired[j].key != desired[i].key
    ensures var m' := ExchangeAll(m, desired);
            if desired[i].value.Some? then desired[i].key in m' && m'[desired[i].key] == desired[i].value.value
            else desired[i].key !in m'
  {
    LastAt(desired, i);
    ExchangedValue(m, desired, desired[i].key);
  }

  lemma {:induction false} LastAt(desired: seq<Condition>, i: nat)
    requires i < |desired| && forall j :: i < j < |desired| ==> desired[j].key != desired[i].key
    ensures LastDesired(desired, desired[i].key) == Some(desired[i])
    decreases |desired|
  {
    if i < |desired| - 1 {
      assert desired[..|desired| - 1][i] == desired[i];
      LastAt(desired[..|desired| - 1], i);
    }
  }

  /** A key that nothing is desired for is left alone. */
  lemma {:induction false} UndesiredStays(m: Records, desired: seq<Condition>, key: Bytes)
    requires forall i :: 0 <= i < |desired| ==> desired[i].key != key
    ensures var m' := ExchangeAll(m, desired); (key in m' <==> key in m) && (key in m ==> m'[key] == m[key])
  {
    if desired != [] {
      UndesiredStays(m, desired[..|desired| - 1], key);
    }
  }

  /** Both for all keys. */
  lemma {:induction false} ExchangeMeans(m: Records, desired: seq<Condition>)
    ensures var m' := ExchangeAll(m, desired);
            && (forall i ::
                  0 <= i < |desired| && (forall j :: i < j < |desired| ==> desired[j].key != desired[i].key) ==>
                    if desired[i].value.Some? then desired[i].key in m' && m'[desired[i].key] == desired[i].value.value
                    else desired[i].key !in m')
            && (forall k :: (forall i :: 0 <= i < |desired| ==> desired[i].key != k) ==>
                  (k in m' <==> k in m) && (k in m ==> m'[k] == m[k]))
  {
    hide ExchangeAll;
    var m' := ExchangeAll(m, desired);
    forall i | 0 <= i < |desired| && (forall j :: i < j < |desired| ==> desired[j].key != desired[i].key)
      ensures if desired[i].value.Some? then desired[i].key in m' && m'[desired[i].key] == desired[i].value.value
              else desired[i].key !in m'
    {
      DesiredStays(m, desired, i);
    }
    forall k | forall i :: 0 <= i < |desired| ==> desired[i].key != k
      ensures (k in m' <==> k in m) && (k in m ==> m'[k] == m[k])
    {
      UndesiredStays(m, desired, k);
    }
  }

  class Database {
    var records: Records

    constructor (records: Records)
      ensures this.records == records
    {
      this.records := records;
    }

    /** The single-database operation: one pass over the conditions, then one over the desired
        values, sharing a flag. */
    method CompareExchangeMulti(expected: seq<Condition>, desired: seq<Condition>) returns (ok: bool)
      modifies this
      ensures ok == Feasible(old(records), expected)
      ensures records == if ok then ExchangeAll(old(records), desired) else old(records)
      ensures ok <==>
              forall i :: 0 <= i < |expected| ==>
                var e := expected[i];
                if e.value.Some? then e.key in old(records) && old(records)[e.key] == e.value.value
                else e.key !in old(records)
      ensures ok ==>
                forall i ::
                  0 <= i < |desired| && (forall j :: i < j < |desired| ==> desired[j].key != desired[i].key) ==>
                    var d := desired[i];
                    if d.value.Some? then d.key in records && records[d.key] == d.value.value
                    else d.key !in records
      ensures ok ==>
                forall k :: (forall i :: 0 <= i < |desired| ==> desired[i].key != k) ==>
                  && (k in records <==> k in old(records))
                  && (k in old(records) ==> records[k] == old(records)[k])
    {
      FeasibleMeans(records, expected);
      ExchangeMeans(records, desired);
      var noop := false;
      for i := 0 to |expected|
        invariant noop <==> !Feasible(records, expected[..i])
        invariant records == old(records)
      {
        if !noop && !Met(records, expected[i]) {
          noop := true;
        }
        assert expected[..i + 1] == expected[..i] + [expected[i]];
      }
      assert expected[..|expected|] == expected;
      for i := 0 to |desired|
        invariant records == if noop then old(records) else ExchangeAll(old(records), desired[..i])
      {
        assert desired[..i + 1][..i] == desired[..i];
        if !noop {
          records := Exchange(records, desired[i]);
        }
      }
      assert desired[..|desired|] == desired;
      ok := !noop;
    }
  }
}
