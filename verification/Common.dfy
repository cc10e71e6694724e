/** Vocabulary shared by every module: bytes, optional values, positive numbers and
    the answers a record processor may give. */
module Common {

  newtype Byte = x: int | 0 <= x < 256

  type Bytes = seq<Byte>

  /** A positive number: the size of a record, a number of buckets. */
  type Pos = n: int | 0 < n witness 1

  datatype Option<+T> = None | Some(value: T)

  /** The value bound to a key, if any. */
  function Get<K, V>(m: map<K, V>, k: K): Option<V> {
    if k in m then Some(m[k]) else None
  }

  /** The answer of a record processor: NOOP, REMOVE or a new value. */
  datatype Action = Noop | Remove | Put(value: Bytes)

  /** A record processor: what it answers for an existing value and for a missing record. */
  datatype Processor = Processor(full: Bytes -> Action, empty: Action)

  /** The effect of a processor's answer on the database seen as a map. */
  function ApplyAction(m: map<Bytes, Bytes>, key: Bytes, act: Action): map<Bytes, Bytes> {
    match act
    case Noop => m
    case Remove => m - {key}
    case Put(v) => m[key := v]
  }

  /** No two positions of a sequence hold the same element. */
  predicate Distinct<T(==)>(s: seq<T>) {
    forall i, j :: 0 <= i < j < |s| ==> s[i] != s[j]
  }

  /** The element at a position of a list of addresses, or the null pointer. */
  function At(s: seq<nat>, i: int): nat {
    if 0 <= i < |s| then s[i] else 0
  }

  /** A sequence without the element at a position. */
  function RemoveAt<T>(s: seq<T>, i: nat): (r: seq<T>)
    requires i < |s|
    ensures |r| == |s| - 1
    ensures forall k :: 0 <= k < |r| ==> r[k] == s[if k < i then k else k + 1]
  {
    s[..i] + s[i + 1..]
  }

  /** There is always an address that is not in use. */
  lemma {:induction false} FreshExists(ids: set<nat>) returns (id: nat)
    ensures id != 0 && forall x :: x in ids ==> x < id
  {
    id := 1;
    var rest := ids;
    while rest != {}
      invariant rest <= ids && id != 0
      invariant forall x :: x in ids && x !in rest ==> x < id
      decreases rest
    {
      var x :| x in rest;
      rest := rest - {x};
      if id <= x {
        id := x + 1;
      }
    }
  }

  lemma {:induction false} MapsAgree<K, V>(m: map<K, V>, n: map<K, V>)
    requires forall k :: Get(m, k) == Get(n, k)
    ensures m == n
  {
    forall k
      ensures k in m <==> k in n
      ensures k in m ==> m[k] == n[k]
    {
      assert Get(m, k) == Get(n, k);
    }
  }

  /** The sum of the sizes of all keys and values. */
  ghost function DataSize(m: map<Bytes, Bytes>): int
    decreases |m|
  {
    if |m| == 0 then 0
    else
      var k := AnyKey(m);
      |k| + |m[k]| + DataSize(m - {k})
  }

  ghost function AnyKey(m: map<Bytes, Bytes>): (k: Bytes)
    requires |m| > 0
    ensures k in m
  {
    var k :| k in m;
    k
  }

  lemma {:induction false} WithoutCount<K, V>(m: map<K, V>, k: K)
    requires k in m
    ensures |m - {k}| == |m| - 1
  {
    assert m.Keys == (m - {k}).Keys + {k};
  }

  lemma {:induction false} DataSizeWithout(m: map<Bytes, Bytes>, k: Bytes)
    requires k in m
    ensures DataSize(m) == |k| + |m[k]| + DataSize(m - {k})
    decreases |m|
  {
    var k0 := AnyKey(m);
    if k0 != k {
      WithoutCount(m, k);
      WithoutCount(m, k0);
      DataSizeWithout(m - {k0}, k);
      DataSizeWithout(m - {k}, k0);
      assert m - {k0} - {k} == m - {k} - {k0};
    }
  }

  /** How a removal changes the number of records and the total size. */
  lemma {:induction false} RemoveSizes(m: map<Bytes, Bytes>, key: Bytes)
    ensures key in m ==> |m - {key}| == |m| - 1
    ensures key in m ==> DataSize(m - {key}) == DataSize(m) - |key| - |m[key]|
    ensures key !in m ==> m - {key} == m
  {
    if key in m {
      WithoutCount(m, key);
      DataSizeWithout(m, key);
    }
  }

  /** How storing a value changes the number of records and the total size. */
  lemma {:induction false} PutSizes(m: map<Bytes, Bytes>, key: Bytes, v: Bytes)
    ensures |m[key := v]| == |m| + (if key in m then 0 else 1)
    ensures DataSize(m[key := v]) ==
            DataSize(m) + |v| + (if key in m then -|m[key]| else |key|)
  {
    RemoveSizes(m, key);
    WithoutCount(m[key := v], key);
    DataSizeWithout(m[key := v], key);
    assert m[key := v] - {key} == m - {key};
  }

  /** The file holds these bytes at the offset. */
  predicate Holds(file: Bytes, offset: nat, b: Bytes) {
    offset + |b| <= |file| && file[offset..offset + |b|] == b
  }

  lemma {:induction false} WindowSlice(file: Bytes, offset: nat, e: Bytes, i: nat, j: nat)
    requires Holds(file, offset, e) && i <= j <= |e|
    ensures file[offset + i..offset + j] == e[i..j]
    ensures forall k :: i <= k < j ==> file[offset + k] == e[k]
  {
    forall k | i <= k < j
      ensures file[offset + k] == e[k]
    {
      assert file[offset..offset + |e|][k] == e[k];
    }
  }
}
