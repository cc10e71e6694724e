/** A slot of CacheDBM: records on hash chains and on a list ordered by recency.  Every hit
    moves its record to the end of the list, and inserting beyond the capacity drops the
    record at the front. */
module CacheSlots {
  import opened Common
  import opened LinkedRecords
  import opened RecordSize

  type Item = Entry<Bytes, Bytes>

  // ----- the recency sequence, which the slot refines -----

  /** The total size of keys and values. */
  function SizeOf(es: seq<Item>): int {
    if es == [] then 0 else |es[0].key| + |es[0].value| + SizeOf(es[1..])
  }

  /** The memory that the slot accounts for: a pointer for each bucket, three pointers, two
      header bytes and an allocation header for each record, and the data. */
  function MemoryUsage(numBuckets: nat, es: seq<Item>): int {
    numBuckets * 8 + |es| * 34 + SizeOf(es)
  }

  predicate IsAt(es: seq<Item>, key: Bytes, i: nat) {
    i < |es| && es[i].key == key
  }

  ghost predicate Cached(es: seq<Item>, key: Bytes) {
    exists i :: IsAt(es, key, i)
  }

  ghost predicate UniqueItems(es: seq<Item>) {
    forall i, j :: 0 <= i < |es| && 0 <= j < |es| && es[i].key == es[j].key ==> i == j
  }

  /** A hit: the record moves to the end, and is then changed or removed. */
  function AfterHit(es: seq<Item>, i: nat, act: Action): seq<Item>
    requires i < |es|
  {
    match act
    case Noop => RemoveAt(es, i) + [es[i]]
    case Remove => RemoveAt(es, i)
    case Put(v) => RemoveAt(es, i) + [Entry(es[i].key, v)]
  }

  /** An insertion: the record joins at the end, and the front goes if there is no room. */
  function AfterInsert(es: seq<Item>, e: Item, capRecNum: nat, capMemSize: int, numBuckets: nat): seq<Item> {
    var es' := es + [e];
    if |es'| > capRecNum || MemoryUsage(numBuckets, es') > capMemSize then es'[1..] else es'
  }

  lemma {:induction false} SizeConcat(a: seq<Item>, b: seq<Item>)
    ensures SizeOf(a + b) == SizeOf(a) + SizeOf(b)
  {
    if a == [] {
      assert a + b == b;
    } else {
      assert (a + b)[1..] == a[1..] + b;
      SizeConcat(a[1..], b);
    }
  }

  lemma {:induction false} SizeOne(e: Item)
    ensures SizeOf([e]) == |e.key| + |e.value|
  {
  }

  lemma {:induction false} SizeWithout(es: seq<Item>, i: nat)
    requires i < |es|
    ensures SizeOf(RemoveAt(es, i)) == SizeOf(es) - |es[i].key| - |es[i].value|
  {
    assert es == es[..i] + ([es[i]] + es[i + 1..]);
    SizeConcat(es[..i], [es[i]] + es[i + 1..]);
    SizeConcat([es[i]], es[i + 1..]);
    SizeOne(es[i]);
    SizeConcat(es[..i], es[i + 1..]);
  }

  // ----- the recency sequence as a map -----

  function Table(es: seq<Item>): map<Bytes, Bytes> {
    if es == [] then map[]
    else Table(es[..|es| - 1])[es[|es| - 1].key := es[|es| - 1].value]
  }

  lemma {:induction false} TableAt(es: seq<Item>, key: Bytes, i: nat)
    requires UniqueItems(es) && IsAt(es, key, i)
    ensures Get(Table(es), key) == Some(es[i].value)
  {
    var n := |es| - 1;
    if i < n {
      TableAt(es[..n], key, i);
    }
  }

  lemma {:induction false} TableMisses(es: seq<Item>, key: Bytes)
    requires !Cached(es, key)
    ensures Get(Table(es), key) == None
  {
    if es != [] {
      var n := |es| - 1;
      assert !IsAt(es, key, n);
      forall i: nat | i < n
        ensures !IsAt(es[..n], key, i)
      {
        assert !IsAt(es, key, i);
      }
      TableMisses(es[..n], key);
    }
  }

  /** The same records, in whatever order, are the same map. */
  lemma {:induction false} SameTable(es: seq<Item>, es': seq<Item>, key: Bytes)
    requires UniqueItems(es) && UniqueItems(es')
    requires forall i: nat :: IsAt(es, key, i) ==> exists j: nat :: IsAt(es', key, j) && es'[j].value == es[i].value
    requires forall j: nat :: IsAt(es', key, j) ==> exists i: nat :: IsAt(es, key, i)
    ensures Get(Table(es), key) == Get(Table(es'), key)
  {
    if i: nat :| IsAt(es, key, i) {
      var j: nat :| IsAt(es', key, j) && es'[j].value == es[i].value;
      TableAt(es, key, i);
      TableAt(es', key, j);
    } else {
      TableMisses(es, key);
      TableMisses(es', key);
    }
  }

  lemma {:induction false} UniqueWithout(es: seq<Item>, i: nat)
    requires UniqueItems(es) && i < |es|
    ensures UniqueItems(RemoveAt(es, i)) && !Cached(RemoveAt(es, i), es[i].key)
  {
    var rest := RemoveAt(es, i);
    forall k: nat | k < |rest|
      ensures !IsAt(rest, es[i].key, k)
    {
      assert rest[k] == es[if k < i then k else k + 1];
    }
  }

  lemma {:induction false} UniqueWith(es: seq<Item>, e: Item)
    requires UniqueItems(es) && !Cached(es, e.key)
    ensures UniqueItems(es + [e])
  {
    forall i | 0 <= i < |es|
      ensures es[i].key != e.key
    {
      assert !IsAt(es, e.key, i);
    }
  }

  /** Dropping a record drops its key from the map. */
  lemma {:induction false} TableWithout(es: seq<Item>, i: nat)
    requires UniqueItems(es) && i < |es|
    ensures Table(RemoveAt(es, i)) == Table(es) - {es[i].key}
  {
    hide Table;
    var rest := RemoveAt(es, i);
    UniqueWithout(es, i);
    forall k
      ensures Get(Table(rest), k) == Get(Table(es) - {es[i].key}, k)
    {
      if k == es[i].key {
        TableMisses(rest, k);
      } else {
        WithoutSame(es, i, k);
        SameTable(rest, es, k);
      }
    }
    MapsAgree(Table(rest), Table(es) - {es[i].key});
  }

  lemma {:induction false} WithoutSame(es: seq<Item>, i: nat, k: Bytes)
    requires i < |es| && k != es[i].key
    ensures var rest := RemoveAt(es, i);
            && (forall j: nat :: IsAt(rest, k, j) ==> exists m: nat :: IsAt(es, k, m) && es[m].value == rest[j].value)
            && (forall m: nat :: IsAt(es, k, m) ==> exists j: nat :: IsAt(rest, k, j))
  {
    var rest := RemoveAt(es, i);
    forall j: nat | IsAt(rest, k, j)
      ensures exists m: nat :: IsAt(es, k, m) && es[m].value == rest[j].value
    {
      assert IsAt(es, k, if j < i then j else j + 1);
    }
    forall m: nat | IsAt(es, k, m)
      ensures exists j: nat :: IsAt(rest, k, j)
    {
      assert IsAt(rest, k, if m < i then m else m - 1);
    }
  }

  lemma {:induction false} TableWith(es: seq<Item>, e: Item)
    ensures Table(es + [e]) == Table(es)[e.key := e.value]
  {
    assert (es + [e])[..|es|] == es;
  }

  /** A hit does to the map what its processor answers, and nothing else. */
  lemma {:induction false} HitRefines(es: seq<Item>, i: nat, act: Action)
    requires UniqueItems(es) && i < |es|
    ensures UniqueItems(AfterHit(es, i, act)) && |AfterHit(es, i, act)| <= |es|
    ensures Table(AfterHit(es, i, act)) == ApplyAction(Table(es), es[i].key, act)
  {
    hide Table, RemoveAt;
    UniqueWithout(es, i);
    TableWithout(es, i);
    TableAt(es, es[i].key, i);
    if !act.Remove? {
      var e := Entry(es[i].key, if act.Put? then act.value else es[i].value);
      UniqueWith(RemoveAt(es, i), e);
      TableWith(RemoveAt(es, i), e);
    }
    WithoutLength(es, i);
    assert act.Noop? ==> Table(es) - {es[i].key} + map[es[i].key := es[i].value] == Table(es);
  }

  lemma {:induction false} WithoutLength(es: seq<Item>, i: nat)
    requires i < |es|
    ensures |RemoveAt(es, i)| == |es| - 1
  {
  }

  /** An insertion adds to the map, and drops the least recently used record exactly when the new one
      exceeds a capacity; the number of records stays within its capacity. */
  lemma {:induction false} InsertRefines(es: seq<Item>, e: Item, capRecNum: nat, capMemSize: int, numBuckets: nat)
    requires UniqueItems(es) && !Cached(es, e.key) && |es| <= capRecNum
    ensures var es' := AfterInsert(es, e, capRecNum, capMemSize, numBuckets);
            && UniqueItems(es') && |es'| <= capRecNum
            && Table(es') ==
               if |es| < capRecNum && MemoryUsage(numBuckets, es) + 34 + |e.key| + |e.value| <= capMemSize
               then Table(es)[e.key := e.value]
               else Table(es)[e.key := e.value] - {(es + [e])[0].key}
  {
    hide Table, MemoryUsage;
    var all := es + [e];
    InsertOrder(es, e, capRecNum, capMemSize, numBuckets);
    UniqueWith(es, e);
    TableWith(es, e);
    TableWithout(all, 0);
    UniqueWithout(all, 0);
    assert RemoveAt(all, 0) == all[1..];
  }

  /** What a processor's answer amounts to when writing may not be allowed. */
  function Permitted(act: Action, writable: bool): Action {
    if writable then act else Noop
  }

  /** The recency sequence after a hit on a key. */
  ghost predicate HitProcessed(es: seq<Item>, es': seq<Item>, key: Bytes, proc: Processor, writable: bool) {
    exists i: nat :: IsAt(es, key, i) && es' == AfterHit(es, i, Permitted(proc.full(es[i].value), writable))
  }

  lemma {:induction false} NoneAt(es: seq<Item>, key: Bytes)
    ensures Cached(es, key) <==> exists i :: 0 <= i < |es| && es[i].key == key
  {
    if i :| 0 <= i < |es| && es[i].key == key {
      assert IsAt(es, key, i);
    }
  }

  /** A hit puts the record of the key last, with its value or the new one, or takes it out; the
      others keep their order. */
  lemma {:induction false} HitOrder(es: seq<Item>, es': seq<Item>, key: Bytes, proc: Processor, writable: bool,
                                    seen: Option<Bytes>, answer: Action)
    requires UniqueItems(es) && HitProcessed(es, es', key, proc, writable)
    requires seen.Some? && Entry(key, seen.value) in es && answer == proc.full(seen.value)
    ensures Others(es', key) == Others(es, key) && exists i :: 0 <= i < |es| && es[i].key == key
    ensures if writable && answer.Remove? then es' == Others(es, key)
            else |es'| == |es| &&
                 es'[|es'| - 1] == Entry(key, if writable && answer.Put? then answer.value else seen.value)
  {
    hide Others, RemoveAt;
    var i: nat :| IsAt(es, key, i) && es' == AfterHit(es, i, Permitted(proc.full(es[i].value), writable));
    var j :| 0 <= j < |es| && es[j] == Entry(key, seen.value);
    assert i == j;
    OthersWithout(es, i);
    WithoutLength(es, i);
    OthersWith(RemoveAt(es, i), es[i]);
    OthersWith(RemoveAt(es, i), Entry(key, if answer.Put? then answer.value else seen.value));
  }

  /** An insertion within both capacities evicts nothing, and any other one the head. */
  lemma {:induction false} InsertOrder(es: seq<Item>, e: Item, capRecNum: nat, capMemSize: int, numBuckets: nat)
    ensures var all := es + [e];
            AfterInsert(es, e, capRecNum, capMemSize, numBuckets) ==
            if |es| < capRecNum && MemoryUsage(numBuckets, es) + 34 + |e.key| + |e.value| <= capMemSize
            then all else all[1..]
  {
    hide SizeOf;
    SizeConcat(es, [e]);
    SizeOne(e);
  }

  /** How many of the records, from the least recently used on, a rebuilt slot keeps. */
  function Kept(es: seq<Item>, n: nat, capRecNum: nat, capMemSize: int, numBuckets: nat): (m: nat)
    requires n <= |es|
    ensures n <= m <= |es| && (m == n || m <= capRecNum)
    ensures forall k :: n <= k < m ==> k < capRecNum && MemoryUsage(numBuckets, es[..k]) < capMemSize
    ensures m == |es| || m >= capRecNum || MemoryUsage(numBuckets, es[..m]) >= capMemSize
    decreases |es| - n
  {
    if n < |es| && n < capRecNum && MemoryUsage(numBuckets, es[..n]) < capMemSize
    then Kept(es, n + 1, capRecNum, capMemSize, numBuckets) else n
  }

  class CacheSlot {
    const hash: Bytes -> nat
    var cells: Cells<Bytes, Bytes>
    var buckets: seq<nat>
    var first: nat
    var last: nat
    var capRecNum: nat
    var capMemSize: int
    var numRecords: int
    var effDataSize: int
    ghost var chains: seq<seq<nat>>
    ghost var order: seq<nat>
    /** The records from the least to the most recently used. */
    ghost var recency: seq<Item>

    /** The chains and the list both hold the records of the recency sequence. */
    ghost predicate Linked()
      reads this`cells, this`buckets, this`first, this`last, this`chains, this`order, this`recency
    {
      Represents(cells, buckets, first, last, chains, order, hash, recency)
    }

    ghost predicate Counted()
      reads this`numRecords, this`effDataSize, this`recency
    {
      numRecords == |recency| && effDataSize == SizeOf(recency)
    }

    ghost predicate Valid()
      reads this
    {
      Linked() && Counted() && numRecords <= capRecNum
    }

    /** An empty slot. */
    constructor (hash: Bytes -> nat, capRecNum: nat, capMemSize: int, numBuckets: Pos)
      ensures Valid() && recency == []
      ensures this.hash == hash && this.capRecNum == capRecNum && this.capMemSize == capMemSize
      ensures |buckets| == numBuckets
    {
      this.hash := hash;
      this.capRecNum, this.capMemSize := capRecNum, capMemSize;
      cells, buckets, first, last := map[], NoBuckets(numBuckets), 0, 0;
      numRecords, effDataSize := 0, 0;
      chains, order, recency := NoChains(numBuckets), [], [];
    }

    method Allocate() returns (id: nat)
      ensures id != 0 && id !in cells
    {
      ghost var bound := FreshExists(cells.Keys);
      assert bound != 0 && bound !in cells;
      id :| id != 0 && id !in cells;
    }

    /** A record for a new value, where the old record was or, if it does not fit, elsewhere. */
    method Reserialize(ptr: nat, oldSize: nat, newSize: nat) returns (newPtr: nat)
      ensures newPtr == ptr || (newPtr != 0 && newPtr !in cells)
      ensures newSize <= oldSize ==> newPtr == ptr
    {
      newPtr := ptr;
      if SizeVarNum(newSize) > SizeVarNum(oldSize) {
        newPtr := Allocate();
      } else if newSize > oldSize {
        if * {
          newPtr := Allocate();
        }
      }
    }

    /** Moves a record to the end of the list. */
    method Touch(ptr: nat, ghost i: nat)
      requires Linked() && i < |order| && order[i] == ptr
      modifies this`cells, this`first, this`last, this`order, this`recency
      ensures Linked() && order == RemoveAt(old(order), i) + [ptr]
      ensures i < |old(recency)| && recency == RemoveAt(old(recency), i) + [old(recency)[i]]
      ensures ptr in cells && EntryOf(cells[ptr]) == old(recency)[i] && last == ptr
      ensures Relinked(old(cells), cells)
    {
      hide Sound, Lists, Unlinked, LinkedLast, Relinked;
      RelinkedSelf(cells);
      TouchFacts(cells, buckets, first, last, chains, order, hash, recency, i);
      if last != ptr {
        var rec := cells[ptr];
        cells := Unlinked(cells, ptr);
        if first == ptr {
          first := rec.next;
        }
        cells := LinkedLast(cells, last, ptr);
        last := ptr;
        order := RemoveAt(order, i) + [ptr];
        recency := RemoveAt(recency, i) + [recency[i]];
        TouchFacts(cells, buckets, first, last, chains, order, hash, recency, |order| - 1);
      } else {
        assert RemoveAt(order, i) + [ptr] == order;
        assert RemoveAt(recency, i) + [recency[i]] == recency;
      }
    }

    /** Takes a record off its chain and out of the list. */
    method Free(ptr: nat, parent: nat, ghost i: nat, ghost k: nat)
      requires Linked() && Counted() && i < |order| && order[i] == ptr && ptr in cells
      requires Placed(cells, chains, hash, cells[ptr].key, ptr, parent, k)
      modifies this`cells, this`buckets, this`first, this`last, this`chains, this`order, this`recency,
               this`numRecords, this`effDataSize
      ensures Linked() && Counted()
      ensures i < |old(recency)| && recency == RemoveAt(old(recency), i) && |buckets| == |old(buckets)|
    {
      hide Represents, Freed, BucketOf, RemoveAt, Placed, SizeOf;
      PlacedRecord(cells, chains, hash, cells[ptr].key, ptr, parent, k);
      var rec := cells[ptr];
      Taking(cells, buckets, first, last, chains, order, hash, recency, rec.key, ptr, parent, i, k);
      var b := BucketOf(hash, |buckets|, rec.key);
      SizeWithout(recency, i);
      cells := Freed(cells, parent, ptr);
      buckets := Rehead(buckets, b, parent, rec.child);
      if first == ptr {
        first := rec.next;
      }
      if last == ptr {
        last := rec.prev;
      }
      numRecords := numRecords - 1;
      effDataSize := effDataSize - (|rec.key| + |rec.value|);
      chains := chains[b := RemoveAt(chains[b], k)];
      order, recency := RemoveAt(order, i), RemoveAt(recency, i);
    }

    /** Gives the most recently used record a new value, moving it if need be. */
    method Modify(ptr: nat, parent: nat, value: Bytes, ghost k: nat)
      requires Linked() && Counted() && order != [] && order[|order| - 1] == ptr && ptr in cells
      requires Placed(cells, chains, hash, cells[ptr].key, ptr, parent, k)
      modifies this`cells, this`buckets, this`first, this`last, this`chains, this`order, this`recency,
               this`effDataSize
      ensures Linked() && Counted() && |old(recency)| > 0 && |buckets| == |old(buckets)|
      ensures var i := |old(recency)| - 1;
              recency == RemoveAt(old(recency), i) + [Entry(old(recency)[i].key, value)]
    {
      hide Represents, Swapped, BucketOf, RemoveAt, Placed, SizeOf, Replaced;
      var rec := cells[ptr];
      ghost var i := |order| - 1;
      Taking(cells, buckets, first, last, chains, order, hash, recency, rec.key, ptr, parent, i, k);
      var b := BucketOf(hash, |buckets|, rec.key);
      var newPtr := Reserialize(ptr, |rec.value|, |value|);
      if newPtr != ptr {
        Replacing(cells, buckets, first, last, chains, order, hash, recency, rec.key, ptr, parent, i, k,
                  newPtr, value);
        cells := Swapped(cells, parent, ptr, newPtr, value);
        buckets := Rehead(buckets, b, parent, newPtr);
        if first == ptr {
          first := newPtr;
        }
        last := newPtr;
        chains := chains[b := Replaced(chains[b], k, newPtr)];
        order := Replaced(order, i, newPtr);
      } else {
        Updated(cells, buckets, first, last, chains, order, hash, recency, i, value);
        cells := cells[ptr := rec.(value := value)];
      }
      effDataSize := effDataSize + (|value| - |rec.value|);
      recency := recency[i := Entry(recency[i].key, value)];
      SizeChanged(old(recency), i, value);
    }

    /** Puts a new record at the head of its chain and at the end of the list. */
    method Insert(key: Bytes, value: Bytes)
      requires Linked() && Counted() && !HasKey(cells, key)
      modifies this`cells, this`buckets, this`first, this`last, this`chains, this`order, this`recency,
               this`numRecords, this`effDataSize
      ensures Linked() && Counted() && recency == old(recency) + [Entry(key, value)]
      ensures |buckets| == |old(buckets)|
    {
      hide Represents, LinkedLast, LinkedFirst, BucketOf, SizeOf;
      var newPtr := Allocate();
      JoinsPushed(cells, buckets, first, last, chains, order, hash, recency, newPtr, Entry(key, value));
      var b := BucketOf(hash, |buckets|, key);
      cells := cells[newPtr := Cell(buckets[b], 0, 0, key, value)];
      buckets := buckets[b := newPtr];
      cells := LinkedLast(cells, last, newPtr);
      if first == 0 {
        first := newPtr;
      }
      last := newPtr;
      numRecords := numRecords + 1;
      effDataSize := effDataSize + |key| + |value|;
      chains := chains[b := [newPtr] + chains[b]];
      order := order + [newPtr];
      SizeConcat(recency, [Entry(key, value)]);
      SizeOne(Entry(key, value));
      recency := recency + [Entry(key, value)];
    }

    /** Drops the least recently used record. */
    method RemoveLRU()
      requires Linked() && Counted() && recency != []
      modifies this`cells, this`buckets, this`first, this`last, this`chains, this`order, this`recency,
               this`numRecords, this`effDataSize
      ensures Linked() && Counted() && recency == old(recency)[1..] && |buckets| == |old(buckets)|
    {
      hide Sound, Lists, BucketOf, Bucketed, Reachable, Placed;
      FirstFacts(cells, buckets, first, last, chains, order, hash, recency);
      var key := cells[first].key;
      var ptr, parent, k := FindRecord(cells, buckets, hash, key, chains);
      PlacedRecord(cells, chains, hash, key, ptr, parent, k);
      Free(ptr, parent, 0, k);
      assert RemoveAt(old(recency), 0) == old(recency)[1..];
    }

    /** Processes the record of a key.  A hit makes it the most recently used, even when it is
        only read; an insertion beyond the capacity drops the least recently used. */
    method ProcessImpl(key: Bytes, proc: Processor, writable: bool) returns (seen: Option<Bytes>, answer: Action)
      requires Valid()
      modifies this`cells, this`buckets, this`first, this`last, this`chains, this`order, this`recency,
               this`numRecords, this`effDataSize
      ensures Valid() && |buckets| == |old(buckets)|
      ensures seen.Some? <==> exists i :: 0 <= i < |old(recency)| && old(recency)[i].key == key
      ensures seen.Some? ==> Entry(key, seen.value) in old(recency)
      ensures answer == if seen.Some? then proc.full(seen.value) else proc.empty
      ensures seen.Some? ==> Others(recency, key) == Others(old(recency), key)
      ensures seen.Some? && writable && answer.Remove? ==> recency == Others(old(recency), key)
      ensures seen.Some? && !(writable && answer.Remove?) ==>
                && |recency| == |old(recency)|
                && recency[|recency| - 1] == Entry(key, if writable && answer.Put? then answer.value else seen.value)
      ensures seen.None? && !(writable && answer.Put?) ==> recency == old(recency)
      ensures seen.None? && writable && answer.Put? ==>
                var all := old(recency) + [Entry(key, answer.value)];
                recency == if |old(recency)| < capRecNum &&
                              MemoryUsage(|buckets|, old(recency)) + 34 + |key| + |answer.value| <= capMemSize
                           then all else all[1..]
      ensures Cached(old(recency), key) ==> HitProcessed(old(recency), recency, key, proc, writable)
      ensures !Cached(old(recency), key) ==>
                recency ==
                if writable && proc.empty.Put?
                then AfterInsert(old(recency), Entry(key, proc.empty.value), capRecNum, capMemSize, |buckets|)
                else old(recency)
    {
      hide Represents, BucketOf, Bucketed, Reachable, Placed, SizeOf, RemoveAt, Others, HitProcessed;
      Searchable(cells, buckets, first, last, chains, order, hash, recency, key);
      NoneAt(recency, key);
      var ptr, parent, k := FindRecord(cells, buckets, hash, key, chains);
      if ptr != 0 {
        seen, answer := ProcessHit(key, proc, writable, ptr, parent, k);
        HitOrder(old(recency), recency, key, proc, writable, seen, answer);
      } else {
        seen, answer := None, proc.empty;
        if answer.Put? && writable {
          InsertOrder(recency, Entry(key, answer.value), capRecNum, capMemSize, |buckets|);
          Insert(key, answer.value);
          if numRecords > capRecNum || GetMemoryUsageImpl() > capMemSize {
            RemoveLRU();
          }
        }
      }
    }

    method ProcessHit(key: Bytes, proc: Processor, writable: bool, ptr: nat, parent: nat, ghost k: nat)
      returns (seen: Option<Bytes>, answer: Action)
      requires Valid() && Placed(cells, chains, hash, key, ptr, parent, k)
      modifies this`cells, this`buckets, this`first, this`last, this`chains, this`order, this`recency,
               this`numRecords, this`effDataSize
      ensures Valid() && |buckets| == |old(buckets)|
      ensures HitProcessed(old(recency), recency, key, proc, writable)
      ensures seen.Some? && Entry(key, seen.value) in old(recency) && answer == proc.full(seen.value)
    {
      hide Represents, BucketOf, Bucketed, Reachable, SizeOf, RemoveAt;
      ghost var i := PlaceOf(cells, buckets, first, last, chains, order, hash, recency, key, ptr);
      Touch(ptr, i);
      assert IsAt(old(recency), key, i);
      SizeMoved(old(recency), i);
      seen := Some(cells[ptr].value);
      answer := proc.full(cells[ptr].value);
      if !answer.Noop? && writable {
        StillPlaced(old(cells), cells, chains, hash, key, ptr, parent, k);
        if answer.Remove? {
          Free(ptr, parent, |order| - 1, k);
          RemoveMoved(old(recency), i);
        } else {
          Modify(ptr, parent, answer.value, k);
          RemoveMoved(old(recency), i);
        }
      }
    }

    function GetMemoryUsageImpl(): int
      reads this`buckets, this`numRecords, this`effDataSize
    {
      |buckets| * 8 + numRecords * 34 + effDataSize
    }

    /** The state of a rebuild that has looked at i records and kept n. */
    ghost predicate Midway(cells0: Cells<Bytes, Bytes>, n: nat, i: nat)
      reads this
    {
      && Rebuilding(cells0, order, cells, buckets, chains, hash, n, i)
      && n <= i <= |order| == |recency| && last == At(order, n - 1)
      && numRecords == n && effDataSize == SizeOf(recency[..n])
      && (n < i ==> !HasRoom(n))
    }

    /** A record after the first n would be kept. */
    ghost predicate HasRoom(n: nat)
      requires n <= |recency|
      reads this
    {
      n < capRecNum && MemoryUsage(|buckets|, recency[..n]) < capMemSize
    }

    /** Puts one record on its new chain, or frees it. */
    method RebuildRecord(ptr: nat, ghost cells0: Cells<Bytes, Bytes>, ghost n: nat, ghost i: nat)
      returns (kept: bool)
      requires Midway(cells0, n, i) && i < |order| && ptr == order[i] && Distinct(order)
      requires ptr in cells && EntryOf(cells[ptr]) == recency[i] && |buckets| == |chains| > 0
      modifies this`cells, this`buckets, this`chains, this`numRecords, this`effDataSize, this`last
      ensures kept == old(HasRoom(n)) && |buckets| == |old(buckets)|
      ensures kept ==> n == i
      ensures Midway(cells0, if kept then n + 1 else n, i + 1)
    {
      hide Rebuilding, BucketOf, SizeOf;
      kept := numRecords < capRecNum && GetMemoryUsageImpl() < capMemSize;
      if kept {
        RebuildKeep(cells0, order, cells, buckets, chains, hash, n);
        KeepOne(recency, n);
        var rec := cells[ptr];
        var b := BucketOf(hash, |buckets|, rec.key);
        cells := SetChild(cells, ptr, buckets[b]);
        buckets := buckets[b := ptr];
        numRecords := numRecords + 1;
        effDataSize := effDataSize + (|rec.key| + |rec.value|);
        last := ptr;
        chains := chains[b := [ptr] + chains[b]];
      } else {
        RebuildDrop(cells0, order, cells, buckets, chains, hash, n, i);
        cells := cells - {ptr};
      }
    }

    /** Walks the list and deals with each record. */
    method RebuildRecords(ghost cells0: Cells<Bytes, Bytes>, ghost buckets0: seq<nat>, ghost last0: nat,
                          ghost chains0: seq<seq<nat>>) returns (ghost n: nat)
      requires Represents(cells0, buckets0, first, last0, chains0, order, hash, recency)
      requires Midway(cells0, 0, 0)
      modifies this`cells, this`buckets, this`chains, this`numRecords, this`effDataSize, this`last
      ensures Midway(cells0, n, |order|) && |buckets| == |old(buckets)|
      ensures n == Kept(recency, 0, capRecNum, capMemSize, |buckets|)
    {
      hide Represents, Rebuilding, SizeOf;
      var ptr := first;
      n := 0;
      ghost var i: nat := 0;
      ListStep(cells0, buckets0, first, last0, chains0, order, hash, recency, 0);
      while ptr != 0
        invariant Midway(cells0, n, i) && ptr == At(order, i) && (ptr == 0 <==> i == |order|)
        invariant |buckets| == |old(buckets)|
        invariant Kept(recency, 0, capRecNum, capMemSize, |buckets|) ==
                  Kept(recency, n, capRecNum, capMemSize, |buckets|)
        decreases |order| - i
      {
        RebuildNext(cells0, buckets0, first, last0, chains0, order, hash, recency, cells, buckets, chains, n, i);
        var next := cells[ptr].next;
        var kept := RebuildRecord(ptr, cells0, n, i);
        ptr := next;
        n := if kept then n + 1 else n;
        i := i + 1;
        RebuildNext(cells0, buckets0, first, last0, chains0, order, hash, recency, cells, buckets, chains, n, i);
      }
    }

    /** Empties the buckets before a rebuild. */
    method ClearBuckets(numBuckets: Pos)
      requires Linked()
      modifies this`buckets, this`chains, this`numRecords, this`effDataSize, this`last
      ensures Midway(cells, 0, 0) && |buckets| == numBuckets
    {
      hide Represents, Rebuilding;
      RebuildBegins(cells, buckets, first, last, chains, order, hash, recency, numBuckets);
      buckets := NoBuckets(numBuckets);
      chains := NoChains(numBuckets);
      numRecords, effDataSize := 0, 0;
      last := 0;
    }

    /** Ends the list at the last record kept. */
    method CutList(ghost cells0: Cells<Bytes, Bytes>, ghost buckets0: seq<nat>, ghost last0: nat,
                   ghost chains0: seq<seq<nat>>, ghost n: nat)
      requires Represents(cells0, buckets0, first, last0, chains0, order, hash, recency)
      requires Midway(cells0, n, |order|)
      modifies this`cells, this`first, this`order, this`recency
      ensures Linked() && Counted() && n <= |old(recency)| && recency == old(recency)[..n]
    {
      hide Represents, Rebuilding, SizeOf;
      RebuildEnd(cells0, buckets0, first, last0, chains0, order, hash, recency, cells, buckets, chains, n);
      Ordered(cells0, buckets0, first, last0, chains0, order, hash, recency, n);
      if last == 0 {
        first := 0;
      }
      cells := SetNext(cells, last, 0);
      order, recency := order[..n], recency[..n];
    }

    /** Rebuilds the slot for other capacities: the records are put on new chains, from the
        least recently used on, and those that find no room are freed. */
    method Rebuild(capRecNum: nat, capMemSize: int, numBuckets: Pos)
      requires Valid()
      modifies this
      ensures Valid() && this.capRecNum == capRecNum && this.capMemSize == capMemSize
      ensures |buckets| == numBuckets
      ensures recency == old(recency)[..Kept(old(recency), 0, capRecNum, capMemSize, numBuckets)]
    {
      hide Represents, Rebuilding, SizeOf;
      this.capRecNum, this.capMemSize := capRecNum, capMemSize;
      ClearBuckets(numBuckets);
      ghost var n := RebuildRecords(old(cells), old(buckets), old(last), old(chains));
      CutList(old(cells), old(buckets), old(last), old(chains), n);
    }

    /** Lists the keys from the least to the most recently used. */
    method GetKeys() returns (keys: seq<Bytes>)
      requires Valid()
      ensures |keys| == |recency| && forall i :: 0 <= i < |keys| ==> keys[i] == recency[i].key
    {
      hide Sound, SizeOf;
      keys := [];
      var ptr := first;
      ListStep(cells, buckets, first, last, chains, order, hash, recency, 0);
      while ptr != 0
        invariant |keys| <= |order| && ptr == At(order, |keys|) && (ptr == 0 <==> |keys| == |order|)
        invariant forall i :: 0 <= i < |keys| ==> keys[i] == recency[i].key
        decreases |order| - |keys|
      {
        ListStep(cells, buckets, first, last, chains, order, hash, recency, |keys|);
        keys := keys + [cells[ptr].key];
        ptr := cells[ptr].next;
        ListStep(cells, buckets, first, last, chains, order, hash, recency, |keys|);
      }
    }
  }

  lemma {:induction false} Ordered<K(!new), V>(cells: Cells<K, V>, buckets: seq<nat>, first: nat, last: nat,
                                               chains: seq<seq<nat>>, order: seq<nat>, hash: K -> nat,
                                               es: seq<Entry<K, V>>, n: nat)
    requires Represents(cells, buckets, first, last, chains, order, hash, es) && n <= |order|
    ensures At(order, n - 1) == 0 <==> n == 0
  {
    hide Sound;
    if n > 0 {
      ListStep(cells, buckets, first, last, chains, order, hash, es, n - 1);
    }
  }

  /** One step along the list. */
  lemma {:induction false} ListStep<K(!new), V>(cells: Cells<K, V>, buckets: seq<nat>, first: nat, last: nat,
                                                chains: seq<seq<nat>>, order: seq<nat>, hash: K -> nat,
                                                es: seq<Entry<K, V>>, i: nat)
    requires Represents(cells, buckets, first, last, chains, order, hash, es) && i <= |order|
    ensures |es| == |order| && first == At(order, 0) && (At(order, i) == 0 <==> i == |order|)
    ensures i < |order| ==> order[i] in cells && cells[order[i]].next == At(order, i + 1)
                            && cells[order[i]].key == es[i].key
  {
    hide Bucketed, Reachable, UniqueKeys;
    if i < |order| {
      NotFirst(cells, order, first, last, i);
      assert ListedAt(cells, order, i);
    }
  }

  lemma {:induction false} RebuildBegins<K(!new), V>(cells: Cells<K, V>, buckets: seq<nat>, first: nat, last: nat,
                                                     chains: seq<seq<nat>>, order: seq<nat>, hash: K -> nat,
                                                     es: seq<Entry<K, V>>, numBuckets: Pos)
    requires Represents(cells, buckets, first, last, chains, order, hash, es)
    ensures Rebuilding(cells, order, cells, NoBuckets(numBuckets), NoChains(numBuckets), hash, 0, 0)
    ensures |es| == |order| && first == At(order, 0) && (first == 0 <==> |order| == 0)
  {
    hide Bucketed, Reachable, UniqueKeys, Rebuilding;
    RebuildStart(cells, order, hash, numBuckets);
    if |order| > 0 {
      NotFirst(cells, order, first, last, 0);
    }
  }

  lemma {:induction false} KeepOne(es: seq<Item>, n: nat)
    requires n < |es|
    ensures SizeOf(es[..n + 1]) == SizeOf(es[..n]) + |es[n].key| + |es[n].value|
  {
    assert es[..n + 1] == es[..n] + [es[n]];
    SizeConcat(es[..n], [es[n]]);
    SizeOne(es[n]);
  }

  lemma {:induction false} TouchFacts<K(!new), V>(cells: Cells<K, V>, buckets: seq<nat>, first: nat, last: nat,
                                                  chains: seq<seq<nat>>, order: seq<nat>, hash: K -> nat,
                                                  es: seq<Entry<K, V>>, i: nat)
    requires Represents(cells, buckets, first, last, chains, order, hash, es) && i < |order|
    ensures |es| == |order| && order[i] in cells && order[i] in Unlinked(cells, order[i])
    ensures Relinked(cells, LinkedLast(Unlinked(cells, order[i]), last, order[i]))
    ensures es[i] == EntryOf(cells[order[i]]) && (order[i] == last <==> i + 1 == |order|)
    ensures order[i] != last ==>
              var id := order[i];
              Represents(LinkedLast(Unlinked(cells, id), last, id), buckets,
                         if first == id then cells[id].next else first, id, chains,
                         RemoveAt(order, i) + [id], hash, RemoveAt(es, i) + [es[i]])
  {
    hide Sound, LinkedLast, LinkedFirst, RemoveAt, Unlinked, Relinked;
    MovesRelink(cells, first, last, order[i]);
    Touched(cells, buckets, first, last, chains, order, hash, es, i);
  }

  lemma {:induction false} RelinkedSelf<K, V>(cells: Cells<K, V>)
    ensures Relinked(cells, cells)
  {
  }

  lemma {:induction false} SizeChanged(es: seq<Item>, i: nat, value: Bytes)
    requires i < |es| && i + 1 == |es|
    ensures SizeOf(es[i := Entry(es[i].key, value)]) == SizeOf(es) + |value| - |es[i].value|
    ensures es[i := Entry(es[i].key, value)] == RemoveAt(es, i) + [Entry(es[i].key, value)]
  {
    assert es == es[..i] + [es[i]];
    SizeConcat(es[..i], [es[i]]);
    SizeConcat(es[..i], [Entry(es[i].key, value)]);
    SizeOne(es[i]);
    SizeOne(Entry(es[i].key, value));
    assert es[i := Entry(es[i].key, value)] == es[..i] + [Entry(es[i].key, value)];
  }

  lemma {:induction false} SizeMoved(es: seq<Item>, i: nat)
    requires i < |es|
    ensures SizeOf(RemoveAt(es, i) + [es[i]]) == SizeOf(es)
  {
    SizeWithout(es, i);
    SizeConcat(RemoveAt(es, i), [es[i]]);
    SizeOne(es[i]);
  }

  /** Removing what has just moved to the end is removing it from its place. */
  lemma {:induction false} RemoveMoved(es: seq<Item>, i: nat)
    requires i < |es|
    ensures RemoveAt(RemoveAt(es, i) + [es[i]], |es| - 1) == RemoveAt(es, i)
  {
  }
}
