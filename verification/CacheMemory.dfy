/** The memory cap of a slot, which is not an invariant: an update never evicts, an insertion evicts
    one record only, and a rebuild keeps the record that crosses the cap.  For each of them, exactly
    when the cap holds afterwards, and a run after which it does not. */
module CacheMemory {
  import opened Common
  import opened LinkedRecords
  import opened CacheSlots

  function DataOf(e: Item): nat {
    |e.key| + |e.value|
  }

  // ----- hits -----

  function HitChange(e: Item, act: Action): int {
    match act
    case Noop => 0
    case Remove => -34 - DataOf(e)
    case Put(v) => |v| - |e.value|
  }

  /** After a hit the cap holds exactly when the difference that its answer makes fits. */
  lemma {:induction false} HitFits(es: seq<Item>, i: nat, act: Action, capMemSize: int, numBuckets: nat)
    requires i < |es|
    ensures MemoryUsage(numBuckets, AfterHit(es, i, act)) <= capMemSize <==>
            MemoryUsage(numBuckets, es) + HitChange(es[i], act) <= capMemSize
  {
    hide SizeOf, RemoveAt;
    WithoutLength(es, i);
    SizeWithout(es, i);
    if !act.Remove? {
      var e := Entry(es[i].key, if act.Put? then act.value else es[i].value);
      SizeConcat(RemoveAt(es, i), [e]);
      SizeOne(e);
    }
  }

  // ----- insertions -----

  /** After an insertion the cap holds exactly when the new record fits in the place of the least
      recently used one, which in an empty slot is the new record itself: an insertion that evicts
      gives that place up, and one that does not has more room. */
  lemma {:induction false} InsertFits(es: seq<Item>, e: Item, capRecNum: nat, capMemSize: int, numBuckets: nat)
    ensures MemoryUsage(numBuckets, AfterInsert(es, e, capRecNum, capMemSize, numBuckets)) <= capMemSize <==>
            MemoryUsage(numBuckets, es) + DataOf(e) - DataOf((es + [e])[0]) <= capMemSize
  {
    hide SizeOf;
    var all := es + [e];
    SizeConcat(es, [e]);
    SizeOne(e);
    assert all == [all[0]] + all[1..];
    SizeConcat([all[0]], all[1..]);
    SizeOne(all[0]);
  }

  // ----- operations -----

  /** What a caller can check before an operation on a key. */
  ghost predicate OperationFits(es: seq<Item>, key: Bytes, proc: Processor, writable: bool, capMemSize: int,
                                numBuckets: nat) {
    var usage := MemoryUsage(numBuckets, es);
    if i: nat :| IsAt(es, key, i)
    then usage + HitChange(es[i], Permitted(proc.full(es[i].value), writable)) <= capMemSize
    else if writable && proc.empty.Put?
    then usage + DataOf(Entry(key, proc.empty.value)) - DataOf((es + [Entry(key, proc.empty.value)])[0]) <= capMemSize
    else usage <= capMemSize
  }

  /** After an operation of a slot the cap holds exactly when that check succeeds before it. */
  lemma {:induction false} ProcessFits(es: seq<Item>, es': seq<Item>, key: Bytes, proc: Processor, writable: bool,
                                       capRecNum: nat, capMemSize: int, numBuckets: nat)
    requires UniqueItems(es)
    requires Cached(es, key) ==> HitProcessed(es, es', key, proc, writable)
    requires !Cached(es, key) ==>
               es' == if writable && proc.empty.Put?
                      then AfterInsert(es, Entry(key, proc.empty.value), capRecNum, capMemSize, numBuckets) else es
    ensures MemoryUsage(numBuckets, es') <= capMemSize <==>
            OperationFits(es, key, proc, writable, capMemSize, numBuckets)
  {
    hide MemoryUsage, AfterHit, AfterInsert;
    if Cached(es, key) {
      var i: nat :| IsAt(es, key, i) && es' == AfterHit(es, i, Permitted(proc.full(es[i].value), writable));
      HitFits(es, i, Permitted(proc.full(es[i].value), writable), capMemSize, numBuckets);
    } else if writable && proc.empty.Put? {
      InsertFits(es, Entry(key, proc.empty.value), capRecNum, capMemSize, numBuckets);
    }
  }

  // ----- rebuilding -----

  /** A record that the new capacity admits, which starts below the memory cap and ends above it. */
  predicate Crosses(es: seq<Item>, n: nat, capRecNum: nat, capMemSize: int, numBuckets: nat) {
    n < |es| && n < capRecNum &&
    MemoryUsage(numBuckets, es[..n]) < capMemSize < MemoryUsage(numBuckets, es[..n + 1])
  }

  /** After a rebuild the cap holds exactly when the buckets fit and no record crosses it. */
  lemma {:induction false} RebuildFits(es: seq<Item>, capRecNum: nat, capMemSize: int, numBuckets: nat)
    ensures MemoryUsage(numBuckets, es[..Kept(es, 0, capRecNum, capMemSize, numBuckets)]) <= capMemSize <==>
            && numBuckets * 8 <= capMemSize
            && forall n: nat :: !Crosses(es, n, capRecNum, capMemSize, numBuckets)
  {
    assert es[..0] == [];
    KeptFits(es, 0, capRecNum, capMemSize, numBuckets);
  }

  lemma {:induction false} KeptFits(es: seq<Item>, n: nat, capRecNum: nat, capMemSize: int, numBuckets: nat)
    requires n <= |es|
    requires forall k: nat :: k < n ==> !Crosses(es, k, capRecNum, capMemSize, numBuckets)
    ensures MemoryUsage(numBuckets, es[..Kept(es, n, capRecNum, capMemSize, numBuckets)]) <= capMemSize <==>
            && MemoryUsage(numBuckets, es[..n]) <= capMemSize
            && forall k: nat :: !Crosses(es, k, capRecNum, capMemSize, numBuckets)
    decreases |es| - n
  {
    hide SizeOf;
    if n < |es| && n < capRecNum && MemoryUsage(numBuckets, es[..n]) < capMemSize {
      if Crosses(es, n, capRecNum, capMemSize, numBuckets) {
        KeptGrows(es, n + 1, Kept(es, n + 1, capRecNum, capMemSize, numBuckets), numBuckets);
      } else {
        KeptFits(es, n + 1, capRecNum, capMemSize, numBuckets);
      }
    } else {
      forall k: nat | n <= k < |es|
        ensures !Crosses(es, k, capRecNum, capMemSize, numBuckets)
      {
        KeptGrows(es, n, k, numBuckets);
      }
    }
  }

  lemma {:induction false} KeptGrows(es: seq<Item>, n: nat, m: nat, numBuckets: nat)
    requires n <= m <= |es|
    ensures MemoryUsage(numBuckets, es[..n]) <= MemoryUsage(numBuckets, es[..m])
    decreases m
  {
    hide SizeOf;
    if n < m {
      KeptGrows(es, n, m - 1, numBuckets);
      KeepOne(es, m - 1);
    }
  }

  // ----- runs after which the cap does not hold -----

  function Putter(value: Bytes): Processor {
    Processor(_ => Put(value), Put(value))
  }

  /** A slot with one record, as large as its memory cap allows. */
  method FullSlot(hash: Bytes -> nat, key: Bytes, capRecNum: nat, numBuckets: nat) returns (slot: CacheSlot)
    requires capRecNum >= 1 && numBuckets >= 1
    ensures fresh(slot) && slot.Valid() && slot.recency == [Entry(key, [])]
    ensures slot.capRecNum == capRecNum && |slot.buckets| == numBuckets
    ensures slot.capMemSize == MemoryUsage(numBuckets, slot.recency)
  {
    hide Represents;
    slot := new CacheSlot(hash, capRecNum, numBuckets * 8 + 34 + |key|, numBuckets);
    assert !Cached(slot.recency, key);
    var _, _ := slot.ProcessImpl(key, Putter([]), true);
    SizeOne(Entry(key, []));
  }

  /** An update with a longer value is over the cap. */
  method UpdateExceeds(hash: Bytes -> nat, key: Bytes, value: Bytes, capRecNum: nat, numBuckets: nat)
    returns (slot: CacheSlot, ghost before: seq<Item>)
    requires capRecNum >= 1 && numBuckets >= 1 && |value| > 0
    ensures fresh(slot) && slot.Valid() && slot.recency == [Entry(key, value)]
    ensures MemoryUsage(numBuckets, before) <= slot.capMemSize < slot.GetMemoryUsageImpl()
  {
    hide Represents;
    slot := FullSlot(hash, key, capRecNum, numBuckets);
    before := slot.recency;
    assert IsAt(before, key, 0);
    var _, _ := slot.ProcessImpl(key, Putter(value), true);
    assert RemoveAt(before, 0) == [];
    SizeOne(Entry(key, value));
    SizeOne(Entry(key, []));
  }

  /** An insertion evicts the one record that there is, and is over the cap all the same. */
  method InsertExceeds(hash: Bytes -> nat, key: Bytes, other: Bytes, value: Bytes, capRecNum: nat, numBuckets: nat)
    returns (slot: CacheSlot, ghost before: seq<Item>)
    requires capRecNum >= 1 && numBuckets >= 1 && other != key && |other| + |value| > |key|
    ensures fresh(slot) && slot.Valid() && slot.recency == [Entry(other, value)]
    ensures MemoryUsage(numBuckets, before) <= slot.capMemSize < slot.GetMemoryUsageImpl()
  {
    hide Represents;
    slot := FullSlot(hash, key, capRecNum, numBuckets);
    before := slot.recency;
    assert !Cached(before, other);
    var _, _ := slot.ProcessImpl(other, Putter(value), true);
    assert before + [Entry(other, value)] == [Entry(key, []), Entry(other, value)];
    SizeOne(Entry(key, []));
    SizeOne(Entry(other, value));
    SizeConcat(before, [Entry(other, value)]);
  }

  /** A rebuild for a cap just above the buckets keeps a record. */
  method RebuildExceeds(hash: Bytes -> nat, key: Bytes, capRecNum: nat, numBuckets: nat) returns (slot: CacheSlot)
    requires capRecNum >= 1 && numBuckets >= 1
    ensures fresh(slot) && slot.Valid() && slot.recency == [Entry(key, [])]
    ensures slot.capMemSize < slot.GetMemoryUsageImpl()
  {
    hide Represents, Kept;
    slot := FullSlot(hash, key, capRecNum, numBuckets);
    OneKept(Entry(key, []), capRecNum, numBuckets);
    slot.Rebuild(capRecNum, numBuckets * 8 + 1, numBuckets);
    SizeOne(Entry(key, []));
  }

  lemma {:induction false} OneKept(e: Item, capRecNum: nat, numBuckets: nat)
    requires capRecNum >= 1
    ensures Kept([e], 0, capRecNum, numBuckets * 8 + 1, numBuckets) == 1 && [e][..1] == [e]
  {
    assert [e][..0] == [];
  }
}
