/** LinkedHashMap: a hash map whose records are also on a doubly linked list, at whose ends
    they can be put or to which they can be moved. */
module LinkedHashMaps {
  import opened Common
  import opened LinkedRecords

  datatype MoveMode = MoveCurrent | MoveFirst | MoveLast

  /** The records after one of them has been moved. */
  function Moved<K, V>(es: seq<Entry<K, V>>, i: nat, mode: MoveMode): seq<Entry<K, V>>
    requires i < |es|
  {
    match mode
    case MoveCurrent => es
    case MoveFirst => [es[i]] + RemoveAt(es, i)
    case MoveLast => RemoveAt(es, i) + [es[i]]
  }

  /** The records with a new one. */
  function With<K, V>(es: seq<Entry<K, V>>, e: Entry<K, V>, mode: MoveMode): seq<Entry<K, V>> {
    if mode.MoveFirst? then [e] + es else es + [e]
  }

  predicate ItemAt<K(==), V>(es: seq<Entry<K, V>>, key: K, i: nat) {
    i < |es| && es[i].key == key
  }

  ghost predicate HasItem<K, V>(es: seq<Entry<K, V>>, key: K) {
    exists i: nat :: ItemAt(es, key, i)
  }

  /** The record of a key has this value and is where the mode puts it; the others keep their order. */
  ghost predicate PlacedBy<K, V>(es: seq<Entry<K, V>>, es': seq<Entry<K, V>>, key: K, value: V, mode: MoveMode) {
    && |es'| == |es| > 0 && Others(es', key) == Others(es, key)
    && (mode.MoveLast? ==> es'[|es'| - 1] == Entry(key, value))
    && (mode.MoveFirst? ==> es'[0] == Entry(key, value))
    && (mode.MoveCurrent? ==>
          forall i :: 0 <= i < |es| ==> es'[i] == if es[i].key == key then Entry(key, value) else es[i])
  }

  lemma {:induction false} MovedPlaced<K, V>(es: seq<Entry<K, V>>, i: nat, value: V, mode: MoveMode)
    requires i < |es|
    requires forall j, k :: 0 <= j < |es| && 0 <= k < |es| && es[j].key == es[k].key ==> j == k
    ensures PlacedBy(es, Moved(es[i := Entry(es[i].key, value)], i, mode), es[i].key, value, mode)
  {
    hide Others;
    var e := Entry(es[i].key, value);
    var es1 := es[i := e];
    OthersWithout(es, i);
    OthersWithout(es1, i);
    assert RemoveAt(es1, i) == RemoveAt(es, i);
    OthersWith(RemoveAt(es, i), e);
  }

  lemma {:induction false} HitPlaced<K, V>(es: seq<Entry<K, V>>, es': seq<Entry<K, V>>, key: K, mode: MoveMode,
                                           value: V)
    requires HitAt(es, es', key, mode, value)
    requires forall j, k :: 0 <= j < |es| && 0 <= k < |es| && es[j].key == es[k].key ==> j == k
    ensures PlacedBy(es, es', key, value, mode)
  {
    hide PlacedBy, Moved;
    var i: nat :| ItemAt(es, key, i) && es[i].value == value && es' == Moved(es, i, mode);
    assert es[i := Entry(es[i].key, value)] == es;
    MovedPlaced(es, i, value, mode);
  }

  lemma {:induction false} OverwrittenPlaced<K, V>(es: seq<Entry<K, V>>, es': seq<Entry<K, V>>, key: K, value: V,
                                                   mode: MoveMode)
    requires OverwrittenAt(es, es', key, value, mode)
    requires forall j, k :: 0 <= j < |es| && 0 <= k < |es| && es[j].key == es[k].key ==> j == k
    ensures PlacedBy(es, es', key, value, mode)
  {
    hide PlacedBy, Moved;
    var i: nat :| ItemAt(es, key, i) && es' == Moved(es[i := Entry(es[i].key, value)], i, mode);
    MovedPlaced(es, i, value, mode);
  }

  lemma {:induction false} RemovedOthers<K, V>(es: seq<Entry<K, V>>, es': seq<Entry<K, V>>, key: K)
    requires RemovedAt(es, es', key)
    requires forall j, k :: 0 <= j < |es| && 0 <= k < |es| && es[j].key == es[k].key ==> j == k
    ensures es' == Others(es, key)
  {
    var i: nat :| ItemAt(es, key, i) && es' == RemoveAt(es, i);
    OthersWithout(es, i);
  }

  class LinkedHashMap<K(==, !new), V> {
    const hash: K -> nat
    var cells: Cells<K, V>
    var buckets: seq<nat>
    var first: nat
    var last: nat
    var numRecords: int
    ghost var chains: seq<seq<nat>>
    ghost var order: seq<nat>
    /** The records in the order of the list. */
    ghost var items: seq<Entry<K, V>>

    ghost predicate Linked()
      reads this`cells, this`buckets, this`first, this`last, this`chains, this`order, this`items
    {
      Represents(cells, buckets, first, last, chains, order, hash, items)
    }

    ghost predicate Valid()
      reads this
    {
      Linked() && numRecords == |items|
    }

    constructor (hash: K -> nat, numBuckets: Pos)
      ensures Valid() && items == [] && cells == map[] && this.hash == hash && |buckets| == numBuckets
    {
      this.hash := hash;
      cells, buckets, first, last := map[], NoBuckets(numBuckets), 0, 0;
      numRecords := 0;
      chains, order, items := NoChains(numBuckets), [], [];
    }

    /** Moves a record within the list. */
    method Move(rec: nat, mode: MoveMode, ghost i: nat)
      requires Linked() && i < |order| && order[i] == rec
      modifies this`cells, this`first, this`last, this`order, this`items
      ensures Linked() && i < |old(items)| && items == Moved(old(items), i, mode)
      ensures Relinked(old(cells), cells)
    {
      hide Represents, Unlinked, LinkedLast, LinkedFirst, RemoveAt, Relinked;
      MoveFacts(cells, buckets, first, last, chains, order, hash, items, i);
      if mode.MoveFirst? && first != rec {
        var c := cells[rec];
        if last == rec {
          last := c.prev;
        }
        cells := Unlinked(cells, rec);
        cells := LinkedFirst(cells, first, rec);
        first := rec;
        order, items := [rec] + RemoveAt(order, i), [items[i]] + RemoveAt(items, i);
      } else if mode.MoveLast? && last != rec {
        var c := cells[rec];
        if first == rec {
          first := c.next;
        }
        cells := Unlinked(cells, rec);
        cells := LinkedLast(cells, last, rec);
        last := rec;
        order, items := RemoveAt(order, i) + [rec], RemoveAt(items, i) + [items[i]];
      }
    }

    /** Finds the record of a key and moves it. */
    method Get(key: K, mode: MoveMode) returns (rec: nat)
      requires Valid()
      modifies this`cells, this`first, this`last, this`order, this`items
      ensures Valid() && cells.Keys == old(cells.Keys)
      ensures rec == 0 <==> !HasItem(old(items), key)
      ensures rec == 0 ==> items == old(items)
      ensures rec != 0 ==>
                rec in cells && cells[rec].key == key && HitAt(old(items), items, key, mode, cells[rec].value)
      ensures rec != 0 ==> PlacedBy(old(items), items, key, cells[rec].value, mode)
    {
      hide PlacedBy, Represents, BucketOf, Bucketed, Reachable, RemoveAt, Relinked;
      SearchFacts(cells, buckets, first, last, chains, order, hash, items, key);
      var parent: nat;
      ghost var k: nat;
      rec, parent, k := FindRecord(cells, buckets, hash, key, chains);
      if rec != 0 {
        ghost var i := PlaceOf(cells, buckets, first, last, chains, order, hash, items, key, rec);
        Move(rec, mode, i);
        RelinkedAt(old(cells), cells, rec);
        MovedLength(old(items), i, mode);
        assert ItemAt(old(items), key, i);
        HitPlaced(old(items), items, key, mode, cells[rec].value);
      }
    }

    /** Sets the value of a key.  A new record is put at the given free address. */
    method Set(key: K, value: V, overwrite: bool, mode: MoveMode, addr: nat) returns (rec: nat)
      requires Valid() && addr != 0 && addr !in cells
      modifies this`cells, this`buckets, this`first, this`last, this`numRecords, this`chains, this`order, this`items
      ensures Valid() && cells.Keys <= old(cells.Keys) + {addr} && rec in cells && cells[rec].key == key
      ensures HasItem(old(items), key) && !overwrite ==>
                items == old(items) && ValueAt(items, key, cells[rec].value)
      ensures HasItem(old(items), key) && overwrite ==> OverwrittenAt(old(items), items, key, value, mode)
      ensures !HasItem(old(items), key) ==> items == With(old(items), Entry(key, value), mode)
      ensures overwrite || !HasItem(old(items), key) ==> cells[rec].value == value
      ensures HasItem(old(items), key) && overwrite ==> PlacedBy(old(items), items, key, value, mode)
      ensures !HasItem(old(items), key) ==>
                items == if mode.MoveFirst? then [Entry(key, value)] + old(items) else old(items) + [Entry(key, value)]
    {
      hide PlacedBy, Represents, BucketOf, Bucketed, Reachable, RemoveAt, Relinked;
      SearchFacts(cells, buckets, first, last, chains, order, hash, items, key);
      var parent: nat;
      ghost var k: nat;
      rec, parent, k := FindRecord(cells, buckets, hash, key, chains);
      if rec != 0 {
        ghost var i := PlaceOf(cells, buckets, first, last, chains, order, hash, items, key, rec);
        assert ItemAt(items, key, i);
        if !overwrite {
          return;
        }
        Overwrite(rec, value, mode, i);
        OverwrittenPlaced(old(items), items, key, value, mode);
      } else {
        Add(key, value, mode, addr);
        rec := addr;
      }
    }

    method Overwrite(rec: nat, value: V, mode: MoveMode, ghost i: nat)
      requires Valid() && i < |order| && order[i] == rec && rec in cells
      modifies this`cells, this`first, this`last, this`order, this`items
      ensures Valid() && cells.Keys == old(cells.Keys) && i < |old(items)|
      ensures cells[rec].key == old(cells[rec].key) && cells[rec].value == value
      ensures items == Moved(old(items)[i := Entry(old(items)[i].key, value)], i, mode)
    {
      hide Represents, RemoveAt, Relinked;
      SearchFacts(cells, buckets, first, last, chains, order, hash, items, cells[rec].key);
      Updated(cells, buckets, first, last, chains, order, hash, items, i, value);
      PlaceLength(cells, buckets, first, last, chains, order, hash, items);
      cells := cells[rec := cells[rec].(value := value)];
      items := items[i := Entry(items[i].key, value)];
      ghost var cells1 := cells;
      MovedLength(items, i, mode);
      Move(rec, mode, i);
      RelinkedAt(cells1, cells, rec);
    }

    /** Puts a new record at the head of its chain and at an end of the list. */
    method Add(key: K, value: V, mode: MoveMode, addr: nat)
      requires Valid() && addr != 0 && addr !in cells && !HasKey(cells, key)
      modifies this`cells, this`buckets, this`first, this`last, this`numRecords, this`chains, this`order, this`items
      ensures Valid() && items == With(old(items), Entry(key, value), mode)
      ensures cells.Keys == old(cells.Keys) + {addr} && cells[addr].key == key && cells[addr].value == value
    {
      hide Represents, BucketOf, LinkedLast, LinkedFirst;
      JoinsPushed(cells, buckets, first, last, chains, order, hash, items, addr, Entry(key, value));
      var b := BucketOf(hash, |buckets|, key);
      ghost var cells1 := cells[addr := Cell(buckets[b], 0, 0, key, value)];
      LinkKeys(cells1, first, last, addr);
      cells := cells[addr := Cell(buckets[b], 0, 0, key, value)];
      if mode.MoveFirst? {
        cells := LinkedFirst(cells, first, addr);
        if last == 0 {
          last := addr;
        }
        first := addr;
        order := [addr] + order;
      } else {
        cells := LinkedLast(cells, last, addr);
        if first == 0 {
          first := addr;
        }
        last := addr;
        order := order + [addr];
      }
      buckets := buckets[b := addr];
      numRecords := numRecords + 1;
      chains := chains[b := [addr] + chains[b]];
      items := With(items, Entry(key, value), mode);
    }

    /** Takes a record off its chain and out of the list. */
    method Detach(rec: nat, parent: nat, ghost i: nat, ghost k: nat)
      requires Valid() && i < |order| && order[i] == rec && rec in cells
      requires Placed(cells, chains, hash, cells[rec].key, rec, parent, k)
      modifies this`cells, this`buckets, this`first, this`last, this`numRecords, this`chains, this`order, this`items
      ensures Valid() && i < |old(items)| && items == RemoveAt(old(items), i)
      ensures cells.Keys == old(cells.Keys) - {rec}
    {
      hide Represents, Freed, BucketOf, RemoveAt, Placed;
      PlacedRecord(cells, chains, hash, cells[rec].key, rec, parent, k);
      var c := cells[rec];
      Taking(cells, buckets, first, last, chains, order, hash, items, c.key, rec, parent, i, k);
      FreedKeys(cells, parent, rec);
      OneLess(items, i);
      var b := BucketOf(hash, |buckets|, c.key);
      cells := Freed(cells, parent, rec);
      buckets := Rehead(buckets, b, parent, c.child);
      if rec == first {
        first := c.next;
      }
      if rec == last {
        last := c.prev;
      }
      numRecords := numRecords - 1;
      chains := chains[b := RemoveAt(chains[b], k)];
      order, items := RemoveAt(order, i), RemoveAt(items, i);
    }

    /** Removes the record of a key. */
    method Remove(key: K) returns (removed: bool)
      requires Valid()
      modifies this`cells, this`buckets, this`first, this`last, this`numRecords, this`chains, this`order, this`items
      ensures Valid() && cells.Keys <= old(cells.Keys)
      ensures removed <==> HasItem(old(items), key)
      ensures !removed ==> items == old(items)
      ensures removed ==> RemovedAt(old(items), items, key)
      ensures removed ==> items == Others(old(items), key)
    {
      hide Represents, BucketOf, Bucketed, Reachable, RemoveAt, Placed;
      SearchFacts(cells, buckets, first, last, chains, order, hash, items, key);
      var rec, parent, k := FindRecord(cells, buckets, hash, key, chains);
      if rec == 0 {
        return false;
      }
      PlacedRecord(cells, chains, hash, key, rec, parent, k);
      ghost var i := PlaceOf(cells, buckets, first, last, chains, order, hash, items, key, rec);
      assert ItemAt(items, key, i);
      Detach(rec, parent, i, k);
      RemovedOthers(old(items), items, key);
      return true;
    }

    /** Takes in a record that has been detached from another map: in the place of the record
        of the same key, if there is one, or else at the tail of its chain. */
    method Accept(rec: nat, e: Entry<K, V>, mode: MoveMode)
      requires Valid() && rec != 0 && rec !in cells
      modifies this`cells, this`buckets, this`first, this`last, this`numRecords, this`chains, this`order, this`items
      ensures Valid() && cells.Keys <= old(cells.Keys) + {rec}
      ensures rec in cells && cells[rec].key == e.key && cells[rec].value == e.value
      ensures HasItem(old(items), e.key) ==> OverwrittenAt(old(items), items, e.key, e.value, mode)
      ensures !HasItem(old(items), e.key) ==> items == With(old(items), e, mode)
    {
      hide Represents, BucketOf, Bucketed, Reachable, RemoveAt, Placed;
      SearchFacts(cells, buckets, first, last, chains, order, hash, items, e.key);
      var dest, parent, k := FindRecord(cells, buckets, hash, e.key, chains);
      if dest != 0 {
        PlacedRecord(cells, chains, hash, e.key, dest, parent, k);
        ghost var i := PlaceOf(cells, buckets, first, last, chains, order, hash, items, e.key, dest);
        assert ItemAt(items, e.key, i);
        Supersede(dest, parent, rec, e, mode, i, k);
      } else {
        AddTail(rec, e, mode, parent);
      }
    }

    /** Puts a record in the place of the one with its key, and moves it. */
    method Supersede(dest: nat, parent: nat, rec: nat, e: Entry<K, V>, mode: MoveMode, ghost i: nat, ghost k: nat)
      requires Valid() && rec != 0 && rec !in cells && i < |order| && order[i] == dest
      requires Placed(cells, chains, hash, e.key, dest, parent, k)
      modifies this`cells, this`buckets, this`first, this`last, this`chains, this`order, this`items
      ensures Valid() && cells.Keys <= old(cells.Keys) + {rec} && i < |old(items)|
      ensures rec in cells && cells[rec].key == e.key && cells[rec].value == e.value
      ensures items == Moved(old(items)[i := Entry(old(items)[i].key, e.value)], i, mode)
    {
      hide Represents, Swapped, BucketOf, RemoveAt, Placed, Replaced, Relinked;
      PlacedRecord(cells, chains, hash, e.key, dest, parent, k);
      Replacing(cells, buckets, first, last, chains, order, hash, items, e.key, dest, parent, i, k, rec, e.value);
      SwapKeys(cells, parent, dest, rec, e.value);
      var b := BucketOf(hash, |buckets|, e.key);
      cells := Swapped(cells, parent, dest, rec, e.value);
      buckets := Rehead(buckets, b, parent, rec);
      if first == dest {
        first := rec;
      }
      if last == dest {
        last := rec;
      }
      chains := chains[b := Replaced(chains[b], k, rec)];
      ReplacedAt(order, i, rec);
      order := Replaced(order, i, rec);
      items := items[i := Entry(items[i].key, e.value)];
      ghost var cells1 := cells;
      MovedLength(items, i, mode);
      Move(rec, mode, i);
      RelinkedAt(cells1, cells, rec);
    }

    /** Puts a record at the tail of its chain and at an end of the list. */
    method AddTail(rec: nat, e: Entry<K, V>, mode: MoveMode, tail: nat)
      requires Valid() && rec != 0 && rec !in cells && !HasKey(cells, e.key) && |chains| > 0
      requires var chain := chains[BucketOf(hash, |chains|, e.key)];
               tail == At(chain, |chain| - 1)
      modifies this`cells, this`buckets, this`first, this`last, this`numRecords, this`chains, this`order, this`items
      ensures Valid() && items == With(old(items), e, mode)
      ensures cells.Keys == old(cells.Keys) + {rec} && cells[rec].key == e.key && cells[rec].value == e.value
    {
      hide Represents, BucketOf, LinkedLast, LinkedFirst, Unchained;
      JoinsAppended(cells, buckets, first, last, chains, order, hash, items, rec, e);
      TailKeys(cells, tail, rec, e, first, last);
      var b := BucketOf(hash, |buckets|, e.key);
      var cells1 := Unchained(cells[rec := Cell(0, 0, 0, e.key, e.value)], tail, rec);
      buckets := Rehead(buckets, b, tail, rec);
      numRecords := numRecords + 1;
      chains := chains[b := chains[b] + [rec]];
      if mode.MoveFirst? {
        cells := LinkedFirst(cells1, first, rec);
        if last == 0 {
          last := rec;
        }
        first := rec;
        order, items := [rec] + order, [e] + items;
      } else {
        cells := LinkedLast(cells1, last, rec);
        if first == 0 {
          first := rec;
        }
        last := rec;
        order, items := order + [rec], items + [e];
      }
    }

    /** Moves the record of a key to another map, superseding the record of that key there. */
    method Migrate(key: K, dest: LinkedHashMap<K, V>, mode: MoveMode) returns (rec: nat)
      requires Valid() && dest.Valid() && this != dest && cells.Keys !! dest.cells.Keys
      modifies this`cells, this`buckets, this`first, this`last, this`numRecords, this`chains, this`order, this`items
      modifies dest`cells, dest`buckets, dest`first, dest`last, dest`numRecords, dest`chains, dest`order, dest`items
      ensures Valid() && dest.Valid() && cells.Keys !! dest.cells.Keys
      ensures cells.Keys + dest.cells.Keys <= old(cells.Keys + dest.cells.Keys)
      ensures rec == 0 <==> !HasItem(old(items), key)
      ensures rec == 0 ==> items == old(items) && dest.items == old(dest.items)
      ensures rec != 0 ==> rec in dest.cells && dest.cells[rec].key == key
      ensures rec != 0 ==> MigratedAt(old(items), items, old(dest.items), dest.items, key, mode, dest.cells[rec].value)
      ensures rec != 0 ==> items == Others(old(items), key) && Entry(key, dest.cells[rec].value) in old(items)
      ensures rec != 0 && HasItem(old(dest.items), key) ==>
                PlacedBy(old(dest.items), dest.items, key, dest.cells[rec].value, mode)
      ensures rec != 0 && !HasItem(old(dest.items), key) ==>
                var e := Entry(key, dest.cells[rec].value);
                dest.items == if mode.MoveFirst? then [e] + old(dest.items) else old(dest.items) + [e]
    {
      hide PlacedBy, Others, Represents, BucketOf, Bucketed, Reachable, RemoveAt, Placed, Moved, OverwrittenAt;
      SearchFacts(cells, buckets, first, last, chains, order, hash, items, key);
      var parent: nat;
      ghost var k: nat;
      rec, parent, k := FindRecord(cells, buckets, hash, key, chains);
      if rec == 0 {
        return;
      }
      PlacedRecord(cells, chains, hash, key, rec, parent, k);
      ghost var i := PlaceOf(cells, buckets, first, last, chains, order, hash, items, key, rec);
      assert ItemAt(items, key, i);
      var e := EntryOf(cells[rec]);
      Detach(rec, parent, i, k);
      RemovedOthers(old(items), items, key);
      SearchFacts(dest.cells, dest.buckets, dest.first, dest.last, dest.chains, dest.order, dest.hash, dest.items, key);
      dest.Accept(rec, e, mode);
      if HasItem(old(dest.items), key) {
        OverwrittenPlaced(old(dest.items), dest.items, key, e.value, mode);
      }
    }

    /** Puts the records on the chains of another number of buckets; the list stays. */
    method Rehash(numBuckets: Pos)
      requires Valid()
      modifies this`cells, this`buckets, this`chains
      ensures Valid() && |buckets| == numBuckets && cells.Keys == old(cells.Keys)
    {
      hide Represents, Rebuilding, BucketOf;
      RehashBegins(cells, buckets, first, last, chains, order, hash, items, numBuckets);
      buckets := NoBuckets(numBuckets);
      chains := NoChains(numBuckets);
      var rec := first;
      ghost var i: nat := 0;
      while rec != 0
        invariant i <= |order| && rec == At(order, i) && (rec == 0 <==> i == |order|) && |buckets| == numBuckets
        invariant Rebuilding(old(cells), order, cells, buckets, chains, hash, i, i)
        invariant cells.Keys == old(cells.Keys)
        decreases |order| - i
      {
        RebuildNext(old(cells), old(buckets), first, last, old(chains), order, hash, items,
                    cells, buckets, chains, i, i);
        RebuildKeep(old(cells), order, cells, buckets, chains, hash, i);
        var b := BucketOf(hash, |buckets|, cells[rec].key);
        cells := SetChild(cells, rec, buckets[b]);
        buckets := buckets[b := rec];
        chains := chains[b := [rec] + chains[b]];
        rec := cells[rec].next;
        i := i + 1;
        RebuildNext(old(cells), old(buckets), first, last, old(chains), order, hash, items,
                    cells, buckets, chains, i, i);
      }
      RehashEnds(old(cells), old(buckets), first, last, old(chains), order, hash, items, cells, buckets, chains);
    }

    /** Removes every record. */
    method Clear()
      requires Valid()
      modifies this`cells, this`buckets, this`first, this`last, this`numRecords, this`chains, this`order, this`items
      ensures Valid() && items == [] && cells == map[] && |buckets| == |old(buckets)|
    {
      hide Represents;
      EmptyRepresents<K, V>(|buckets|, hash);
      Buckets(cells, buckets, first, last, chains, order, hash, items);
      if numRecords < 1 {
        Nothing(cells, buckets, first, last, chains, order, hash, items);
        return;
      }
      cells, first, last, numRecords := map[], 0, 0, 0;
      buckets := NoBuckets(|buckets|);
      chains, order, items := NoChains(|buckets|), [], [];
    }
  }

  lemma {:induction false} Buckets<K(!new), V>(cells: Cells<K, V>, buckets: seq<nat>, first: nat, last: nat,
                                               chains: seq<seq<nat>>, order: seq<nat>, hash: K -> nat,
                                               es: seq<Entry<K, V>>)
    requires Represents(cells, buckets, first, last, chains, order, hash, es)
    ensures |buckets| > 0
  {
    hide Reachable, UniqueKeys, Listed, Exact;
  }

  lemma {:induction false} Nothing<K(!new), V>(cells: Cells<K, V>, buckets: seq<nat>, first: nat, last: nat,
                                               chains: seq<seq<nat>>, order: seq<nat>, hash: K -> nat,
                                               es: seq<Entry<K, V>>)
    requires Represents(cells, buckets, first, last, chains, order, hash, es) && |es| == 0
    ensures cells == map[]
  {
    hide Bucketed, Reachable, UniqueKeys, Listed;
  }

  lemma {:induction false} RehashBegins<K(!new), V>(cells: Cells<K, V>, buckets: seq<nat>, first: nat, last: nat,
                                                    chains: seq<seq<nat>>, order: seq<nat>, hash: K -> nat,
                                                    es: seq<Entry<K, V>>, numBuckets: Pos)
    requires Represents(cells, buckets, first, last, chains, order, hash, es)
    ensures Rebuilding(cells, order, cells, NoBuckets(numBuckets), NoChains(numBuckets), hash, 0, 0)
    ensures first == At(order, 0) && (first == 0 <==> |order| == 0)
  {
    hide Bucketed, Reachable, UniqueKeys, Rebuilding;
    RebuildStart(cells, order, hash, numBuckets);
    if |order| > 0 {
      NotFirst(cells, order, first, last, 0);
    }
  }

  lemma {:induction false} RehashEnds<K(!new), V>(cells0: Cells<K, V>, buckets0: seq<nat>, first: nat, last: nat,
                                                  chains0: seq<seq<nat>>, order: seq<nat>, hash: K -> nat,
                                                  es: seq<Entry<K, V>>, cells: Cells<K, V>, buckets: seq<nat>,
                                                  chains: seq<seq<nat>>)
    requires Represents(cells0, buckets0, first, last, chains0, order, hash, es)
    requires Rebuilding(cells0, order, cells, buckets, chains, hash, |order|, |order|)
    ensures Represents(cells, buckets, first, last, chains, order, hash, es)
  {
    hide Bucketed, Reachable, UniqueKeys, Listed, Rebuilding, SetNext;
    RebuildEnd(cells0, buckets0, first, last, chains0, order, hash, es, cells, buckets, chains, |order|);
    assert order[..|order|] == order && es[..|order|] == es;
    RehashKept(cells0, cells, order, buckets, chains, hash);
    LastEnds(cells0, cells, order, first, last);
  }

  lemma {:induction false} RehashKept<K(!new), V>(cells0: Cells<K, V>, cells: Cells<K, V>, order: seq<nat>,
                                                  buckets: seq<nat>, chains: seq<seq<nat>>, hash: K -> nat)
    requires Rebuilding(cells0, order, cells, buckets, chains, hash, |order|, |order|)
    ensures forall id :: id in order ==> id in cells
    ensures forall id :: id in cells ==> KeptCell(cells0, cells, id)
  {
    assert order[..|order|] == order;
  }

  /** The last record's next pointer is null already. */
  lemma {:induction false} LastEnds<K, V>(cells0: Cells<K, V>, cells: Cells<K, V>, order: seq<nat>, first: nat,
                                          last: nat)
    requires Listed(cells0, order, first, last)
    requires forall id :: id in order ==> id in cells
    requires forall id :: id in cells ==> KeptCell(cells0, cells, id)
    ensures SetNext(cells, last, 0) == cells && last == At(order, |order| - 1)
    ensures |order| == 0 <==> first == 0
  {
    if |order| > 0 {
      assert ListedAt(cells0, order, |order| - 1) && ListedAt(cells0, order, 0);
      assert order[|order| - 1] in order;
      assert KeptCell(cells0, cells, last);
    } else {
      assert 0 !in cells;
    }
  }

  /** The record at i has gone from one sequence into the other. */
  ghost predicate MigratedAt<K, V>(es: seq<Entry<K, V>>, es': seq<Entry<K, V>>, ds: seq<Entry<K, V>>,
                                   ds': seq<Entry<K, V>>, key: K, mode: MoveMode, value: V)
  {
    && (exists i: nat :: ItemAt(es, key, i) && es[i].value == value && es' == RemoveAt(es, i))
    && (HasItem(ds, key) ==> OverwrittenAt(ds, ds', key, value, mode))
    && (!HasItem(ds, key) ==> ds' == With(ds, Entry(key, value), mode))
  }

  lemma {:induction false} SwapKeys<K, V>(cells: Cells<K, V>, parent: nat, was: nat, id: nat, value: V)
    requires was in cells && id !in cells
    ensures Swapped(cells, parent, was, id, value).Keys <= cells.Keys + {id}
    ensures id in Swapped(cells, parent, was, id, value)
    ensures EntryOf(Swapped(cells, parent, was, id, value)[id]) == Entry(cells[was].key, value)
  {
  }

  lemma {:induction false} ReplacedAt(order: seq<nat>, i: nat, id: nat)
    requires i < |order|
    ensures |Replaced(order, i, id)| == |order| && Replaced(order, i, id)[i] == id
  {
  }

  lemma {:induction false} TailKeys<K, V>(cells: Cells<K, V>, tail: nat, rec: nat, e: Entry<K, V>, first: nat,
                                          last: nat)
    ensures var cells1 := Unchained(cells[rec := Cell(0, 0, 0, e.key, e.value)], tail, rec);
            && rec in cells1
            && LinkedLast(cells1, last, rec).Keys == LinkedFirst(cells1, first, rec).Keys == cells.Keys + {rec}
            && EntryOf(LinkedLast(cells1, last, rec)[rec]) == e == EntryOf(LinkedFirst(cells1, first, rec)[rec])
  {
    hide LinkedLast, LinkedFirst;
    var cells1 := Unchained(cells[rec := Cell(0, 0, 0, e.key, e.value)], tail, rec);
    LinkKeys(cells1, first, last, rec);
  }

  ghost predicate ValueAt<K, V>(es: seq<Entry<K, V>>, key: K, value: V) {
    exists i: nat :: ItemAt(es, key, i) && es[i].value == value
  }

  ghost predicate OverwrittenAt<K, V>(es: seq<Entry<K, V>>, es': seq<Entry<K, V>>, key: K, value: V, mode: MoveMode) {
    exists i: nat :: ItemAt(es, key, i) && es' == Moved(es[i := Entry(es[i].key, value)], i, mode)
  }

  ghost predicate RemovedAt<K, V>(es: seq<Entry<K, V>>, es': seq<Entry<K, V>>, key: K) {
    exists i: nat :: ItemAt(es, key, i) && es' == RemoveAt(es, i)
  }

  lemma {:induction false} PlaceLength<K(!new), V>(cells: Cells<K, V>, buckets: seq<nat>, first: nat, last: nat,
                                                   chains: seq<seq<nat>>, order: seq<nat>, hash: K -> nat,
                                                   es: seq<Entry<K, V>>)
    requires Represents(cells, buckets, first, last, chains, order, hash, es)
    ensures |es| == |order|
  {
    hide Sound;
  }

  lemma {:induction false} OneLess<T>(s: seq<T>, i: nat)
    requires i < |s|
    ensures |RemoveAt(s, i)| == |s| - 1
  {
  }

  lemma {:induction false} FreedKeys<K, V>(cells: Cells<K, V>, parent: nat, id: nat)
    requires id in cells
    ensures Freed(cells, parent, id).Keys == cells.Keys - {id}
  {
  }

  lemma {:induction false} LinkKeys<K, V>(cells: Cells<K, V>, first: nat, last: nat, id: nat)
    requires id in cells
    ensures LinkedLast(cells, last, id).Keys == cells.Keys && LinkedFirst(cells, first, id).Keys == cells.Keys
    ensures EntryOf(LinkedLast(cells, last, id)[id]) == EntryOf(cells[id]) == EntryOf(LinkedFirst(cells, first, id)[id])
  {
  }

  /** The records after a hit on a key that has this value. */
  ghost predicate HitAt<K, V>(es: seq<Entry<K, V>>, es': seq<Entry<K, V>>, key: K, mode: MoveMode, value: V) {
    exists i: nat :: ItemAt(es, key, i) && es[i].value == value && es' == Moved(es, i, mode)
  }

  lemma {:induction false} MovedLength<K, V>(es: seq<Entry<K, V>>, i: nat, mode: MoveMode)
    requires i < |es|
    ensures |Moved(es, i, mode)| == |es|
  {
  }

  lemma {:induction false} RelinkedAt<K, V>(cells: Cells<K, V>, cells': Cells<K, V>, id: nat)
    requires Relinked(cells, cells') && id in cells
    ensures id in cells' && EntryOf(cells'[id]) == EntryOf(cells[id]) && cells'.Keys == cells.Keys
  {
  }

  lemma {:induction false} SearchFacts<K(!new), V>(cells: Cells<K, V>, buckets: seq<nat>, first: nat, last: nat,
                                                   chains: seq<seq<nat>>, order: seq<nat>, hash: K -> nat,
                                                   es: seq<Entry<K, V>>, key: K)
    requires Represents(cells, buckets, first, last, chains, order, hash, es)
    ensures Bucketed(cells, buckets, chains, hash) && Reachable(cells, chains, hash) && 0 !in cells
    ensures HasKey(cells, key) <==> HasItem(es, key)
    ensures forall i, j :: 0 <= i < |es| && 0 <= j < |es| && es[i].key == es[j].key ==> i == j
  {
    hide Represents, Bucketed, Reachable;
    Searchable(cells, buckets, first, last, chains, order, hash, es, key);
    if i :| 0 <= i < |es| && es[i].key == key {
      assert ItemAt(es, key, i);
    }
  }

  lemma {:induction false} MoveFacts<K(!new), V>(cells: Cells<K, V>, buckets: seq<nat>, first: nat, last: nat,
                                                 chains: seq<seq<nat>>, order: seq<nat>, hash: K -> nat,
                                                 es: seq<Entry<K, V>>, i: nat)
    requires Represents(cells, buckets, first, last, chains, order, hash, es) && i < |order|
    ensures |es| == |order| && order[i] in cells && order[i] in Unlinked(cells, order[i])
    ensures Relinked(cells, cells)
    ensures Relinked(cells, LinkedLast(Unlinked(cells, order[i]), last, order[i]))
    ensures Relinked(cells, LinkedFirst(Unlinked(cells, order[i]), first, order[i]))
    ensures order[i] == last ==> RemoveAt(order, i) + [order[i]] == order && RemoveAt(es, i) + [es[i]] == es
    ensures order[i] == first ==> [order[i]] + RemoveAt(order, i) == order && [es[i]] + RemoveAt(es, i) == es
    ensures order[i] != last ==>
              var id := order[i];
              Represents(LinkedLast(Unlinked(cells, id), last, id), buckets,
                         if first == id then cells[id].next else first, id, chains,
                         RemoveAt(order, i) + [id], hash, RemoveAt(es, i) + [es[i]])
    ensures order[i] != first ==>
              var id := order[i];
              Represents(LinkedFirst(Unlinked(cells, id), first, id), buckets, id,
                         if last == id then cells[id].prev else last, chains,
                         [id] + RemoveAt(order, i), hash, [es[i]] + RemoveAt(es, i))
  {
    hide Represents, LinkedLast, LinkedFirst, Unlinked;
    Touched(cells, buckets, first, last, chains, order, hash, es, i);
    MovesRelink(cells, first, last, order[i]);
  }
}
