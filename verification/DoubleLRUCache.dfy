/** DoubleLRUCache: values by identifier in a hot and a warm list, each ordered by recency.
    A warm value that is asked for with promotion becomes hot, and the hot value used longest
    ago makes room for it. */
module DoubleLRUCaches {
  import opened Common
  import opened LinkedRecords
  import opened LinkedHashMaps

  type Item<V> = Entry<int, V>

  /** All entries of both lists, with their multiplicity. */
  ghost function All<V>(hot: seq<Item<V>>, warm: seq<Item<V>>): multiset<Item<V>> {
    multiset(hot) + multiset(warm)
  }

  /** No identifier is in both lists. */
  ghost predicate Separate<V>(hot: seq<Item<V>>, warm: seq<Item<V>>) {
    forall id :: HasItem(hot, id) ==> !HasItem(warm, id)
  }

  /** The lists after the hot value used longest ago has made room, if the hot list is full. */
  function WithRoom<V>(hot: seq<Item<V>>, warm: seq<Item<V>>, hotCapacity: Pos): (seq<Item<V>>, seq<Item<V>>) {
    if |hot| >= hotCapacity then (hot[1..], warm + [hot[0]]) else (hot, warm)
  }

  /** The entry that a found value makes, or none. */
  ghost function Shown<V>(id: int, value: Option<V>): seq<Item<V>> {
    if value.Some? then [Entry(id, value.value)] else []
  }

  lemma {:induction false} NoneOthers<V>(es: seq<Item<V>>, id: int)
    requires !HasItem(es, id)
    ensures Others(es, id) == es
  {
    forall i | 0 <= i < |es|
      ensures es[i].key != id
    {
      assert !ItemAt(es, id, i);
    }
    OthersAll(es, id);
  }

  /** The hot value that makes room is none of the identifier's. */
  lemma {:induction false} DemotedOthers<V>(hot: seq<Item<V>>, warm: seq<Item<V>>, id: int)
    requires hot != [] && !HasItem(hot, id)
    ensures Others(warm + [hot[0]], id) == Others(warm, id) + [hot[0]]
  {
    assert !ItemAt(hot, id, 0);
    OthersConcat(warm, [hot[0]], id);
  }

  lemma {:induction false} RemoveCounts<V>(es: seq<Item<V>>, i: nat)
    requires i < |es|
    ensures multiset(es) == multiset(RemoveAt(es, i)) + multiset{es[i]}
  {
    assert es == es[..i] + [es[i]] + es[i + 1..];
  }

  lemma {:induction false} MoveCounts<V>(es: seq<Item<V>>, i: nat, mode: MoveMode)
    requires i < |es|
    ensures multiset(Moved(es, i, mode)) == multiset(es)
    ensures forall id :: HasItem(Moved(es, i, mode), id) <==> HasItem(es, id)
  {
    RemoveCounts(es, i);
    SameItems(es, Moved(es, i, mode));
  }

  /** The same entries have the same identifiers. */
  lemma {:induction false} SameItems<V>(es: seq<Item<V>>, es': seq<Item<V>>)
    requires multiset(es) == multiset(es')
    ensures forall id :: HasItem(es', id) <==> HasItem(es, id)
  {
    forall id
      ensures HasItem(es', id) <==> HasItem(es, id)
    {
      if i: nat :| ItemAt(es, id, i) {
        HasCounted(es, es', id, i);
      }
      if i: nat :| ItemAt(es', id, i) {
        HasCounted(es', es, id, i);
      }
    }
  }

  lemma {:induction false} HasCounted<V>(es: seq<Item<V>>, es': seq<Item<V>>, id: int, i: nat)
    requires multiset(es) <= multiset(es') && ItemAt(es, id, i)
    ensures HasItem(es', id)
  {
    assert es[i] in multiset(es');
    var j :| 0 <= j < |es'| && es'[j] == es[i];
    assert ItemAt(es', id, j);
  }

  lemma {:induction false} WithoutItem<V>(es: seq<Item<V>>, i: nat, id: int)
    requires i < |es|
    requires forall j, k :: 0 <= j < |es| && 0 <= k < |es| && es[j].key == es[k].key ==> j == k
    ensures HasItem(RemoveAt(es, i), id) <==> HasItem(es, id) && id != es[i].key
  {
    var rest := RemoveAt(es, i);
    if j: nat :| ItemAt(rest, id, j) {
      assert ItemAt(es, id, if j < i then j else j + 1);
    }
    if j: nat :| ItemAt(es, id, j) && j != i {
      assert ItemAt(rest, id, if j < i then j else j - 1);
    }
  }

  lemma {:induction false} WithItem<V>(es: seq<Item<V>>, e: Item<V>, mode: MoveMode, id: int)
    ensures HasItem(With(es, e, mode), id) <==> HasItem(es, id) || id == e.key
    ensures multiset(With(es, e, mode)) == multiset(es) + multiset{e}
  {
    var es' := With(es, e, mode);
    if j: nat :| ItemAt(es, id, j) {
      assert ItemAt(es', id, if mode.MoveFirst? then j + 1 else j);
    }
    if id == e.key {
      assert ItemAt(es', id, if mode.MoveFirst? then 0 else |es|);
    }
    if j: nat :| ItemAt(es', id, j) && id != e.key {
      assert ItemAt(es, id, if mode.MoveFirst? then j - 1 else j);
    }
  }

  /** Moving an entry from one list to the end of the other loses, duplicates and alters
      nothing, and keeps the lists separate. */
  lemma {:induction false} MigrateKeeps<V>(es: seq<Item<V>>, es': seq<Item<V>>, ds: seq<Item<V>>, ds': seq<Item<V>>,
                                           id: int, value: V)
    requires MigratedAt(es, es', ds, ds', id, MoveLast, value) && Separate(es, ds)
    requires forall j, k :: 0 <= j < |es| && 0 <= k < |es| && es[j].key == es[k].key ==> j == k
    ensures All(es', ds') == All(es, ds) && Separate(es', ds') && ds' == ds + [Entry(id, value)]
    ensures HasItem(es, id) && Entry(id, value) in es && |es'| == |es| - 1
    ensures forall x :: HasItem(es', x) ==> HasItem(es, x)
    ensures ItemAt(es, id, 0) ==> es' == es[1..]
  {
    var i: nat :| ItemAt(es, id, i) && es[i].value == value && es' == RemoveAt(es, i);
    assert HasItem(es, id) && es[i] == Entry(id, value);
    RemoveCounts(es, i);
    WithItem(ds, Entry(id, value), MoveLast, id);
    forall x
      ensures HasItem(es', x) ==> HasItem(es, x) && !HasItem(ds', x)
    {
      WithoutItem(es, i, x);
      WithItem(ds, Entry(id, value), MoveLast, x);
    }
  }

  lemma {:induction false} PromoteKeeps<V>(hot: seq<Item<V>>, hot': seq<Item<V>>, warm: seq<Item<V>>,
                                           warm': seq<Item<V>>, id: int, value: V)
    requires MigratedAt(warm, warm', hot, hot', id, MoveLast, value) && Separate(hot, warm)
    requires forall j, k :: 0 <= j < |warm| && 0 <= k < |warm| && warm[j].key == warm[k].key ==> j == k
    ensures All(hot', warm') == All(hot, warm) && Separate(hot', warm')
    ensures hot' == hot + [Entry(id, value)] && HasItem(hot', id) && HasItem(warm, id)
    ensures Entry(id, value) in All(hot, warm)
  {
    hide MigratedAt, Separate;
    SeparateBack(hot, warm);
    MigrateKeeps(warm, warm', hot, hot', id, value);
    SeparateBack(hot', warm');
    assert All(hot', warm') == All(warm', hot') && All(hot, warm) == All(warm, hot);
    assert ItemAt(hot', id, |hot|);
    assert Entry(id, value) in multiset(warm);
  }

  lemma {:induction false} SeparateBack<V>(hot: seq<Item<V>>, warm: seq<Item<V>>)
    ensures Separate(hot, warm) <==> Separate(warm, hot)
  {
  }

  /** Giving back an identifier that is not warm keeps the lists separate exactly when it is
      not hot either. */
  lemma {:induction false} GiveBackSeparates<V>(hot: seq<Item<V>>, warm: seq<Item<V>>, e: Item<V>)
    requires Separate(hot, warm) && !HasItem(warm, e.key)
    ensures Separate(hot, With(warm, e, MoveLast)) <==> !HasItem(hot, e.key)
  {
    WithItem(warm, e, MoveLast, e.key);
    forall id
      ensures HasItem(With(warm, e, MoveLast), id) <==> HasItem(warm, id) || id == e.key
    {
      WithItem(warm, e, MoveLast, id);
    }
  }

  class DoubleLRUCache<V> {
    const hotCapacity: Pos
    const warmCapacity: nat
    const hot: LinkedHashMap<int, V>
    const warm: LinkedHashMap<int, V>

    /** Both maps are sound and the hot one is within its capacity. */
    ghost predicate Linked()
      reads this, hot, warm
    {
      && hot != warm && hot.Valid() && warm.Valid() && hot.cells.Keys !! warm.cells.Keys
      && |hot.items| <= hotCapacity
    }

    ghost predicate Valid()
      reads this, hot, warm
    {
      Linked() && Separate(hot.items, warm.items)
    }

    /** All entries, with their multiplicity. */
    ghost function Held(): multiset<Item<V>>
      reads hot, warm
    {
      All(hot.items, warm.items)
    }

    constructor (hash: int -> nat, hotCapacity: Pos, warmCapacity: nat)
      ensures Valid() && Held() == multiset{} && fresh(hot) && fresh(warm)
    {
      this.hotCapacity, this.warmCapacity := hotCapacity, warmCapacity;
      hot := new LinkedHashMap<int, V>(hash, hotCapacity * 2 + 1);
      warm := new LinkedHashMap<int, V>(hash, warmCapacity * 2 + 1);
    }

    method Allocate() returns (addr: nat)
      ensures addr != 0 && addr !in hot.cells && addr !in warm.cells
    {
      ghost var bound := FreshExists(hot.cells.Keys + warm.cells.Keys);
      assert bound != 0 && bound !in hot.cells.Keys + warm.cells.Keys;
      addr :| addr != 0 && addr !in hot.cells && addr !in warm.cells;
    }

    /** Moves the hot value used longest ago to the end of the warm list. */
    method Demote()
      requires Valid() && hot.items != []
      modifies hot, warm
      ensures Valid() && Held() == old(Held())
      ensures hot.items == old(hot.items)[1..] && warm.items == old(warm.items) + [old(hot.items)[0]]
    {
      hide Represents, PlacedBy, LinkedRecords.Others, LinkedHashMaps.MigratedAt, All, Separate;
      FirstFacts(hot.cells, hot.buckets, hot.first, hot.last, hot.chains, hot.order, hot.hash, hot.items);
      var id := hot.cells[hot.first].key;
      assert ItemAt(hot.items, id, 0);
      SearchFacts(hot.cells, hot.buckets, hot.first, hot.last, hot.chains, hot.order, hot.hash, hot.items, id);
      var rec := hot.Migrate(id, warm, MoveLast);
      MigrateKeeps(old(hot.items), hot.items, old(warm.items), warm.items, id, warm.cells[rec].value);
      OneValue(old(hot.items), id, warm.cells[rec].value);
    }

    /** Looks a value up and makes it the most recently used of its list; with promotion, a
        warm value becomes hot, and room is made for it before it is looked for.  No entry is
        lost, duplicated or altered. */
    method Get(id: int, promotion: bool) returns (value: Option<V>)
      requires Valid()
      modifies hot, warm
      ensures Valid() && Held() == old(Held())
      ensures value.None? <==> !HasItem(old(hot.items), id) && !HasItem(old(warm.items), id)
      ensures value.Some? ==> Entry(id, value.value) in old(Held())
      ensures HasItem(old(hot.items), id) || (promotion && value.Some?) ==> HasItem(hot.items, id)
      ensures HasItem(old(hot.items), id) ==>
                warm.items == old(warm.items) && HitAt(old(hot.items), hot.items, id, MoveLast, value.value)
      ensures !HasItem(old(hot.items), id) && !promotion ==> hot.items == old(hot.items)
      ensures !HasItem(old(hot.items), id) && !promotion && value.Some? ==>
                HitAt(old(warm.items), warm.items, id, MoveLast, value.value)
      ensures !HasItem(old(hot.items), id) && promotion && value.Some? ==>
                var (h, w) := WithRoom(old(hot.items), old(warm.items), hotCapacity);
                MigratedAt(w, warm.items, h, hot.items, id, MoveLast, value.value)
      ensures value.None? ==>
                (hot.items, warm.items) == if promotion then WithRoom(old(hot.items), old(warm.items), hotCapacity)
                                           else (old(hot.items), old(warm.items))
      ensures HasItem(old(hot.items), id) ==> PlacedBy(old(hot.items), hot.items, id, value.value, MoveLast)
      ensures !HasItem(old(hot.items), id) && !promotion && value.Some? ==>
                PlacedBy(old(warm.items), warm.items, id, value.value, MoveLast)
      ensures !HasItem(old(hot.items), id) && promotion && |old(hot.items)| < hotCapacity ==>
                && hot.items == old(hot.items) + Shown(id, value)
                && warm.items == Others(old(warm.items), id)
      ensures !HasItem(old(hot.items), id) && promotion && |old(hot.items)| == hotCapacity ==>
                && hot.items == old(hot.items)[1..] + Shown(id, value)
                && warm.items == Others(old(warm.items), id) + [old(hot.items)[0]]
    {
      hide Represents, PlacedBy, LinkedRecords.Others, LinkedHashMaps.HitAt, LinkedHashMaps.MigratedAt, Separate;
      var rec := hot.Get(id, MoveLast);
      if rec != 0 {
        value := Some(hot.cells[rec].value);
        HitKeeps(old(hot.items), hot.items, warm.items, id, hot.cells[rec].value);
        return;
      }
      if promotion {
        if hot.numRecords >= hotCapacity {
          DemotedItems(hot.items, warm.items, id);
          DemotedOthers(hot.items, warm.items, id);
          Demote();
        }
        value := Promote(id);
      } else {
        rec := warm.Get(id, MoveLast);
        if rec != 0 {
          value := Some(warm.cells[rec].value);
          SeparateBack(old(hot.items), old(warm.items));
          HitKeeps(old(warm.items), warm.items, hot.items, id, warm.cells[rec].value);
          SeparateBack(hot.items, warm.items);
        } else {
          value := None;
        }
      }
    }

    /** Moves a warm value to the end of the hot list. */
    method Promote(id: int) returns (value: Option<V>)
      requires Valid() && |hot.items| < hotCapacity && !HasItem(hot.items, id)
      modifies hot, warm
      ensures Valid() && Held() == old(Held())
      ensures value.Some? <==> HasItem(old(warm.items), id)
      ensures value.Some? ==> Entry(id, value.value) in old(Held()) && HasItem(hot.items, id)
      ensures value.Some? ==> hot.items == old(hot.items) + [Entry(id, value.value)]
      ensures value.Some? ==>
                MigratedAt(old(warm.items), warm.items, old(hot.items), hot.items, id, MoveLast, value.value)
      ensures value.None? ==> hot.items == old(hot.items) && warm.items == old(warm.items)
      ensures warm.items == Others(old(warm.items), id)
    {
      hide Represents, PlacedBy, LinkedRecords.Others, LinkedHashMaps.MigratedAt, Separate, All;
      SearchFacts(warm.cells, warm.buckets, warm.first, warm.last, warm.chains, warm.order, warm.hash, warm.items, id);
      var rec := warm.Migrate(id, hot, MoveLast);
      if rec != 0 {
        value := Some(hot.cells[rec].value);
        PromoteKeeps(old(hot.items), hot.items, old(warm.items), warm.items, id, value.value);
      } else {
        NoneOthers(warm.items, id);
        value := None;
      }
    }

    /** Adds a value, unless the identifier has one already. */
    method Add(id: int, value: V) returns (current: V)
      requires Valid()
      modifies hot, warm
      ensures Valid()
      ensures HasItem(old(hot.items), id) || HasItem(old(warm.items), id) ==>
                Held() == old(Held()) && Entry(id, current) in Held()
      ensures !HasItem(old(hot.items), id) && !HasItem(old(warm.items), id) ==>
                Held() == old(Held()) + multiset{Entry(id, value)} && current == value
      ensures hot.items == old(hot.items)
      ensures warm.items == if HasItem(old(hot.items), id) || HasItem(old(warm.items), id) then old(warm.items)
                            else old(warm.items) + [Entry(id, value)]
    {
      hide Represents, PlacedBy, LinkedHashMaps.HitAt, Separate, LinkedHashMaps.OverwrittenAt;
      var rec := hot.Get(id, MoveCurrent);
      if rec != 0 {
        HitSame(old(hot.items), hot.items, id, hot.cells[rec].value);
        return hot.cells[rec].value;
      }
      var addr := Allocate();
      rec := warm.Set(id, value, false, MoveLast, addr);
      current := warm.cells[rec].value;
      WithItem(old(warm.items), Entry(id, value), MoveLast, id);
      if HasItem(old(warm.items), id) {
        ValueIn(warm.items, id, current);
      } else {
        GiveBackSeparates(hot.items, old(warm.items), Entry(id, value));
      }
    }

    /** Gives back a value.  The warm list gets it unless it has one for the identifier; the hot
        list is not looked at, so the lists stay separate exactly when it has none. */
    method GiveBack(id: int, value: V)
      requires Valid()
      modifies warm
      ensures Linked() && hot.items == old(hot.items)
      ensures warm.items == if HasItem(old(warm.items), id) then old(warm.items)
                            else old(warm.items) + [Entry(id, value)]
      ensures Separate(hot.items, warm.items) <==> !HasItem(old(hot.items), id)
    {
      hide Represents, PlacedBy, Separate, LinkedHashMaps.OverwrittenAt;
      var addr := Allocate();
      var rec := warm.Set(id, value, false, MoveLast, addr);
      if HasItem(old(warm.items), id) {
        HotApart(hot.items, warm.items, id);
      } else {
        GiveBackSeparates(hot.items, old(warm.items), Entry(id, value));
      }
    }

    /** Takes out the value used longest ago, from the warm list if it has any. */
    method RemoveLRU() returns (e: Option<Item<V>>)
      requires Valid()
      modifies hot, warm
      ensures Valid()
      ensures e == if old(warm.items) != [] then Some(old(warm.items)[0])
                   else if old(hot.items) != [] then Some(old(hot.items)[0]) else None
      ensures e.None? ==> Held() == old(Held())
      ensures e.Some? ==> Held() + multiset{e.value} == old(Held())
      ensures (hot.items, warm.items) ==
              if old(warm.items) != [] then (old(hot.items), old(warm.items)[1..])
              else if old(hot.items) != [] then (old(hot.items)[1..], []) else ([], [])
    {
      hide Represents, LinkedRecords.Others, LinkedHashMaps.RemovedAt, Separate;
      if warm.numRecords != 0 {
        FirstFacts(warm.cells, warm.buckets, warm.first, warm.last, warm.chains, warm.order, warm.hash, warm.items);
        e := Some(EntryOf(warm.cells[warm.first]));
        var id := e.value.key;
        assert ItemAt(warm.items, id, 0);
        SearchFacts(warm.cells, warm.buckets, warm.first, warm.last, warm.chains, warm.order, warm.hash,
                    warm.items, id);
        var removed := warm.Remove(id);
        FrontRemoved(old(warm.items), warm.items, id);
        SeparateBack(hot.items, old(warm.items));
        RemovedKeeps(old(warm.items), warm.items, hot.items, id);
        SeparateBack(hot.items, warm.items);
      } else if hot.numRecords != 0 {
        FirstFacts(hot.cells, hot.buckets, hot.first, hot.last, hot.chains, hot.order, hot.hash, hot.items);
        e := Some(EntryOf(hot.cells[hot.first]));
        var id := e.value.key;
        assert ItemAt(hot.items, id, 0);
        SearchFacts(hot.cells, hot.buckets, hot.first, hot.last, hot.chains, hot.order, hot.hash, hot.items, id);
        var removed := hot.Remove(id);
        FrontRemoved(old(hot.items), hot.items, id);
        RemovedKeeps(old(hot.items), hot.items, warm.items, id);
      } else {
        e := None;
      }
    }

    /** Removes the value of an identifier. */
    method Remove(id: int)
      requires Valid()
      modifies hot, warm
      ensures Valid() && !HasItem(hot.items, id) && !HasItem(warm.items, id)
      ensures Held() <= old(Held())
      ensures forall e :: e in old(Held()) && e.key != id ==> Held()[e] == old(Held())[e]
    {
      hide Represents, LinkedRecords.Others, LinkedHashMaps.RemovedAt, Separate;
      SearchFacts(hot.cells, hot.buckets, hot.first, hot.last, hot.chains, hot.order, hot.hash, hot.items, id);
      SearchFacts(warm.cells, warm.buckets, warm.first, warm.last, warm.chains, warm.order, warm.hash, warm.items, id);
      var removed := hot.Remove(id);
      if removed {
        RemovedKeeps(old(hot.items), hot.items, old(warm.items), id);
      } else {
        removed := warm.Remove(id);
        if removed {
          SeparateBack(hot.items, old(warm.items));
          RemovedKeeps(old(warm.items), warm.items, hot.items, id);
          SeparateBack(hot.items, warm.items);
        }
      }
    }
  }

  lemma {:induction false} HotApart<V>(hot: seq<Item<V>>, warm: seq<Item<V>>, id: int)
    requires Separate(hot, warm) && HasItem(warm, id)
    ensures !HasItem(hot, id)
  {
  }

  lemma {:induction false} HeldSomewhere<V>(hot: seq<Item<V>>, warm: seq<Item<V>>, e: Item<V>)
    requires e in All(hot, warm)
    ensures HasItem(hot, e.key) || HasItem(warm, e.key)
  {
    if e in multiset(hot) {
      var i :| 0 <= i < |hot| && hot[i] == e;
      assert ItemAt(hot, e.key, i);
    } else {
      var i :| 0 <= i < |warm| && warm[i] == e;
      assert ItemAt(warm, e.key, i);
    }
  }

  /** A run that ends with an identifier in both lists: its value is added, becomes hot, and is
      given back although it has not been taken out. */
  method GiveBackDuplicates<V>(hash: int -> nat, hotCapacity: Pos, warmCapacity: nat, id: int, value: V, again: V)
    returns (cache: DoubleLRUCache<V>)
    ensures fresh(cache) && cache.Linked()
    ensures HasItem(cache.hot.items, id) && HasItem(cache.warm.items, id)
  {
    hide Represents, PlacedBy, LinkedRecords.Others, Separate, All, LinkedHashMaps.HitAt, LinkedHashMaps.MigratedAt;
    cache := new DoubleLRUCache<V>(hash, hotCapacity, warmCapacity);
    NothingHeld(cache.hot.items, cache.warm.items, id);
    var current := cache.Add(id, value);
    HeldSomewhere(cache.hot.items, cache.warm.items, Entry(id, value));
    var got := cache.Get(id, true);
    WithItem(cache.warm.items, Entry(id, again), MoveLast, id);
    cache.GiveBack(id, again);
  }

  lemma {:induction false} NothingHeld<V>(hot: seq<Item<V>>, warm: seq<Item<V>>, id: int)
    requires All(hot, warm) == multiset{}
    ensures !HasItem(hot, id) && !HasItem(warm, id)
  {
    assert |multiset(hot)| + |multiset(warm)| == |All(hot, warm)|;
  }

  lemma {:induction false} FrontRemoved<V>(es: seq<Item<V>>, es': seq<Item<V>>, id: int)
    requires RemovedAt(es, es', id) && ItemAt(es, id, 0)
    requires forall j, k :: 0 <= j < |es| && 0 <= k < |es| && es[j].key == es[k].key ==> j == k
    ensures es' == es[1..] && multiset(es) == multiset(es') + multiset{es[0]}
  {
    var i: nat :| ItemAt(es, id, i) && es' == RemoveAt(es, i);
    RemoveCounts(es, i);
  }

  lemma {:induction false} RemovedKeeps<V>(es: seq<Item<V>>, es': seq<Item<V>>, other: seq<Item<V>>, id: int)
    requires RemovedAt(es, es', id) && Separate(es, other)
    requires forall j, k :: 0 <= j < |es| && 0 <= k < |es| && es[j].key == es[k].key ==> j == k
    ensures Separate(es', other) && !HasItem(es', id) && !HasItem(other, id) && |es'| == |es| - 1
    ensures multiset(es') <= multiset(es)
    ensures forall e: Item<V> :: e.key != id ==> multiset(es')[e] == multiset(es)[e]
  {
    var i: nat :| ItemAt(es, id, i) && es' == RemoveAt(es, i);
    assert HasItem(es, id);
    RemoveCounts(es, i);
    forall x
      ensures HasItem(es', x) <==> HasItem(es, x) && x != id
    {
      WithoutItem(es, i, x);
    }
  }

  lemma {:induction false} ValueIn<V>(es: seq<Item<V>>, id: int, value: V)
    requires ValueAt(es, id, value)
    ensures Entry(id, value) in multiset(es)
  {
    var i: nat :| ItemAt(es, id, i) && es[i].value == value;
    assert es[i] in multiset(es);
  }

  lemma {:induction false} HitSame<V>(es: seq<Item<V>>, es': seq<Item<V>>, id: int, value: V)
    requires HitAt(es, es', id, MoveCurrent, value)
    ensures es' == es && Entry(id, value) in multiset(es)
  {
    var i: nat :| ItemAt(es, id, i) && es[i].value == value && es' == Moved(es, i, MoveCurrent);
    assert es[i] in multiset(es);
  }

  /** A hit moves an entry within its list only. */
  lemma {:induction false} HitKeeps<V>(es: seq<Item<V>>, es': seq<Item<V>>, other: seq<Item<V>>, id: int, value: V)
    requires HitAt(es, es', id, MoveLast, value) && Separate(es, other)
    ensures multiset(es') == multiset(es) && Separate(es', other) && |es'| == |es|
    ensures HasItem(es, id) && HasItem(es', id) && Entry(id, value) in multiset(es)
  {
    var i: nat :| ItemAt(es, id, i) && es[i].value == value && es' == Moved(es, i, MoveLast);
    MoveCounts(es, i, MoveLast);
    assert es[i] in multiset(es);
    assert HasItem(es, id);
  }

  lemma {:induction false} DemotedItems<V>(hot: seq<Item<V>>, warm: seq<Item<V>>, id: int)
    requires hot != [] && !HasItem(hot, id)
    ensures !HasItem(hot[1..], id)
    ensures HasItem(warm + [hot[0]], id) <==> HasItem(warm, id)
  {
    assert !ItemAt(hot, id, 0);
    forall j: nat | j < |hot| - 1
      ensures !ItemAt(hot[1..], id, j)
    {
      assert !ItemAt(hot, id, j + 1);
    }
    WithItem(warm, hot[0], MoveLast, id);
  }

  /** An identifier has one entry in a list. */
  lemma {:induction false} OneValue<V>(es: seq<Item<V>>, id: int, value: V)
    requires forall j, k :: 0 <= j < |es| && 0 <= k < |es| && es[j].key == es[k].key ==> j == k
    requires ItemAt(es, id, 0) && Entry(id, value) in es
    ensures es[0] == Entry(id, value)
  {
    var j :| 0 <= j < |es| && es[j] == Entry(id, value);
  }
}
