/** Records that lie both on the chain of their key's bucket and on one doubly linked list,
    as CacheSlot and LinkedHashMap keep them.  Records sit at addresses, zero being the null
    pointer. */
module LinkedRecords {
  import opened Common

  datatype Cell<K, V> = Cell(child: nat, prev: nat, next: nat, key: K, value: V)

  type Cells<K, V> = map<nat, Cell<K, V>>

  /** A record as its user sees it. */
  datatype Entry<K, V> = Entry(key: K, value: V)

  function SetNext<K, V>(cells: Cells<K, V>, id: nat, next: nat): Cells<K, V> {
    if id in cells then cells[id := cells[id].(next := next)] else cells
  }

  function SetPrev<K, V>(cells: Cells<K, V>, id: nat, prev: nat): Cells<K, V> {
    if id in cells then cells[id := cells[id].(prev := prev)] else cells
  }

  function SetChild<K, V>(cells: Cells<K, V>, id: nat, child: nat): Cells<K, V> {
    if id in cells then cells[id := cells[id].(child := child)] else cells
  }

  // ----- the list -----

  ghost predicate ListedAt<K, V>(cells: Cells<K, V>, order: seq<nat>, i: nat)
    requires i < |order|
  {
    && order[i] in cells
    && cells[order[i]].prev == At(order, i - 1) && cells[order[i]].next == At(order, i + 1)
  }

  /** The pointers thread these records in this order. */
  ghost predicate Listed<K, V>(cells: Cells<K, V>, order: seq<nat>, first: nat, last: nat) {
    && Distinct(order) && 0 !in cells
    && first == At(order, 0) && last == At(order, |order| - 1)
    && forall i :: 0 <= i < |order| ==> ListedAt(cells, order, i)
  }

  /** The neighbours of a record joined to each other. */
  function Unlinked<K, V>(cells: Cells<K, V>, id: nat): Cells<K, V>
    requires id in cells
  {
    var c := cells[id];
    SetPrev(SetNext(cells, c.prev, c.next), c.next, c.prev)
  }

  lemma {:induction false} UnlinkLists<K, V>(cells: Cells<K, V>, order: seq<nat>, first: nat, last: nat, i: nat)
    requires Listed(cells, order, first, last) && i < |order|
    ensures order[i] in cells
    ensures var c := cells[order[i]];
            Listed(Unlinked(cells, order[i]), RemoveAt(order, i),
                   if first == order[i] then c.next else first, if last == order[i] then c.prev else last)
  {
    assert ListedAt(cells, order, i);
    var id, order' := order[i], RemoveAt(order, i);
    var cells' := Unlinked(cells, id);
    forall k | 0 <= k < |order'|
      ensures ListedAt(cells', order', k)
    {
      assert ListedAt(cells, order, if k < i then k else k + 1);
    }
    assert i > 0 ==> ListedAt(cells, order, i - 1);
    assert i + 1 < |order| ==> ListedAt(cells, order, i + 1);
  }

  /** A record put at the end of the list. */
  function LinkedLast<K, V>(cells: Cells<K, V>, last: nat, id: nat): Cells<K, V>
    requires id in cells
  {
    SetNext(cells, last, id)[id := cells[id].(prev := last, next := 0)]
  }

  lemma {:induction false} LinkLastLists<K, V>(cells: Cells<K, V>, order: seq<nat>, first: nat, last: nat, id: nat)
    requires Listed(cells, order, first, last) && id in cells && id !in order
    ensures Listed(LinkedLast(cells, last, id), order + [id], if first == 0 then id else first, id)
  {
    var cells', order' := LinkedLast(cells, last, id), order + [id];
    forall k | 0 <= k < |order'|
      ensures ListedAt(cells', order', k)
    {
      assert k < |order| ==> ListedAt(cells, order, k);
    }
    assert |order| > 0 ==> ListedAt(cells, order, 0);
  }

  /** A record put at the front of the list. */
  function LinkedFirst<K, V>(cells: Cells<K, V>, first: nat, id: nat): Cells<K, V>
    requires id in cells
  {
    SetPrev(cells, first, id)[id := cells[id].(prev := 0, next := first)]
  }

  lemma {:induction false} LinkFirstLists<K, V>(cells: Cells<K, V>, order: seq<nat>, first: nat, last: nat, id: nat)
    requires Listed(cells, order, first, last) && id in cells && id !in order
    ensures Listed(LinkedFirst(cells, first, id), [id] + order, id, if last == 0 then id else last)
  {
    var cells', order' := LinkedFirst(cells, first, id), [id] + order;
    forall k | 0 <= k < |order'|
      ensures ListedAt(cells', order', k)
    {
      assert k > 0 ==> ListedAt(cells, order, k - 1);
    }
    assert |order| > 0 ==> ListedAt(cells, order, |order| - 1);
  }

  // ----- the chains -----

  ghost predicate ChainedAt<K, V>(cells: Cells<K, V>, chain: seq<nat>, i: nat)
    requires i < |chain|
  {
    chain[i] in cells && cells[chain[i]].child == At(chain, i + 1)
  }

  /** The records reached from a bucket. */
  ghost predicate Chained<K, V>(cells: Cells<K, V>, chain: seq<nat>, top: nat) {
    && Distinct(chain) && top == At(chain, 0)
    && forall i :: 0 <= i < |chain| ==> ChainedAt(cells, chain, i)
  }

  function BucketOf<K(!new)>(hash: K -> nat, n: nat, key: K): (b: nat)
    requires n > 0
    ensures b < n
  {
    hash(key) % n
  }

  /** Chains hold the records of their own bucket. */
  ghost predicate InBucket<K(!new), V>(cells: Cells<K, V>, chain: seq<nat>, hash: K -> nat, n: nat, b: nat)
    requires n > 0
  {
    forall i :: 0 <= i < |chain| && chain[i] in cells ==> BucketOf(hash, n, cells[chain[i]].key) == b
  }

  ghost predicate Bucketed<K(!new), V>(cells: Cells<K, V>, buckets: seq<nat>, chains: seq<seq<nat>>, hash: K -> nat) {
    && |chains| == |buckets| > 0
    && (forall b :: 0 <= b < |chains| ==>
          Chained(cells, chains[b], buckets[b]) && InBucket(cells, chains[b], hash, |buckets|, b))
  }

  /** Every record lies on the chain of its key. */
  ghost predicate Reachable<K(!new), V>(cells: Cells<K, V>, chains: seq<seq<nat>>, hash: K -> nat) {
    |chains| > 0 && forall id :: id in cells ==> id in chains[BucketOf(hash, |chains|, cells[id].key)]
  }

  /** No two records have the same key. */
  ghost predicate UniqueKeys<K, V>(cells: Cells<K, V>) {
    forall a, b :: a in cells && b in cells && cells[a].key == cells[b].key ==> a == b
  }

  // ----- both together -----

  ghost predicate Absent(chains: seq<seq<nat>>, id: nat) {
    forall b :: 0 <= b < |chains| ==> id !in chains[b]
  }

  ghost predicate SameChild<K, V>(cells: Cells<K, V>, cells': Cells<K, V>, id: nat) {
    id in cells && id in cells' && cells'[id].child == cells[id].child && cells'[id].key == cells[id].key
  }

  ghost predicate SamePlace<K, V>(cells: Cells<K, V>, cells': Cells<K, V>, id: nat) {
    id in cells && id in cells' && cells'[id].prev == cells[id].prev && cells'[id].next == cells[id].next
  }

  /** The chains do not depend on the list pointers or the values. */
  lemma {:induction false} BucketedFrame<K(!new), V>(cells: Cells<K, V>, cells': Cells<K, V>, buckets: seq<nat>,
                                                     chains: seq<seq<nat>>, hash: K -> nat)
    requires Bucketed(cells, buckets, chains, hash)
    requires forall b, i :: 0 <= b < |chains| && 0 <= i < |chains[b]| ==> SameChild(cells, cells', chains[b][i])
    ensures Bucketed(cells', buckets, chains, hash)
  {
    forall b | 0 <= b < |chains|
      ensures Chained(cells', chains[b], buckets[b]) && InBucket(cells', chains[b], hash, |buckets|, b)
    {
      assert Chained(cells, chains[b], buckets[b]) && InBucket(cells, chains[b], hash, |buckets|, b);
      forall i | 0 <= i < |chains[b]|
        ensures ChainedAt(cells', chains[b], i)
      {
        assert ChainedAt(cells, chains[b], i) && SameChild(cells, cells', chains[b][i]);
      }
      forall i | 0 <= i < |chains[b]|
        ensures BucketOf(hash, |buckets|, cells'[chains[b][i]].key) == b
      {
        assert ChainedAt(cells, chains[b], i) && SameChild(cells, cells', chains[b][i]);
      }
    }
  }

  /** The list does not depend on the chain pointers or the values. */
  lemma {:induction false} ListedFrame<K, V>(cells: Cells<K, V>, cells': Cells<K, V>, order: seq<nat>, first: nat,
                                             last: nat)
    requires Listed(cells, order, first, last) && 0 !in cells'
    requires forall i :: 0 <= i < |order| ==> SamePlace(cells, cells', order[i])
    ensures Listed(cells', order, first, last)
  {
    forall i | 0 <= i < |order|
      ensures ListedAt(cells', order, i)
    {
      assert ListedAt(cells, order, i) && SamePlace(cells, cells', order[i]);
    }
  }

  /** One chain and its bucket have changed, the others have not been touched. */
  lemma {:induction false} OneChain<K(!new), V>(cells: Cells<K, V>, cells': Cells<K, V>, buckets: seq<nat>,
                                                chains: seq<seq<nat>>, hash: K -> nat, b: nat, top: nat,
                                                chain: seq<nat>)
    requires Bucketed(cells, buckets, chains, hash) && b < |chains|
    requires Chained(cells', chain, top) && InBucket(cells', chain, hash, |buckets|, b)
    requires forall c, i :: 0 <= c < |chains| && c != b && 0 <= i < |chains[c]| ==>
               SameChild(cells, cells', chains[c][i])
    ensures Bucketed(cells', buckets[b := top], chains[b := chain], hash)
  {
    var buckets', chains' := buckets[b := top], chains[b := chain];
    forall c | 0 <= c < |chains'|
      ensures Chained(cells', chains'[c], buckets'[c]) && InBucket(cells', chains'[c], hash, |buckets'|, c)
    {
      if c != b {
        assert Chained(cells, chains[c], buckets[c]) && InBucket(cells, chains[c], hash, |buckets|, c);
        forall i | 0 <= i < |chains[c]|
          ensures ChainedAt(cells', chains[c], i)
        {
          assert ChainedAt(cells, chains[c], i) && SameChild(cells, cells', chains[c][i]);
        }
        forall i | 0 <= i < |chains[c]|
          ensures BucketOf(hash, |buckets|, cells'[chains[c][i]].key) == c
        {
          assert ChainedAt(cells, chains[c], i) && SameChild(cells, cells', chains[c][i]);
        }
      }
    }
  }

  /** A record is on one chain only, and a chain holds only records of its bucket. */
  lemma {:induction false} OtherChain<K(!new), V>(cells: Cells<K, V>, buckets: seq<nat>, chains: seq<seq<nat>>,
                                                  hash: K -> nat, b: nat, i: nat, c: nat, j: nat)
    requires Bucketed(cells, buckets, chains, hash)
    requires b < |chains| && i < |chains[b]| && c < |chains| && j < |chains[c]| && b != c
    ensures chains[b][i] != chains[c][j]
    ensures chains[b][i] in cells && BucketOf(hash, |chains|, cells[chains[b][i]].key) == b
  {
    assert Chained(cells, chains[b], buckets[b]) && Chained(cells, chains[c], buckets[c]);
    assert ChainedAt(cells, chains[b], i) && ChainedAt(cells, chains[c], j);
    assert InBucket(cells, chains[b], hash, |buckets|, b) && InBucket(cells, chains[c], hash, |buckets|, c);
  }

  /** The cells after the record at position k of chain b has been taken off it. */
  function Unchained<K, V>(cells: Cells<K, V>, parent: nat, child: nat): Cells<K, V> {
    if parent == 0 then cells else SetChild(cells, parent, child)
  }

  function Rehead(buckets: seq<nat>, b: nat, parent: nat, top: nat): (r: seq<nat>)
    requires b < |buckets|
    ensures |r| == |buckets|
  {
    if parent == 0 then buckets[b := top] else buckets
  }

  /** Taking a record off its chain. */
  lemma {:induction false} UnchainKeeps<K(!new), V>(cells: Cells<K, V>, buckets: seq<nat>, chains: seq<seq<nat>>,
                                                    hash: K -> nat, b: nat, k: nat)
    requires Bucketed(cells, buckets, chains, hash) && 0 !in cells && b < |chains| && k < |chains[b]|
    ensures chains[b][k] in cells
    ensures var parent, child := At(chains[b], k - 1), cells[chains[b][k]].child;
            && Bucketed(Unchained(cells, parent, child), Rehead(buckets, b, parent, child),
                        chains[b := RemoveAt(chains[b], k)], hash)
            && Absent(chains[b := RemoveAt(chains[b], k)], chains[b][k])
  {
    var chain, id := chains[b], chains[b][k];
    var parent := At(chain, k - 1);
    assert Chained(cells, chain, buckets[b]) && ChainedAt(cells, chain, k);
    assert k > 0 ==> ChainedAt(cells, chain, k - 1);
    var child := cells[id].child;
    var cells' := Unchained(cells, parent, child);
    UnchainOne(cells, chain, buckets[b], hash, |buckets|, b, k);
    var top := if parent == 0 then child else buckets[b];
    forall c, i | 0 <= c < |chains| && c != b && 0 <= i < |chains[c]|
      ensures SameChild(cells, cells', chains[c][i]) && chains[c][i] != id
    {
      OtherChain(cells, buckets, chains, hash, c, i, b, k);
      if k > 0 {
        OtherChain(cells, buckets, chains, hash, c, i, b, k - 1);
      }
    }
    OneChain(cells, cells', buckets, chains, hash, b, top, RemoveAt(chain, k));
    assert parent != 0 ==> buckets[b := buckets[b]] == buckets;
  }

  lemma {:induction false} UnchainOne<K(!new), V>(cells: Cells<K, V>, chain: seq<nat>, top: nat, hash: K -> nat,
                                                  n: nat, b: nat, k: nat)
    requires Chained(cells, chain, top) && k < |chain| && 0 !in cells && chain[k] in cells
    requires n > 0 && InBucket(cells, chain, hash, n, b)
    ensures var parent, child := At(chain, k - 1), cells[chain[k]].child;
            && Chained(Unchained(cells, parent, child), RemoveAt(chain, k), if parent == 0 then child else top)
            && InBucket(Unchained(cells, parent, child), RemoveAt(chain, k), hash, n, b)
            && chain[k] !in RemoveAt(chain, k)
  {
    var parent, child := At(chain, k - 1), cells[chain[k]].child;
    var cells', chain' := Unchained(cells, parent, child), RemoveAt(chain, k);
    assert ChainedAt(cells, chain, k);
    assert k > 0 ==> ChainedAt(cells, chain, k - 1);
    forall i | 0 <= i < |chain'|
      ensures ChainedAt(cells', chain', i)
    {
      assert ChainedAt(cells, chain, if i < k then i else i + 1);
    }
  }

  /** Putting a record at the head of its chain. */
  lemma {:induction false} PushKeeps<K(!new), V>(cells: Cells<K, V>, buckets: seq<nat>, chains: seq<seq<nat>>,
                                                 hash: K -> nat, b: nat, id: nat)
    requires Bucketed(cells, buckets, chains, hash) && b < |chains| && id in cells && Absent(chains, id)
    requires BucketOf(hash, |buckets|, cells[id].key) == b
    ensures Bucketed(SetChild(cells, id, buckets[b]), buckets[b := id], chains[b := [id] + chains[b]], hash)
  {
    var cells' := SetChild(cells, id, buckets[b]);
    var chain := chains[b];
    assert Chained(cells, chain, buckets[b]) && InBucket(cells, chain, hash, |buckets|, b) && id !in chain;
    forall i | 0 <= i < |[id] + chain|
      ensures ChainedAt(cells', [id] + chain, i)
    {
      assert i > 0 ==> ChainedAt(cells, chain, i - 1);
    }
    forall c, i | 0 <= c < |chains| && c != b && 0 <= i < |chains[c]|
      ensures SameChild(cells, cells', chains[c][i])
    {
      assert Chained(cells, chains[c], buckets[c]) && ChainedAt(cells, chains[c], i);
      assert chains[c][i] in chains[c];
    }
    OneChain(cells, cells', buckets, chains, hash, b, id, [id] + chain);
  }

  /** Putting a record at the tail of its chain. */
  lemma {:induction false} AppendKeeps<K(!new), V>(cells: Cells<K, V>, buckets: seq<nat>, chains: seq<seq<nat>>,
                                                   hash: K -> nat, b: nat, id: nat)
    requires Bucketed(cells, buckets, chains, hash) && 0 !in cells
    requires b < |chains| && id in cells && Absent(chains, id) && cells[id].child == 0
    requires BucketOf(hash, |buckets|, cells[id].key) == b
    ensures var tail := At(chains[b], |chains[b]| - 1);
            Bucketed(Unchained(cells, tail, id), Rehead(buckets, b, tail, id), chains[b := chains[b] + [id]], hash)
  {
    var chain := chains[b];
    var tail := At(chain, |chain| - 1);
    var cells' := Unchained(cells, tail, id);
    assert Chained(cells, chain, buckets[b]) && InBucket(cells, chain, hash, |buckets|, b) && id !in chain;
    assert |chain| > 0 ==> ChainedAt(cells, chain, |chain| - 1) && ChainedAt(cells, chain, 0);
    forall i | 0 <= i < |chain + [id]|
      ensures ChainedAt(cells', chain + [id], i)
    {
      assert i < |chain| ==> ChainedAt(cells, chain, i);
    }
    forall c, i | 0 <= c < |chains| && c != b && 0 <= i < |chains[c]|
      ensures SameChild(cells, cells', chains[c][i])
    {
      assert Chained(cells, chains[c], buckets[c]) && ChainedAt(cells, chains[c], i);
      if |chain| > 0 {
        OtherChain(cells, buckets, chains, hash, c, i, b, |chain| - 1);
      }
    }
    OneChain(cells, cells', buckets, chains, hash, b, if tail == 0 then id else buckets[b], chain + [id]);
    assert tail != 0 ==> buckets[b := buckets[b]] == buckets;
  }

  function Replaced(s: seq<nat>, k: nat, id: nat): seq<nat>
    requires k < |s|
  {
    s[k := id]
  }

  /** Putting a record in the place of another on its chain. */
  lemma {:induction false} SubstituteKeeps<K(!new), V>(cells: Cells<K, V>, buckets: seq<nat>, chains: seq<seq<nat>>,
                                                       hash: K -> nat, b: nat, k: nat, id: nat)
    requires Bucketed(cells, buckets, chains, hash) && 0 !in cells && b < |chains| && k < |chains[b]|
    requires id in cells && Absent(chains, id) && chains[b][k] in cells
    requires cells[id].child == cells[chains[b][k]].child && cells[id].key == cells[chains[b][k]].key
    ensures var parent := At(chains[b], k - 1);
            && Bucketed(Unchained(cells, parent, id), Rehead(buckets, b, parent, id),
                        chains[b := Replaced(chains[b], k, id)], hash)
            && Absent(chains[b := Replaced(chains[b], k, id)], chains[b][k])
  {
    var chain := chains[b];
    var parent := At(chain, k - 1);
    var cells' := Unchained(cells, parent, id);
    assert Chained(cells, chain, buckets[b]) && InBucket(cells, chain, hash, |buckets|, b) && id !in chain;
    assert ChainedAt(cells, chain, k) && (k > 0 ==> ChainedAt(cells, chain, k - 1));
    var chain' := Replaced(chain, k, id);
    forall i | 0 <= i < |chain'|
      ensures ChainedAt(cells', chain', i)
    {
      assert ChainedAt(cells, chain, i);
    }
    forall i | 0 <= i < |chain'|
      ensures chain'[i] in cells' && BucketOf(hash, |buckets|, cells'[chain'[i]].key) == b
    {
      assert ChainedAt(cells, chain, i);
    }
    forall c, i | 0 <= c < |chains| && c != b && 0 <= i < |chains[c]|
      ensures SameChild(cells, cells', chains[c][i]) && chains[c][i] != chain[k]
    {
      OtherChain(cells, buckets, chains, hash, c, i, b, k);
      if k > 0 {
        OtherChain(cells, buckets, chains, hash, c, i, b, k - 1);
      }
    }
    OneChain(cells, cells', buckets, chains, hash, b, if parent == 0 then id else buckets[b], chain');
    assert parent != 0 ==> buckets[b := buckets[b]] == buckets;
  }

  // ----- the whole structure -----

  /** The list holds exactly the records. */
  ghost predicate Exact<K, V>(cells: Cells<K, V>, order: seq<nat>) {
    forall id :: id in cells <==> id in order
  }

  /** The chains and the list describe the same records, one for each key. */
  ghost predicate Sound<K(!new), V>(cells: Cells<K, V>, buckets: seq<nat>, first: nat, last: nat,
                                    chains: seq<seq<nat>>, order: seq<nat>, hash: K -> nat)
  {
    && Listed(cells, order, first, last) && Exact(cells, order)
    && Bucketed(cells, buckets, chains, hash) && Reachable(cells, chains, hash) && UniqueKeys(cells)
  }

  /** The records of other keys, in their order. */
  function Others<K(==), V>(es: seq<Entry<K, V>>, key: K): seq<Entry<K, V>> {
    if es == [] then []
    else (if es[0].key == key then [] else [es[0]]) + Others(es[1..], key)
  }

  lemma {:induction false} OthersConcat<K, V>(a: seq<Entry<K, V>>, b: seq<Entry<K, V>>, key: K)
    ensures Others(a + b, key) == Others(a, key) + Others(b, key)
  {
    if a == [] {
      assert a + b == b;
    } else {
      assert (a + b)[1..] == a[1..] + b;
      OthersConcat(a[1..], b, key);
    }
  }

  lemma {:induction false} OthersAll<K, V>(es: seq<Entry<K, V>>, key: K)
    requires forall i :: 0 <= i < |es| ==> es[i].key != key
    ensures Others(es, key) == es
  {
    if es != [] {
      OthersAll(es[1..], key);
    }
  }

  /** Taking the one record of a key out leaves the others as they were. */
  lemma {:induction false} OthersWithout<K, V>(es: seq<Entry<K, V>>, i: nat)
    requires i < |es|
    requires forall j, k :: 0 <= j < |es| && 0 <= k < |es| && es[j].key == es[k].key ==> j == k
    ensures Others(es, es[i].key) == RemoveAt(es, i) == Others(RemoveAt(es, i), es[i].key)
  {
    hide Others;
    var key, a, b := es[i].key, es[..i], es[i + 1..];
    assert es == a + ([es[i]] + b);
    OthersConcat(a, [es[i]] + b, key);
    OthersOne(es[i], b);
    OthersAll(a, key);
    OthersAll(b, key);
    OthersConcat(a, b, key);
    assert RemoveAt(es, i) == a + b;
  }

  lemma {:induction false} OthersOne<K, V>(e: Entry<K, V>, b: seq<Entry<K, V>>)
    ensures Others([e] + b, e.key) == Others(b, e.key)
  {
    assert ([e] + b)[1..] == b;
  }

  /** So does putting a record of the key at the end or at the front. */
  lemma {:induction false} OthersWith<K, V>(es: seq<Entry<K, V>>, e: Entry<K, V>)
    ensures Others(es + [e], e.key) == Others(es, e.key) == Others([e] + es, e.key)
  {
    OthersConcat(es, [e], e.key);
    OthersOne(e, []);
    assert [e] + [] == [e];
    OthersOne(e, es);
  }

  function EntryOf<K, V>(c: Cell<K, V>): Entry<K, V> {
    Entry(c.key, c.value)
  }

  /** These are the records in the order of the list. */
  ghost predicate Lists<K, V>(cells: Cells<K, V>, order: seq<nat>, es: seq<Entry<K, V>>) {
    && |es| == |order|
    && forall i :: 0 <= i < |order| ==> order[i] in cells && es[i] == EntryOf(cells[order[i]])
  }

  /** Only list pointers differ. */
  ghost predicate Relinked<K, V>(cells: Cells<K, V>, cells': Cells<K, V>) {
    && cells'.Keys == cells.Keys
    && forall id :: id in cells && id in cells' ==>
         SameChild(cells, cells', id) && EntryOf(cells'[id]) == EntryOf(cells[id])
  }

  lemma {:induction false} RelinkSound<K(!new), V>(cells: Cells<K, V>, cells': Cells<K, V>, buckets: seq<nat>,
                                                   first: nat, last: nat, chains: seq<seq<nat>>, order: seq<nat>,
                                                   hash: K -> nat, first': nat, last': nat, order': seq<nat>)
    requires Sound(cells, buckets, first, last, chains, order, hash) && Relinked(cells, cells')
    requires Listed(cells', order', first', last')
    requires forall id :: id in order' <==> id in order
    ensures Sound(cells', buckets, first', last', chains, order', hash)
  {
    hide Listed, BucketOf;
    OnChains(cells, buckets, chains, hash);
    BucketedFrame(cells, cells', buckets, chains, hash);
    forall id | id in cells'
      ensures id in chains[BucketOf(hash, |chains|, cells'[id].key)]
    {
      assert id in cells && SameChild(cells, cells', id);
    }
    forall a, b | a in cells' && b in cells' && cells'[a].key == cells'[b].key
      ensures a == b
    {
      assert a in cells && b in cells && SameChild(cells, cells', a) && SameChild(cells, cells', b);
    }
  }

  lemma {:induction false} OnChains<K(!new), V>(cells: Cells<K, V>, buckets: seq<nat>, chains: seq<seq<nat>>,
                                                hash: K -> nat)
    requires Bucketed(cells, buckets, chains, hash)
    ensures |buckets| == |chains| > 0
    ensures forall b, i :: 0 <= b < |chains| && 0 <= i < |chains[b]| ==> chains[b][i] in cells
  {
    forall b, i | 0 <= b < |chains| && 0 <= i < |chains[b]|
      ensures chains[b][i] in cells
    {
      assert Chained(cells, chains[b], buckets[b]) && ChainedAt(cells, chains[b], i);
    }
  }

  lemma {:induction false} MovesRelink<K, V>(cells: Cells<K, V>, first: nat, last: nat, id: nat)
    requires id in cells
    ensures id in Unlinked(cells, id)
    ensures Relinked(cells, LinkedLast(Unlinked(cells, id), last, id))
    ensures Relinked(cells, LinkedFirst(Unlinked(cells, id), first, id))
  {
    hide Relinked, LinkedLast, LinkedFirst;
    UnlinkRelinks(cells, id);
    var middle := Unlinked(cells, id);
    LinkRelinks(middle, first, last, id);
    RelinkedTrans(cells, middle, LinkedLast(middle, last, id));
    RelinkedTrans(cells, middle, LinkedFirst(middle, first, id));
  }

  lemma {:induction false} UnlinkRelinks<K, V>(cells: Cells<K, V>, id: nat)
    requires id in cells
    ensures Relinked(cells, Unlinked(cells, id))
  {
  }

  lemma {:induction false} LinkRelinks<K, V>(cells: Cells<K, V>, first: nat, last: nat, id: nat)
    requires id in cells
    ensures Relinked(cells, LinkedLast(cells, last, id)) && Relinked(cells, LinkedFirst(cells, first, id))
  {
  }

  lemma {:induction false} RelinkedTrans<K, V>(a: Cells<K, V>, b: Cells<K, V>, c: Cells<K, V>)
    requires Relinked(a, b) && Relinked(b, c)
    ensures Relinked(a, c)
  {
    forall id | id in a && id in c
      ensures SameChild(a, c, id) && EntryOf(c[id]) == EntryOf(a[id])
    {
      assert id in b && SameChild(a, b, id) && SameChild(b, c, id);
    }
  }

  /** Moving a record that is not the last to the end of the list. */
  lemma {:induction false} MoveLastSound<K(!new), V>(cells: Cells<K, V>, buckets: seq<nat>, first: nat, last: nat,
                                                     chains: seq<seq<nat>>, order: seq<nat>, hash: K -> nat, i: nat)
    requires Sound(cells, buckets, first, last, chains, order, hash) && i + 1 < |order|
    ensures var id, order' := order[i], RemoveAt(order, i) + [order[i]];
            && id in cells && id != last
            && Sound(LinkedLast(Unlinked(cells, id), last, id), buckets,
                     if first == id then cells[id].next else first, id, chains, order', hash)
            && Relinked(cells, LinkedLast(Unlinked(cells, id), last, id))
  {
    hide Bucketed, Reachable, UniqueKeys, Listed, RemoveAt, Unlinked, LinkedLast, LinkedFirst, Exact, Relinked;
    var id := order[i];
    NotFirst(cells, order, first, last, i);
    UnlinkLists(cells, order, first, last, i);
    MovesRelink(cells, first, last, id);
    var middle := Unlinked(cells, id);
    var first' := if first == id then cells[id].next else first;
    LinkLastLists(middle, RemoveAt(order, i), first', last, id);
    Rearranged(order, i, RemoveAt(order, i) + [id]);
    RelinkSound(cells, LinkedLast(middle, last, id), buckets, first, last, chains, order, hash,
                first', id, RemoveAt(order, i) + [id]);
  }

  /** Moving a record that is not the first to the front of the list. */
  lemma {:induction false} MoveFirstSound<K(!new), V>(cells: Cells<K, V>, buckets: seq<nat>, first: nat, last: nat,
                                                      chains: seq<seq<nat>>, order: seq<nat>, hash: K -> nat, i: nat)
    requires Sound(cells, buckets, first, last, chains, order, hash) && 0 < i < |order|
    ensures var id, order' := order[i], [order[i]] + RemoveAt(order, i);
            && id in cells && id != first
            && Sound(LinkedFirst(Unlinked(cells, id), first, id), buckets, id,
                     if last == id then cells[id].prev else last, chains, order', hash)
            && Relinked(cells, LinkedFirst(Unlinked(cells, id), first, id))
  {
    hide Bucketed, Reachable, UniqueKeys, Listed, RemoveAt, Unlinked, LinkedLast, LinkedFirst, Exact, Relinked;
    var id := order[i];
    NotFirst(cells, order, first, last, i);
    UnlinkLists(cells, order, first, last, i);
    MovesRelink(cells, first, last, id);
    var middle := Unlinked(cells, id);
    var last' := if last == id then cells[id].prev else last;
    LinkFirstLists(middle, RemoveAt(order, i), first, last', id);
    Rearranged(order, i, [id] + RemoveAt(order, i));
    RelinkSound(cells, LinkedFirst(middle, first, id), buckets, first, last, chains, order, hash,
                id, last', [id] + RemoveAt(order, i));
  }

  lemma {:induction false} NotFirst<K, V>(cells: Cells<K, V>, order: seq<nat>, first: nat, last: nat, i: nat)
    requires Listed(cells, order, first, last) && i < |order|
    ensures order[i] in cells && order[i] !in RemoveAt(order, i) && order[i] != 0
    ensures first != 0 && last != 0
    ensures i > 0 ==> order[i] != first && cells[order[i]].prev != 0
    ensures i + 1 < |order| ==> order[i] != last && cells[order[i]].next != 0
    ensures i == 0 <==> order[i] == first
    ensures i + 1 == |order| <==> order[i] == last
  {
    assert ListedAt(cells, order, i) && ListedAt(cells, order, 0) && ListedAt(cells, order, |order| - 1);
    assert i > 0 ==> ListedAt(cells, order, i - 1);
    assert i + 1 < |order| ==> ListedAt(cells, order, i + 1);
  }

  lemma {:induction false} Rearranged(order: seq<nat>, i: nat, order': seq<nat>)
    requires i < |order|
    requires order' == RemoveAt(order, i) + [order[i]] || order' == [order[i]] + RemoveAt(order, i)
    ensures forall id :: id in order' <==> id in order
  {
    var rest := RemoveAt(order, i);
    forall id | id in order
      ensures id in order'
    {
      var k :| 0 <= k < |order| && order[k] == id;
      assert k != i ==> rest[if k < i then k else k - 1] == id;
    }
  }

  /** Changing a record's value. */
  lemma {:induction false} UpdateSound<K(!new), V>(cells: Cells<K, V>, buckets: seq<nat>, first: nat, last: nat,
                                                   chains: seq<seq<nat>>, order: seq<nat>, hash: K -> nat, id: nat,
                                                   value: V)
    requires Sound(cells, buckets, first, last, chains, order, hash) && id in cells
    ensures Sound(cells[id := cells[id].(value := value)], buckets, first, last, chains, order, hash)
  {
    hide Listed, Bucketed;
    var cells' := cells[id := cells[id].(value := value)];
    OnChains(cells, buckets, chains, hash);
    BucketedFrame(cells, cells', buckets, chains, hash);
    NoNull(cells, order, first, last);
    ListedFrame(cells, cells', order, first, last);
  }

  lemma {:induction false} NoNull<K, V>(cells: Cells<K, V>, order: seq<nat>, first: nat, last: nat)
    requires Listed(cells, order, first, last)
    ensures 0 !in cells && forall i :: 0 <= i < |order| ==> order[i] in cells
  {
    forall i | 0 <= i < |order|
      ensures order[i] in cells
    {
      assert ListedAt(cells, order, i);
    }
  }

  // ----- taking out and putting in -----

  /** A record taken off its chain and out of the list, and freed. */
  function Freed<K, V>(cells: Cells<K, V>, parent: nat, id: nat): Cells<K, V>
    requires id in cells
  {
    var cells1 := Unchained(cells, parent, cells[id].child);
    if id in cells1 then Unlinked(cells1, id) - {id} else cells1
  }

  lemma {:induction false} FreeSound<K(!new), V>(cells: Cells<K, V>, buckets: seq<nat>, first: nat, last: nat,
                                                 chains: seq<seq<nat>>, order: seq<nat>, hash: K -> nat, i: nat,
                                                 b: nat, k: nat)
    requires Sound(cells, buckets, first, last, chains, order, hash) && i < |order|
    requires b < |chains| && k < |chains[b]| && chains[b][k] == order[i]
    ensures var id, parent := order[i], At(chains[b], k - 1);
            && id in cells
            && Sound(Freed(cells, parent, id), Rehead(buckets, b, parent, cells[id].child),
                     if first == id then cells[id].next else first,
                     if last == id then cells[id].prev else last,
                     chains[b := RemoveAt(chains[b], k)], RemoveAt(order, i), hash)
            && KeepsEntries(cells, Freed(cells, parent, id), id)
  {
    hide Listed, Bucketed, Reachable, UniqueKeys, Exact, RemoveAt, Unchained, Unlinked, Absent, Rehead;
    ListedFacts(cells, order, first, last, i);
    OnChains(cells, buckets, chains, hash);
    var id, parent := order[i], At(chains[b], k - 1);
    var first' := if first == id then cells[id].next else first;
    var last' := if last == id then cells[id].prev else last;
    var child := cells[id].child;
    var cells1, chains1 := Unchained(cells, parent, child), chains[b := RemoveAt(chains[b], k)];
    var buckets1 := Rehead(buckets, b, parent, child);
    UnchainKeeps(cells, buckets, chains, hash, b, k);
    UnchainFrame(cells, order, first, last, parent, child);
    UnlinkLists(cells1, order, first, last, i);
    var cells2 := Unlinked(cells1, id);
    UnlinkRelinks(cells1, id);
    assert SamePlace(cells, cells1, id);
    FreedParts(cells, cells1, cells2, order, i, first', last', id);
    FreedChains(cells1, cells2, buckets1, chains1, hash, id);
    FreedReach(cells, cells2, buckets, chains, hash, b, k);
  }

  /** Every other record keeps its key and value. */
  ghost predicate KeepsEntries<K, V>(cells: Cells<K, V>, cells': Cells<K, V>, id: nat) {
    forall x :: x in cells && x != id ==> x in cells' && EntryOf(cells'[x]) == EntryOf(cells[x])
  }

  lemma {:induction false} ListedFacts<K, V>(cells: Cells<K, V>, order: seq<nat>, first: nat, last: nat, i: nat)
    requires Listed(cells, order, first, last) && i < |order|
    ensures order[i] in cells && 0 !in cells && order[i] !in RemoveAt(order, i)
  {
    assert ListedAt(cells, order, i);
  }

  lemma {:induction false} UnchainFrame<K, V>(cells: Cells<K, V>, order: seq<nat>, first: nat, last: nat,
                                              parent: nat, child: nat)
    requires Listed(cells, order, first, last)
    ensures Listed(Unchained(cells, parent, child), order, first, last)
    ensures Unchained(cells, parent, child).Keys == cells.Keys
    ensures forall id :: id in cells ==> SamePlace(cells, Unchained(cells, parent, child), id)
    ensures forall id :: id in cells ==> EntryOf(Unchained(cells, parent, child)[id]) == EntryOf(cells[id])
  {
    var cells' := Unchained(cells, parent, child);
    forall i | 0 <= i < |order|
      ensures SamePlace(cells, cells', order[i])
    {
      assert ListedAt(cells, order, i);
    }
    ListedFrame(cells, cells', order, first, last);
  }

  lemma {:induction false} FreedParts<K, V>(cells: Cells<K, V>, cells1: Cells<K, V>, cells2: Cells<K, V>,
                                            order: seq<nat>, i: nat, first: nat, last: nat, id: nat)
    requires Exact(cells, order) && i < |order| && order[i] == id && UniqueKeys(cells)
    requires cells1.Keys == cells.Keys && Relinked(cells1, cells2)
    requires forall x :: x in cells && x in cells1 ==> EntryOf(cells1[x]) == EntryOf(cells[x])
    requires Listed(cells2, RemoveAt(order, i), first, last) && id !in RemoveAt(order, i)
    ensures Listed(cells2 - {id}, RemoveAt(order, i), first, last)
    ensures Exact(cells2 - {id}, RemoveAt(order, i)) && UniqueKeys(cells2 - {id})
    ensures KeepsEntries(cells, cells2 - {id}, id)
  {
    var cells', order' := cells2 - {id}, RemoveAt(order, i);
    forall x | x in cells && x != id
      ensures x in cells' && EntryOf(cells'[x]) == EntryOf(cells[x])
    {
      assert x in cells1 && x in cells2;
      assert SameChild(cells1, cells2, x);
    }
    forall k | 0 <= k < |order'|
      ensures SamePlace(cells2, cells', order'[k])
    {
      assert ListedAt(cells2, order', k);
    }
    ListedFrame(cells2, cells', order', first, last);
    forall x | x in cells'
      ensures x in order'
    {
      var k :| 0 <= k < |order| && order[k] == x;
      assert order'[if k < i then k else k - 1] == x;
    }
    forall x | x in order'
      ensures x in cells'
    {
      var k :| 0 <= k < |order'| && order'[k] == x;
      assert x in order;
    }
    forall a, b | a in cells' && b in cells' && cells'[a].key == cells'[b].key
      ensures a == b
    {
      assert EntryOf(cells'[a]) == EntryOf(cells[a]) && EntryOf(cells'[b]) == EntryOf(cells[b]);
    }
  }

  lemma {:induction false} FreedChains<K(!new), V>(cells1: Cells<K, V>, cells2: Cells<K, V>, buckets: seq<nat>,
                                                   chains: seq<seq<nat>>, hash: K -> nat, id: nat)
    requires Bucketed(cells1, buckets, chains, hash) && Relinked(cells1, cells2) && Absent(chains, id)
    ensures Bucketed(cells2 - {id}, buckets, chains, hash)
  {
    OnChains(cells1, buckets, chains, hash);
    forall b, i | 0 <= b < |chains| && 0 <= i < |chains[b]|
      ensures SameChild(cells1, cells2 - {id}, chains[b][i])
    {
      assert chains[b][i] in cells1 && SameChild(cells1, cells2, chains[b][i]);
      assert chains[b][i] in chains[b];
    }
    BucketedFrame(cells1, cells2 - {id}, buckets, chains, hash);
  }

  lemma {:induction false} FreedReach<K(!new), V>(cells: Cells<K, V>, cells2: Cells<K, V>, buckets: seq<nat>,
                                                  chains: seq<seq<nat>>, hash: K -> nat, b: nat, k: nat)
    requires Reachable(cells, chains, hash) && b < |chains| && k < |chains[b]|
    requires KeepsEntries(cells, cells2 - {chains[b][k]}, chains[b][k])
    requires forall x :: x in cells2 ==> x in cells
    ensures Reachable(cells2 - {chains[b][k]}, chains[b := RemoveAt(chains[b], k)], hash)
  {
    var id := chains[b][k];
    var chains', cells' := chains[b := RemoveAt(chains[b], k)], cells2 - {id};
    forall x | x in cells'
      ensures x in chains'[BucketOf(hash, |chains'|, cells'[x].key)]
    {
      assert EntryOf(cells'[x]) == EntryOf(cells[x]);
      var c := BucketOf(hash, |chains|, cells[x].key);
      assert x in chains[c];
      if c == b {
        var j :| 0 <= j < |chains[b]| && chains[b][j] == x;
        assert chains'[b][if j < k then j else j - 1] == x;
      }
    }
  }

  /** A record added to the chains, and the structure complete again once it is in the list. */
  ghost predicate Added<K(!new), V>(cells: Cells<K, V>, chains: seq<seq<nat>>, cells': Cells<K, V>,
                                    chains': seq<seq<nat>>, b: nat, id: nat, e: Entry<K, V>)
  {
    && b < |chains| == |chains'|
    && id !in cells && id in cells' && EntryOf(cells'[id]) == e
    && (forall x :: x in cells' <==> x in cells || x == id)
    && KeepsEntries(cells, cells', id)
    && (forall c :: 0 <= c < |chains| && c != b ==> chains'[c] == chains[c])
    && (forall x :: x in chains'[b] <==> x in chains[b] || x == id)
  }

  lemma {:induction false} AddSound<K(!new), V>(cells: Cells<K, V>, buckets: seq<nat>, first: nat, last: nat,
                                                chains: seq<seq<nat>>, order: seq<nat>, hash: K -> nat,
                                                cells1: Cells<K, V>, buckets': seq<nat>, chains': seq<seq<nat>>,
                                                cells': Cells<K, V>, first': nat, last': nat, order': seq<nat>,
                                                b: nat, id: nat, e: Entry<K, V>)
    requires Sound(cells, buckets, first, last, chains, order, hash)
    requires Added(cells, chains, cells1, chains', b, id, e) && BucketOf(hash, |chains|, e.key) == b
    requires forall x :: x in cells ==> cells[x].key != e.key
    requires Bucketed(cells1, buckets', chains', hash) && Relinked(cells1, cells')
    requires Listed(cells', order', first', last')
    requires forall x :: x in order' <==> x in order || x == id
    ensures Sound(cells', buckets', first', last', chains', order', hash)
    ensures KeepsEntries(cells, cells', id) && id in cells' && EntryOf(cells'[id]) == e
  {
    hide Listed, Bucketed, BucketOf;
    OnChains(cells1, buckets', chains', hash);
    forall x | x in cells1
      ensures x in cells' && SameChild(cells1, cells', x) && EntryOf(cells'[x]) == EntryOf(cells1[x])
    {
      assert x in cells';
    }
    BucketedFrame(cells1, cells', buckets', chains', hash);
    forall x | x in cells && x != id
      ensures x in cells' && EntryOf(cells'[x]) == EntryOf(cells[x])
    {
      assert x in cells1 && EntryOf(cells1[x]) == EntryOf(cells[x]);
    }
    forall x | x in cells'
      ensures x in chains'[BucketOf(hash, |chains'|, cells'[x].key)]
    {
      assert x in cells1;
      if x != id {
        assert EntryOf(cells'[x]) == EntryOf(cells[x]);
        assert x in chains[BucketOf(hash, |chains|, cells[x].key)];
      }
    }
    forall x, y | x in cells' && y in cells' && cells'[x].key == cells'[y].key
      ensures x == y
    {
      assert x in cells1 && y in cells1;
      assert x != id ==> EntryOf(cells'[x]) == EntryOf(cells[x]);
      assert y != id ==> EntryOf(cells'[y]) == EntryOf(cells[y]);
    }
  }

  /** A new record at the head of its chain. */
  lemma {:induction false} PushAdds<K(!new), V>(cells: Cells<K, V>, buckets: seq<nat>, chains: seq<seq<nat>>,
                                                hash: K -> nat, b: nat, id: nat, e: Entry<K, V>)
    requires Bucketed(cells, buckets, chains, hash) && id !in cells
    requires b < |chains| && BucketOf(hash, |chains|, e.key) == b
    ensures b < |buckets|
    ensures var cells1 := cells[id := Cell(buckets[b], 0, 0, e.key, e.value)];
            var chains' := chains[b := [id] + chains[b]];
            && Added(cells, chains, cells1, chains', b, id, e)
            && Bucketed(cells1, buckets[b := id], chains', hash)
  {
    hide Bucketed, BucketOf;
    OnChains(cells, buckets, chains, hash);
    var cells1 := cells[id := Cell(buckets[b], 0, 0, e.key, e.value)];
    BucketedFrame(cells, cells1, buckets, chains, hash);
    NotChained(cells, chains, id);
    PushKeeps(cells1, buckets, chains, hash, b, id);
    assert SetChild(cells1, id, buckets[b]) == cells1;
  }

  lemma {:induction false} NotChained<K, V>(cells: Cells<K, V>, chains: seq<seq<nat>>, id: nat)
    requires forall b, i :: 0 <= b < |chains| && 0 <= i < |chains[b]| ==> chains[b][i] in cells
    requires id !in cells
    ensures Absent(chains, id)
  {
  }

  /** A new record at the tail of its chain. */
  lemma {:induction false} AppendAdds<K(!new), V>(cells: Cells<K, V>, buckets: seq<nat>, chains: seq<seq<nat>>,
                                                  hash: K -> nat, b: nat, id: nat, e: Entry<K, V>)
    requires Bucketed(cells, buckets, chains, hash) && id !in cells && 0 !in cells && id != 0
    requires b < |chains| && BucketOf(hash, |chains|, e.key) == b
    ensures b < |buckets|
    ensures var tail := At(chains[b], |chains[b]| - 1);
            var cells1 := Unchained(cells[id := Cell(0, 0, 0, e.key, e.value)], tail, id);
            var chains' := chains[b := chains[b] + [id]];
            && Added(cells, chains, cells1, chains', b, id, e)
            && Bucketed(cells1, Rehead(buckets, b, tail, id), chains', hash)
  {
    hide Bucketed, BucketOf;
    OnChains(cells, buckets, chains, hash);
    var cells0 := cells[id := Cell(0, 0, 0, e.key, e.value)];
    BucketedFrame(cells, cells0, buckets, chains, hash);
    NotChained(cells, chains, id);
    AppendKeeps(cells0, buckets, chains, hash, b, id);
    assert |chains[b]| > 0 ==> chains[b][|chains[b]| - 1] in cells;
  }

  /** Joining the list at its end or at its front. */
  lemma {:induction false} AddLast<K(!new), V>(cells: Cells<K, V>, buckets: seq<nat>, first: nat, last: nat,
                                               chains: seq<seq<nat>>, order: seq<nat>, hash: K -> nat,
                                               cells1: Cells<K, V>, buckets': seq<nat>, chains': seq<seq<nat>>,
                                               b: nat, id: nat, e: Entry<K, V>)
    requires Sound(cells, buckets, first, last, chains, order, hash) && id != 0
    requires Added(cells, chains, cells1, chains', b, id, e) && BucketOf(hash, |chains|, e.key) == b
    requires forall x :: x in cells ==> cells[x].key != e.key
    requires forall x :: x in cells ==> SamePlace(cells, cells1, x)
    requires Bucketed(cells1, buckets', chains', hash)
    ensures Sound(LinkedLast(cells1, last, id), buckets', if first == 0 then id else first, id,
                  chains', order + [id], hash)
    ensures KeepsEntries(cells, LinkedLast(cells1, last, id), id)
    ensures EntryOf(LinkedLast(cells1, last, id)[id]) == e
  {
    hide Listed, Bucketed, BucketOf, LinkedLast, Relinked;
    NoNull(cells, order, first, last);
    ListedFrame(cells, cells1, order, first, last);
    LinkLastLists(cells1, order, first, last, id);
    LinkRelinks(cells1, first, last, id);
    AddSound(cells, buckets, first, last, chains, order, hash, cells1, buckets', chains',
             LinkedLast(cells1, last, id), if first == 0 then id else first, id, order + [id], b, id, e);
  }

  lemma {:induction false} AddFirst<K(!new), V>(cells: Cells<K, V>, buckets: seq<nat>, first: nat, last: nat,
                                                chains: seq<seq<nat>>, order: seq<nat>, hash: K -> nat,
                                                cells1: Cells<K, V>, buckets': seq<nat>, chains': seq<seq<nat>>,
                                                b: nat, id: nat, e: Entry<K, V>)
    requires Sound(cells, buckets, first, last, chains, order, hash) && id != 0
    requires Added(cells, chains, cells1, chains', b, id, e) && BucketOf(hash, |chains|, e.key) == b
    requires forall x :: x in cells ==> cells[x].key != e.key
    requires forall x :: x in cells ==> SamePlace(cells, cells1, x)
    requires Bucketed(cells1, buckets', chains', hash)
    ensures Sound(LinkedFirst(cells1, first, id), buckets', id, if last == 0 then id else last,
                  chains', [id] + order, hash)
    ensures KeepsEntries(cells, LinkedFirst(cells1, first, id), id)
    ensures EntryOf(LinkedFirst(cells1, first, id)[id]) == e
  {
    hide Listed, Bucketed, BucketOf, LinkedFirst, Relinked;
    NoNull(cells, order, first, last);
    ListedFrame(cells, cells1, order, first, last);
    LinkFirstLists(cells1, order, first, last, id);
    LinkRelinks(cells1, first, last, id);
    AddSound(cells, buckets, first, last, chains, order, hash, cells1, buckets', chains',
             LinkedFirst(cells1, first, id), id, if last == 0 then id else last, [id] + order, b, id, e);
  }

  // ----- a record at a new address -----

  /** A copy of a record, with another value, in the place of the original. */
  function Copied<K, V>(cells: Cells<K, V>, was: nat, id: nat, value: V): Cells<K, V>
    requires was in cells
  {
    cells[id := cells[was].(value := value)]
  }

  /** The record's neighbours in chain and list point at the copy, and the original is freed. */
  function Swapped<K, V>(cells: Cells<K, V>, parent: nat, was: nat, id: nat, value: V): Cells<K, V>
    requires was in cells
  {
    var c := cells[was];
    SetPrev(SetNext(Unchained(Copied(cells, was, id, value), parent, id), c.prev, id), c.next, id) - {was}
  }

  lemma {:induction false} SwapLists<K, V>(cells: Cells<K, V>, order: seq<nat>, first: nat, last: nat, i: nat, id: nat)
    requires Listed(cells, order, first, last) && i < |order| && id in cells && id !in order
    requires order[i] in cells
    requires cells[id].prev == cells[order[i]].prev && cells[id].next == cells[order[i]].next
    ensures var c := cells[order[i]];
            Listed(SetPrev(SetNext(cells, c.prev, id), c.next, id) - {order[i]}, Replaced(order, i, id),
                   if first == order[i] then id else first, if last == order[i] then id else last)
  {
    var c, order' := cells[order[i]], Replaced(order, i, id);
    var cells' := SetPrev(SetNext(cells, c.prev, id), c.next, id) - {order[i]};
    assert ListedAt(cells, order, i);
    assert i > 0 ==> ListedAt(cells, order, i - 1);
    assert i + 1 < |order| ==> ListedAt(cells, order, i + 1);
    forall k | 0 <= k < |order'|
      ensures ListedAt(cells', order', k)
    {
      assert ListedAt(cells, order, k);
    }
    assert |order| > 0 ==> ListedAt(cells, order, 0) && ListedAt(cells, order, |order| - 1);
  }

  lemma {:induction false} SwapSound<K(!new), V>(cells: Cells<K, V>, buckets: seq<nat>, first: nat, last: nat,
                                                 chains: seq<seq<nat>>, order: seq<nat>, hash: K -> nat, i: nat,
                                                 b: nat, k: nat, id: nat, value: V)
    requires Sound(cells, buckets, first, last, chains, order, hash) && i < |order|
    requires b < |chains| && k < |chains[b]| && chains[b][k] == order[i]
    requires id !in cells && id != 0
    ensures var was, parent := order[i], At(chains[b], k - 1);
            && was in cells && |buckets| == |chains|
            && Sound(Swapped(cells, parent, was, id, value), Rehead(buckets, b, parent, id),
                     if first == was then id else first, if last == was then id else last,
                     chains[b := Replaced(chains[b], k, id)], Replaced(order, i, id), hash)
            && SwapsEntry(cells, Swapped(cells, parent, was, id, value), was, id, value)
  {
    hide Listed, Bucketed, Reachable, UniqueKeys, Exact, Replaced, Unchained, Absent, Rehead, Swapped, Copied,
         SwapsEntry;
    ListedFacts(cells, order, first, last, i);
    OnChains(cells, buckets, chains, hash);
    var was, parent := order[i], At(chains[b], k - 1);
    var cells0 := Copied(cells, was, id, value);
    SwapCopy(cells, buckets, first, last, chains, order, hash, was, id, value);
    SubstituteKeeps(cells0, buckets, chains, hash, b, k, id);
    var cells1 := Unchained(cells0, parent, id);
    UnchainFrame(cells0, order, first, last, parent, id);
    assert SamePlace(cells0, cells1, was) && SamePlace(cells0, cells1, id);
    SwapLists(cells1, order, first, last, i, id);
    var cells' := Swapped(cells, parent, was, id, value);
    SwapIs(cells, cells0, cells1, parent, was, id, value);
    SwapFrame(cells, cells0, cells1, cells', Rehead(buckets, b, parent, id),
              chains[b := Replaced(chains[b], k, id)], hash, was, id, value);
    ChainBucket(cells, buckets, chains, hash, b, k);
    OrderDistinct(cells, order, first, last);
    SwapRest(cells, cells', chains, order, hash, i, b, k, id, value);
  }

  lemma {:induction false} OrderDistinct<K, V>(cells: Cells<K, V>, order: seq<nat>, first: nat, last: nat)
    requires Listed(cells, order, first, last)
    ensures Distinct(order)
  {
  }

  /** One record is at another address with another value, the others are as they were. */
  ghost predicate SwapsEntry<K, V>(cells: Cells<K, V>, cells': Cells<K, V>, was: nat, id: nat, value: V)
    requires was in cells
  {
    && (forall x :: x in cells' <==> (x in cells && x != was) || x == id)
    && (forall x :: x in cells && x in cells' ==> EntryOf(cells'[x]) == EntryOf(cells[x]))
    && id in cells' && EntryOf(cells'[id]) == Entry(cells[was].key, value)
  }

  lemma {:induction false} SwapCopy<K(!new), V>(cells: Cells<K, V>, buckets: seq<nat>, first: nat, last: nat,
                                                chains: seq<seq<nat>>, order: seq<nat>, hash: K -> nat, was: nat,
                                                id: nat, value: V)
    requires Sound(cells, buckets, first, last, chains, order, hash)
    requires was in cells && id !in cells && id != 0
    ensures var cells0 := Copied(cells, was, id, value);
            && Listed(cells0, order, first, last) && Bucketed(cells0, buckets, chains, hash)
            && Absent(chains, id) && id !in order && 0 !in cells0
            && cells0 == cells[id := cells[was].(value := value)]
  {
    hide Listed, Bucketed;
    var cells0 := Copied(cells, was, id, value);
    OnChains(cells, buckets, chains, hash);
    NoNull(cells, order, first, last);
    NotChained(cells, chains, id);
    BucketedFrame(cells, cells0, buckets, chains, hash);
    ListedFrame(cells, cells0, order, first, last);
  }

  lemma {:induction false} SetRelinks<K, V>(cells: Cells<K, V>, id: nat, x: nat)
    ensures Relinked(cells, SetNext(cells, id, x)) && Relinked(cells, SetPrev(cells, id, x))
  {
  }

  lemma {:induction false} SwapIs<K, V>(cells: Cells<K, V>, cells0: Cells<K, V>, cells1: Cells<K, V>, parent: nat,
                                        was: nat, id: nat, value: V)
    requires was in cells && id !in cells && cells0 == Copied(cells, was, id, value)
    requires cells1 == Unchained(cells0, parent, id) && cells1.Keys == cells0.Keys
    requires forall x :: x in cells0 ==> SamePlace(cells0, cells1, x)
    requires forall x :: x in cells0 ==> EntryOf(cells1[x]) == EntryOf(cells0[x])
    ensures was in cells1 && cells1[was].prev == cells[was].prev && cells1[was].next == cells[was].next
    ensures Swapped(cells, parent, was, id, value) ==
            SetPrev(SetNext(cells1, cells[was].prev, id), cells[was].next, id) - {was}
    ensures SwapsEntry(cells, Swapped(cells, parent, was, id, value), was, id, value)
    ensures forall x :: x in cells1 && x != was ==> SameChild(cells1, Swapped(cells, parent, was, id, value), x)
  {
    hide Unchained, SetNext, SetPrev, Relinked, SwapsEntry;
    assert SamePlace(cells0, cells1, was);
    var middle := SetNext(cells1, cells[was].prev, id);
    var cells2 := SetPrev(middle, cells[was].next, id);
    SetRelinks(cells1, cells[was].prev, id);
    SetRelinks(middle, cells[was].next, id);
    RelinkedTrans(cells1, middle, cells2);
    SwapEntries(cells, cells0, cells1, cells2, was, id, value);
    SwapChildren(cells1, cells2, was);
  }

  lemma {:induction false} SwapChildren<K, V>(cells1: Cells<K, V>, cells2: Cells<K, V>, was: nat)
    requires Relinked(cells1, cells2)
    ensures forall x :: x in cells1 && x != was ==> SameChild(cells1, cells2 - {was}, x)
  {
    forall x | x in cells1 && x != was
      ensures SameChild(cells1, cells2 - {was}, x)
    {
      assert x in cells2 && SameChild(cells1, cells2, x);
    }
  }

  lemma {:induction false} SwapEntries<K, V>(cells: Cells<K, V>, cells0: Cells<K, V>, cells1: Cells<K, V>,
                                             cells2: Cells<K, V>, was: nat, id: nat, value: V)
    requires was in cells && id !in cells && cells0 == cells[id := cells[was].(value := value)]
    requires cells1.Keys == cells0.Keys && Relinked(cells1, cells2)
    requires forall x :: x in cells0 ==> EntryOf(cells1[x]) == EntryOf(cells0[x])
    ensures SwapsEntry(cells, cells2 - {was}, was, id, value)
  {
    forall x | x in cells0
      ensures x in cells2 && EntryOf(cells2[x]) == EntryOf(cells0[x])
    {
      assert x in cells1 && x in cells2;
      assert SameChild(cells1, cells2, x);
    }
    assert cells2.Keys == cells0.Keys;
  }

  lemma {:induction false} ChainBucket<K(!new), V>(cells: Cells<K, V>, buckets: seq<nat>, chains: seq<seq<nat>>,
                                                   hash: K -> nat, b: nat, k: nat)
    requires Bucketed(cells, buckets, chains, hash) && b < |chains| && k < |chains[b]|
    ensures chains[b][k] in cells && BucketOf(hash, |chains|, cells[chains[b][k]].key) == b
  {
    assert Chained(cells, chains[b], buckets[b]) && ChainedAt(cells, chains[b], k);
    assert InBucket(cells, chains[b], hash, |buckets|, b);
  }

  lemma {:induction false} SwapFrame<K(!new), V>(cells: Cells<K, V>, cells0: Cells<K, V>, cells1: Cells<K, V>,
                                                 cells': Cells<K, V>, buckets: seq<nat>, chains: seq<seq<nat>>,
                                                 hash: K -> nat, was: nat, id: nat, value: V)
    requires Bucketed(cells1, buckets, chains, hash) && Absent(chains, was)
    requires forall x :: x in cells1 && x != was ==> SameChild(cells1, cells', x)
    ensures Bucketed(cells', buckets, chains, hash)
  {
    hide Bucketed;
    OnChains(cells1, buckets, chains, hash);
    forall c, j | 0 <= c < |chains| && 0 <= j < |chains[c]|
      ensures SameChild(cells1, cells', chains[c][j])
    {
      assert chains[c][j] in chains[c];
    }
    BucketedFrame(cells1, cells', buckets, chains, hash);
  }

  lemma {:induction false} SwapRest<K(!new), V>(cells: Cells<K, V>, cells': Cells<K, V>, chains: seq<seq<nat>>,
                                                order: seq<nat>, hash: K -> nat, i: nat, b: nat, k: nat, id: nat,
                                                value: V)
    requires Exact(cells, order) && UniqueKeys(cells) && Reachable(cells, chains, hash) && Distinct(order)
    requires i < |order| && order[i] in cells && id !in cells
    requires b < |chains| && k < |chains[b]| && chains[b][k] == order[i]
    requires BucketOf(hash, |chains|, cells[order[i]].key) == b
    requires SwapsEntry(cells, cells', order[i], id, value)
    ensures Exact(cells', Replaced(order, i, id)) && UniqueKeys(cells')
    ensures Reachable(cells', chains[b := Replaced(chains[b], k, id)], hash)
  {
    var was, order' := order[i], Replaced(order, i, id);
    var chains' := chains[b := Replaced(chains[b], k, id)];
    forall x | x in cells'
      ensures x in order'
    {
      if x == id {
        assert order'[i] == id;
      } else {
        var j :| 0 <= j < |order| && order[j] == x;
        assert order'[j] == x;
      }
    }
    forall x | x in order'
      ensures x in cells'
    {
      var j :| 0 <= j < |order'| && order'[j] == x;
      assert j != i ==> order[j] in order;
    }
    forall x, y | x in cells' && y in cells' && cells'[x].key == cells'[y].key
      ensures x == y
    {
      assert x in cells ==> EntryOf(cells'[x]) == EntryOf(cells[x]);
      assert y in cells ==> EntryOf(cells'[y]) == EntryOf(cells[y]);
    }
    forall x | x in cells'
      ensures x in chains'[BucketOf(hash, |chains'|, cells'[x].key)]
    {
      if x == id {
        assert chains'[b][k] == id;
      } else {
        assert EntryOf(cells'[x]) == EntryOf(cells[x]);
        var c := BucketOf(hash, |chains|, cells[x].key);
        var j :| 0 <= j < |chains[c]| && chains[c][j] == x;
        assert chains'[c][j] == x;
      }
    }
  }

  // ----- searching -----

  /** Some record has the key. */
  ghost predicate HasKey<K(!new), V>(cells: Cells<K, V>, key: K) {
    exists id :: id in cells && cells[id].key == key
  }

  /** The place of a record on the chain of its key. */
  ghost predicate Placed<K(!new), V>(cells: Cells<K, V>, chains: seq<seq<nat>>, hash: K -> nat, key: K, ptr: nat,
                                     parent: nat, k: nat)
  {
    && |chains| > 0 && ptr in cells && cells[ptr].key == key
    && var chain := chains[BucketOf(hash, |chains|, key)];
       k < |chain| && chain[k] == ptr && parent == At(chain, k - 1)
  }

  lemma {:induction false} ChainStep<K(!new), V>(cells: Cells<K, V>, buckets: seq<nat>, chains: seq<seq<nat>>,
                                                 hash: K -> nat, b: nat, k: nat)
    requires Bucketed(cells, buckets, chains, hash) && b < |chains| && 0 !in cells && k <= |chains[b]|
    ensures |buckets| == |chains| && buckets[b] == At(chains[b], 0)
    ensures k < |chains[b]| ==> chains[b][k] in cells && cells[chains[b][k]].child == At(chains[b], k + 1)
    ensures At(chains[b], k) == 0 <==> k == |chains[b]|
  {
    assert Chained(cells, chains[b], buckets[b]);
    assert k < |chains[b]| ==> ChainedAt(cells, chains[b], k);
  }

  lemma {:induction false} NotOnChain<K(!new), V>(cells: Cells<K, V>, chains: seq<seq<nat>>, hash: K -> nat, key: K)
    requires Reachable(cells, chains, hash)
    requires var chain := chains[BucketOf(hash, |chains|, key)];
             forall i :: 0 <= i < |chain| && chain[i] in cells ==> cells[chain[i]].key != key
    ensures !HasKey(cells, key)
  {
    forall id | id in cells
      ensures cells[id].key != key
    {
      assert id in chains[BucketOf(hash, |chains|, cells[id].key)];
    }
  }

  /** Walks the chain of a key's bucket to the record of the key, if there is one. */
  method FindRecord<K(==, !new), V>(cells: Cells<K, V>, buckets: seq<nat>, hash: K -> nat, key: K,
                                    ghost chains: seq<seq<nat>>)
    returns (ptr: nat, parent: nat, ghost k: nat)
    requires Bucketed(cells, buckets, chains, hash) && Reachable(cells, chains, hash) && 0 !in cells
    ensures ptr == 0 <==> !HasKey(cells, key)
    ensures ptr != 0 ==> Placed(cells, chains, hash, key, ptr, parent, k)
    ensures ptr == 0 ==>
              var chain := chains[BucketOf(hash, |chains|, key)];
              parent == At(chain, |chain| - 1)
  {
    hide Bucketed, BucketOf, Reachable;
    OnChains(cells, buckets, chains, hash);
    var b := BucketOf(hash, |buckets|, key);
    ghost var chain := chains[b];
    ChainStep(cells, buckets, chains, hash, b, 0);
    parent, ptr, k := 0, buckets[b], 0;
    while ptr != 0
      invariant 0 <= k <= |chain| && ptr == At(chain, k) && parent == At(chain, k - 1)
      invariant ptr == 0 <==> k == |chain|
      invariant forall i :: 0 <= i < k && chain[i] in cells ==> cells[chain[i]].key != key
      decreases |chain| - k
    {
      ChainStep(cells, buckets, chains, hash, b, k);
      if cells[ptr].key == key {
        return;
      }
      parent := ptr;
      ptr := cells[ptr].child;
      k := k + 1;
      ChainStep(cells, buckets, chains, hash, b, k);
    }
    NotOnChain(cells, chains, hash, key);
  }

  lemma {:induction false} PlacedRecord<K(!new), V>(cells: Cells<K, V>, chains: seq<seq<nat>>, hash: K -> nat,
                                                    key: K, ptr: nat, parent: nat, k: nat)
    requires Placed(cells, chains, hash, key, ptr, parent, k)
    ensures ptr in cells && cells[ptr].key == key
  {
  }

  /** The place of a record in the list. */
  lemma {:induction false} ListPlace<K, V>(cells: Cells<K, V>, order: seq<nat>, id: nat) returns (i: nat)
    requires Exact(cells, order) && id in cells
    ensures i < |order| && order[i] == id
  {
    i :| 0 <= i < |order| && order[i] == id;
  }

  // ----- the records in order, under each change -----

  lemma {:induction false} RelinkLists<K, V>(cells: Cells<K, V>, cells': Cells<K, V>, order: seq<nat>,
                                             es: seq<Entry<K, V>>)
    requires Lists(cells, order, es) && Relinked(cells, cells')
    ensures Lists(cells', order, es)
  {
    forall i | 0 <= i < |order|
      ensures order[i] in cells' && es[i] == EntryOf(cells'[order[i]])
    {
      assert order[i] in cells && order[i] in cells';
    }
  }

  lemma {:induction false} KeepLists<K, V>(cells: Cells<K, V>, cells': Cells<K, V>, order: seq<nat>,
                                           es: seq<Entry<K, V>>, id: nat)
    requires Lists(cells, order, es) && KeepsEntries(cells, cells', id) && id !in order
    ensures Lists(cells', order, es)
  {
    forall i | 0 <= i < |order|
      ensures order[i] in cells' && es[i] == EntryOf(cells'[order[i]])
    {
      assert order[i] in cells && order[i] in order;
    }
  }

  /** A record's move to either end. */
  lemma {:induction false} MovedEntries<K, V>(cells: Cells<K, V>, cells': Cells<K, V>, order: seq<nat>,
                                              es: seq<Entry<K, V>>, i: nat)
    requires Lists(cells, order, es) && Relinked(cells, cells') && i < |order|
    ensures Lists(cells', RemoveAt(order, i) + [order[i]], RemoveAt(es, i) + [es[i]])
    ensures Lists(cells', [order[i]] + RemoveAt(order, i), [es[i]] + RemoveAt(es, i))
  {
    hide Relinked;
    RelinkLists(cells, cells', order, es);
  }

  lemma {:induction false} RemovedEntries<K, V>(cells: Cells<K, V>, order: seq<nat>, es: seq<Entry<K, V>>, i: nat)
    requires Lists(cells, order, es) && i < |order|
    ensures Lists(cells, RemoveAt(order, i), RemoveAt(es, i))
  {
  }

  lemma {:induction false} AddedEntries<K, V>(cells: Cells<K, V>, order: seq<nat>, es: seq<Entry<K, V>>, id: nat)
    requires Lists(cells, order, es) && id in cells
    ensures Lists(cells, order + [id], es + [EntryOf(cells[id])])
    ensures Lists(cells, [id] + order, [EntryOf(cells[id])] + es)
  {
  }

  /** Where a key is among the records: at its record's place, and nowhere else. */
  lemma {:induction false} KeyPlace<K(!new), V>(cells: Cells<K, V>, order: seq<nat>, es: seq<Entry<K, V>>, key: K)
    requires Lists(cells, order, es) && Exact(cells, order) && UniqueKeys(cells) && Distinct(order)
    ensures HasKey(cells, key) <==> exists i :: 0 <= i < |es| && es[i].key == key
    ensures forall i, j :: 0 <= i < |es| && 0 <= j < |es| && es[i].key == es[j].key ==> i == j
  {
    if id :| id in cells && cells[id].key == key {
      var i :| 0 <= i < |order| && order[i] == id;
      assert es[i].key == key;
    }
    if i :| 0 <= i < |es| && es[i].key == key {
      assert order[i] in cells && cells[order[i]].key == key;
    }
    forall i, j | 0 <= i < |es| && 0 <= j < |es| && es[i].key == es[j].key
      ensures i == j
    {
      assert order[i] == order[j];
    }
  }

  // ----- each change, on the structure and on the records in order -----

  /** The structure is sound and holds these records in this order. */
  ghost predicate Represents<K(!new), V>(cells: Cells<K, V>, buckets: seq<nat>, first: nat, last: nat,
                                         chains: seq<seq<nat>>, order: seq<nat>, hash: K -> nat,
                                         es: seq<Entry<K, V>>)
  {
    Sound(cells, buckets, first, last, chains, order, hash) && Lists(cells, order, es)
  }

  function NoBuckets(n: nat): seq<nat> {
    seq(n, _ => 0)
  }

  function NoChains(n: nat): seq<seq<nat>> {
    seq(n, _ => [])
  }

  lemma {:induction false} EmptyRepresents<K(!new), V>(numBuckets: nat, hash: K -> nat)
    ensures numBuckets > 0 ==>
              Represents<K, V>(map[], NoBuckets(numBuckets), 0, 0, NoChains(numBuckets), [], hash, [])
  {
  }

  /** What a search may rely on. */
  lemma {:induction false} Searchable<K(!new), V>(cells: Cells<K, V>, buckets: seq<nat>, first: nat, last: nat,
                                                  chains: seq<seq<nat>>, order: seq<nat>, hash: K -> nat,
                                                  es: seq<Entry<K, V>>, key: K)
    requires Represents(cells, buckets, first, last, chains, order, hash, es)
    ensures Bucketed(cells, buckets, chains, hash) && Reachable(cells, chains, hash) && 0 !in cells
    ensures Exact(cells, order) && |buckets| == |chains| > 0 && |es| == |order|
    ensures HasKey(cells, key) <==> exists i :: 0 <= i < |es| && es[i].key == key
    ensures forall i, j :: 0 <= i < |es| && 0 <= j < |es| && es[i].key == es[j].key ==> i == j
    ensures first == 0 <==> es == []
    ensures last == 0 <==> es == []
    ensures es != [] ==> first == order[0] && last == order[|order| - 1]
  {
    hide Bucketed, Reachable, UniqueKeys;
    OnChains(cells, buckets, chains, hash);
    KeyPlace(cells, order, es, key);
    if order != [] {
      NotFirst(cells, order, first, last, 0);
    }
  }

  lemma {:induction false} Touched<K(!new), V>(cells: Cells<K, V>, buckets: seq<nat>, first: nat, last: nat,
                                               chains: seq<seq<nat>>, order: seq<nat>, hash: K -> nat,
                                               es: seq<Entry<K, V>>, i: nat)
    requires Represents(cells, buckets, first, last, chains, order, hash, es) && i < |order|
    ensures |es| == |order| && order[i] in cells && es[i] == EntryOf(cells[order[i]])
    ensures order[i] == last <==> i + 1 == |order|
    ensures order[i] == first <==> i == 0
    ensures order[i] != last ==>
              var id := order[i];
              Represents(LinkedLast(Unlinked(cells, id), last, id), buckets,
                         if first == id then cells[id].next else first, id, chains,
                         RemoveAt(order, i) + [id], hash, RemoveAt(es, i) + [es[i]])
    ensures order[i] != first ==>
              var id := order[i];
              Represents(LinkedFirst(Unlinked(cells, id), first, id), buckets, id,
                         if last == id then cells[id].prev else last, chains,
                         [id] + RemoveAt(order, i), hash, [es[i]] + RemoveAt(es, i))
  {
    hide Bucketed, Reachable, UniqueKeys, Listed, Exact, LinkedLast, LinkedFirst, Unlinked, Relinked, RemoveAt;
    var id := order[i];
    NotFirst(cells, order, first, last, i);
    MovesRelink(cells, first, last, id);
    if id != last {
      MoveLastSound(cells, buckets, first, last, chains, order, hash, i);
      MovedEntries(cells, LinkedLast(Unlinked(cells, id), last, id), order, es, i);
    }
    if id != first {
      MoveFirstSound(cells, buckets, first, last, chains, order, hash, i);
      MovedEntries(cells, LinkedFirst(Unlinked(cells, id), first, id), order, es, i);
    }
  }

  lemma {:induction false} Updated<K(!new), V>(cells: Cells<K, V>, buckets: seq<nat>, first: nat, last: nat,
                                               chains: seq<seq<nat>>, order: seq<nat>, hash: K -> nat,
                                               es: seq<Entry<K, V>>, i: nat, value: V)
    requires Represents(cells, buckets, first, last, chains, order, hash, es) && i < |order|
    ensures order[i] in cells
    ensures Represents(cells[order[i] := cells[order[i]].(value := value)], buckets, first, last, chains, order,
                       hash, es[i := Entry(es[i].key, value)])
  {
    hide Bucketed, Reachable, UniqueKeys, Listed;
    var id := order[i];
    var cells' := cells[id := cells[id].(value := value)];
    UpdateSound(cells, buckets, first, last, chains, order, hash, id, value);
    OrderDistinct(cells, order, first, last);
    assert Lists(cells', order, es[i := Entry(es[i].key, value)]);
  }

  lemma {:induction false} Taken<K(!new), V>(cells: Cells<K, V>, buckets: seq<nat>, first: nat, last: nat,
                                             chains: seq<seq<nat>>, order: seq<nat>, hash: K -> nat,
                                             es: seq<Entry<K, V>>, i: nat, b: nat, k: nat)
    requires Represents(cells, buckets, first, last, chains, order, hash, es) && i < |order|
    requires b < |chains| && k < |chains[b]| && chains[b][k] == order[i]
    ensures var id, parent := order[i], At(chains[b], k - 1);
            && id in cells && es[i] == EntryOf(cells[id]) && |buckets| == |chains|
            && Represents(Freed(cells, parent, id), Rehead(buckets, b, parent, cells[id].child),
                          if first == id then cells[id].next else first,
                          if last == id then cells[id].prev else last,
                          chains[b := RemoveAt(chains[b], k)], RemoveAt(order, i), hash, RemoveAt(es, i))
  {
    hide Bucketed, Reachable, UniqueKeys, Listed, Exact, Freed, Rehead, RemoveAt, KeepsEntries;
    var id, parent := order[i], At(chains[b], k - 1);
    OnChains(cells, buckets, chains, hash);
    FreeSound(cells, buckets, first, last, chains, order, hash, i, b, k);
    ListedFacts(cells, order, first, last, i);
    RemovedEntries(cells, order, es, i);
    KeepLists(cells, Freed(cells, parent, id), RemoveAt(order, i), RemoveAt(es, i), id);
  }

  lemma {:induction false} Replaces<K(!new), V>(cells: Cells<K, V>, buckets: seq<nat>, first: nat, last: nat,
                                                chains: seq<seq<nat>>, order: seq<nat>, hash: K -> nat,
                                                es: seq<Entry<K, V>>, i: nat, b: nat, k: nat, id: nat, value: V)
    requires Represents(cells, buckets, first, last, chains, order, hash, es) && i < |order|
    requires b < |chains| && k < |chains[b]| && chains[b][k] == order[i]
    requires id !in cells && id != 0
    ensures var was, parent := order[i], At(chains[b], k - 1);
            && was in cells && |buckets| == |chains|
            && Represents(Swapped(cells, parent, was, id, value), Rehead(buckets, b, parent, id),
                          if first == was then id else first, if last == was then id else last,
                          chains[b := Replaced(chains[b], k, id)], Replaced(order, i, id), hash,
                          es[i := Entry(es[i].key, value)])
  {
    hide Bucketed, Reachable, UniqueKeys, Listed, Swapped, Rehead;
    var was, parent := order[i], At(chains[b], k - 1);
    SwapSound(cells, buckets, first, last, chains, order, hash, i, b, k, id, value);
    OrderDistinct(cells, order, first, last);
    SwappedEntries(cells, Swapped(cells, parent, was, id, value), order, es, i, id, value);
  }

  lemma {:induction false} SwappedEntries<K, V>(cells: Cells<K, V>, cells': Cells<K, V>, order: seq<nat>,
                                                es: seq<Entry<K, V>>, i: nat, id: nat, value: V)
    requires Lists(cells, order, es) && Distinct(order) && i < |order| && order[i] in cells
    requires SwapsEntry(cells, cells', order[i], id, value)
    ensures Lists(cells', Replaced(order, i, id), es[i := Entry(es[i].key, value)])
  {
    var order' := Replaced(order, i, id);
    forall k | 0 <= k < |order'|
      ensures order'[k] in cells' && es[i := Entry(es[i].key, value)][k] == EntryOf(cells'[order'[k]])
    {
      assert order[k] in cells;
    }
  }

  /** A new record that is on its chain joins the list at its end or at its front. */
  lemma {:induction false} Joins<K(!new), V>(cells: Cells<K, V>, buckets: seq<nat>, first: nat, last: nat,
                                             chains: seq<seq<nat>>, order: seq<nat>, hash: K -> nat,
                                             es: seq<Entry<K, V>>, cells1: Cells<K, V>, buckets': seq<nat>,
                                             chains': seq<seq<nat>>, b: nat, id: nat, e: Entry<K, V>)
    requires Represents(cells, buckets, first, last, chains, order, hash, es) && id != 0
    requires Added(cells, chains, cells1, chains', b, id, e) && BucketOf(hash, |chains|, e.key) == b
    requires !HasKey(cells, e.key)
    requires forall x :: x in cells ==> SamePlace(cells, cells1, x)
    requires Bucketed(cells1, buckets', chains', hash)
    ensures id in cells1
    ensures Represents(LinkedLast(cells1, last, id), buckets', if first == 0 then id else first, id,
                       chains', order + [id], hash, es + [e])
    ensures Represents(LinkedFirst(cells1, first, id), buckets', id, if last == 0 then id else last,
                       chains', [id] + order, hash, [e] + es)
  {
    hide Bucketed, Reachable, UniqueKeys, Listed, BucketOf, LinkedLast, LinkedFirst;
    var cellsL, cellsF := LinkedLast(cells1, last, id), LinkedFirst(cells1, first, id);
    AddLast(cells, buckets, first, last, chains, order, hash, cells1, buckets', chains', b, id, e);
    AddFirst(cells, buckets, first, last, chains, order, hash, cells1, buckets', chains', b, id, e);
    LinkRelinks(cells1, first, last, id);
    assert id !in order;
    KeepLists(cells, cellsL, order, es, id);
    KeepLists(cells, cellsF, order, es, id);
    AddedEntries(cellsL, order, es, id);
    AddedEntries(cellsF, order, es, id);
  }

  /** Freshly put at the head of the chain of its key. */
  lemma {:induction false} JoinsPushed<K(!new), V>(cells: Cells<K, V>, buckets: seq<nat>, first: nat, last: nat,
                                                   chains: seq<seq<nat>>, order: seq<nat>, hash: K -> nat,
                                                   es: seq<Entry<K, V>>, id: nat, e: Entry<K, V>)
    requires Represents(cells, buckets, first, last, chains, order, hash, es)
    requires id != 0 && id !in cells && !HasKey(cells, e.key)
    ensures |buckets| == |chains| > 0
    ensures var b := BucketOf(hash, |chains|, e.key);
            var cells1 := cells[id := Cell(buckets[b], 0, 0, e.key, e.value)];
            var chains' := chains[b := [id] + chains[b]];
            && Represents(LinkedLast(cells1, last, id), buckets[b := id], if first == 0 then id else first, id,
                          chains', order + [id], hash, es + [e])
            && Represents(LinkedFirst(cells1, first, id), buckets[b := id], id, if last == 0 then id else last,
                          chains', [id] + order, hash, [e] + es)
  {
    hide Bucketed, Reachable, UniqueKeys, Listed, Lists, BucketOf, LinkedLast, LinkedFirst, Added;
    OnChains(cells, buckets, chains, hash);
    var b := BucketOf(hash, |chains|, e.key);
    var cells1 := cells[id := Cell(buckets[b], 0, 0, e.key, e.value)];
    PushAdds(cells, buckets, chains, hash, b, id, e);
    Joins(cells, buckets, first, last, chains, order, hash, es, cells1, buckets[b := id],
          chains[b := [id] + chains[b]], b, id, e);
  }

  /** Put at the tail of the chain of its key. */
  lemma {:induction false} JoinsAppended<K(!new), V>(cells: Cells<K, V>, buckets: seq<nat>, first: nat, last: nat,
                                                     chains: seq<seq<nat>>, order: seq<nat>, hash: K -> nat,
                                                     es: seq<Entry<K, V>>, id: nat, e: Entry<K, V>)
    requires Represents(cells, buckets, first, last, chains, order, hash, es)
    requires id != 0 && id !in cells && !HasKey(cells, e.key)
    ensures |buckets| == |chains| > 0
    ensures var b := BucketOf(hash, |chains|, e.key);
            var tail := At(chains[b], |chains[b]| - 1);
            var cells1 := Unchained(cells[id := Cell(0, 0, 0, e.key, e.value)], tail, id);
            var chains' := chains[b := chains[b] + [id]];
            && id in cells1
            && Represents(LinkedLast(cells1, last, id), Rehead(buckets, b, tail, id),
                          if first == 0 then id else first, id, chains', order + [id], hash, es + [e])
            && Represents(LinkedFirst(cells1, first, id), Rehead(buckets, b, tail, id), id,
                          if last == 0 then id else last, chains', [id] + order, hash, [e] + es)
  {
    hide Bucketed, Reachable, UniqueKeys, Listed, Lists, BucketOf, LinkedLast, LinkedFirst, Added, Rehead;
    OnChains(cells, buckets, chains, hash);
    NoNull(cells, order, first, last);
    var b := BucketOf(hash, |chains|, e.key);
    var tail := At(chains[b], |chains[b]| - 1);
    var cells1 := Unchained(cells[id := Cell(0, 0, 0, e.key, e.value)], tail, id);
    AppendAdds(cells, buckets, chains, hash, b, id, e);
    Joins(cells, buckets, first, last, chains, order, hash, es, cells1, Rehead(buckets, b, tail, id),
          chains[b := chains[b] + [id]], b, id, e);
  }

  // ----- the changes, from where a search has ended -----

  lemma {:induction false} Taking<K(!new), V>(cells: Cells<K, V>, buckets: seq<nat>, first: nat, last: nat,
                                              chains: seq<seq<nat>>, order: seq<nat>, hash: K -> nat,
                                              es: seq<Entry<K, V>>, key: K, ptr: nat, parent: nat, i: nat, k: nat)
    requires Represents(cells, buckets, first, last, chains, order, hash, es)
    requires i < |order| && order[i] == ptr && Placed(cells, chains, hash, key, ptr, parent, k)
    ensures |buckets| == |chains| > 0 && |es| == |order| && es[i] == EntryOf(cells[ptr])
    ensures var b := BucketOf(hash, |buckets|, key);
            && k < |chains[b]|
            && Represents(Freed(cells, parent, ptr), Rehead(buckets, b, parent, cells[ptr].child),
                          if first == ptr then cells[ptr].next else first,
                          if last == ptr then cells[ptr].prev else last,
                          chains[b := RemoveAt(chains[b], k)], RemoveAt(order, i), hash, RemoveAt(es, i))
  {
    hide Sound, Freed, Rehead, RemoveAt, BucketOf;
    BucketCount(cells, buckets, first, last, chains, order, hash);
    Taken(cells, buckets, first, last, chains, order, hash, es, i, BucketOf(hash, |chains|, key), k);
  }

  lemma {:induction false} Replacing<K(!new), V>(cells: Cells<K, V>, buckets: seq<nat>, first: nat, last: nat,
                                                 chains: seq<seq<nat>>, order: seq<nat>, hash: K -> nat,
                                                 es: seq<Entry<K, V>>, key: K, ptr: nat, parent: nat, i: nat,
                                                 k: nat, id: nat, value: V)
    requires Represents(cells, buckets, first, last, chains, order, hash, es)
    requires i < |order| && order[i] == ptr && Placed(cells, chains, hash, key, ptr, parent, k)
    requires id !in cells && id != 0
    ensures |buckets| == |chains| > 0 && |es| == |order| && (ptr == last <==> i + 1 == |order|)
    ensures var b := BucketOf(hash, |buckets|, key);
            && k < |chains[b]|
            && Represents(Swapped(cells, parent, ptr, id, value), Rehead(buckets, b, parent, id),
                          if first == ptr then id else first, if last == ptr then id else last,
                          chains[b := Replaced(chains[b], k, id)], Replaced(order, i, id), hash,
                          es[i := Entry(es[i].key, value)])
  {
    hide Sound, Swapped, Rehead, Replaced, BucketOf;
    BucketCount(cells, buckets, first, last, chains, order, hash);
    LastPlace(cells, buckets, first, last, chains, order, hash, i);
    Replaces(cells, buckets, first, last, chains, order, hash, es, i, BucketOf(hash, |chains|, key), k, id, value);
  }

  lemma {:induction false} BucketCount<K(!new), V>(cells: Cells<K, V>, buckets: seq<nat>, first: nat, last: nat,
                                                   chains: seq<seq<nat>>, order: seq<nat>, hash: K -> nat)
    requires Sound(cells, buckets, first, last, chains, order, hash)
    ensures |buckets| == |chains| > 0
  {
    hide Listed;
  }

  lemma {:induction false} LastPlace<K(!new), V>(cells: Cells<K, V>, buckets: seq<nat>, first: nat, last: nat,
                                                 chains: seq<seq<nat>>, order: seq<nat>, hash: K -> nat, i: nat)
    requires Sound(cells, buckets, first, last, chains, order, hash) && i < |order|
    ensures order[i] == last <==> i + 1 == |order|
  {
    hide Bucketed, Reachable, UniqueKeys;
    NotFirst(cells, order, first, last, i);
  }

  /** The first record of the list, as the search for its key finds it. */
  lemma {:induction false} FirstFacts<K(!new), V>(cells: Cells<K, V>, buckets: seq<nat>, first: nat, last: nat,
                                                  chains: seq<seq<nat>>, order: seq<nat>, hash: K -> nat,
                                                  es: seq<Entry<K, V>>)
    requires Represents(cells, buckets, first, last, chains, order, hash, es) && es != []
    ensures |order| == |es| && first == order[0] && first in cells && HasKey(cells, cells[first].key)
    ensures es[0] == EntryOf(cells[first])
    ensures forall x :: x in cells && cells[x].key == cells[first].key ==> x == first
    ensures Bucketed(cells, buckets, chains, hash) && Reachable(cells, chains, hash) && 0 !in cells
  {
    hide Bucketed, Reachable;
    NotFirst(cells, order, first, last, 0);
  }

  /** The place of a found record in the list. */
  lemma {:induction false} PlaceOf<K(!new), V>(cells: Cells<K, V>, buckets: seq<nat>, first: nat, last: nat,
                                               chains: seq<seq<nat>>, order: seq<nat>, hash: K -> nat,
                                               es: seq<Entry<K, V>>, key: K, ptr: nat) returns (i: nat)
    requires Represents(cells, buckets, first, last, chains, order, hash, es)
    requires ptr in cells && cells[ptr].key == key
    ensures i < |order| == |es| && order[i] == ptr && es[i] == EntryOf(cells[ptr])
  {
    hide Bucketed, Reachable, UniqueKeys, Listed;
    i := ListPlace(cells, order, ptr);
  }

  lemma {:induction false} StillPlaced<K(!new), V>(cells: Cells<K, V>, cells': Cells<K, V>, chains: seq<seq<nat>>,
                                                   hash: K -> nat, key: K, ptr: nat, parent: nat, k: nat)
    requires Placed(cells, chains, hash, key, ptr, parent, k) && Relinked(cells, cells')
    ensures Placed(cells', chains, hash, key, ptr, parent, k)
  {
    assert ptr in cells';
  }

  // ----- new buckets for the records of the list -----

  /** A record is as it was, but for its chain pointer. */
  ghost predicate KeptCell<K, V>(cells0: Cells<K, V>, cells: Cells<K, V>, id: nat) {
    && id in cells0 && id in cells && SamePlace(cells0, cells, id) && EntryOf(cells[id]) == EntryOf(cells0[id])
  }

  /** The first n records of the list are on the new chains, those up to the i-th have been
      looked at and the others of them freed, and the rest is still to come. */
  ghost predicate Rebuilding<K(!new), V>(cells0: Cells<K, V>, order: seq<nat>, cells: Cells<K, V>,
                                         buckets: seq<nat>, chains: seq<seq<nat>>, hash: K -> nat, n: nat, i: nat)
  {
    && n <= i <= |order|
    && Bucketed(cells, buckets, chains, hash)
    && (forall id :: id in cells <==> id in order[..n] || id in order[i..])
    && (forall id :: id in cells ==> KeptCell(cells0, cells, id))
    && (forall id :: id in order[..n] && id in cells ==> id in chains[BucketOf(hash, |chains|, cells[id].key)])
    && (forall id :: id in order[n..] ==> Absent(chains, id))
  }

  lemma {:induction false} RebuildStart<K(!new), V>(cells: Cells<K, V>, order: seq<nat>, hash: K -> nat,
                                                    numBuckets: Pos)
    requires Exact(cells, order)
    ensures Rebuilding(cells, order, cells, NoBuckets(numBuckets), NoChains(numBuckets), hash, 0, 0)
  {
    assert order[0..] == order && order[..0] == [];
  }

  lemma {:induction false} RebuildKeep<K(!new), V>(cells0: Cells<K, V>, order: seq<nat>, cells: Cells<K, V>,
                                                   buckets: seq<nat>, chains: seq<seq<nat>>, hash: K -> nat, n: nat)
    requires Rebuilding(cells0, order, cells, buckets, chains, hash, n, n) && n < |order| && Distinct(order)
    requires order[n] in cells
    ensures |buckets| == |chains| > 0
    ensures var id := order[n];
            var b := BucketOf(hash, |buckets|, cells[id].key);
            Rebuilding(cells0, order, SetChild(cells, id, buckets[b]), buckets[b := id],
                       chains[b := [id] + chains[b]], hash, n + 1, n + 1)
  {
    hide Bucketed, BucketOf;
    OnChains(cells, buckets, chains, hash);
    var id := order[n];
    var b := BucketOf(hash, |buckets|, cells[id].key);
    assert id in order[n..];
    PushKeeps(cells, buckets, chains, hash, b, id);
    var cells', chains' := SetChild(cells, id, buckets[b]), chains[b := [id] + chains[b]];
    assert order[..n + 1] == order[..n] + [id] && order[n..] == [id] + order[n + 1..];
    forall x | x in cells'
      ensures KeptCell(cells0, cells', x)
    {
      assert x in cells && KeptCell(cells0, cells, x);
    }
    forall x | x in order[..n + 1] && x in cells'
      ensures x in chains'[BucketOf(hash, |chains'|, cells'[x].key)]
    {
      assert cells'[x].key == cells[x].key;
      if x != id {
        assert x in chains[BucketOf(hash, |chains|, cells[x].key)];
      }
    }
    forall x | x in order[n + 1..]
      ensures Absent(chains', x)
    {
      assert x in order[n..] && Absent(chains, x);
      LaterDiffers(order, n, x);
    }
  }

  lemma {:induction false} LaterDiffers(order: seq<nat>, n: nat, x: nat)
    requires Distinct(order) && n < |order| && x in order[n + 1..]
    ensures x != order[n]
  {
    var rest := order[n + 1..];
    var j :| 0 <= j < |rest| && rest[j] == x;
    assert order[n + 1 + j] == x;
  }

  lemma {:induction false} RebuildDrop<K(!new), V>(cells0: Cells<K, V>, order: seq<nat>, cells: Cells<K, V>,
                                                   buckets: seq<nat>, chains: seq<seq<nat>>, hash: K -> nat, n: nat,
                                                   i: nat)
    requires Rebuilding(cells0, order, cells, buckets, chains, hash, n, i) && i < |order| && Distinct(order)
    ensures Rebuilding(cells0, order, cells - {order[i]}, buckets, chains, hash, n, i + 1)
  {
    hide Bucketed, BucketOf;
    var id := order[i];
    var cells' := cells - {id};
    assert order[i..] == [id] + order[i + 1..];
    OnChains(cells, buckets, chains, hash);
    InTail(order, n, i);
    assert Absent(chains, id);
    forall b, j | 0 <= b < |chains| && 0 <= j < |chains[b]|
      ensures SameChild(cells, cells', chains[b][j])
    {
      assert chains[b][j] in chains[b];
    }
    BucketedFrame(cells, cells', buckets, chains, hash);
    EarlierDiffers(order, n, i);
    var rest := order[i + 1..];
    forall x | x in rest
      ensures x != id
    {
      LaterDiffers(order, i, x);
    }
    forall x | x in cells'
      ensures KeptCell(cells0, cells', x)
    {
      assert KeptCell(cells0, cells, x);
    }
  }

  lemma {:induction false} InTail(order: seq<nat>, n: nat, i: nat)
    requires n <= i < |order|
    ensures order[i] in order[n..]
  {
    assert order[n..][i - n] == order[i];
  }

  lemma {:induction false} EarlierDiffers(order: seq<nat>, n: nat, i: nat)
    requires Distinct(order) && n <= i < |order|
    ensures order[i] !in order[..n]
  {
  }

  /** The list ends at the last record kept. */
  lemma {:induction false} RebuildEnd<K(!new), V>(cells0: Cells<K, V>, buckets0: seq<nat>, first: nat, last0: nat,
                                                  chains0: seq<seq<nat>>, order: seq<nat>, hash: K -> nat,
                                                  es: seq<Entry<K, V>>, cells: Cells<K, V>, buckets: seq<nat>,
                                                  chains: seq<seq<nat>>, n: nat)
    requires Represents(cells0, buckets0, first, last0, chains0, order, hash, es)
    requires Rebuilding(cells0, order, cells, buckets, chains, hash, n, |order|)
    ensures |es| == |order| && n <= |order|
    ensures var last := At(order, n - 1);
            Represents(SetNext(cells, last, 0), buckets, if n == 0 then 0 else first, last, chains,
                       order[..n], hash, es[..n])
  {
    hide Bucketed, BucketOf, Listed, Reachable, UniqueKeys, Exact, Lists, SetNext;
    RebuildChains(cells0, cells, buckets, chains, order, hash, n);
    RebuildList(cells0, cells, order, first, last0, n);
    RebuildEntries(cells0, cells, order, es, At(order, n - 1), n);
  }

  lemma {:induction false} RebuildChains<K(!new), V>(cells0: Cells<K, V>, cells: Cells<K, V>, buckets: seq<nat>,
                                                     chains: seq<seq<nat>>, order: seq<nat>, hash: K -> nat, n: nat)
    requires Rebuilding(cells0, order, cells, buckets, chains, hash, n, |order|) && UniqueKeys(cells0)
    ensures var cells' := SetNext(cells, At(order, n - 1), 0);
            Bucketed(cells', buckets, chains, hash) && Reachable(cells', chains, hash) && UniqueKeys(cells')
    ensures forall id :: id in cells <==> id in order[..n]
    ensures forall id :: id in cells ==> KeptCell(cells0, cells, id)
  {
    hide Bucketed, BucketOf, SetNext;
    var cells' := SetNext(cells, At(order, n - 1), 0);
    SetRelinks(cells, At(order, n - 1), 0);
    assert order[|order|..] == [];
    OnChains(cells, buckets, chains, hash);
    forall x | x in cells
      ensures x in cells' && SameChild(cells, cells', x)
    {
      assert x in cells';
    }
    BucketedFrame(cells, cells', buckets, chains, hash);
    forall x | x in cells'
      ensures x in chains[BucketOf(hash, |chains|, cells'[x].key)]
    {
      assert x in cells && x in order[..n] && SameChild(cells, cells', x);
    }
    forall a, b | a in cells' && b in cells' && cells'[a].key == cells'[b].key
      ensures a == b
    {
      assert a in cells && b in cells && SameChild(cells, cells', a) && SameChild(cells, cells', b);
      assert KeptCell(cells0, cells, a) && KeptCell(cells0, cells, b);
    }
  }

  lemma {:induction false} RebuildEntries<K, V>(cells0: Cells<K, V>, cells: Cells<K, V>, order: seq<nat>,
                                                es: seq<Entry<K, V>>, last: nat, n: nat)
    requires Lists(cells0, order, es) && n <= |order|
    requires forall id :: id in cells <==> id in order[..n]
    requires forall id :: id in cells ==> KeptCell(cells0, cells, id)
    ensures Lists(SetNext(cells, last, 0), order[..n], es[..n]) && Exact(SetNext(cells, last, 0), order[..n])
    ensures |es| == |order|
  {
    var cells' := SetNext(cells, last, 0);
    forall k | 0 <= k < n
      ensures order[..n][k] in cells' && es[..n][k] == EntryOf(cells'[order[..n][k]])
    {
      assert order[..n][k] in cells && KeptCell(cells0, cells, order[k]);
    }
  }

  lemma {:induction false} RebuildList<K, V>(cells0: Cells<K, V>, cells: Cells<K, V>, order: seq<nat>, first: nat,
                                             last: nat, n: nat)
    requires Listed(cells0, order, first, last) && n <= |order|
    requires forall id :: id in order[..n] ==> id in cells
    requires forall id :: id in cells ==> KeptCell(cells0, cells, id)
    ensures Listed(SetNext(cells, At(order, n - 1), 0), order[..n], if n == 0 then 0 else first, At(order, n - 1))
  {
    var order', cells' := order[..n], SetNext(cells, At(order, n - 1), 0);
    forall k | 0 <= k < |order'|
      ensures ListedAt(cells', order', k)
    {
      assert ListedAt(cells0, order, k);
      assert order'[k] in order[..n];
      assert KeptCell(cells0, cells, order'[k]);
    }
    forall x | x in cells'
      ensures x != 0
    {
      assert KeptCell(cells0, cells, x);
    }
  }

  /** The next record that a rebuild looks at. */
  lemma {:induction false} RebuildNext<K(!new), V>(cells0: Cells<K, V>, buckets0: seq<nat>, first: nat, last0: nat,
                                                   chains0: seq<seq<nat>>, order: seq<nat>, hash: K -> nat,
                                                   es: seq<Entry<K, V>>, cells: Cells<K, V>, buckets: seq<nat>,
                                                   chains: seq<seq<nat>>, n: nat, i: nat)
    requires Represents(cells0, buckets0, first, last0, chains0, order, hash, es)
    requires Rebuilding(cells0, order, cells, buckets, chains, hash, n, i)
    ensures Distinct(order) && |es| == |order| && |buckets| == |chains| > 0
    ensures At(order, i) == 0 <==> i == |order|
    ensures i < |order| ==> order[i] in cells && cells[order[i]].next == At(order, i + 1)
                            && EntryOf(cells[order[i]]) == es[i]
  {
    hide Bucketed, Reachable, UniqueKeys;
    OnChains(cells, buckets, chains, hash);
    if i < |order| {
      NotFirst(cells0, order, first, last0, i);
      assert ListedAt(cells0, order, i);
      InTail(order, i, i);
      assert KeptCell(cells0, cells, order[i]);
    }
  }
}
