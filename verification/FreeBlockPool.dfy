/** The registry of free blocks of a hash database file. */
module FreeBlocks {
  import opened Common

  datatype FreeBlock = FreeBlock(offset: nat, size: nat)

  /** Blocks are ordered by size, then by offset. */
  predicate Below(a: FreeBlock, b: FreeBlock) {
    a.size < b.size || (a.size == b.size && a.offset < b.offset)
  }

  predicate Ascending(data: seq<FreeBlock>) {
    forall i, j :: 0 <= i < j < |data| ==> Below(data[i], data[j])
  }

  /** The position of the first block that is not below `b`. */
  method LowerBound(data: seq<FreeBlock>, b: FreeBlock) returns (i: nat)
    requires Ascending(data)
    ensures i <= |data|
    ensures forall j :: 0 <= j < i ==> Below(data[j], b)
    ensures forall j :: i <= j < |data| ==> !Below(data[j], b)
  {
    i := 0;
    while i < |data| && Below(data[i], b)
      invariant 0 <= i <= |data|
      invariant forall j :: 0 <= j < i ==> Below(data[j], b)
    {
      i := i + 1;
    }
  }

  lemma {:induction false} InsertedAscending(data: seq<FreeBlock>, i: nat, b: FreeBlock)
    requires Ascending(data) && i <= |data|
    requires forall j :: 0 <= j < i ==> Below(data[j], b)
    requires forall j :: i <= j < |data| ==> !Below(data[j], b)
    ensures i == |data| || data[i] != b ==> Ascending(data[..i] + [b] + data[i..])
    ensures forall x :: x in data[..i] + [b] + data[i..] <==> x in data || x == b
  {
    forall x | x in data
      ensures x in data[..i] + [b] + data[i..]
    {
      var j :| 0 <= j < |data| && data[j] == x;
      assert j < i ==> data[..i][j] == x;
      assert j >= i ==> data[i..][j - i] == x;
    }
    if i == |data| || data[i] != b {
      assert i < |data| ==> Below(b, data[i]);
    }
  }

  /** Adds a block to the ordered set. */
  method Emplace(data: seq<FreeBlock>, b: FreeBlock) returns (data': seq<FreeBlock>)
    requires Ascending(data)
    ensures Ascending(data') && |data'| == |data| + if b in data then 0 else 1
    ensures forall x :: x in data' <==> x in data || x == b
  {
    var i := LowerBound(data, b);
    InsertedAscending(data, i, b);
    if i == |data| || data[i] != b {
      return data[..i] + [b] + data[i..];
    }
    return data;
  }

  class FreeBlockPool {
    var capacity: int
    /** The ordered set of blocks, least first. */
    var data: seq<FreeBlock>

    ghost predicate Valid()
      reads this
    {
      capacity >= 1 && |data| <= capacity && Ascending(data)
    }

    ghost function Blocks(): set<FreeBlock>
      reads this
    {
      set b | b in data
    }

    constructor (capacity: int)
      requires capacity >= 1
      ensures Valid() && data == [] && this.capacity == capacity
    {
      this.capacity := capacity;
      data := [];
    }

    method Clear()
      modifies this
      ensures data == [] && capacity == old(capacity)
    {
      data := [];
    }

    /** Registers a block.  A full pool keeps the larger ones: whatever is dropped is no larger
        than anything kept. */
    method InsertFreeBlock(offset: nat, size: nat)
      requires Valid()
      modifies this
      ensures Valid() && capacity == old(capacity)
      ensures Blocks() <= old(Blocks()) + {FreeBlock(offset, size)}
      ensures forall x, y | x in old(Blocks()) + {FreeBlock(offset, size)} - Blocks() && y in Blocks()
                :: x.size <= y.size
      ensures old(|data|) < capacity ==> Blocks() == old(Blocks()) + {FreeBlock(offset, size)}
      ensures old(|data|) >= capacity && FreeBlock(offset, size) !in old(Blocks()) ==>
                |data| == old(|data|)
      ensures old(|data|) >= capacity && size <= old(data)[0].size ==> data == old(data)
      ensures old(|data|) >= capacity && size > old(data)[0].size ==>
                Blocks() == old(Blocks()) - {old(data)[0]} + {FreeBlock(offset, size)}
    {
      if |data| >= capacity {
        if size <= data[0].size {
          return;
        }
        data := data[1..];
      }
      data := Emplace(data, FreeBlock(offset, size));
    }

    /** Takes the least block of at least the given size, if there is one. */
    method FetchFreeBlock(minSize: nat) returns (found: Option<FreeBlock>)
      requires Valid()
      modifies this
      ensures Valid() && capacity == old(capacity)
      ensures |data| == old(|data|) - if found.Some? then 1 else 0
      ensures found.None? ==> data == old(data) && forall x :: x in old(Blocks()) ==> x.size < minSize
      ensures found.Some? ==>
                && found.value in old(Blocks())
                && found.value.size >= minSize
                && Blocks() == old(Blocks()) - {found.value}
                && forall x :: x in old(Blocks()) && x.size >= minSize ==>
                     x == found.value || Below(found.value, x)
      ensures found.Some? ==>
                forall x :: x in old(Blocks()) && x.size >= minSize ==>
                  && found.value.size <= x.size
                  && (x.size == found.value.size ==> found.value.offset <= x.offset)
    {
      var i := LowerBound(data, FreeBlock(0, minSize));
      if i == |data| {
        return None;
      }
      found := Some(data[i]);
      data := data[..i] + data[i + 1..];
    }

    /** Changes the capacity, dropping the least blocks. */
    method SetCapacity(capacity: int)
      requires Valid() && capacity >= 1
      modifies this
      ensures Valid() && this.capacity == capacity
      ensures exists n :: 0 <= n <= old(|data|) && data == old(data[n..]) &&
                          n == if old(|data|) > capacity then old(|data|) - capacity else 0
    {
      this.capacity := capacity;
      ghost var n := 0;
      while |data| > capacity
        invariant Ascending(data) && this.capacity == capacity
        invariant 0 <= n <= old(|data|) && data == old(data)[n..]
        invariant n > 0 ==> |data| >= capacity
      {
        n := n + 1;
        data := data[1..];
      }
    }
  }
}
