/** The image of the free block pool that a closed database file carries. */
module PoolImage {
  import opened Common
  import opened Numbers
  import opened FreeBlocks

  const SIZE_WIDTH := 4

  /** A block in the image: its offset in units of the alignment, then its size. */
  function Unit(b: FreeBlock, width: nat, align: Pos): (u: Bytes)
    ensures |u| == width + SIZE_WIDTH
  {
    FixNum(b.offset / align, width) + FixNum(b.size, SIZE_WIDTH)
  }

  /** A block whose offset and size fit. */
  predicate Storable(b: FreeBlock, width: nat, align: Pos) {
    && b.offset % align == 0 && b.offset / align < Pow256(width)
    && 1 <= b.size < Pow256(SIZE_WIDTH)
  }

  /** The n greatest blocks, the greatest first. */
  function Greatest(data: seq<FreeBlock>, n: nat): (g: seq<FreeBlock>)
    requires n <= |data|
    ensures |g| == n && forall i :: 0 <= i < n ==> g[i] == data[|data| - 1 - i]
  {
    seq(n, i requires 0 <= i < n => data[|data| - 1 - i])
  }

  function Image(blocks: seq<FreeBlock>, width: nat, align: Pos): Bytes {
    if blocks == [] then [] else Unit(blocks[0], width, align) + Image(blocks[1..], width, align)
  }

  /** The number of blocks written: all, or as many as there is room for. */
  function Room(width: nat, size: nat, count: nat): (n: nat)
    ensures n <= count && n * (width + SIZE_WIDTH) <= size
    ensures n == count || (n + 1) * (width + 4) > size
  {
    var room := size / (width + SIZE_WIDTH);
    WholeUnits(size, width + SIZE_WIDTH, count);
    if room <= count then room else count
  }

  lemma {:induction false} WholeUnits(size: nat, unit: Pos, count: nat)
    ensures var room := size / unit;
            room * unit <= size < (room + 1) * unit && (count <= room ==> count * unit <= size)
  {
    var room := size / unit;
    assert size == unit * room + size % unit;
    if count <= room {
      assert count * unit + (room - count) * unit == room * unit;
    }
  }

  lemma {:induction false} ImageSize(blocks: seq<FreeBlock>, width: nat, align: Pos)
    ensures |Image(blocks, width, align)| == |blocks| * (width + SIZE_WIDTH)
  {
    hide Unit;
    if blocks != [] {
      ImageSize(blocks[1..], width, align);
      OneMore(|blocks[1..]|, width + SIZE_WIDTH);
    }
  }

  lemma {:induction false} OneMore(n: nat, unit: nat)
    ensures unit + n * unit == (n + 1) * unit
  {
  }

  /** Where the blocks of an image are: each takes the width and four more bytes, and is its offset in
      units of the alignment followed by its size. */
  lemma {:induction false} ImageAt(blocks: seq<FreeBlock>, width: nat, align: Pos, i: nat)
    requires i < |blocks|
    ensures var at, image := i * (width + 4), Image(blocks, width, align);
            && at + width + 4 <= |image|
            && image[at..at + width] == FixNum(blocks[i].offset / align, width)
            && image[at + width..at + width + 4] == FixNum(blocks[i].size, 4)
  {
    hide FixNum;
    var unit, rest := Unit(blocks[0], width, align), Image(blocks[1..], width, align);
    if i == 0 {
      assert (unit + rest)[..width] == FixNum(blocks[0].offset / align, width);
      assert (unit + rest)[width..width + 4] == FixNum(blocks[0].size, 4);
    } else {
      ImageAt(blocks[1..], width, align, i - 1);
      var at := (i - 1) * (width + 4);
      assert at + (width + 4) == i * (width + 4);
      Shifted(unit, rest, at, at + width);
      Shifted(unit, rest, at + width, at + width + 4);
    }
  }

  lemma {:induction false} Shifted(a: Bytes, b: Bytes, i: nat, j: nat)
    requires i <= j <= |b|
    ensures (a + b)[|a| + i..|a| + j] == b[i..j]
  {
  }

  lemma {:induction false} ImageSnoc(blocks: seq<FreeBlock>, b: FreeBlock, width: nat, align: Pos)
    ensures Image(blocks + [b], width, align) == Image(blocks, width, align) + Unit(b, width, align)
  {
    if blocks == [] {
      assert blocks + [b] == [b] && [b][1..] == [];
      assert Image([b], width, align) == Unit(b, width, align) + [];
    } else {
      assert (blocks + [b])[1..] == blocks[1..] + [b];
      ImageSnoc(blocks[1..], b, width, align);
    }
  }

  /** Writes as many of the greatest blocks as there is room for, and zeros. */
  method Serialize(data: seq<FreeBlock>, width: nat, align: Pos, size: nat) returns (str: Bytes)
    ensures |str| == size
    ensures var n := Room(width, size, |data|);
            var image := Image(Greatest(data, n), width, align);
            |image| <= size && str == image + Zeros(size - |image|)
  {
    hide Unit, Room;
    var maxNum := Room(width, size, |data|);
    str := [];
    var num := 0;
    while num < maxNum
      invariant 0 <= num <= maxNum
      invariant str == Image(Greatest(data, num), width, align)
    {
      assert Greatest(data, num + 1) == Greatest(data, num) + [data[|data| - 1 - num]];
      ImageSnoc(Greatest(data, num), data[|data| - 1 - num], width, align);
      str := str + Unit(data[|data| - 1 - num], width, align);
      num := num + 1;
    }
    ImageSize(Greatest(data, maxNum), width, align);
    str := str + Zeros(size - |str|);
  }

  /** The blocks read from an image, at most max of them, up to the first of no size. */
  function ReadBlocks(str: Bytes, max: nat, width: nat, align: Pos): seq<FreeBlock>
    decreases |str|
  {
    var unit := width + SIZE_WIDTH;
    if max == 0 || |str| < unit then []
    else
      var b := FreeBlock(ReadFixNum(str[..width]) * align, ReadFixNum(str[width..unit]));
      if b.size < 1 then [] else [b] + ReadBlocks(str[unit..], max - 1, width, align)
  }

  /** Reads the pool from its image, as an ordered set. */
  method Deserialize(str: Bytes, width: nat, align: Pos, capacity: nat) returns (data: seq<FreeBlock>)
    ensures Ascending(data)
    ensures forall b :: b in data <==> b in ReadBlocks(str, capacity, width, align)
  {
    var unit := width + SIZE_WIDTH;
    var rest := str;
    var num := 0;
    data := [];
    while num < capacity && |rest| >= unit
      invariant 0 <= num <= capacity && Ascending(data)
      invariant forall b :: b in ReadBlocks(str, capacity, width, align) <==>
                            b in data || b in ReadBlocks(rest, capacity - num, width, align)
      decreases |rest|
    {
      var b := FreeBlock(ReadFixNum(rest[..width]) * align, ReadFixNum(rest[width..unit]));
      if b.size < 1 {
        break;
      }
      data := Emplace(data, b);
      rest := rest[unit..];
      num := num + 1;
    }
  }

  /** The first unit of an image reads as the block it was written for. */
  lemma {:induction false} UnitReads(b: FreeBlock, rest: Bytes, max: nat, width: nat, align: Pos)
    requires Storable(b, width, align) && max > 0
    ensures ReadBlocks(Unit(b, width, align) + rest, max, width, align) ==
            [b] + ReadBlocks(rest, max - 1, width, align)
  {
    hide FixNum, ReadFixNum, Pow256;
    var unit := width + SIZE_WIDTH;
    var str := Unit(b, width, align) + rest;
    FixNumReads(b.offset / align, width);
    FixNumReads(b.size, SIZE_WIDTH);
    assert str[..width] == FixNum(b.offset / align, width);
    assert str[width..unit] == FixNum(b.size, SIZE_WIDTH);
    assert str[unit..] == rest;
    assert FreeBlock(b.offset / align * align, b.size) == b;
  }

  /** Reading the image of storable blocks gives them back, as far as the capacity goes. */
  lemma {:induction false} ImageReads(blocks: seq<FreeBlock>, max: nat, width: nat, align: Pos, zeros: nat)
    requires forall i :: 0 <= i < |blocks| ==> Storable(blocks[i], width, align)
    ensures ReadBlocks(Image(blocks, width, align) + Zeros(zeros), max, width, align) ==
            blocks[..if max < |blocks| then max else |blocks|]
  {
    hide FixNum, ReadFixNum, Pow256, Unit, Storable;
    var n := if max < |blocks| then max else |blocks|;
    if max == 0 {
      assert blocks[..n] == [];
    } else if blocks == [] {
      NothingReads(zeros, max, width, align);
      assert Image(blocks, width, align) + Zeros(zeros) == Zeros(zeros);
    } else {
      var rest := Image(blocks[1..], width, align) + Zeros(zeros);
      assert Image(blocks, width, align) + Zeros(zeros) == Unit(blocks[0], width, align) + rest;
      UnitReads(blocks[0], rest, max, width, align);
      ImageReads(blocks[1..], max - 1, width, align, zeros);
      assert blocks[..n] == [blocks[0]] + blocks[1..][..n - 1];
    }
  }

  lemma {:induction false} NothingReads(zeros: nat, max: nat, width: nat, align: Pos)
    ensures ReadBlocks(Zeros(zeros), max, width, align) == []
  {
    var unit := width + SIZE_WIDTH;
    if max > 0 && zeros >= unit {
      ZerosRead(Zeros(zeros)[width..unit]);
    }
  }

  lemma {:induction false} ZerosRead(z: Bytes)
    requires forall i :: 0 <= i < |z| ==> z[i] == 0
    ensures ReadFixNum(z) == 0
  {
    if z != [] {
      ZerosRead(z[..|z| - 1]);
    }
  }

  lemma {:induction false} GreatestIn(data: seq<FreeBlock>, n: nat, m: nat)
    requires m <= n <= |data|
    ensures forall b :: b in Greatest(data, n)[..m] <==> b in data[|data| - m..]
  {
    forall b | b in data[|data| - m..]
      ensures b in Greatest(data, n)[..m]
    {
      var i :| 0 <= i < m && data[|data| - m..][i] == b;
      assert Greatest(data, n)[..m][m - 1 - i] == b;
    }
    forall b | b in Greatest(data, n)[..m]
      ensures b in data[|data| - m..]
    {
      var i :| 0 <= i < m && Greatest(data, n)[..m][i] == b;
      assert data[|data| - m..][m - 1 - i] == b;
    }
  }

  /** The members of an ascending sequence determine it. */
  lemma {:induction false} AscendingUnique(a: seq<FreeBlock>, b: seq<FreeBlock>)
    requires Ascending(a) && Ascending(b)
    requires forall x :: x in a <==> x in b
    ensures a == b
    decreases |a|
  {
    SomeMember(a, b);
    SomeMember(b, a);
    if a == [] {
    } else {
      var m, n := |a| - 1, |b| - 1;
      assert a[m] in b && b[n] in a;
      assert a[m] == b[n];
      FrontMembers(a);
      FrontMembers(b);
      forall x
        ensures x in a[..m] <==> x in b[..n]
      {
        assert x in a[..m] <==> x in a && x != a[m];
        assert x in b[..n] <==> x in b && x != b[n];
      }
      AscendingUnique(a[..m], b[..n]);
      assert a == a[..m] + [a[m]] && b == b[..n] + [b[n]];
    }
  }

  lemma {:induction false} SomeMember(a: seq<FreeBlock>, b: seq<FreeBlock>)
    requires forall x :: x in a ==> x in b
    ensures |a| > 0 ==> |b| > 0
  {
    if |a| > 0 {
      assert a[0] in b;
    }
  }

  lemma {:induction false} FrontMembers(a: seq<FreeBlock>)
    requires Ascending(a) && a != []
    ensures forall x :: x in a[..|a| - 1] <==> x in a && x != a[|a| - 1]
  {
    forall x | x in a && x != a[|a| - 1]
      ensures x in a[..|a| - 1]
    {
      var i :| 0 <= i < |a| && a[i] == x;
      assert a[..|a| - 1][i] == x;
    }
  }

  lemma {:induction false} SuffixAscending(a: seq<FreeBlock>, i: nat)
    requires Ascending(a) && i <= |a|
    ensures Ascending(a[i..])
  {
  }

  /** Closing and reopening keeps the greatest blocks that the image and the capacity have
      room for. */
  method CloseAndOpen(data: seq<FreeBlock>, width: nat, align: Pos, size: nat, capacity: nat)
    returns (data': seq<FreeBlock>)
    requires Ascending(data) && forall i :: 0 <= i < |data| ==> Storable(data[i], width, align)
    ensures var n := Room(width, size, |data|);
            var m := if capacity < n then capacity else n;
            data' == data[|data| - m..]
  {
    hide Room, Image, ReadBlocks, Storable, Ascending, Zeros;
    var str := Serialize(data, width, align, size);
    data' := Deserialize(str, width, align, capacity);
    ghost var n := Room(width, size, |data|);
    ghost var m := if capacity < n then capacity else n;
    ghost var blocks := Greatest(data, n);
    ImageReads(blocks, capacity, width, align, size - |Image(blocks, width, align)|);
    GreatestIn(data, n, m);
    SuffixAscending(data, |data| - m);
    AscendingUnique(data', data[|data| - m..]);
  }

}
