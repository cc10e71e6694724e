/** Importing the records of one database file into another: forward, by replaying them in order,
    and backward, from the newest record to the oldest, with the set of keys found removed. */
module HashImport {
  import opened Common
  import opened HashStore
  import opened RecordSize
  import opened Numbers
  import opened HashDatabase

  const BUFFER_SIZE := 4096

  // ----- the offset file -----

  /** An offset in units of the alignment. */
  function Unit(offset: nat, align: Pos): nat {
    offset / align
  }

  predicate Whole(n: nat, width: Pos) {
    n % width == 0
  }

  /** The largest whole number of units not above `n`. */
  function Floor(n: nat, width: Pos): nat {
    n - n % width
  }

  /** The offsets of the records that are not void. */
  function NonVoid(recs: Records, offs: seq<nat>): (r: seq<nat>)
    requires AllIn(recs, offs)
    ensures AllIn(recs, r) && forall i :: 0 <= i < |r| ==> r[i] in offs && !recs[r[i]].op.OpVoid?
  {
    if |offs| == 0 then []
    else (if recs[offs[0]].op.OpVoid? then [] else [offs[0]]) + NonVoid(recs, offs[1..])
  }

  /** Offsets in units of the alignment, as fixed-width numbers one after another. */
  function OffsetBytes(offs: seq<nat>, width: Pos, align: Pos): Bytes {
    if |offs| == 0 then []
    else OffsetBytes(offs[..|offs| - 1], width, align) + FixNum(Unit(offs[|offs| - 1], align), width)
  }

  lemma {:induction false} OffsetBytesConcat(a: seq<nat>, b: seq<nat>, width: Pos, align: Pos)
    ensures OffsetBytes(a + b, width, align) ==
            OffsetBytes(a, width, align) + OffsetBytes(b, width, align)
  {
    hide FixNum;
    if |b| == 0 {
      assert a + b == a;
    } else {
      var last := |b| - 1;
      assert (a + b)[..|a + b| - 1] == a + b[..last];
      OffsetBytesConcat(a, b[..last], width, align);
    }
  }

  lemma {:induction false} OneOffset(o: nat, width: Pos, align: Pos)
    ensures OffsetBytes([o], width, align) == FixNum(Unit(o, align), width)
  {
    assert [o][..0] == [];
  }

  /** Writes the offsets of the records between two offsets to a file, through a buffer. */
  method ExtractOffsets(recs: Records, base: nat, end: nat, width: Pos, align: Pos)
    returns (ok: bool, file: Bytes)
    requires width <= BUFFER_SIZE && base <= end
    ensures Tiled(recs, base, end) ==> ok
    ensures ok ==> file == OffsetBytes(NonVoid(recs, Scan(recs, base, end)), width, align)
  {
    hide FixNum, OffsetBytes, NonVoid, Tiled, Unit, Scan;
    var offset, buf := base, [];
    file := [];
    ghost var done: seq<nat> := [];
    EmptyOffsets(width, align);
    while offset < end
      invariant |buf| <= BUFFER_SIZE - width
      invariant base <= offset
      invariant AllIn(recs, done) && file + buf == OffsetBytes(done, width, align)
      invariant NonVoid(recs, Scan(recs, base, end)) == done + NonVoid(recs, Scan(recs, offset, end))
      invariant Tiled(recs, base, end) ==> Tiled(recs, offset, end)
      decreases end - offset
    {
      TileStep(recs, offset, end);
      if offset !in recs {
        return false, file;
      }
      ScanStep(recs, offset, end);
      var rec := recs[offset];
      if !rec.op.OpVoid? {
        OffsetBytesConcat(done, [offset], width, align);
        OneOffset(offset, width, align);
        done := done + [offset];
        buf := buf + FixNum(Unit(offset, align), width);
        if |buf| > BUFFER_SIZE - width {
          file := file + buf;
          buf := [];
        }
      }
      offset := offset + rec.size;
    }
    NoMoreOffsets(recs, offset, end);
    assert done + [] == done;
    if |buf| > 0 {
      file := file + buf;
    }
    ok := true;
  }

  lemma {:induction false} EmptyOffsets(width: Pos, align: Pos)
    ensures OffsetBytes([], width, align) == []
  {
  }

  lemma {:induction false} ScanStep(recs: Records, offset: nat, end: nat)
    requires offset < end && offset in recs
    ensures NonVoid(recs, Scan(recs, offset, end)) ==
            (if recs[offset].op.OpVoid? then [] else [offset]) +
            NonVoid(recs, Scan(recs, offset + recs[offset].size, end))
  {
    assert Scan(recs, offset, end)[1..] == Scan(recs, offset + recs[offset].size, end);
  }

  lemma {:induction false} NoMoreOffsets(recs: Records, offset: nat, end: nat)
    requires offset >= end
    ensures NonVoid(recs, Scan(recs, offset, end)) == []
  {
  }

  /** Reads an offset file backward, a buffer at a time. */
  class OffsetReader {
    const file: Bytes
    const width: Pos
    const align: Pos
    var currentOffset: nat
    var buffer: Bytes
    var endPtr: nat

    /** The number of bytes of the file not yet handed out. */
    ghost function Unread(): nat
      reads this
    {
      currentOffset + endPtr
    }

    ghost predicate Valid()
      reads this
    {
      && Unread() <= |file| && Whole(Unread(), width)
      && endPtr <= |buffer| && Whole(endPtr, width)
      && buffer[..endPtr] == file[currentOffset..Unread()]
    }

    constructor (file: Bytes, width: Pos, align: Pos)
      requires width <= BUFFER_SIZE
      ensures Valid() && this.file == file && this.width == width && this.align == align
      ensures Unread() == Floor(|file|, width)
    {
      this.file := file;
      this.width := width;
      this.align := align;
      this.currentOffset := Floor(|file|, width);
      this.buffer := [];
      this.endPtr := 0;
      new;
      hide Whole, Floor;
      WholeUnits(|file|, width);
    }

    /** Reads the next buffer, towards the start of the file. */
    method Refill() returns (more: bool)
      requires Valid() && width <= BUFFER_SIZE && endPtr == 0
      modifies this
      ensures Valid() && Unread() == old(Unread())
      ensures more <==> Unread() >= width
      ensures more ==> endPtr >= width
    {
      hide Whole, Floor;
      var size := Floor(BUFFER_SIZE, width);
      WholeUnits(BUFFER_SIZE, width);
      if currentOffset < size {
        size := currentOffset;
      }
      if size < width {
        return false;
      }
      UnitsLeft(currentOffset, size, width);
      currentOffset := currentOffset - size;
      buffer := file[currentOffset..currentOffset + size];
      endPtr := size;
      more := true;
    }

    /** The last unread offset, or nothing when all were read. */
    method ReadOffset() returns (offset: Option<nat>)
      requires Valid() && width <= BUFFER_SIZE
      modifies this
      ensures Valid()
      ensures offset.None? <==> old(Unread()) < width
      ensures offset.None? ==> Unread() == old(Unread())
      ensures offset.Some? ==>
                && Unread() == old(Unread()) - width
                && offset.value == OffsetIn(file[Unread()..Unread() + width], align)
    {
      hide OffsetIn, Whole, Floor;
      OneUnit(endPtr, width);
      if endPtr == 0 {
        var more := Refill();
        if !more {
          return None;
        }
      }
      UnitsLeft(endPtr, width, width);
      UnitsLeft(Unread(), width, width);
      endPtr := endPtr - width;
      BufferTail(buffer, file, currentOffset, endPtr, width);
      offset := Some(OffsetIn(buffer[endPtr..endPtr + width], align));
    }
  }

  function OffsetIn(b: Bytes, align: Pos): nat {
    ReadFixNum(b) * align
  }

  lemma {:induction false} BufferTail(buffer: Bytes, file: Bytes, start: nat, n: nat, width: nat)
    requires n + width <= |buffer| && start + n + width <= |file|
    requires buffer[..n + width] == file[start..start + n + width]
    ensures buffer[..n] == file[start..start + n]
    ensures buffer[n..n + width] == file[start + n..start + n + width]
  {
    forall i | 0 <= i < n + width
      ensures buffer[i] == file[start + i]
    {
      assert buffer[..n + width][i] == file[start..start + n + width][i];
    }
  }

  lemma {:induction false} WholeUnits(n: nat, width: Pos)
    ensures Whole(0, width)
    ensures Whole(Floor(n, width), width) && Floor(n, width) <= n
    ensures width <= n ==> width <= Floor(n, width)
  {
    MultipleMod(width, n / width);
    assert Floor(n, width) == width * (n / width);
    MulBound(width, n / width);
  }

  lemma {:induction false} OneUnit(n: nat, width: Pos)
    requires Whole(n, width)
    ensures n > 0 ==> n >= width
    ensures Whole(width, width)
  {
    assert n == width * (n / width);
    MulBound(width, n / width);
    MultipleMod(width, 1);
  }

  lemma {:induction false} UnitCount(n: nat, width: Pos) returns (a: nat)
    requires Whole(n, width)
    ensures n == width * a
  {
    a := n / width;
  }

  lemma {:induction false} CountedWhole(n: nat, width: Pos, a: nat)
    requires n == width * a
    ensures Whole(n, width)
  {
    MultipleMod(width, a);
  }

  lemma {:induction false} UnitsLeft(n: nat, m: nat, width: Pos)
    requires Whole(n, width) && Whole(m, width) && m <= n
    ensures Whole(n - m, width)
  {
    hide Whole;
    var a := UnitCount(n, width);
    var b := UnitCount(m, width);
    Distribute(width, a, b);
    MulBound(width, a - b);
    CountedWhole(n - m, width, a - b);
  }

  lemma {:induction false} Distribute(w: int, a: int, b: int)
    ensures w * a - w * b == w * (a - b)
  {
  }

  lemma {:induction false} OffsetBytesSize(offs: seq<nat>, width: Pos, align: Pos)
    ensures |OffsetBytes(offs, width, align)| == width * |offs|
  {
    hide FixNum;
    if |offs| > 0 {
      OffsetBytesSize(offs[..|offs| - 1], width, align);
      Distribute(width, |offs|, 1);
    }
  }

  /** The offsets that the offset file can hold: aligned, and small enough for its width. */
  predicate Addressable(offs: seq<nat>, width: Pos, align: Pos) {
    forall i :: 0 <= i < |offs| ==> Whole(offs[i], align) && Unit(offs[i], align) < Pow256(width)
  }

  /** The `n`-th number of an offset file is the `n`-th offset. */
  lemma {:induction false} StoredOffset(offs: seq<nat>, n: nat, width: Pos, align: Pos)
    requires n < |offs| && Addressable(offs, width, align)
    ensures var file := OffsetBytes(offs, width, align);
            && 0 <= width * n <= width * n + width <= |file|
            && OffsetIn(file[width * n..width * n + width], align) == offs[n]
  {
    hide FixNum, ReadFixNum, OffsetBytes, Pow256, Unit, Whole;
    var a, b := offs[..n], offs[n + 1..];
    assert offs == (a + [offs[n]]) + b;
    OffsetBytesConcat(a + [offs[n]], b, width, align);
    OffsetBytesConcat(a, [offs[n]], width, align);
    OneOffset(offs[n], width, align);
    OffsetBytesSize(a, width, align);
    var fa, fn := OffsetBytes(a, width, align), FixNum(Unit(offs[n], align), width);
    assert OffsetBytes(offs, width, align)[|fa|..|fa| + width] == fn;
    FixNumReads(Unit(offs[n], align), width);
    UnitTimes(offs[n], align);
  }

  lemma {:induction false} UnitTimes(o: nat, align: Pos)
    requires Whole(o, align)
    ensures Unit(o, align) * align == o
  {
  }

  // ----- importing -----

  /** Replay of the records between two offsets on top of what is already there. */
  function ReplayOnto(m: Contents, recs: Records, from: nat, end: nat): Contents
    decreases if from < end then end - from else 0
  {
    if from < end && from in recs
    then ReplayOnto(ApplyRec(m, recs[from]), recs, from + recs[from].size, end)
    else m
  }

  /** Replaying a file section on top of the sections before it is replaying them together. */
  lemma {:induction false} ReplayOntoReplay(recs: Records, offs: seq<nat>, from: nat, end: nat)
    requires AllIn(recs, offs)
    ensures ReplayOnto(Replay(recs, offs), recs, from, end) ==
            Replay(recs, offs + Scan(recs, from, end))
    decreases if from < end then end - from else 0
  {
    hide ApplyRec;
    if from < end && from in recs {
      var rest := Scan(recs, from + recs[from].size, end);
      ReplaySnoc(recs, offs, from);
      ReplayOntoReplay(recs, offs + [from], from + recs[from].size, end);
      assert offs + [from] + rest == offs + Scan(recs, from, end);
    } else {
      assert offs + [] == offs;
    }
  }

  /** The processors of an import: storing a value, with or without overwriting, and removing. */
  function Setter(value: Bytes, overwrite: bool): Processor {
    Processor(_ => if overwrite then Put(value) else Noop, Put(value))
  }

  function Remover(): Processor {
    Processor(_ => Remove, Noop)
  }

  /** Replays the records between two offsets of a file onto a database. */
  method ImportForward(source: Store, from: nat, end: nat, target: HashDBM) returns (ok: bool)
    requires target.Valid() && from <= end
    modifies target, target.pool
    ensures target.Valid() && target.inPlace == old(target.inPlace)
    ensures Tiled(source.recs, from, end) ==> ok
    ensures ok ==> target.Map() == ReplayOnto(old(target.Map()), source.recs, from, end)
  {
    hide Tiled, HashDBM.Valid, HashDBM.Map, ApplyRec;
    var recs, offset := source.recs, from;
    ghost var start := target.Map();
    while offset < end
      invariant target.Valid() && from <= offset && target.inPlace == old(target.inPlace)
      invariant ReplayOnto(start, recs, from, end) == ReplayOnto(target.Map(), recs, offset, end)
      invariant Tiled(recs, from, end) ==> Tiled(recs, offset, end)
      decreases end - offset
    {
      TileStep(recs, offset, end);
      if offset !in recs {
        return false;
      }
      var rec := recs[offset];
      ImportRecord(rec, target);
      offset := offset + rec.size;
    }
    ok := true;
  }

  /** Applies one record of a replay. */
  method ImportRecord(rec: Rec, target: HashDBM)
    requires target.Valid()
    modifies target, target.pool
    ensures target.Valid() && target.inPlace == old(target.inPlace)
    ensures target.Map() == ApplyRec(old(target.Map()), rec)
  {
    hide FileOk, Logged, DataSize, Completed, ChainsOk, AppendProcess;
    if Live(rec) {
      var _, _ := target.ProcessImpl(rec.key, Setter(rec.value, true), false, true);
    } else if rec.op.OpRemove? {
      var _, _ := target.ProcessImpl(rec.key, Remover(), false, true);
      RemoveSizes(old(target.Map()), rec.key);
    }
  }

  // ----- importing backward -----

  lemma {:induction false} LastForCons(recs: Records, o: nat, offs: seq<nat>, k: Bytes)
    requires o in recs && AllIn(recs, offs)
    ensures LastFor(recs, [o] + offs, k) ==
            if LastFor(recs, offs, k).Some? then LastFor(recs, offs, k)
            else if Matches(recs[o], k) then Some(o) else None
    decreases |offs|
  {
    if |offs| == 0 {
      assert [o] + offs == [o];
      assert [o][..0] == [];
    } else {
      var n := |offs| - 1;
      assert ([o] + offs)[..|[o] + offs| - 1] == [o] + offs[..n];
      LastForCons(recs, o, offs[..n], k);
    }
  }

  /** Whether the last record for a key in a list of offsets is a removal. */
  predicate LastRemoves(recs: Records, offs: seq<nat>, k: Bytes)
    requires AllIn(recs, offs)
  {
    LastFor(recs, offs, k).Some? && !Live(recs[LastFor(recs, offs, k).value])
  }

  /** What holds after the records of `newer` were imported backward onto `start`: old keys are as
      they were, other keys are as the newest record says, and those it removes are dead. */
  ghost predicate Backward(start: Contents, recs: Records, newer: seq<nat>, m: Contents, dead: set<Bytes>)
    requires AllIn(recs, newer)
  {
    forall k ::
      && Get(m, k) == (if k in start then Some(start[k]) else ValueOf(recs, LastFor(recs, newer, k)))
      && (k in dead <==> k !in start && LastRemoves(recs, newer, k))
  }

  /** One older record keeps that. */
  lemma {:induction false} BackwardStep(start: Contents, recs: Records, o: nat, newer: seq<nat>, m: Contents,
                                        dead: set<Bytes>)
    requires o in recs && !recs[o].op.OpVoid? && AllIn(recs, newer)
    requires Backward(start, recs, newer, m, dead)
    ensures var r := recs[o];
            var m1 := if Live(r) && r.key !in dead && r.key !in m then m[r.key := r.value] else m;
            var dead1 := if !Live(r) && r.key !in m then dead + {r.key} else dead;
            Backward(start, recs, [o] + newer, m1, dead1)
  {
    hide LastFor;
    var r := recs[o];
    var m1 := if Live(r) && r.key !in dead && r.key !in m then m[r.key := r.value] else m;
    var dead1 := if !Live(r) && r.key !in m then dead + {r.key} else dead;
    forall k
      ensures Get(m1, k) ==
              if k in start then Some(start[k]) else ValueOf(recs, LastFor(recs, [o] + newer, k))
      ensures k in dead1 <==> k !in start && LastRemoves(recs, [o] + newer, k)
    {
      LastForCons(recs, o, newer, k);
      assert Get(m, k) == if k in start then Some(start[k]) else ValueOf(recs, LastFor(recs, newer, k));
    }
  }

  /** Leaving out void records changes no last record. */
  lemma {:induction false} NonVoidLast(recs: Records, offs: seq<nat>, k: Bytes)
    requires AllIn(recs, offs)
    ensures LastFor(recs, NonVoid(recs, offs), k) == LastFor(recs, offs, k)
    decreases |offs|
  {
    hide LastFor;
    if |offs| > 0 {
      var rest := NonVoid(recs, offs[1..]);
      NonVoidLast(recs, offs[1..], k);
      LastForCons(recs, offs[0], offs[1..], k);
      LastForCons(recs, offs[0], rest, k);
      assert [offs[0]] + offs[1..] == offs;
      assert [] + rest == rest;
    }
  }

  /** A whole backward import gives the replay of the records, under the keys that were there. */
  lemma {:induction false} BackwardIsReplay(start: Contents, recs: Records, offs: seq<nat>, m: Contents,
                                            dead: set<Bytes>)
    requires AllIn(recs, offs) && Backward(start, recs, NonVoid(recs, offs), m, dead)
    ensures m == Replay(recs, offs) + start
  {
    hide LastFor, NonVoid;
    forall k
      ensures Get(m, k) == Get(Replay(recs, offs) + start, k)
    {
      NonVoidLast(recs, offs, k);
      ReplayGet(recs, offs, k);
    }
    MapsAgree(m, Replay(recs, offs) + start);
  }

  lemma {:induction false} BackwardStarts(start: Contents, recs: Records)
    ensures Backward(start, recs, [], start, {})
  {
  }

  /** Imports one record backward, unless its key is dead or has a newer record. */
  method ImportOlder(rec: Rec, target: HashDBM, dead: set<Bytes>) returns (dead1: set<Bytes>)
    requires target.Valid() && !rec.op.OpVoid?
    modifies target, target.pool
    ensures target.Valid() && target.inPlace == old(target.inPlace)
    ensures var m := old(target.Map());
            && target.Map() == (if Live(rec) && rec.key !in dead && rec.key !in m
                                then m[rec.key := rec.value] else m)
            && dead1 == (if !Live(rec) && rec.key !in m then dead + {rec.key} else dead)
  {
    hide FileOk, Logged, DataSize, Completed, ChainsOk, AppendProcess;
    dead1 := dead;
    if Live(rec) {
      if rec.key !in dead {
        var _, _ := target.ProcessImpl(rec.key, Setter(rec.value, false), false, true);
      }
    } else {
      var found := target.Contains(rec.key);
      if !found {
        dead1 := dead + {rec.key};
      }
    }
  }

  /** Imports the records between two offsets of a file from the newest to the oldest. */
  method ImportBackward(source: Store, from: nat, end: nat, width: Pos, align: Pos, target: HashDBM) returns (ok: bool)
    requires target.Valid() && width <= BUFFER_SIZE && from <= end
    requires Addressable(Scan(source.recs, from, end), width, align)
    modifies target, target.pool
    ensures target.Valid() && target.inPlace == old(target.inPlace)
    ensures Tiled(source.recs, from, end) ==> ok
    ensures ok ==>
              target.Map() == Replay(source.recs, Scan(source.recs, from, end)) + old(target.Map())
  {
    hide HashDBM.Valid, HashDBM.Map, Tiled, Scan, OffsetBytes, NonVoid, Backward, Replay, AtUnit,
         OffsetReader.Valid, OffsetReader.Unread, Addressable;
    ghost var all := Scan(source.recs, from, end);
    var file;
    ok, file := ExtractOffsets(source.recs, from, end, width, align);
    if ok {
      var reader := new OffsetReader(file, width, align);
      ReaderStarts(NonVoid(source.recs, all), width, align);
      StillAddressable(source.recs, all, width, align);
      ghost var dead := ReplayBackward(source.recs, reader, target, NonVoid(source.recs, all));
      BackwardIsReplay(old(target.Map()), source.recs, all, target.Map(), dead);
    }
  }

  /** What a backward import of a section leaves in an empty database is what a forward import
      leaves there. */
  lemma {:induction false} BackwardIsForward(recs: Records, from: nat, end: nat, m: Contents, dead: set<Bytes>)
    requires Backward(map[], recs, NonVoid(recs, Scan(recs, from, end)), m, dead)
    ensures m == ReplayOnto(map[], recs, from, end)
  {
    hide Backward, NonVoid;
    var all := Scan(recs, from, end);
    BackwardIsReplay(map[], recs, all, m, dead);
    SectionReplay(recs, from, end);
  }

  /** Two empty databases, one of which imports a section forward and the other backward, hold the
      same afterwards. */
  method ImportsAgree(source: Store, from: nat, end: nat, width: Pos, align: Pos, forward: HashDBM,
                      backward: HashDBM) returns (ok: bool)
    requires forward.Valid() && backward.Valid() && forward != backward && forward.pool != backward.pool
    requires forward.Map() == map[] && backward.Map() == map[]
    requires width <= BUFFER_SIZE && from <= end
    requires Addressable(Scan(source.recs, from, end), width, align)
    modifies forward, forward.pool, backward, backward.pool
    ensures forward.Valid() && backward.Valid()
    ensures Tiled(source.recs, from, end) ==> ok
    ensures ok ==> forward.Map() == backward.Map() == Replay(source.recs, Scan(source.recs, from, end))
  {
    hide HashDBM.Valid, HashDBM.Map, Tiled, Scan, Addressable, Replay;
    ok := ImportForward(source, from, end, forward);
    if ok {
      ok := ImportBackward(source, from, end, width, align, backward);
      SectionReplay(source.recs, from, end);
    }
  }

  lemma {:induction false} SectionReplay(recs: Records, from: nat, end: nat)
    ensures ReplayOnto(map[], recs, from, end) == Replay(recs, Scan(recs, from, end))
    ensures Replay(recs, Scan(recs, from, end)) + map[] == Replay(recs, Scan(recs, from, end))
  {
    ReplayOntoReplay(recs, [], from, end);
    assert [] + Scan(recs, from, end) == Scan(recs, from, end);
  }

  /** Imports the records at the offsets of a file, from the last to the first. */
  method ReplayBackward(recs: Records, reader: OffsetReader, target: HashDBM, ghost offs: seq<nat>)
    returns (dead: set<Bytes>)
    requires target.Valid() && reader.Valid() && reader.width <= BUFFER_SIZE
    requires AllIn(recs, offs) && forall i :: 0 <= i < |offs| ==> !recs[offs[i]].op.OpVoid?
    requires reader.file == OffsetBytes(offs, reader.width, reader.align)
    requires Addressable(offs, reader.width, reader.align)
    requires AtUnit(reader.Unread(), reader.width, |offs|)
    modifies target, target.pool, reader
    ensures target.Valid() && target.inPlace == old(target.inPlace)
    ensures Backward(old(target.Map()), recs, offs, target.Map(), dead)
  {
    hide HashDBM.Valid, HashDBM.Map, OffsetBytes, Backward, AtUnit, OffsetReader.Valid, Addressable,
         OffsetReader.Unread;
    ghost var start := target.Map();
    dead := {};
    ghost var n := |offs|;
    BackwardStarts(start, recs);
    assert offs[n..] == [];
    while true
      invariant target.Valid() && target.inPlace == old(target.inPlace) && reader.Valid()
      invariant 0 <= n <= |offs| && AtUnit(reader.Unread(), reader.width, n)
      invariant Backward(start, recs, offs[n..], target.Map(), dead)
      decreases n
    {
      var offset := NextOffset(reader, offs, n);
      if offset.None? {
        break;
      }
      n := n - 1;
      BackwardStep(start, recs, offs[n], offs[n + 1..], target.Map(), dead);
      assert [offs[n]] + offs[n + 1..] == offs[n..];
      dead := ImportOlder(recs[offset.value], target, dead);
    }
    assert offs[0..] == offs;
  }

  /** `unread` bytes are `n` whole offsets. */
  predicate AtUnit(unread: nat, width: Pos, n: nat) {
    unread == width * n
  }

  /** Reading an offset file backward gives its offsets in reverse order. */
  method NextOffset(reader: OffsetReader, ghost offs: seq<nat>, ghost n: nat)
    returns (offset: Option<nat>)
    requires reader.Valid() && reader.width <= BUFFER_SIZE && n <= |offs|
    requires reader.file == OffsetBytes(offs, reader.width, reader.align)
    requires Addressable(offs, reader.width, reader.align)
    requires AtUnit(reader.Unread(), reader.width, n)
    modifies reader
    ensures reader.Valid()
    ensures if n == 0 then offset.None?
            else offset == Some(offs[n - 1]) && AtUnit(reader.Unread(), reader.width, n - 1)
  {
    hide OffsetBytes, Addressable, OffsetIn, OffsetReader.Valid;
    Remaining(n, reader.width);
    if n > 0 {
      StoredOffset(offs, n - 1, reader.width, reader.align);
    }
    offset := reader.ReadOffset();
  }

  lemma {:induction false} StillAddressable(recs: Records, all: seq<nat>, width: Pos, align: Pos)
    requires AllIn(recs, all) && Addressable(all, width, align)
    ensures Addressable(NonVoid(recs, all), width, align)
  {
    hide NonVoid, Whole, Unit, Pow256;
  }

  lemma {:induction false} ReaderStarts(offs: seq<nat>, width: Pos, align: Pos)
    ensures AtUnit(Floor(|OffsetBytes(offs, width, align)|, width), width, |offs|)
  {
    OffsetBytesSize(offs, width, align);
    MultipleMod(width, |offs|);
  }

  lemma {:induction false} Remaining(n: nat, width: Pos)
    ensures width * n < width <==> n == 0
    ensures n > 0 ==> width * n - width == width * (n - 1)
  {
    MulBound(width, n);
    Distribute(width, n, 1);
  }
}
