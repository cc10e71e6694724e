/** The bytes of a record of a hash database file. */
module RecordCodec {
  import opened Common
  import opened Checksum
  import opened RecordSize
  import opened Numbers
  import opened HashStore

  const MAX_KEY_SIZE := 0x7F_FFFF
  const MAX_VALUE_SIZE := 0x7FFF_FFFF
  const META_MIN_READ_SIZE := 48
  const PADDING_TOP_MAGIC: Byte := 0xDD

  function OpCode(op: Op): nat {
    match op
    case OpVoid => 3
    case OpSet => 2
    case OpRemove => 1
    case OpAdd => 0
  }

  function OpOf(code: nat): Op {
    if code == 3 then OpVoid else if code == 2 then OpSet else if code == 1 then OpRemove else OpAdd
  }

  /** What is handed over to be written, with the width-limited checksum of key and value. */
  datatype Data = Data(op: Op, key: Bytes, value: Bytes, child: nat, ideal: nat, crc: nat)

  function Padding(g: Geometry, d: Data): nat {
    WholeSize(g, d.key, d.value, d.ideal) - BaseSize(g, |d.key|, |d.value|)
  }

  /** The operation in the two high bits, the checksum in the others. */
  function FirstByte(d: Data): Byte {
    (64 * OpCode(d.op) + MagicChecksum(d.key, d.value)) as Byte
  }

  lemma {:induction false} FirstByteReads(d: Data)
    ensures OpOf(FirstByte(d) as int / 64) == d.op
    ensures FirstByte(d) as int / 64 ==
            match d.op { case OpVoid => 3 case OpSet => 2 case OpRemove => 1 case OpAdd => 0 }
    ensures FirstByte(d) as int % 64 == MagicChecksum(d.key, d.value) >= 3
  {
    hide MagicChecksum;
  }

  function Header(g: Geometry, d: Data): Bytes {
    [FirstByte(d)]
    + FixNum(d.child / g.align, g.offsetWidth)
    + VarNum(|d.key|)
    + VarNum(|d.value|)
    + VarNum(Padding(g, d))
    + FixNum(d.crc, g.crcWidth)
  }

  /** A longer encoding of the padding size takes bytes from the padding itself. */
  function PaddingBytes(padding: nat): Bytes {
    if padding == 0 then [] else [PADDING_TOP_MAGIC] + Zeros(padding - SizeVarNum(padding))
  }

  function Encode(g: Geometry, d: Data): Bytes {
    Header(g, d) + d.key + d.value + PaddingBytes(Padding(g, d))
  }

  /** A record's bytes fill its whole size, so the next record starts where it ends. */
  lemma {:induction false} EncodedSize(g: Geometry, d: Data)
    ensures |Encode(g, d)| == WholeSize(g, d.key, d.value, d.ideal)
    ensures |Header(g, d)| == 1 + g.offsetWidth + SizeVarNum(|d.key|) + SizeVarNum(|d.value|) +
                              SizeVarNum(Padding(g, d)) + g.crcWidth
  {
    hide SizeVarNum, WholeSize, FixNum, VarNum;
    assert SizeVarNum(0) == 1 by { SizeOfZero(); }
  }

  /** What follows the head: the key, the value, and the padding, if any, with its mark. */
  lemma {:induction false} BodyLayout(g: Geometry, d: Data)
    ensures var e, h := Encode(g, d), |Header(g, d)|;
            var end := h + |d.key| + |d.value|;
            && Holds(e, 0, Header(g, d)) && Holds(e, h, d.key) && Holds(e, h + |d.key|, d.value)
            && (Padding(g, d) == 0 ==> |e| == end)
            && (Padding(g, d) > 0 ==> Holds(e, end, [0xDD]))
            && forall i :: end < i < |e| ==> e[i] == 0
  {
    hide Padding, SizeVarNum, Header;
    BodyHeld(Header(g, d), d.key, d.value, PaddingBytes(Padding(g, d)));
  }

  lemma {:induction false} BodyHeld(h: Bytes, k: Bytes, v: Bytes, z: Bytes)
    ensures var e := h + k + v + z;
            Holds(e, 0, h) && Holds(e, |h|, k) && Holds(e, |h| + |k|, v) && Holds(e, |h| + |k| + |v|, z)
  {
  }

  lemma {:induction false} SizeOfZero()
    ensures SizeVarNum(0) == 1
  {
  }

  /** What reading a record's head finds: its properties, the key, and the value when it was among
      the bytes read. */
  datatype Parsed = Parsed(op: Op, checksum: nat, child: nat, crc: nat, header: nat, keySize: nat,
                           valueSize: nat, whole: int, key: Bytes, value: Option<Bytes>)

  /** Reads the head of the record at an offset, looking at `minRead` bytes first and at the body
      when the key is longer than that. */
  function ReadMetadataKey(g: Geometry, file: Bytes, offset: nat, minRead: nat): Option<Parsed>
    requires offset <= |file|
  {
    var limit := |file| - offset;
    if limit < 1 + g.offsetWidth + 3 + g.crcWidth then None
    else
      var buf := file[offset..offset + if limit > minRead then minRead else limit];
      ReadHead(g, file, offset, buf)
  }

  function ReadHead(g: Geometry, file: Bytes, offset: nat, buf: Bytes): Option<Parsed>
    requires offset <= |file|
  {
    var limit := |file| - offset;
    if |buf| < 1 + g.offsetWidth || buf[0] as int % 64 < 3 then None
    else
      var keySize := VarNumFrom(buf, 1 + g.offsetWidth, 0);
      if keySize.None? || keySize.value.0 > MAX_KEY_SIZE || keySize.value.0 > limit then None
      else
        var valueSize := VarNumFrom(buf, keySize.value.1, 0);
        if valueSize.None? || valueSize.value.0 > MAX_VALUE_SIZE || valueSize.value.0 > limit then None
        else
          var padding := VarNumFrom(buf, valueSize.value.1, 0);
          if padding.None? || padding.value.0 > MAX_VALUE_SIZE || padding.value.0 > limit ||
             padding.value.1 + g.crcWidth > |buf|
          then None
          else
            var header := padding.value.1 + g.crcWidth;
            var extra := padding.value.1 - valueSize.value.1 - 1;
            var whole := header + keySize.value.0 + valueSize.value.0 + padding.value.0 - extra;
            var parsed := Parsed(OpOf(buf[0] as int / 64), buf[0] as int % 64,
                                 ReadFixNum(buf[1..1 + g.offsetWidth]) * g.align,
                                 ReadFixNum(buf[padding.value.1..header]), header,
                                 keySize.value.0, valueSize.value.0, whole, [], None);
            ReadTail(file, offset, buf, padding.value.0, parsed)
  }

  /** The key, and the value if it is there, from the bytes read; or both from the file. */
  function ReadTail(file: Bytes, offset: nat, buf: Bytes, padding: nat, p: Parsed): Option<Parsed>
    requires p.header <= |buf|
  {
    var keyEnd, valueEnd := p.header + p.keySize, p.header + p.keySize + p.valueSize;
    if keyEnd <= |buf| then
      if padding > 0 && valueEnd < |buf| && buf[valueEnd] != PADDING_TOP_MAGIC then None
      else if padding > 1 && valueEnd + 1 < |buf| && buf[valueEnd + 1] != 0 then None
      else Some(p.(key := buf[p.header..keyEnd],
                   value := if valueEnd <= |buf| then Some(buf[keyEnd..valueEnd]) else None))
    else if offset + p.whole > |file| then None
    else
      match ReadBody(file, offset, p)
      case None => None
      case Some((key, value)) => Some(p.(key := key, value := Some(value)))
  }

  /** The key and the value of a record whose head was read. */
  function ReadBody(file: Bytes, offset: nat, p: Parsed): Option<(Bytes, Bytes)> {
    var body := offset + p.header;
    if body + p.keySize + p.valueSize > |file| then None
    else Some((file[body..body + p.keySize],
               file[body + p.keySize..body + p.keySize + p.valueSize]))
  }

  /** Sizes and numbers the format can hold. */
  predicate Encodable(g: Geometry, d: Data) {
    && g.offsetWidth <= 6 && g.crcWidth <= 4
    && |d.key| <= MAX_KEY_SIZE && |d.value| <= MAX_VALUE_SIZE
    && Padding(g, d) <= MAX_VALUE_SIZE
    && d.child % g.align == 0 && d.child / g.align < Pow256(g.offsetWidth)
    && d.crc < Pow256(g.crcWidth)
  }

  lemma {:induction false} HeaderFits(g: Geometry, d: Data)
    requires Encodable(g, d)
    ensures |Header(g, d)| <= 25
    ensures |Header(g, d)| >= 1 + g.offsetWidth + 3 + g.crcWidth
  {
    hide WholeSize, FixNum, VarNum, MagicChecksum, Pow256, Padding;
    EncodedSize(g, d);
  }

  /** Where the parts of a header are, at the start of what was read. */
  lemma {:induction false} PartsHeld(buf: Bytes, a: Bytes, b: Bytes, c: Bytes, d: Bytes, e: Bytes, f: Bytes)
    requires Holds(buf, 0, a + b + c + d + e + f)
    ensures var p1, p2 := |a| + |b|, |a| + |b| + |c|;
            var p3, p4 := p2 + |d|, p2 + |d| + |e|;
            && Holds(buf, 0, a) && Holds(buf, |a|, b) && Holds(buf, p1, c) && Holds(buf, p2, d)
            && Holds(buf, p3, e) && Holds(buf, p4, f)
  {
    HoldsParts(buf, 0, a + b + c + d + e, f);
    HoldsParts(buf, 0, a + b + c + d, e);
    HoldsParts(buf, 0, a + b + c, d);
    HoldsParts(buf, 0, a + b, c);
    HoldsParts(buf, 0, a, b);
  }

  lemma {:induction false} HoldsParts(buf: Bytes, offset: nat, a: Bytes, b: Bytes)
    requires Holds(buf, offset, a + b)
    ensures Holds(buf, offset, a) && Holds(buf, offset + |a|, b)
  {
    assert (a + b)[..|a|] == a && (a + b)[|a|..] == b;
    WindowSlice(buf, offset, a + b, 0, |a|);
    WindowSlice(buf, offset, a + b, |a|, |a| + |b|);
  }

  lemma {:induction false} DivMul(n: nat, align: Pos)
    requires n % align == 0
    ensures n / align * align == n
  {
  }

  /** Reading a head whose three numbers are in range. */
  lemma {:induction false} HeadParses(g: Geometry, file: Bytes, offset: nat, buf: Bytes, keySize: nat,
                                      valueSize: nat, padding: nat, p2: nat, p3: nat, p4: nat)
    requires offset <= |file| && |buf| >= 1 + g.offsetWidth && buf[0] as int % 64 >= 3
    requires VarNumFrom(buf, 1 + g.offsetWidth, 0) == Some((keySize, p2))
    requires VarNumFrom(buf, p2, 0) == Some((valueSize, p3)) && VarNumFrom(buf, p3, 0) == Some((padding, p4))
    requires keySize <= MAX_KEY_SIZE && valueSize <= MAX_VALUE_SIZE && padding <= MAX_VALUE_SIZE
    requires keySize <= |file| - offset && valueSize <= |file| - offset && padding <= |file| - offset
    requires p3 < p4 && p4 + g.crcWidth <= |buf|
    requires p4 + g.crcWidth + keySize + valueSize + padding >= p4 - p3 - 1
    ensures ReadHead(g, file, offset, buf) ==
            ReadTail(file, offset, buf, padding,
                     Parsed(OpOf(buf[0] as int / 64), buf[0] as int % 64,
                            ReadFixNum(buf[1..1 + g.offsetWidth]) * g.align,
                            ReadFixNum(buf[p4..p4 + g.crcWidth]), p4 + g.crcWidth, keySize, valueSize,
                            p4 + g.crcWidth + keySize + valueSize + padding - (p4 - p3 - 1), [], None))
  {
    hide VarNumFrom, ReadTail, ReadFixNum, OpOf;
  }

  /** Reading the head of an encoded record finds what was written. */
  lemma {:induction false} HeadReads(g: Geometry, d: Data, file: Bytes, offset: nat, buf: Bytes)
    requires Encodable(g, d) && Holds(file, offset, Encode(g, d))
    requires |Header(g, d)| <= |buf| && buf[..|Header(g, d)|] == Header(g, d)
    ensures var header := |Header(g, d)|;
            ReadHead(g, file, offset, buf) ==
            ReadTail(file, offset, buf, Padding(g, d),
                     Parsed(d.op, MagicChecksum(d.key, d.value), d.child, d.crc, header, |d.key|,
                            |d.value|, |Encode(g, d)|, [], None))
  {
    hide Encode, WholeSize, MagicChecksum, Padding, VarNumFrom, ReadTail, ReadFixNum, VarNum,
         FixNum, SizeVarNum, FirstByte, OpOf, OpCode, ReadHead;
    var p1 := 1 + g.offsetWidth;
    var p2 := p1 + SizeVarNum(|d.key|);
    var p3 := p2 + SizeVarNum(|d.value|);
    BodySizes(g, d);
    EncodedSize(g, d);
    HeaderFits(g, d);
    FirstByteReads(d);
    PartsHeld(buf, [FirstByte(d)], FixNum(d.child / g.align, g.offsetWidth), VarNum(|d.key|),
              VarNum(|d.value|), VarNum(Padding(g, d)), FixNum(d.crc, g.crcWidth));
    assert buf[0] == FirstByte(d);
    FixNumReads(d.child / g.align, g.offsetWidth);
    FixNumReads(d.crc, g.crcWidth);
    VarNumReads(buf, p1, |d.key|);
    VarNumReads(buf, p2, |d.value|);
    VarNumReads(buf, p3, Padding(g, d));
    DivMul(d.child, g.align);
    HeadParses(g, file, offset, buf, |d.key|, |d.value|, Padding(g, d), p2, p3,
               p3 + SizeVarNum(Padding(g, d)));
  }

  /** The three numbers of a head, behind the first byte and the child: the sizes of the key, the value
      and the padding, in this order. */
  lemma {:induction false} SizesInOrder(g: Geometry, d: Data)
    requires Encodable(g, d)
    ensures var h := Header(g, d);
            var key := VarNumFrom(h, 1 + g.offsetWidth, 0);
            && key.Some? && key.value.0 == |d.key|
            && var value := VarNumFrom(h, key.value.1, 0);
            && value.Some? && value.value.0 == |d.value|
            && var padding := VarNumFrom(h, value.value.1, 0);
            && padding.Some? && padding.value.0 == Padding(g, d) && padding.value.1 + g.crcWidth == |h|
  {
    hide WholeSize, MagicChecksum, Padding, VarNumFrom, VarNum, FixNum, SizeVarNum, FirstByte;
    var h, p1 := Header(g, d), 1 + g.offsetWidth;
    var p2 := p1 + SizeVarNum(|d.key|);
    var p3 := p2 + SizeVarNum(|d.value|);
    EncodedSize(g, d);
    PartsHeld(h, [FirstByte(d)], FixNum(d.child / g.align, g.offsetWidth), VarNum(|d.key|),
              VarNum(|d.value|), VarNum(Padding(g, d)), FixNum(d.crc, g.crcWidth));
    VarNumReads(h, p1, |d.key|);
    VarNumReads(h, p2, |d.value|);
    VarNumReads(h, p3, Padding(g, d));
  }

  lemma {:induction false} BodySizes(g: Geometry, d: Data)
    ensures |d.key| <= |Encode(g, d)| && |d.value| <= |Encode(g, d)|
    ensures Padding(g, d) <= |Encode(g, d)|
    ensures |Encode(g, d)| == |Header(g, d)| + |d.key| + |d.value| + Padding(g, d) -
                              (SizeVarNum(Padding(g, d)) - 1)
  {
    hide SizeVarNum, FixNum, VarNum;
    EncodedSize(g, d);
  }

  lemma {:induction false} BodyReads(g: Geometry, d: Data, file: Bytes, offset: nat, p: Parsed)
    requires Holds(file, offset, Encode(g, d))
    requires p.header == |Header(g, d)| && p.keySize == |d.key| && p.valueSize == |d.value|
    ensures ReadBody(file, offset, p) == Some((d.key, d.value))
  {
    hide Header, Padding, PaddingBytes;
    var e, h := Encode(g, d), Header(g, d);
    var keyEnd, valueEnd := |h| + |d.key|, |h| + |d.key| + |d.value|;
    assert e[|h|..keyEnd] == d.key && e[keyEnd..valueEnd] == d.value;
    WindowSlice(file, offset, e, |h|, keyEnd);
    WindowSlice(file, offset, e, keyEnd, valueEnd);
  }

  /** The body of an encoded record, whether among the bytes read or not. */
  lemma {:induction false} TailReads(g: Geometry, d: Data, file: Bytes, offset: nat, buf: Bytes, p: Parsed)
    requires Holds(file, offset, Encode(g, d))
    requires |Header(g, d)| <= |buf| && offset + |buf| <= |file| && buf == file[offset..offset + |buf|]
    requires p.header == |Header(g, d)| && p.keySize == |d.key| && p.valueSize == |d.value|
    requires p.whole == |Encode(g, d)| && p.value == None
    ensures var r := ReadTail(file, offset, buf, Padding(g, d), p);
            && r.Some? && r.value == p.(key := d.key, value := r.value.value)
            && (r.value.value.None? || r.value.value == Some(d.value))
  {
    hide Header, Padding, PaddingBytes, ReadBody;
    BodyReads(g, d, file, offset, p);
    var e, h := Encode(g, d), Header(g, d);
    var keyEnd, valueEnd := |h| + |d.key|, |h| + |d.key| + |d.value|;
    PaddingFollows(g, d, valueEnd);
    if valueEnd < |buf| && valueEnd < |e| {
      BufferSlice(file, offset, buf, e, valueEnd, valueEnd + 1);
    }
    if valueEnd + 1 < |buf| && valueEnd + 1 < |e| {
      BufferSlice(file, offset, buf, e, valueEnd + 1, valueEnd + 2);
    }
    assert e[|h|..keyEnd] == d.key && e[keyEnd..valueEnd] == d.value;
    if keyEnd <= |buf| {
      BufferSlice(file, offset, buf, e, |h|, keyEnd);
      if valueEnd <= |buf| {
        BufferSlice(file, offset, buf, e, keyEnd, valueEnd);
      }
    }
  }

  lemma {:induction false} BufferSlice(file: Bytes, offset: nat, buf: Bytes, e: Bytes, i: nat, j: nat)
    requires Holds(file, offset, e) && i <= j <= |e| && j <= |buf|
    requires offset + |buf| <= |file| && buf == file[offset..offset + |buf|]
    ensures buf[i..j] == e[i..j]
    ensures forall k :: i <= k < j ==> buf[k] == e[k]
  {
    forall k | i <= k < j
      ensures buf[k] == e[k]
    {
      assert file[offset..offset + |e|][k] == e[k];
    }
  }

  lemma {:induction false} PaddingFollows(g: Geometry, d: Data, valueEnd: nat)
    requires valueEnd == |Header(g, d)| + |d.key| + |d.value|
    ensures Padding(g, d) > 0 ==> valueEnd < |Encode(g, d)| && Encode(g, d)[valueEnd] == PADDING_TOP_MAGIC
    ensures Padding(g, d) > 1 ==> valueEnd + 1 < |Encode(g, d)| && Encode(g, d)[valueEnd + 1] == 0
  {
    hide Header, Padding, PaddingBytes;
    PaddingStarts(Padding(g, d));
  }

  lemma {:induction false} PaddingStarts(padding: nat)
    ensures padding > 0 ==> |PaddingBytes(padding)| > 0 && PaddingBytes(padding)[0] == PADDING_TOP_MAGIC
    ensures padding > 1 ==> |PaddingBytes(padding)| > 1 && PaddingBytes(padding)[1] == 0
  {
  }

  /** Whatever was written is read back: operation, checksums, child, key, value and whole size,
      for any alignment, checksum width, ideal size and number of bytes looked at first. */
  lemma {:induction false} RecordRoundTrip(g: Geometry, d: Data, file: Bytes, offset: nat, minRead: nat)
    requires Encodable(g, d) && Holds(file, offset, Encode(g, d)) && minRead >= META_MIN_READ_SIZE
    ensures var r := ReadMetadataKey(g, file, offset, minRead);
            && r.Some?
            && r.value.op == d.op
            && r.value.checksum == MagicChecksum(d.key, d.value)
            && r.value.crc == d.crc
            && r.value.child == d.child
            && r.value.key == d.key
            && r.value.whole == |Encode(g, d)| == WholeSize(g, d.key, d.value, d.ideal)
            && (r.value.value.None? || r.value.value == Some(d.value))
            && ReadBody(file, offset, r.value) == Some((d.key, d.value))
  {
    hide Encode, Header, ReadHead, ReadTail, Encodable, WholeSize, MagicChecksum;
    HeaderFits(g, d);
    EncodedSize(g, d);
    BodySizes(g, d);
    var limit := |file| - offset;
    var size := if limit > minRead then minRead else limit;
    var buf := file[offset..offset + size];
    HeaderFirst(g, d, file, offset, buf);
    HeadReads(g, d, file, offset, buf);
    var p := Parsed(d.op, MagicChecksum(d.key, d.value), d.child, d.crc, |Header(g, d)|, |d.key|,
                    |d.value|, |Encode(g, d)|, [], None);
    TailReads(g, d, file, offset, buf, p);
    BodyReads(g, d, file, offset, ReadTail(file, offset, buf, Padding(g, d), p).value);
  }

  lemma {:induction false} HeaderFirst(g: Geometry, d: Data, file: Bytes, offset: nat, buf: Bytes)
    requires Holds(file, offset, Encode(g, d)) && |Header(g, d)| <= |buf|
    requires offset + |buf| <= |file| && buf == file[offset..offset + |buf|]
    ensures buf[..|Header(g, d)|] == Header(g, d)
  {
    hide Header, PaddingBytes;
    var h := |Header(g, d)|;
    assert Encode(g, d)[..h] == Header(g, d);
    assert buf[..h] == file[offset..offset + |Encode(g, d)|][..h];
  }

  /** A region that starts with a zero byte is never taken for a record. */
  lemma {:induction false} ZeroNeverParses(g: Geometry, file: Bytes, offset: nat, minRead: nat)
    requires offset < |file| && file[offset] == 0
    ensures ReadMetadataKey(g, file, offset, minRead).None?
  {
  }
}
