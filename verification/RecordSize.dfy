/** Sizes of the records of a hash database file. */
module RecordSize {
  import opened Common

  /** The widths in bytes of offsets and checksums, and the alignment of records. */
  datatype Geometry = Geometry(offsetWidth: nat, crcWidth: nat, align: Pos)

  /** The number of bytes of a number in the 7-bits-a-byte encoding. */
  function SizeVarNum(n: nat): Pos {
    if n < 0x80 then 1
    else if n < 0x4000 then 2
    else if n < 0x20_0000 then 3
    else if n < 0x1000_0000 then 4
    else if n < 0x8_0000_0000 then 5
    else if n < 0x400_0000_0000 then 6
    else if n < 0x2_0000_0000_0000 then 7
    else if n < 0x100_0000_0000_0000 then 8
    else if n < 0x8000_0000_0000_0000 then 9
    else 10
  }

  /** The least multiple of `align` that is not below `n`. */
  function AlignNumber(n: nat, align: Pos): (r: nat)
    ensures n <= r < n + align
    ensures r % align == 0
  {
    var diff := n % align;
    if diff > 0 then
      assert (n + align - diff) == align * (n / align + 1);
      MultipleMod(align, n / align + 1);
      n + align - diff
    else n
  }

  lemma {:induction false} AlignMonotone(m: nat, n: nat, align: Pos)
    requires m <= n
    ensures AlignNumber(m, align) <= AlignNumber(n, align)
  {
    var a, b := AlignNumber(m, align), AlignNumber(n, align);
    assert a == align * (a / align) && b == align * (b / align);
    MulBound(align, a / align - b / align);
    assert a - b == align * (a / align - b / align);
  }

  lemma {:induction false} MultipleMod(align: Pos, k: nat)
    ensures (align * k) % align == 0
  {
    var q, r := (align * k) / align, (align * k) % align;
    assert align * k == align * q + r;
    assert r == align * (k - q);
    MulBound(align, k - q);
  }

  lemma {:induction false} MulBound(a: int, d: int)
    requires a > 0
    ensures d >= 1 ==> a * d >= a
    ensures d <= -1 ==> a * d <= -a
  {
  }

  /** The size of a record without padding. */
  function BaseSize(g: Geometry, keySize: nat, valueSize: nat): Pos {
    1 + g.offsetWidth + SizeVarNum(keySize) + SizeVarNum(valueSize) + 1 + g.crcWidth + keySize + valueSize
  }

  /** The size a record occupies, given the size of the place it should fill. */
  function WholeSize(g: Geometry, key: Bytes, value: Bytes, ideal: nat): (r: Pos)
    ensures r % g.align == 0
    ensures r >= BaseSize(g, |key|, |value|) && r >= ideal
    ensures r < BaseSize(g, |key|, |value|) + g.align || r < ideal + g.align
    ensures ideal % g.align == 0 && ideal >= BaseSize(g, |key|, |value|) ==> r == ideal
  {
    var base := BaseSize(g, |key|, |value|);
    AlignNumber(if base > ideal then base else ideal, g.align)
  }
}
