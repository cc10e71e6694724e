/** The two number encodings of the file formats: fixed-width big-endian numbers, and numbers in
    groups of seven bits, high groups first, every byte but the last with its top bit set. */
module Numbers {
  import opened Common
  import opened RecordSize

  function Pow256(w: nat): Pos {
    if w == 0 then 1 else 256 * Pow256(w - 1)
  }

  /** The low `width` bytes of a number, the most significant first. */
  function FixNum(n: nat, width: nat): (b: Bytes)
    ensures |b| == width
    decreases width
  {
    if width == 0 then [] else FixNum(n / 256, width - 1) + [(n % 256) as Byte]
  }

  function ReadFixNum(b: Bytes): nat {
    if |b| == 0 then 0 else 256 * ReadFixNum(b[..|b| - 1]) + b[|b| - 1] as int
  }

  function Zeros(n: nat): (z: Bytes)
    ensures |z| == n && forall i :: 0 <= i < n ==> z[i] == 0
  {
    seq(n, _ => 0 as Byte)
  }

  /** A number that fits in its width is read back. */
  lemma {:induction false} FixNumReads(n: nat, width: nat)
    requires n < Pow256(width)
    ensures ReadFixNum(FixNum(n, width)) == n
    decreases width
  {
    if width > 0 {
      var b := FixNum(n, width);
      assert b[..|b| - 1] == FixNum(n / 256, width - 1);
      FixNumReads(n / 256, width - 1);
    }
  }

  /** Where the bytes of a number are: the byte with i bytes behind it counts powers of 256 to the i. */
  lemma {:induction false} FixNumBytes(n: nat, width: nat, i: nat)
    requires i < width
    ensures FixNum(n, width)[width - 1 - i] as int == n / Pow256(i) % 256
    decreases width
  {
    if i > 0 {
      FixNumBytes(n / 256, width - 1, i - 1);
      DivTwice(n, 256, Pow256(i - 1));
    }
  }

  lemma {:induction false} DivTwice(n: nat, a: Pos, b: Pos)
    ensures a * b > 0 && n / (a * b) == n / a / b
  {
    var q, r := n / a, n % a;
    TwoSteps(n, a, b, q, r, q / b, q % b);
  }

  lemma {:induction false} TwoSteps(n: nat, a: Pos, b: Pos, q: nat, r: nat, p: nat, t: nat)
    requires n == a * q + r && r < a && q == b * p + t && t < b
    ensures a * b > 0 && n / (a * b) == p
  {
    Regrouped(a, b, p, t);
    RestBelow(a, b, r, t);
    DivIs(n, a * b, p, r + a * t);
  }

  lemma {:induction false} Regrouped(a: nat, b: nat, p: nat, t: nat)
    ensures a * (b * p + t) == a * b * p + a * t
  {
  }

  lemma {:induction false} RestBelow(a: Pos, b: Pos, x: nat, y: nat)
    requires x < a && y < b
    ensures a * b > 0 && x + a * y < a * b
  {
    assert a * b == a * y + a * (b - y);
    MulBound(a, b - y);
  }

  lemma {:induction false} DivIs(n: nat, m: Pos, q: nat, r: nat)
    requires n == m * q + r && r < m
    ensures n / m == q
  {
    var d := n / m - q;
    assert m * d == r - n % m;
    MulBound(m, d);
  }

  lemma {:induction false} ReadFixNumBound(b: Bytes)
    ensures ReadFixNum(b) < Pow256(|b|)
  {
    if |b| > 0 {
      ReadFixNumBound(b[..|b| - 1]);
    }
  }

  function Pow128(c: nat): Pos {
    if c == 0 then 1 else 128 * Pow128(c - 1)
  }

  /** The `count` low groups of seven bits of a number, each marked as followed by another. */
  function Groups(n: nat, count: nat): (b: Bytes)
    ensures |b| == count
    ensures forall i :: 0 <= i < |b| ==> b[i] as int >= 0x80
    decreases count
  {
    if count == 0 then [] else Groups(n / 128, count - 1) + [(0x80 + n % 128) as Byte]
  }

  /** The encoding of a number, `SizeVarNum` bytes long. */
  function VarNum(n: nat): (b: Bytes)
    ensures |b| == SizeVarNum(n)
  {
    Groups(n / 128, SizeVarNum(n) - 1) + [(n % 128) as Byte]
  }

  const WORD := 0x1_0000_0000_0000_0000

  /** Reading groups from `pos`, with the number read so far: the number and the position after
      it, or nothing when the bytes end first.  Numbers wrap around at 64 bits. */
  function VarNumFrom(b: Bytes, pos: nat, num: nat): Option<(nat, nat)>
    decreases |b| - pos
  {
    if pos >= |b| then None
    else
      var c := b[pos] as int;
      var next := (num * 128 + c % 128) % WORD;
      if c >= 0x80 then VarNumFrom(b, pos + 1, next) else Some((next, pos + 1))
  }

  /** The number at the start of a region, as a loop over its bytes. */
  method ReadVarNum(b: Bytes, start: nat) returns (num: nat, step: nat)
    requires start <= |b|
    ensures VarNumFrom(b, start, 0) == if step == 0 then None else Some((num, start + step))
  {
    var pos := start;
    num := 0;
    while pos < |b|
      invariant start <= pos <= |b|
      invariant VarNumFrom(b, start, 0) == VarNumFrom(b, pos, num)
    {
      var c := b[pos];
      num := (num * 128 + (c as int) % 128) % WORD;
      pos := pos + 1;
      if c < 0x80 {
        return num, pos - start;
      }
    }
    return 0, 0;
  }

  lemma {:induction false} GroupStep(b: Bytes, pos: nat, num: nat, n: nat)
    requires pos < |b| && num == n / 128 && b[pos] as int % 128 == n % 128 && n < WORD
    ensures VarNumFrom(b, pos, num) ==
            if b[pos] as int >= 0x80 then VarNumFrom(b, pos + 1, n) else Some((n, pos + 1))
  {
    assert num * 128 + n % 128 == n;
  }

  /** Groups read back give the number they encode. */
  lemma {:induction false} GroupsRead(b: Bytes, pos: nat, n: nat, count: nat)
    requires pos + count <= |b| && b[pos..pos + count] == Groups(n, count)
    requires n < Pow128(count) && n < WORD
    ensures VarNumFrom(b, pos, 0) == VarNumFrom(b, pos + count, n)
    decreases count
  {
    hide VarNumFrom;
    if count > 0 {
      var last := pos + count - 1;
      WindowSlice(b, pos, Groups(n, count), 0, count - 1);
      WindowSlice(b, pos, Groups(n, count), count - 1, count);
      assert Groups(n, count)[0..count - 1] == Groups(n / 128, count - 1);
      GroupsRead(b, pos, n / 128, count - 1);
      GroupStep(b, last, n / 128, n);
    }
  }

  lemma {:induction false} SizeBound(n: nat)
    requires n < WORD
    ensures n / 128 < Pow128(SizeVarNum(n) - 1)
  {
    assert Pow128(0) == 1;
    assert Pow128(1) == 0x80;
    assert Pow128(2) == 0x4000;
    assert Pow128(3) == 0x20_0000;
    assert Pow128(4) == 0x1000_0000;
    assert Pow128(5) == 0x8_0000_0000;
    assert Pow128(6) == 0x400_0000_0000;
    assert Pow128(7) == 0x2_0000_0000_0000;
    assert Pow128(8) == 0x100_0000_0000_0000;
    assert Pow128(9) == 0x8000_0000_0000_0000;
  }

  /** The encoding is as short as can be. */
  lemma {:induction false} SizeIsLeast(n: nat)
    requires n < WORD
    ensures n < Pow128(SizeVarNum(n))
    ensures SizeVarNum(n) > 1 ==> n >= Pow128(SizeVarNum(n) - 1)
  {
    SizeBound(n);
    assert Pow128(1) == 0x80;
    assert Pow128(2) == 0x4000;
    assert Pow128(3) == 0x20_0000;
    assert Pow128(4) == 0x1000_0000;
    assert Pow128(5) == 0x8_0000_0000;
    assert Pow128(6) == 0x400_0000_0000;
    assert Pow128(7) == 0x2_0000_0000_0000;
    assert Pow128(8) == 0x100_0000_0000_0000;
    assert Pow128(9) == 0x8000_0000_0000_0000;
  }

  /** Where the groups of a number are: the byte with i bytes behind it holds the group of 128 to the i,
      with the top bit set unless it is the last. */
  lemma {:induction false} VarNumBytes(n: nat, i: nat)
    requires i < SizeVarNum(n)
    ensures VarNum(n)[SizeVarNum(n) - 1 - i] as int == n / Pow128(i) % 128 + if i == 0 then 0 else 0x80
  {
    hide SizeVarNum;
    if i > 0 {
      GroupsBytes(n / 128, SizeVarNum(n) - 1, i - 1);
      DivTwice(n, 128, Pow128(i - 1));
    }
  }

  lemma {:induction false} GroupsBytes(n: nat, count: nat, i: nat)
    requires i < count
    ensures Groups(n, count)[count - 1 - i] as int == 0x80 + n / Pow128(i) % 128
    decreases count
  {
    if i > 0 {
      GroupsBytes(n / 128, count - 1, i - 1);
      DivTwice(n, 128, Pow128(i - 1));
    }
  }

  /** An encoded number is read back, wherever it lies, with the position after it. */
  lemma {:induction false} VarNumReads(b: Bytes, pos: nat, n: nat)
    requires n < WORD && pos + SizeVarNum(n) <= |b| && b[pos..pos + SizeVarNum(n)] == VarNum(n)
    ensures VarNumFrom(b, pos, 0) == Some((n, pos + SizeVarNum(n)))
  {
    hide VarNumFrom, SizeVarNum;
    var count := SizeVarNum(n) - 1;
    SizeBound(n);
    WindowSlice(b, pos, VarNum(n), 0, count);
    WindowSlice(b, pos, VarNum(n), count, count + 1);
    assert VarNum(n)[0..count] == Groups(n / 128, count);
    GroupsRead(b, pos, n / 128, count);
    GroupStep(b, pos + count, n / 128, n);
  }
}
