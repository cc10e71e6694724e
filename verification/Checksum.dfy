/** The checksum in the first byte of a record: a sum of bytes modulo 61.  The source adds 32-bit
    numbers, and takes the remainder often enough that they never wrap around. */
module Checksum {
  import opened Common

  const MODULO := 61
  const BATCH_CAP := 0x80_0000
  const WORD32 := 0x1_0000_0000

  function Sum(b: Bytes): nat {
    if |b| == 0 then 0 else Sum(b[..|b| - 1]) + b[|b| - 1] as int
  }

  /** What the six low bits of a record's first byte hold; they are never below 3. */
  function MagicChecksum(key: Bytes, value: Bytes): (r: nat)
    ensures 3 <= r < 64
  {
    (11 + Sum(key) + Sum(value)) % MODULO + 3
  }

  lemma {:induction false} SumConcat(a: Bytes, b: Bytes)
    ensures Sum(a + b) == Sum(a) + Sum(b)
    decreases |b|
  {
    if |b| == 0 {
      assert a + b == a;
    } else {
      assert (a + b)[..|a + b| - 1] == a + b[..|b| - 1];
      SumConcat(a, b[..|b| - 1]);
    }
  }

  /** Adds bytes one by one, in 32 bits. */
  method AddBytes(buf: Bytes, start: nat, size: nat, seed: nat) returns (sum: nat)
    requires start + size <= |buf| && seed < WORD32
    ensures sum < WORD32
    ensures seed + 255 * size < WORD32 ==> sum == seed + Sum(buf[start..start + size])
  {
    sum := seed;
    var k := 0;
    while k < size
      invariant 0 <= k <= size && sum < WORD32
      invariant seed + 255 * size < WORD32 ==>
                  sum == seed + Sum(buf[start..start + k]) && sum <= seed + 255 * k
    {
      ghost var next := buf[start..start + k + 1];
      assert next[..|next| - 1] == buf[start..start + k] && next[|next| - 1] == buf[start + k];
      sum := (sum + buf[start + k] as int) % WORD32;
      k := k + 1;
    }
  }

  /** The checksum of one buffer, in batches. */
  method HashChecksum6Continuous(buf: Bytes, seed: nat) returns (sum: nat)
    requires seed < WORD32
    ensures sum < WORD32
    ensures seed <= WORD32 / 2 ==> sum == if buf == [] then seed else (seed + Sum(buf)) % MODULO
  {
    sum := seed;
    var done := 0;
    while done < |buf|
      invariant 0 <= done <= |buf| && sum < WORD32
      invariant seed <= WORD32 / 2 ==>
                  sum == if done == 0 then seed else (seed + Sum(buf[..done])) % MODULO
    {
      var batch := if BATCH_CAP < |buf| - done then BATCH_CAP else |buf| - done;
      var added := AddBytes(buf, done, batch, sum);
      assert buf[..done + batch] == buf[..done] + buf[done..done + batch];
      SumConcat(buf[..done], buf[done..done + batch]);
      sum := added % MODULO;
      done := done + batch;
    }
    assert buf[..|buf|] == buf;
  }

  /** The checksum of a pair of buffers: in one go if they are short, or else one after the other. */
  method HashChecksum6Pair(first: Bytes, second: Bytes, seed: nat) returns (sum: nat)
    requires seed < WORD32
    ensures seed <= WORD32 / 2 ==> sum == (seed + Sum(first) + Sum(second)) % MODULO
  {
    if |first| + |second| < BATCH_CAP {
      sum := AddBytes(first, 0, |first|, seed);
      SumBound(first);
      assert first[0..|first|] == first && second[0..|second|] == second;
      sum := AddBytes(second, 0, |second|, sum);
      return sum % MODULO;
    }
    sum := HashChecksum6Continuous(first, seed);
    sum := HashChecksum6Continuous(second, sum);
  }

  lemma {:induction false} SumBound(b: Bytes)
    ensures Sum(b) <= 255 * |b|
  {
    if |b| > 0 {
      SumBound(b[..|b| - 1]);
    }
  }

  /** The checksum of a record. */
  method ComputeMagicChecksum(key: Bytes, value: Bytes) returns (sum: nat)
    ensures sum == MagicChecksum(key, value) == (11 + Sum(key) + Sum(value)) % 61 + 3
  {
    var hash := HashChecksum6Pair(key, value, 11);
    sum := hash + 3;
  }
}
