/**
 * `hash_sse`: the same CRC-32C through the SSE4.2 `crc32` instruction.
 *
 * The instruction is modelled by its definition in the Intel architecture
 * manual: the low 32 bits of the accumulator are xored with the data and
 * the result goes through one reflected division step per data bit, for the
 * Castagnoli polynomial (`Crc32c.DIVISOR`).  `_mm_crc32_u64` reads the
 * accumulator's low 32 bits and eight bytes of data; `_mm_crc32_u8` one
 * byte.  `HashSse` is proved to compute `Crc32c.Crc32c`, so it agrees with
 * `Crc32c.HashPortable` on every input.
 */
module Crc32cSse {
  import opened Bits
  import opened Crc32c

  const U64_MAX: nat := 0xFFFF_FFFF_FFFF_FFFF

  /** `u64::from_le_bytes`: byte j carries the binary digits 8j to 8j + 7. */
  function LittleEndian(bytes: seq<u8>): nat
  {
    if bytes == [] then 0
    else LittleEndian(bytes[..|bytes| - 1]) + Shl(bytes[|bytes| - 1], 8 * (|bytes| - 1))
  }

  /** `_mm_crc32_u64(crc, v)`: 64 division steps on the low half of crc xor v. */
  function Crc32U64(crc: nat, v: nat): nat
  {
    Steps(Xor(Low(crc, 32), v), 64)
  }

  /** `_mm_crc32_u8(crc, v)`: 8 division steps on crc xor v. */
  function Crc32U8(crc: u32, v: u8): u32
  {
    Pow2Of32();
    XorBound(crc, v, 32);
    StepsBound(Xor(crc, v), 8);
    Steps(Xor(crc, v), 8)
  }

  /** n bytes in little-endian order fit in 8n binary digits. */
  lemma {:induction false} LittleEndianBound(bytes: seq<u8>)
    ensures LittleEndian(bytes) < Pow2(8 * |bytes|)
    decreases |bytes|
  {
    if bytes != [] {
      var init := bytes[..|bytes| - 1];
      LittleEndianBound(init);
      Pow2Of8();
      ShlBelow(LittleEndian(init), bytes[|bytes| - 1], 8 * |init|, 8);
    }
  }

  /** A word of n little-endian bytes entering at once is the n bytes one after another. */
  lemma {:induction false} WordIsBytes(acc: nat, bytes: seq<u8>)
    ensures Steps(Xor(acc, LittleEndian(bytes)), 8 * |bytes|) == Update(acc, bytes)
    decreases |bytes|
  {
    if bytes == [] {
      XorZero(acc);
    } else {
      var init, last := bytes[..|bytes| - 1], bytes[|bytes| - 1];
      var m := 8 * |init|;
      assert LittleEndian(bytes) == LittleEndian(init) + Shl(last, m);
      assert 8 * |bytes| == m + 8;
      LittleEndianBound(init);
      ChunkSplit(acc, LittleEndian(init), last, m, 8);
      WordIsBytes(acc, init);
      assert Update(acc, bytes) == ByteStep(Update(acc, init), last);
    }
  }

  /** Hashing a message in two pieces. */
  lemma {:induction false} UpdateConcat(acc: nat, a: seq<u8>, b: seq<u8>)
    ensures Update(acc, a + b) == Update(Update(acc, a), b)
    decreases |b|
  {
    if b == [] {
      assert a + b == a;
    } else {
      var init, last := b[..|b| - 1], b[|b| - 1];
      assert (a + b)[..|a + b| - 1] == a + init;
      UpdateConcat(acc, a, init);
    }
  }

  /** Hashing stays within 32 bits. */
  lemma {:induction false} UpdateBound(acc: nat, msg: seq<u8>)
    requires acc < 0x1_0000_0000
    ensures Update(acc, msg) < 0x1_0000_0000
    decreases |msg|
  {
    if msg != [] {
      var init := msg[..|msg| - 1];
      UpdateBound(acc, init);
      Pow2Of32();
      XorBound(Update(acc, init), msg[|msg| - 1], 32);
      StepsBound(Xor(Update(acc, init), msg[|msg| - 1]), 8);
    }
  }

  /** The low n digits of 2^(n + m) - 1 are n ones. */
  lemma {:induction false} LowOfOnes(n: nat, m: nat)
    ensures Low(Pow2(n + m) - 1, n) == Pow2(n) - 1
    decreases n
  {
    if n > 0 {
      LowOfOnes(n - 1, m);
      Halves(Pow2(n + m) - 1, Pow2(n + m - 1) - 1, 1);
    }
  }

  /** The accumulator starts at `u64::MAX`: its low half is the all-ones seed. */
  lemma SeedOfAllOnes()
    ensures Low(U64_MAX, 32) == SEED
  {
    Pow2Of32();
    assert Pow2(64) == U64_MAX + 1 by { Pow2Add(32, 32); }
    LowOfOnes(32, 32);
  }

  /** The body of the first loop: one `_mm_crc32_u64` extends the hashed prefix by eight bytes. */
  lemma SseChunkStep(input: seq<u8>, i: nat, accum: nat)
    requires i + 8 <= |input|
    requires Low(accum, 32) == Update(SEED, input[..i])
    ensures Crc32U64(accum, LittleEndian(input[i..i + 8])) == Update(SEED, input[..i + 8])
    ensures Low(Crc32U64(accum, LittleEndian(input[i..i + 8])), 32) == Update(SEED, input[..i + 8])
  {
    var chunk := input[i..i + 8];
    WordIsBytes(Low(accum, 32), chunk);
    assert input[..i + 8] == input[..i] + chunk;
    UpdateConcat(SEED, input[..i], chunk);
    UpdateBound(SEED, input[..i + 8]);
    Pow2Of32();
    LowSmall(Update(SEED, input[..i + 8]), 32);
  }

  /** The body of the second loop: one `_mm_crc32_u8` extends the hashed prefix by one byte. */
  lemma SseByteStep(input: seq<u8>, i: nat, accum: u32)
    requires i < |input|
    requires accum == Update(SEED, input[..i])
    ensures Crc32U8(accum, input[i]) == Update(SEED, input[..i + 1])
  {
    PrefixPlusOne(input, i);
    UpdateSnoc(SEED, input[..i], input[i]);
  }

  /**
   * `hash_sse`: eight bytes per `_mm_crc32_u64` while a full chunk remains,
   * the low 32 bits of the accumulator, then the remaining bytes one
   * `_mm_crc32_u8` each, then the complement.
   */
  method HashSse(input: seq<u8>) returns (h: u32)
    ensures h == Crc32c.Crc32c(input)
  {
    var accum: nat := U64_MAX;
    SeedOfAllOnes();
    var i := 0;
    while i + 8 <= |input|
      invariant 0 <= i <= |input|
      invariant Low(accum, 32) == Update(SEED, input[..i])
    {
      var chunk := LittleEndian(input[i..i + 8]);
      SseChunkStep(input, i, accum);
      accum := Crc32U64(accum, chunk);
      i := i + 8;
    }
    Pow2Of32();
    LowBound(accum, 32);
    var accum32: u32 := Low(accum, 32);
    while i < |input|
      invariant 0 <= i <= |input|
      invariant accum32 == Update(SEED, input[..i])
    {
      SseByteStep(input, i, accum32);
      accum32 := Crc32U8(accum32, input[i]);
      i := i + 1;
    }
    assert input[..i] == input;
    Finish(input, accum32);
    h := Not(accum32);
  }
}
