/**
 * CRC-32C (Castagnoli) as `hash_portable` computes it.
 *
 * Bit order is reflected: the least significant bit of the first byte is the
 * highest-order coefficient of the message polynomial, and the divisor
 * 0x82F63B78 holds the coefficient of x^31 in its least significant bit.
 * The accumulator starts at all ones and is complemented at the end.
 *
 * The specification `Crc32c` feeds the message one bit at a time, one
 * shift-and-xor per bit.  `GenerateLut` builds the tables and
 * `HashPortable` hashes two bytes per table lookup; both are proved against
 * that specification.
 */
module Crc32c {
  import opened Bits

  const DIVISOR: u32 := 0x82F63B78
  const SEED: u32 := 0xFFFF_FFFF

  /**
   * One step of polynomial division: shift the accumulator right by one bit
   * and, when a one was shifted out, xor in the divisor.
   */
  function Shift(acc: nat): nat
  {
    if acc % 2 == 0 then acc / 2 else Xor(acc / 2, DIVISOR)
  }

  /** One message bit enters the low end of the accumulator, then one step. */
  function BitStep(acc: nat, bit: bool): nat
  {
    Shift(if bit then Xor(acc, 1) else acc)
  }

  /** Feed a sequence of message bits, first bit first. */
  function Feed(acc: nat, bits: seq<bool>): nat
    decreases |bits|
  {
    if bits == [] then acc else Feed(BitStep(acc, bits[0]), bits[1..])
  }

  /** The lowest k binary digits of m, least significant first. */
  function LowBits(m: nat, k: nat): (bits: seq<bool>)
    ensures |bits| == k
    decreases k, m
  {
    if k == 0 then [] else [m % 2 == 1] + LowBits(m / 2, k - 1)
  }

  /** The bits of a message, byte by byte, each byte least significant bit first. */
  function MessageBits(msg: seq<u8>): (bits: seq<bool>)
    ensures |bits| == 8 * |msg|
  {
    if msg == [] then [] else MessageBits(msg[..|msg| - 1]) + LowBits(msg[|msg| - 1], 8)
  }

  /** The bitwise complement of a 32-bit word (`!x` on `u32`). */
  function Not(x: u32): u32
  {
    0xFFFF_FFFF - x
  }

  /** CRC-32C of a message: seed all ones, feed every bit, complement. */
  function Crc32c(msg: seq<u8>): u32
  {
    FeedBound(SEED, MessageBits(msg));
    Not(Feed(SEED, MessageBits(msg)))
  }

  /** A division step keeps a 32-bit accumulator within 32 bits. */
  lemma ShiftBound(acc: nat)
    requires acc < 0x1_0000_0000
    ensures Shift(acc) < 0x1_0000_0000
  {
    Pow2Of32();
    XorBound(acc / 2, DIVISOR, 32);
  }

  lemma {:induction false} FeedBound(acc: nat, bits: seq<bool>)
    requires acc < 0x1_0000_0000
    ensures Feed(acc, bits) < 0x1_0000_0000
    decreases |bits|
  {
    if bits != [] {
      Pow2Of32();
      XorBound(acc, 1, 32);
      ShiftBound(if bits[0] then Xor(acc, 1) else acc);
      FeedBound(BitStep(acc, bits[0]), bits[1..]);
    }
  }

  lemma {:induction false} StepsBound(acc: nat, n: nat)
    requires acc < 0x1_0000_0000
    ensures Steps(acc, n) < 0x1_0000_0000
    decreases n
  {
    if n > 0 {
      ShiftBound(acc);
      StepsBound(Shift(acc), n - 1);
    }
  }

  // ---------------------------------------------------------------------
  // Byte-wise and table-wise views of the same division

  /** n division steps with no message bits entering. */
  function Steps(acc: nat, n: nat): nat
    decreases n, acc
  {
    if n == 0 then acc else Steps(Shift(acc), n - 1)
  }

  /** A byte enters the low end of the accumulator, then eight steps. */
  function ByteStep(acc: nat, b: u8): nat
  {
    Steps(Xor(acc, b), 8)
  }

  /** Feed a message byte by byte. */
  function Update(acc: nat, msg: seq<u8>): nat
  {
    if msg == [] then acc else ByteStep(Update(acc, msg[..|msg| - 1]), msg[|msg| - 1])
  }

  /** Table entry i for k-bit lookups: k division steps applied to i. */
  ghost predicate IsLut(lut: array<u32>, k: nat)
    reads lut
  {
    lut.Length == Pow2(k) && forall i :: 0 <= i < lut.Length ==> lut[i] == Steps(i, k)
  }

  // ---------------------------------------------------------------------
  // Linearity of the division step

  lemma ShiftLinear(a: nat, b: nat)
    ensures Shift(Xor(a, b)) == Xor(Shift(a), Shift(b))
  {
    var x := Xor(a, b);
    XorDigits(a, b);
    var a2, b2, d := a / 2, b / 2, DIVISOR as nat;
    if a % 2 == 0 && b % 2 == 0 {
    } else if a % 2 == 1 && b % 2 == 0 {
      XorAssoc(a2, d, b2);
      XorComm(d, b2);
      XorAssoc(a2, b2, d);
    } else if a % 2 == 0 && b % 2 == 1 {
      XorAssoc(a2, b2, d);
    } else {
      XorAssoc(a2, d, Xor(b2, d));
      XorAssoc(d, b2, d);
      XorComm(d, b2);
      XorAssoc(b2, d, d);
      XorSelf(d);
      XorZero(b2);
    }
  }

  lemma {:induction false} StepsLinear(a: nat, b: nat, n: nat)
    ensures Steps(Xor(a, b), n) == Xor(Steps(a, n), Steps(b, n))
    decreases n
  {
    if n > 0 {
      ShiftLinear(a, b);
      StepsLinear(Shift(a), Shift(b), n - 1);
    }
  }

  lemma {:induction false} StepsAdd(x: nat, m: nat, n: nat)
    ensures Steps(Steps(x, m), n) == Steps(x, m + n)
    decreases m
  {
    if m > 0 {
      StepsAdd(Shift(x), m - 1, n);
    }
  }

  lemma StepsSnoc(x: nat, n: nat)
    ensures Steps(x, n + 1) == Shift(Steps(x, n))
  {
    StepsAdd(x, n, 1);
  }

  /** n steps shift out n low zero bits without ever xoring the divisor. */
  lemma {:induction false} StepsShiftOut(h: nat, n: nat)
    ensures Steps(Shl(h, n), n) == h
    decreases n
  {
    if n > 0 {
      assert Shift(Shl(h, n)) == Shl(h, n - 1);
      StepsShiftOut(h, n - 1);
    }
  }

  /**
   * n steps on x split into the table entry for the low n bits and the bits
   * above them shifted down: the identity behind a table lookup.
   */
  lemma TableSplit(x: nat, n: nat)
    ensures Steps(x, n) == Xor(Steps(Low(x, n), n), Shr(x, n))
  {
    var lo, hi := Low(x, n), Shr(x, n);
    Split(x, n);
    LowBound(x, n);
    XorDisjoint(lo, hi, n);
    StepsLinear(lo, Shl(hi, n), n);
    StepsShiftOut(hi, n);
  }

  // ---------------------------------------------------------------------
  // From one bit per step to one byte per step

  lemma {:induction false} FeedConcat(acc: nat, x: seq<bool>, y: seq<bool>)
    ensures Feed(acc, x + y) == Feed(Feed(acc, x), y)
    decreases |x|
  {
    if x != [] {
      assert (x + y)[0] == x[0];
      assert (x + y)[1..] == x[1..] + y;
      FeedConcat(BitStep(acc, x[0]), x[1..], y);
    } else {
      assert x + y == y;
    }
  }

  /** Entering a multi-bit chunk then stepping equals feeding its bits one by one. */
  lemma {:induction false} StepsIsFeed(acc: nat, m: nat, k: nat)
    requires m < Pow2(k)
    ensures Steps(Xor(acc, m), k) == Feed(acc, LowBits(m, k))
    decreases k
  {
    if k > 0 {
      var bit, rest := m % 2, m / 2;
      var entered := Xor(acc, bit);
      assert BitStep(acc, m % 2 == 1) == Shift(entered) by {
        if bit == 0 { XorZero(acc); }
      }
      assert Shl(rest, 1) == rest * 2;
      XorDisjoint(bit, rest, 1);
      assert m == Xor(bit, rest * 2);
      XorAssoc(acc, bit, rest * 2);
      assert Xor(acc, m) == Xor(entered, rest * 2);
      ShiftLinear(entered, rest * 2);
      assert Shift(rest * 2) == rest;
      StepsIsFeed(Shift(entered), rest, k - 1);
      var bits := LowBits(m, k);
      assert bits[0] == (m % 2 == 1) && bits[1..] == LowBits(rest, k - 1);
      assert Feed(acc, bits) == Feed(BitStep(acc, bits[0]), bits[1..]);
      assert Steps(Xor(acc, m), k) == Steps(Shift(Xor(entered, rest * 2)), k - 1);
    } else {
      XorZero(acc);
    }
  }

  lemma ByteStepIsFeed(acc: nat, b: u8)
    ensures ByteStep(acc, b) == Feed(acc, LowBits(b, 8))
  {
    Pow2Of8();
    StepsIsFeed(acc, b, 8);
  }

  /** Feeding a message byte by byte is feeding it bit by bit. */
  lemma {:induction false} UpdateIsFeed(acc: nat, msg: seq<u8>)
    ensures Update(acc, msg) == Feed(acc, MessageBits(msg))
    decreases |msg|
  {
    if msg != [] {
      var init, last := msg[..|msg| - 1], msg[|msg| - 1];
      UpdateIsFeed(acc, init);
      ByteStepIsFeed(Update(acc, init), last);
      FeedConcat(acc, MessageBits(init), LowBits(last, 8));
    }
  }

  lemma UpdateSnoc(acc: nat, msg: seq<u8>, b: u8)
    ensures Update(acc, msg + [b]) == ByteStep(Update(acc, msg), b)
  {
    assert (msg + [b])[..|msg|] == msg;
  }

  // ---------------------------------------------------------------------
  // The table steps of hash_portable

  /**
   * A lookup in the table for n-bit chunks: the index is the low n bits of
   * the accumulator xor the chunk, and the accumulator's upper bits are
   * shifted down past them.
   */
  lemma TableLookup(acc: nat, c: nat, n: nat)
    requires c < Pow2(n)
    ensures Xor(Steps(Xor(Low(acc, n), c), n), Shr(acc, n)) == Steps(Xor(acc, c), n)
  {
    var x := Xor(acc, c);
    LowSmall(c, n);
    XorLow(acc, c, n);
    XorShr(acc, c, n);
    XorZero(Shr(acc, n));
    TableSplit(x, n);
  }

  /** A chunk of m + n bits enters as its low m bits, m steps, then its upper n bits. */
  lemma ChunkSplit(acc: nat, lo: nat, hi: nat, m: nat, n: nat)
    requires lo < Pow2(m)
    ensures Steps(Xor(acc, lo + Shl(hi, m)), m + n) == Steps(Xor(Steps(Xor(acc, lo), m), hi), n)
  {
    var shifted := Shl(hi, m);
    XorDisjoint(lo, hi, m);
    XorAssoc(acc, lo, shifted);
    var y := Xor(acc, lo);
    assert Xor(acc, lo + shifted) == Xor(y, shifted);
    StepsLinear(y, shifted, m + n);
    StepsAdd(y, m, n);
    StepsAdd(shifted, m, n);
    StepsShiftOut(hi, m);
    StepsLinear(Steps(y, m), hi, n);
  }

  /** An n + n bit chunk in one lookup is two n-bit chunks in a row. */
  lemma DoubleChunk(acc: nat, lo: nat, hi: nat, n: nat)
    requires lo < Pow2(n) && hi < Pow2(n)
    ensures Xor(Steps(Xor(Low(acc, n + n), lo + Shl(hi, n)), n + n), Shr(acc, n + n))
         == Steps(Xor(Steps(Xor(acc, lo), n), hi), n)
  {
    ShlBelow(lo, hi, n, n);
    TableLookup(acc, lo + Shl(hi, n), n + n);
    ChunkSplit(acc, lo, hi, n, n);
  }

  /** One LUT16 lookup consumes two bytes, the first in the low half of the chunk. */
  lemma ChunkStep(acc: nat, b0: u8, b1: u8)
    ensures Xor(Steps(Xor(Low(acc, 16), b0 + 0x100 * b1), 16), Shr(acc, 16))
         == ByteStep(ByteStep(acc, b0), b1)
  {
    Pow2Of8();
    ShlByte(b1);
    DoubleChunk(acc, b0, b1, 8);
  }

  /** One LUT8 lookup consumes one byte. */
  lemma ByteTableStep(acc: nat, b: u8)
    ensures Xor(Steps(Xor(Low(acc, 8), b), 8), Shr(acc, 8)) == ByteStep(acc, b)
  {
    Pow2Of8();
    TableLookup(acc, b, 8);
  }

  // ---------------------------------------------------------------------
  // The imperative code

  /** The body of the first loop of `hash_portable`: a LUT16 entry extends the hashed prefix by two bytes. */
  lemma HashChunkStep(lut16: array<u32>, input: seq<u8>, i: nat, acc: u32, chunk: nat)
    requires IsLut(lut16, 16)
    requires i + 2 <= |input|
    requires acc == Update(SEED, input[..i])
    requires chunk == input[i] as nat + 0x100 * input[i + 1] as nat
    ensures Shr(acc, 16) < 0x1_0000_0000
    ensures Xor(Low(acc, 16), chunk) < lut16.Length
    ensures Xor(lut16[Xor(Low(acc, 16), chunk)], Shr(acc, 16)) == Update(SEED, input[..i + 2])
  {
    Pow2Of16();
    ShrAtMost(acc, 16);
    LowBound(acc, 16);
    XorBound(Low(acc, 16), chunk, 16);
    ChunkStep(acc, input[i], input[i + 1]);
    PrefixPlusTwo(input, i);
    UpdateSnoc2(SEED, input[..i], input[i], input[i + 1]);
  }

  /** The body of the second loop of `hash_portable`: a LUT8 entry extends the hashed prefix by one byte. */
  lemma HashByteStep(lut8: array<u32>, input: seq<u8>, i: nat, acc: u32)
    requires IsLut(lut8, 8)
    requires i < |input|
    requires acc == Update(SEED, input[..i])
    ensures Shr(acc, 8) < 0x1_0000_0000
    ensures Xor(Low(acc, 8), input[i]) < lut8.Length
    ensures Xor(lut8[Xor(Low(acc, 8), input[i])], Shr(acc, 8)) == Update(SEED, input[..i + 1])
  {
    Pow2Of8();
    ShrAtMost(acc, 8);
    LowBound(acc, 8);
    XorBound(Low(acc, 8), input[i], 8);
    ByteTableStep(acc, input[i]);
    PrefixPlusOne(input, i);
    UpdateSnoc(SEED, input[..i], input[i]);
  }

  lemma PrefixPlusOne(s: seq<u8>, i: nat)
    requires i < |s|
    ensures s[..i + 1] == s[..i] + [s[i]]
  {
  }

  lemma PrefixPlusTwo(s: seq<u8>, i: nat)
    requires i + 2 <= |s|
    ensures s[..i + 2] == s[..i] + [s[i], s[i + 1]]
  {
  }

  lemma UpdateSnoc2(acc: nat, msg: seq<u8>, b0: u8, b1: u8)
    ensures Update(acc, msg + [b0, b1]) == ByteStep(ByteStep(Update(acc, msg), b0), b1)
  {
    assert (msg + [b0, b1])[..|msg| + 1] == msg + [b0];
    UpdateSnoc(acc, msg, b0);
  }

  /**
   * `generate_lut::<N>()`: entry i is the accumulator after log2(N) division
   * steps starting from i.  N must be a power of two.
   */
  method GenerateLut(n: nat, ghost k: nat) returns (lut: array<u32>)
    requires n == Pow2(k) && k <= 32
    ensures IsLut(lut, k)
    ensures lut[0] == 0
  {
    Pow2AtMost32(k);
    lut := new u32[n](_ => 0);
    var msgFrag := 0;
    while msgFrag < n
      invariant 0 <= msgFrag <= n == lut.Length
      invariant forall i :: 0 <= i < msgFrag ==> lut[i] == Steps(i, k)
    {
      var accum: u32 := msgFrag;
      var bit := 1;
      ghost var j := 0;
      while bit < n
        invariant j <= k && bit == Pow2(j)
        invariant accum == Steps(msgFrag, j)
        invariant forall i :: 0 <= i < msgFrag ==> lut[i] == Steps(i, k)
        decreases n - bit
      {
        var bitShiftedOut := accum % 2 != 0;
        accum := accum / 2;
        if bitShiftedOut {
          accum := Xor32(accum, DIVISOR);
        }
        StepsSnoc(msgFrag, j);
        Pow2Monotone(k, j);
        bit := bit * 2;
        j := j + 1;
      }
      Pow2Monotone(j, k);
      assert j == k;
      assert accum == Steps(msgFrag, k);
      lut[msgFrag] := accum;
      msgFrag := msgFrag + 1;
    }
    StepsOfZero(k);
  }

  /** Division steps leave a zero accumulator at zero, so every table maps index 0 to 0. */
  lemma {:induction false} StepsOfZero(n: nat)
    ensures Steps(0, n) == 0
  {
    if n > 0 {
      assert Shift(0) == 0;
      StepsOfZero(n - 1);
    }
  }

  /** The complement of the whole message's accumulator is its CRC-32C. */
  lemma Finish(input: seq<u8>, accum: u32)
    requires accum == Update(SEED, input)
    ensures Not(accum) == Crc32c(input)
  {
    UpdateIsFeed(SEED, input);
  }

  /**
   * The first loop of `hash_portable`: two bytes per LUT16 lookup while a
   * full chunk remains (`chunks_exact(2)`), leaving at most one byte.
   */
  method HashChunks(lut16: array<u32>, input: seq<u8>) returns (accum: u32, i: nat)
    requires IsLut(lut16, 16)
    ensures i <= |input| < i + 2 && i % 2 == 0
    ensures accum == Update(SEED, input[..i])
  {
    accum, i := 0xFFFF_FFFF, 0;
    while i + 2 <= |input|
      invariant i <= |input| && i % 2 == 0
      invariant accum == Update(SEED, input[..i])
    {
      var chunk: u16 := input[i] as nat + 0x100 * input[i + 1] as nat;
      HashChunkStep(lut16, input, i, accum, chunk);
      accum := Xor32(lut16[Xor(Low(accum, 16), chunk)], Shr(accum, 16));
      i := i + 2;
    }
  }

  /**
   * The second loop of `hash_portable`: each byte of `chunks.remainder()`
   * through LUT8.
   */
  method HashRemainder(lut8: array<u32>, input: seq<u8>, accum0: u32, i0: nat) returns (accum: u32)
    requires IsLut(lut8, 8)
    requires i0 <= |input| && accum0 == Update(SEED, input[..i0])
    ensures accum == Update(SEED, input)
  {
    accum := accum0;
    var i := i0;
    while i < |input|
      invariant i <= |input|
      invariant accum == Update(SEED, input[..i])
    {
      var byte := input[i];
      HashByteStep(lut8, input, i, accum);
      accum := Xor32(lut8[Xor(Low(accum, 8), byte)], Shr(accum, 8));
      i := i + 1;
    }
    assert input[..i] == input;
  }

  /**
   * `hash_portable`: the chunks through LUT16, then the remaining byte
   * through LUT8, then the complement.
   */
  method HashPortable(lut8: array<u32>, lut16: array<u32>, input: seq<u8>) returns (h: u32)
    requires IsLut(lut8, 8) && IsLut(lut16, 16)
    ensures h == Crc32c(input)
  {
    var accum, i := HashChunks(lut16, input);
    accum := HashRemainder(lut8, input, accum, i);
    Finish(input, accum);
    h := Not(accum);
  }

  /** The empty message hashes to 0: no step runs and the all-ones seed is complemented. */
  lemma EmptyHash()
    ensures Crc32c([]) == 0
  {
    assert MessageBits([]) == [];
  }

  /** The final complement is the bitwise complement. */
  lemma NotIsXor(x: u32)
    ensures Not(x) == Xor(x, 0xFFFF_FFFF)
  {
    Pow2Of32();
    XorOnes(x, 32);
  }
}
