/**
 * `shingleprint_portable`: the sketch of a byte string.
 *
 * Every window of SHINGLE_LEN consecutive bytes (stride one) is hashed with
 * CRC-32C, and the SHINGLEPRINT_FEATURES smallest distinct hashes are kept
 * in ascending order by `k_smallest_unique`.  The hash is `Crc32c.Crc32c`,
 * which `Crc32c.HashPortable` and `Crc32cSse.HashSse` are both proved to
 * compute; the selection is `Selection.Select`, which both selectors are
 * proved to compute.  `ShingleprintDispatch` runs the methods themselves,
 * either hash path, and is proved to return `ShingleprintPortable`.
 */
module Shingleprints {
  import opened Bits
  import Crc32c
  import Crc32cSse
  import opened Selection
  import KSmallestUnique

  const SHINGLE_LEN: nat := 16
  const SHINGLEPRINT_FEATURES: nat := 32

  /** The sketch: window hashes, ascending, at most SHINGLEPRINT_FEATURES of them. */
  datatype Shingleprint = Shingleprint(hashes: seq<int>)

  /** The invariant the `Shingleprint` type documents. */
  predicate Valid(sp: Shingleprint)
  {
    Ascending(sp.hashes) && |sp.hashes| <= SHINGLEPRINT_FEATURES
  }

  /** The hash of the window starting at byte i. */
  function WindowHash(input: seq<u8>, i: nat): int
    requires i + SHINGLE_LEN <= |input|
  {
    Crc32c.Crc32c(input[i..i + SHINGLE_LEN])
  }

  /** `input.windows(SHINGLE_LEN).map(hash_portable)`. */
  function WindowHashes(input: seq<u8>): seq<int>
    decreases |input|
  {
    if |input| < SHINGLE_LEN then []
    else [WindowHash(input, 0)] + WindowHashes(input[1..])
  }

  /** `shingleprint_portable`. */
  function ShingleprintPortable(input: seq<u8>): Shingleprint
  {
    Shingleprint(Select(WindowHashes(input), SHINGLEPRINT_FEATURES))
  }

  /** Every sketch keeps the invariant of the `Shingleprint` type. */
  lemma ShingleprintValid(input: seq<u8>)
    ensures Valid(ShingleprintPortable(input))
  {
    SelectShape(WindowHashes(input), SHINGLEPRINT_FEATURES);
  }

  /**
   * The hash stream has one element per window position, the i-th the
   * hash of the window starting at byte i.
   */
  lemma {:induction false} WindowHashesSpec(input: seq<u8>)
    ensures |WindowHashes(input)| == if |input| < SHINGLE_LEN then 0 else |input| - SHINGLE_LEN + 1
    ensures forall i :: 0 <= i < |WindowHashes(input)| ==>
      WindowHashes(input)[i] == WindowHash(input, i)
    decreases |input|
  {
    if |input| >= SHINGLE_LEN {
      var rest := input[1..];
      WindowHashesSpec(rest);
      forall i | 1 <= i < |WindowHashes(input)|
        ensures WindowHashes(input)[i] == WindowHash(input, i)
      {
        assert rest[i - 1..i - 1 + SHINGLE_LEN] == input[i..i + SHINGLE_LEN];
      }
    }
  }

  /** An input shorter than one window has no windows, so its sketch is empty. */
  lemma ShortInputEmpty(input: seq<u8>)
    requires |input| < SHINGLE_LEN
    ensures ShingleprintPortable(input).hashes == []
  {
  }

  /** Every feature is the hash of some window of the input. */
  lemma FeatureIsWindowHash(input: seq<u8>, h: int)
    requires h in ShingleprintPortable(input).hashes
    ensures exists i: nat :: i + SHINGLE_LEN <= |input| && h == WindowHash(input, i)
  {
    var hs := WindowHashes(input);
    SelectSummarizes(hs, SHINGLEPRINT_FEATURES);
    WindowHashesSpec(input);
    var i :| 0 <= i < |hs| && hs[i] == h;
    assert h == WindowHash(input, i);
  }

  /**
   * The sketch is the SHINGLEPRINT_FEATURES smallest distinct window hashes
   * in ascending order, and nothing else is.
   */
  lemma ShingleprintIsSmallest(input: seq<u8>, r: seq<int>)
    ensures Summarizes(ShingleprintPortable(input).hashes, WindowHashes(input), SHINGLEPRINT_FEATURES)
    ensures Summarizes(r, WindowHashes(input), SHINGLEPRINT_FEATURES) <==> r == ShingleprintPortable(input).hashes
  {
    SelectSummarizes(WindowHashes(input), SHINGLEPRINT_FEATURES);
    if Summarizes(r, WindowHashes(input), SHINGLEPRINT_FEATURES) {
      SelectIsUnique(WindowHashes(input), SHINGLEPRINT_FEATURES, r);
    }
  }

  /** The window at i through `hash_sse` when the processor has SSE4.2, else through `hash_portable`. */
  method HashWindow(input: seq<u8>, i: nat, sseAvailable: bool, lut8: array<u32>, lut16: array<u32>)
    returns (h: int)
    requires i + SHINGLE_LEN <= |input|
    requires Crc32c.IsLut(lut8, 8) && Crc32c.IsLut(lut16, 16)
    ensures h == WindowHash(input, i)
  {
    if sseAvailable {
      h := Crc32cSse.HashSse(input[i..i + SHINGLE_LEN]);
    } else {
      h := Crc32c.HashPortable(lut8, lut16, input[i..i + SHINGLE_LEN]);
    }
  }

  /** The hashes of the first i windows, with the next one appended, are those of the first i + 1. */
  lemma AppendWindow(input: seq<u8>, hs: seq<int>, h: int)
    requires |hs| + SHINGLE_LEN <= |input|
    requires forall j :: 0 <= j < |hs| ==> hs[j] == WindowHash(input, j)
    requires h == WindowHash(input, |hs|)
    ensures forall j :: 0 <= j < |hs| + 1 ==> (hs + [h])[j] == WindowHash(input, j)
  {
  }

  /** `input.windows(SHINGLE_LEN).map(hash)`. */
  method HashWindows(input: seq<u8>, sseAvailable: bool, lut8: array<u32>, lut16: array<u32>)
    returns (hs: seq<int>)
    requires Crc32c.IsLut(lut8, 8) && Crc32c.IsLut(lut16, 16)
    ensures hs == WindowHashes(input)
  {
    hs := [];
    var i := 0;
    while i + SHINGLE_LEN <= |input|
      invariant i == 0 || i + SHINGLE_LEN <= |input| + 1
      invariant |hs| == i
      invariant forall j :: 0 <= j < i ==> hs[j] == WindowHash(input, j)
    {
      var h := HashWindow(input, i, sseAvailable, lut8, lut16);
      AppendWindow(input, hs, h);
      hs := hs + [h];
      i := i + 1;
    }
    WindowHashesSpec(input);
  }

  /**
   * `shingleprint`: the SSE4.2 path when `is_x86_feature_detected!` reports
   * it, the portable path otherwise.  Either way the sketch is
   * `shingleprint_portable`'s, and it keeps the type's invariant.
   */
  method ShingleprintDispatch(input: seq<u8>, sseAvailable: bool, lut8: array<u32>, lut16: array<u32>)
    returns (sp: Shingleprint)
    requires Crc32c.IsLut(lut8, 8) && Crc32c.IsLut(lut16, 16)
    ensures sp == ShingleprintPortable(input)
    ensures Valid(sp)
  {
    var hs := HashWindows(input, sseAvailable, lut8, lut16);
    var hashes := KSmallestUnique.KSmallest(hs, SHINGLEPRINT_FEATURES);
    sp := Shingleprint(hashes);
    ShingleprintValid(input);
  }
}
