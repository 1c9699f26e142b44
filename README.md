# tarcrush core, modelled in Dafny

tarcrush fingerprints the entries of a TAR archive. The archive is cut into
frames, one per logical entry, with any pax or GNU long-name prefix records
kept with their entry. The head and the tail of each frame are then
sketched by a *shingleprint*. Every 16-byte window of the content is hashed
with CRC-32C, and the 32 smallest distinct hashes are kept in ascending
order.

This project models that pipeline and proves its properties:

| file | module | models |
|---|---|---|
| `bits.dfy` | `Bits` | 8-, 16- and 32-bit words as bounded naturals. Also exclusive or, shifts and truncating casts, defined digit by digit. |
| `crc32c.dfy` | `Crc32c` | The divisor, the bitwise CRC-32C specification, `generate_lut` and `hash_portable`. |
| `crc32c_sse.dfy` | `Crc32cSse` | `hash_sse`, with `_mm_crc32_u64` and `_mm_crc32_u8` given by their architectural definition. |
| `selection.dfy` | `Selection` | What `k_smallest_unique` computes: the contract `Summarizes` and the reference fold `Select`. |
| `k_smallest_unique.dfy` | `KSmallestUnique` | The `ArrayVec` selector, over an array with binary search, `insert` and `truncate`. |
| `k_smallest_unique_set.dfy` | `KSmallestUniqueSet` | The `BTreeSet` selector, over a `set<int>` with insert, `contains`, `last` and `pop_last`. |
| `shingleprint.dfy` | `Shingleprints` | The `Shingleprint` type, `shingleprint_portable`, and the `shingleprint` dispatch between the SSE4.2 and portable paths. |
| `tar.dfy` | `Tar` | `parse_numeric` (packed binary and ASCII octal), and the `Header` accessors `content_len`, `type_flag`, `is_null` and `is_prefix`. |
| `frames.dfy` | `Frames` | `split_frames` as a state machine over the archive bytes, and the per-range body of `shingleprint_frames`. |

Integers are unbounded in Dafny. So every place where the source relies
on a fixed width is written out:
- the `u64` accumulator of `parse_numeric` wraps modulo 2^64;
- `accum as u16` and `accum as u8` are `Low(accum, 16)` and `Low(accum, 8)`;
- `usize` is taken to be 64 bits wide, and an offset that would not fit is an `Overflow` failure.

Two places where `split_frames` (`wip/ingress/map.rs`) does not say what it evidently means:
- It slices and converts 500-byte headers (`wip/ingress/map.rs:51` and `:55`), while `tar::Header` (`wip/tar.rs:35`) wraps a `[u8; 512]`, so the source does not compile as written. The model reads 512-byte records and departs from `map.rs` here: the premature-EOF threshold is h + 512, not h + 500.
- A range that `split_frames` emits (`wip/ingress/map.rs:70`) is not checked against the end of the archive before `shingleprint_frames` slices it (`wip/ingress/map.rs:82`). The last range may run past it, and only the last one can (`Frames.OnlyLastOverruns`). `Frames.ShingleprintFrame` therefore requires the range to lie inside the archive, where the source would panic on the slice.

`Tar.ParseNumeric` wraps its accumulator as a release build does, while `Frames.StepAt` stops with `Overflow` where a debug build panics. No behaviour depends on the difference: the only caller passes LEN = 12, and 12 octal digits stay below 2^36, so the ASCII accumulator never wraps on a header's size field.

## Model

| member | source | states |
|---|---|---|
| Crc32c.GenerateLut | src/lib/shingleprint/hash.rs:17-33 | Entry i of the table for N = 2^k is i after k reflected division steps, each a shift right with the divisor xored in when a one bit falls out. Entry 0 is 0. |
| Crc32c.StepsOfZero | src/lib/shingleprint/hash.rs:21-29 | Division steps keep a zero accumulator at zero, so every generated table maps index 0 to 0. |
| Crc32c.StepsIsFeed | src/lib/shingleprint/hash.rs:5-13 | k table steps on an accumulator xored with a k-bit fragment equal feeding the fragment's k bits, least significant first, through the bitwise specification. |
| Crc32c.UpdateIsFeed | src/lib/shingleprint/hash.rs:5-13 | Hashing a message byte by byte equals feeding all of its bits one at a time, in the reflected order. |
| Crc32c.ChunkStep | src/lib/shingleprint/hash.rs:41-42 | One LUT16 lookup on a little-endian 16-bit chunk equals two successive byte steps, the first byte first. |
| Crc32c.ByteTableStep | src/lib/shingleprint/hash.rs:45 | One LUT8 lookup on `accum as u8 ^ byte`, xored with `accum >> 8`, equals one byte step. |
| Crc32c.HashChunks | src/lib/shingleprint/hash.rs:38-43 | The chunk loop starts from all ones. It consumes every complete 2-byte chunk, stops at an even offset and leaves fewer than two bytes, so an odd trailing byte is left for LUT8. The accumulator is then the CRC register after the consumed prefix. |
| Crc32c.HashRemainder | src/lib/shingleprint/hash.rs:44-46 | The trailing byte goes through LUT8 after the chunks, and the accumulator is then the register after the whole input. |
| Crc32c.HashPortable | src/lib/shingleprint/hash.rs:37-48 | `hash_portable` equals the bitwise CRC-32C of the input: seed 0xFFFFFFFF, divisor 0x82F63B78, result complemented. |
| Crc32c.EmptyHash | src/lib/shingleprint/hash.rs:38-47 | The empty input hashes to 0: no step runs and the all-ones seed is complemented. |
| Crc32cSse.SeedOfAllOnes | src/lib/shingleprint/hash.rs:53 | The low 32 bits of `u64::MAX` are the all-ones CRC seed. |
| Crc32cSse.WordIsBytes | src/lib/shingleprint/hash.rs:55-57 | A word of n little-endian bytes xored into the register and divided for 8n steps equals hashing the n bytes one after another. |
| Crc32cSse.SseChunkStep | src/lib/shingleprint/hash.rs:55-58 | One `_mm_crc32_u64` on `u64::from_le_bytes` of the next 8 bytes extends the hashed prefix by those 8 bytes, whatever the accumulator's upper half holds. |
| Crc32cSse.SseByteStep | src/lib/shingleprint/hash.rs:60-62 | One `_mm_crc32_u8` extends the hashed prefix by one byte. |
| Crc32cSse.HashSse | src/lib/shingleprint/hash.rs:52-64 | `hash_sse` equals the bitwise CRC-32C of the input, so it agrees with `hash_portable` on every input. |
| Selection.SelectShape | src/lib/util/k_smallest_unique.rs:12-20 | The working set is strictly ascending, so free of duplicates, and never holds more than K values. |
| Selection.SelectSummarizes | src/lib/util/k_smallest_unique.rs:8-33 | The reference fold returns the K smallest distinct values ascending. It holds only input values, at most K of them. A value it leaves out is larger than all it keeps, and is left out only when K are kept. |
| Selection.SelectIsUnique | src/lib/util/k_smallest_unique.rs:8-33 | Any sequence meeting that contract is the fold's result, so the contract fixes the answer. |
| KSmallestUnique.BinarySearch | src/lib/util/k_smallest_unique.rs:16 | `binary_search` on the ascending working set returns `Ok` with an index holding the candidate. Otherwise it returns `Err` with the insertion point: every value before it is smaller and every value from it on is larger. |
| KSmallestUnique.PresentUnchanged | src/lib/util/k_smallest_unique.rs:16-26 | A candidate that `binary_search` finds is skipped, and the unchanged working set still holds the K smallest distinct values of the candidates read, that one included. |
| KSmallestUnique.PhaseOneInsert | src/lib/util/k_smallest_unique.rs:16-17 | Below capacity, a new candidate is inserted at its insertion point, which grows the set by one. |
| KSmallestUnique.FillPhase | src/lib/util/k_smallest_unique.rs:13-22 | The first loop never exceeds K. It leaves input unread only when the buffer is full, and the buffer then holds the selection of the candidates read. |
| KSmallestUnique.PhaseTwoDiscard | src/lib/util/k_smallest_unique.rs:25 | With the set full, a candidate at or above the last element leaves the set unchanged. |
| KSmallestUnique.PhaseTwoInsert | src/lib/util/k_smallest_unique.rs:25-28 | A new candidate below the last element has an insertion point of at most K - 1. `truncate(K-1)` followed by `insert` yields exactly K values without the old maximum. |
| KSmallestUnique.Insert | src/lib/util/k_smallest_unique.rs:17 | `ArrayVec::insert` shifts the tail up one slot and places the value at the index. |
| KSmallestUnique.ReplacePhase | src/lib/util/k_smallest_unique.rs:23-31 | The second loop keeps the buffer at exactly K. It ends holding the selection of the whole input. |
| KSmallestUnique.KSmallest | src/lib/util/k_smallest_unique.rs:8-33 | For K >= 1, the result is the K smallest distinct input values in ascending order, or all distinct values when there are fewer. |
| KSmallestUnique.FoxSelect | src/lib/util/k_smallest_unique.rs:41-46 | The 12 smallest distinct bytes of "The quick brown fox jumps over the lazy dog." are " .Tabcdefghi". |
| KSmallestUnique.FoxTest | src/lib/util/k_smallest_unique.rs:40-47 | The selector with K = 12 on the pangram returns exactly " .Tabcdefghi". |
| KSmallestUniqueSet.Last | src/lib/util/mod.rs:20 | `last` of a non-empty set is a member at or above every member. |
| KSmallestUniqueSet.FillStep | src/lib/util/mod.rs:13-17 | Below capacity, a candidate is inserted with set semantics, so a duplicate collapses. |
| KSmallestUniqueSet.ReplaceCases | src/lib/util/mod.rs:20-26 | With the set full, a candidate at or above the maximum is skipped, and so is one already present. Any other replaces the maximum, and the size stays K. |
| KSmallestUniqueSet.ReplaceStep | src/lib/util/mod.rs:29-30 | `pop_last` then `insert` keeps exactly K values and drops the previous maximum. |
| KSmallestUniqueSet.FillPhase | src/lib/util/mod.rs:12-17 | The first loop stops only at size K, holding the values of the selection of the candidates read. |
| KSmallestUniqueSet.ReplacePhase | src/lib/util/mod.rs:18-31 | The second loop ends holding the values of the selection of the whole input. |
| KSmallestUniqueSet.KSmallestSet | src/lib/util/mod.rs:8-33 | For K >= 1, the set is the K smallest distinct input values: only input values, at most K, and a value left out is above all kept ones while K are kept. |
| KSmallestUniqueSet.AgreesWithArrayVec | src/lib/util/mod.rs:8-33 | The set's elements listed in ascending order are the ArrayVec selector's result. |
| Shingleprints.WindowHashesSpec | src/lib/shingleprint/mod.rs:13-14 | The hash stream has `len - SHINGLE_LEN + 1` elements, or none for a short input. Element i is the hash of `input[i..i + SHINGLE_LEN]`. |
| Shingleprints.ShortInputEmpty | src/lib/shingleprint/mod.rs:13 | An input shorter than `SHINGLE_LEN` has an empty shingleprint. |
| Shingleprints.ShingleprintValid | src/lib/shingleprint/mod.rs:8-17 | Every shingleprint keeps the type's invariant: ascending, at most `SHINGLEPRINT_FEATURES` hashes. |
| Shingleprints.FeatureIsWindowHash | src/lib/shingleprint/mod.rs:12-17 | Every hash in the shingleprint is the hash of some window of the input. |
| Shingleprints.ShingleprintIsSmallest | src/lib/shingleprint/mod.rs:15-16 | The shingleprint is the `SHINGLEPRINT_FEATURES` smallest distinct window hashes in ascending order, and no other sequence is. |
| Shingleprints.HashWindow | src/lib/shingleprint/mod.rs:14-23 | A window hashed by either path, `hash_sse` or `hash_portable`, has the same hash. |
| Shingleprints.HashWindows | src/lib/shingleprint/mod.rs:13-14 | The method that hashes every window, stride 1, by either path yields exactly the hash stream. |
| Shingleprints.ShingleprintDispatch | src/lib/shingleprint/mod.rs:28-34 | `shingleprint` returns `shingleprint_portable`'s result whether or not SSE4.2 is detected, and the result keeps the type's invariant. |
| Tar.ParseNumeric | wip/tar.rs:4-32 | The method returns the field's value as the packed-binary or ASCII-octal reading defines it, or `Err`. Any value it returns fits in a u64. |
| Tar.OctalAccumStep | wip/tar.rs:21-28 | For a digit, `accum * 8 + digit` wrapped to 64 bits tracks the value of the digits read so far. NUL and space leave it unchanged. |
| Tar.PackedRoundTrip | wip/tar.rs:5-17 | The marker byte 0x80, any zero bytes, then v in 8 big-endian bytes, parses to v for every u64 v. |
| Tar.PackedOverflow | wip/tar.rs:9-14 | In packed mode, a nonzero byte before the last 8, after the marker bit is cleared, gives `Err`. |
| Tar.PackedRecordTest | wip/tar.rs:5-17 | An 8-byte packed field is the big-endian value of its bytes once the marker bit is cleared. |
| Tar.Packed8Test | wip/tar.rs:61-66 | `81 02 03 04 05 06 07 08` parses to 0x0102030405060708. |
| Tar.Packed12Test | wip/tar.rs:69-74 | `80 00 00 00 01 02 03 04 05 06 07 08` parses to 0x0102030405060708. |
| Tar.Packed12OverflowTest | wip/tar.rs:77-82 | `80 00 00 01 02 03 04 05 06 07 08 09` is `Err`. |
| Tar.OctalBadByte | wip/tar.rs:27 | In ASCII mode, any byte that is not `'0'..'7'`, NUL or space gives `Err`. |
| Tar.PaddingDigits | wip/tar.rs:26 | NUL and space contribute no digits, wherever they occur. |
| Tar.OctalFieldFits | wip/tar.rs:20-30 | A field of at most 21 octal digits and padding parses, without wrapping, to the value of its digits. |
| Tar.OctalFieldDigits | wip/tar.rs:23-24 | Writing v < 8^n as n zero-padded octal digits and reading the digits back gives v. |
| Tar.OctalRoundTrip | wip/tar.rs:20-30 | v < 8^11 written as 11 zero-padded octal digits and a NUL parses back to v. |
| Tar.AsciiSmallTest | wip/tar.rs:85-87 | `"00000000017\0"` parses to 15. |
| Tar.AsciiLargeTest | wip/tar.rs:90-95 | `"76400000000\0"` parses to 8000 * 1024 * 1024. |
| Tar.AsciiPrePosixTest | wip/tar.rs:98-100 | The space-padded `"         17 "` parses to 15. |
| Tar.ContentLenOfOctal | wip/tar.rs:38-41 | A header whose bytes 124..136 hold v in ustar octal has content length v. |
| Tar.ZeroRecordIsNull | wip/tar.rs:38-47 | An all-zero record is null, and its size field parses to 0. |
| Tar.NullIsNotPrefix | wip/tar.rs:45-53 | A null header (type flag 0) is never a prefix header (`x`, `K` or `L`). |
| Frames.NextMultipleOf | wip/ingress/map.rs:67 | `next_multiple_of(512)` is the least multiple of 512 at or above n. |
| Frames.NextHeaderAligned | wip/ingress/map.rs:67 | Each header advances the offset by `512 + roundup(len, 512)`, so offsets move forward and stay multiples of 512. |
| Frames.ReleaseNextHeader | wip/ingress/map.rs:67 | The offset update with every addition wrapping modulo 2^64, as a release build does. It stays below 2^64 and agrees with the checked update whenever nothing overflows. |
| Frames.ReleaseOffsetStalls | wip/ingress/map.rs:63-67 | A header whose packed size field holds 2^64 - 512 has that content length, and one release-build update leaves the header offset unchanged. |
| Frames.ReleaseStepAt | wip/ingress/map.rs:50-73 | One pass of the loop as a release build runs it, with the wrapping offset update. It agrees with `Frames.StepAt` on every pass that the debug build does not stop with `Overflow`. |
| Frames.ReleaseLoopStalls | wip/ingress/map.rs:50-73 | In a release build, a non-null header at h whose packed size is 2^64 - 512 makes every pass at h, whatever the frame offset, move back to h. After any number of passes the loop is still at h, so it never ends. |
| Frames.StepAt | wip/ingress/map.rs:50-73 | One header: done at the end of the archive. A header cut short or a malformed size stops with a failure at that offset, and so does an offset beyond a u64. A null header at the frame start is skipped. Otherwise the offset advances, aligned, and the frame ends unless the header is a prefix. |
| Frames.ReadStep | wip/ingress/map.rs:51-67 | The loop body reads the header at the offset and decides exactly the step `StepAt` defines. |
| Frames.SplitFrames | wip/ingress/map.rs:47-75 | The `while` loop emits exactly the ranges and outcome of the recursive definition, from offsets 0 and 0. |
| Frames.RangesAligned | wip/ingress/map.rs:47-74 | Every emitted range is non-empty, starts at or after the frame offset, and both of its ends are multiples of 512. |
| Frames.RangesOrdered | wip/ingress/map.rs:68-73 | The ranges come in ascending order and do not overlap: each starts at or after the previous one's end. |
| Frames.OnlyLastOverruns | wip/ingress/map.rs:50-67 | Every range but the last is followed by a whole header inside the archive, so only the last can run past the end. |
| Frames.FailureAfterRanges | wip/ingress/map.rs:51-66 | A failure happens at an aligned offset inside the archive, and no range sent before it extends beyond it. |
| Frames.NonEmptyReadsHeader | wip/ingress/map.rs:50-56 | If any range is emitted, a whole header was read at the starting offset. |
| Frames.SplitFramesShape | wip/ingress/map.rs:47-75 | For a whole archive: ranges non-empty, aligned, ascending and non-overlapping; only the last may overrun; a failure lies after every range. |
| Frames.EntryStep | wip/ingress/map.rs:63-73 | A header with a valid size advances by `512 + roundup(size)`. A prefix header keeps the frame open; any other emits `frame_offset..header_offset` and starts a new frame there. |
| Frames.PaddingIgnored | wip/ingress/map.rs:57-62 | Zero records at a frame start are skipped to the end, emitting nothing. |
| Frames.PaddingOnly | wip/ingress/map.rs:57-62 | An archive of nothing but zero records yields no frames. |
| Frames.TwoEntries | wip/ingress/map.rs:63-73 | A regular entry, then a GNU long-name record and the entry it names, then zero padding: two frames. The prefix record shares the second frame with its entry. |
| Frames.TwoEntriesLaidOut | wip/ingress/map.rs:63-73 | The same two-frame split, stated over header offsets instead of concatenated contents. |
| Frames.DanglingPrefixDropped | wip/ingress/map.rs:50-73 | A prefix record with nothing after it is never emitted: the loop ends with its frame still open. |
| Frames.ShingleprintFrame | wip/ingress/map.rs:82-96 | The frame carries its bounds through unchanged. |
| Frames.ShortFrame | wip/ingress/map.rs:83-89 | A frame of at most `MAX_HEAD_AND_TAIL_LEN` bytes has head and tail both equal to the shingleprint of its whole content. |
| Frames.LongFrame | wip/ingress/map.rs:90-96 | A longer frame has as head the shingleprint of its first `MAX_HEAD_AND_TAIL_LEN` bytes and as tail that of its last `MAX_HEAD_AND_TAIL_LEN` bytes. |
| Frames.FrameValid | wip/ingress/map.rs:83-96 | Both sketches of a frame keep the shingleprint invariant. |
| Frames.MiddleIgnored | wip/ingress/map.rs:90-96 | Two archives that agree on a long frame's first and last `MAX_HEAD_AND_TAIL_LEN` bytes give the same frame, whatever the middle holds. |
| Frames.HeadFeature | wip/ingress/map.rs:84-93 | Every hash of the head sketch is the hash of a window inside the frame and inside its first `MAX_HEAD_AND_TAIL_LEN` bytes. |
| Frames.TailFeature | wip/ingress/map.rs:84-94 | Every hash of the tail sketch is the hash of a window inside the frame and inside its last `MAX_HEAD_AND_TAIL_LEN` bytes. |

## Left out

- `wip/ingress/read.rs`, the streaming strategy, is not part of this model. It consists of threads, channels, a memory budget, deadlines and blocking I/O, and as written it does not compile.
- `wip/ingress/mod.rs` is not part of this model. It covers file-descriptor handling, `mmap` and seekability detection, which are operating-system I/O.
- `MapStrategy::scan` (`wip/ingress/map.rs:26-44`) is not modelled. It spawns threads and joins them over channels. The model replaces each channel by a sequence in send order, so it does not capture the order in which frames arrive from concurrent workers.
- `wip/k_smallest_unique_avx2.rs` and `benches/` are not part of this model. The first is SIMD whose bodies are unimplemented; the second is benchmarking.
- Shingleprints.ShingleprintDispatch: CPU feature detection is a boolean parameter, and the tables are passed in rather than built at compile time. `Crc32c.GenerateLut` is proved to build them.
- The CRC-32C test vectors (`hash.rs:70-88`) and the shingleprint test vector (`mod.rs:40-92`) are not proved. Evaluating the digit-wise exclusive or on concrete 32-bit values is beyond what the verifier can do here. The expected values 0xEC8D5402, 0x25066ADF and `EXPECTED_OUTPUT1` are not proved. What is proved for every input is that both hash paths equal the bitwise CRC-32C definition (`Crc32c.HashPortable`, `Crc32cSse.HashSse`), and that the shingleprint is the 32 smallest distinct window hashes of that definition (`Shingleprints.ShingleprintIsSmallest`).
- Crc32cSse.HashSse: the intrinsics are modelled by their architectural definition, not linked to hardware. Undefined behaviour on a processor without SSE4.2 is not modelled.
- KSmallestUnique.KSmallest: requires K >= 1 when the input is non-empty. With K = 0 the first `insert` overflows the zero-capacity buffer, and the `debug_assert` fails first.
- KSmallestUniqueSet.KSmallestSet: requires K >= 1 when the input is non-empty. With K = 0 the source's first loop never stops at size K and the `debug_assert` fails.
- Both selectors work on mathematical integers. Shingle hashes enter them as naturals below 2^32, and the generic `T: Ord` is not modelled beyond `int`.
- KSmallestUniqueSet.Last: the `BTreeSet` is a mathematical set, so `last` is a maximum found by a scan, not a tree walk. Neither its cost nor the tree's balance is modelled.
- Tar.ParseNumeric: requires a non-empty field, and one of at least 8 bytes in packed mode. Shorter fields panic on `input[0]` or on the slice `input[..LEN - 8]`. Every use in the source has LEN = 12.
- Tar.ParseNumeric: the ASCII accumulator is a `u64` whose overflow the source does not check. The model wraps it modulo 2^64, as a release build does; a debug build would panic instead.
- Frames.StepAt: an offset at or beyond 2^64 is reported as `Overflow`. This is the panic of a debug build on a 64-bit target. A release build's wrap-around is modelled only by `Frames.ReleaseNextHeader` and `Frames.ReleaseStepAt`, for the finding below; `Frames.SplitFrames` does not follow it. The premature-EOF and malformed-size `todo!` panics are `Failed` outcomes that keep the ranges already sent.
- Frames.StepAt: reads a 512-byte header where `wip/ingress/map.rs:51` and `:55` take 500 bytes, which `tar::Header` does not accept. The model does not capture the 500-byte slice, so where the source would stop at h + 500 the model reports `PrematureEof` for h + 512.
- Frames.ShingleprintFrame: requires the range to lie inside the archive. The source slices unchecked and would panic; `Frames.OnlyLastOverruns` shows that only the last range can fall outside.
- `MAX_HEAD_AND_TAIL_LEN` comes from `crate::tunables`, which is not part of this model. It is set to 65536 here, and no proof depends on its value. `SHINGLE_LEN = 16` and `SHINGLEPRINT_FEATURES = 32` are the values the source's tests imply.
- Frames.ShingleprintFrame: `shingleprint_frames` calls the dispatching `shingleprint`. The model uses `ShingleprintPortable`, which `Shingleprints.ShingleprintDispatch` proves equal.

## Findings

| source | as written | input that shows it | evidently intended | confidence | as-written member | corrected member |
|---|---|---|---|---|---|---|
| wip/ingress/map.rs:67 | `512 + content_len.next_multiple_of(512)` is unchecked u64 arithmetic, which wraps in a release build | a non-null header (for example type flag `b'0'`) whose packed size field (bytes 124 to 135: `0x80`, three zero bytes, then `FF FF FF FF FF FF FE 00`) holds 2^64 - 512: the increment wraps to 0, the header offset never moves, and the loop never ends. A null header with that size at the frame start is skipped instead | an offset that does not fit stops the split, so every pass moves the header offset strictly forward and splitting terminates | likely; not executed | Frames.ReleaseLoopStalls | Frames.StepAt |
