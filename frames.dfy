/**
 * The mapped ingestion strategy: `split_frames` walks the 512-byte header
 * records of an archive held in memory and cuts it into frames, one per
 * logical entry; the per-range body of `shingleprint_frames` sketches the
 * head and the tail of one frame.
 *
 * The channels of the source become sequences: the ranges `split_frames`
 * sends are the `ranges` of its `Split` result, in order.  Where the source
 * gives up with `todo!` (a header cut off by the end of the archive, a size
 * field that does not parse) or would panic on an overflowing offset, the
 * model stops with a `Failed` outcome that keeps the ranges sent so far.
 */
module Frames {
  import opened Bits
  import opened Tar
  import opened Shingleprints

  /**
   * The length of the head and of the tail that are sketched.  The
   * tunables module is not part of this model, so the value is chosen here;
   * no proof depends on it.
   */
  const MAX_HEAD_AND_TAIL_LEN: nat := 0x10000

  /** `Range<usize>`: the archive bytes start up to end - 1. */
  datatype Range = Range(start: nat, end: nat)

  /** Why splitting stopped before the end of the archive. */
  datatype Failure =
    | PrematureEof   // fewer than 512 bytes left for a header
    | MalformedSize  // the header's size field does not parse
    | Overflow       // the next header offset does not fit in a usize

  /** How splitting ended; a failure carries the offset of the offending header. */
  datatype Outcome = Complete | Failed(offset: nat, failure: Failure)

  /** The ranges sent, in order, and how splitting ended. */
  datatype Split = Split(ranges: seq<Range>, outcome: Outcome)

  /** `u64::next_multiple_of(512)`: the least multiple of 512 at or above n. */
  function NextMultipleOf(n: nat): (r: nat)
    ensures r % RECORD_LEN == 0 && n <= r < n + RECORD_LEN
  {
    var q, m := n / RECORD_LEN, n % RECORD_LEN;
    assert n == RECORD_LEN * q + m;
    if m == 0 then n
    else
      assert n + (RECORD_LEN - m) == RECORD_LEN * (q + 1);
      n + (RECORD_LEN - m)
  }

  /** The offset of the next header after a header at h whose content is len bytes. */
  function NextHeader(h: nat, len: nat): nat
  {
    h + RECORD_LEN + NextMultipleOf(len)
  }

  /** The next header lies past this one, on a record boundary when this one does. */
  lemma NextHeaderAligned(h: nat, len: nat)
    ensures h < NextHeader(h, len)
    ensures h % RECORD_LEN == 0 ==> NextHeader(h, len) % RECORD_LEN == 0
  {
    var r := NextMultipleOf(len);
    assert r == RECORD_LEN * (r / RECORD_LEN);
    if h % RECORD_LEN == 0 {
      assert h == RECORD_LEN * (h / RECORD_LEN);
      assert NextHeader(h, len) == RECORD_LEN * (h / RECORD_LEN + 1 + r / RECORD_LEN);
    }
  }

  /**
   * The offset update of `split_frames` as a release build computes it:
   * `next_multiple_of`, the u64 sum `512 + ...` and the usize addition all
   * wrap modulo 2^64 where a debug build panics.  Without overflow it agrees
   * with `NextHeader`.
   */
  function ReleaseNextHeader(h: nat, len: nat): (r: nat)
    ensures r < U64_MOD
    ensures NextHeader(h, len) < U64_MOD ==> r == NextHeader(h, len)
  {
    (h + (RECORD_LEN + NextMultipleOf(len) % U64_MOD) % U64_MOD) % U64_MOD
  }

  /**
   * As written, in a release build: for a size of 2^64 - 512, which a packed
   * size field can hold, one update leaves the header offset where it was.
   */
  lemma ReleaseOffsetStalls(header: Record, h: nat)
    requires h < U64_MOD
    requires header[124..136] == [0x80] + seq(3, _ => 0) + BigEndianBytes(U64_MOD - RECORD_LEN, 8)
    ensures ContentLen(header) == Ok(U64_MOD - RECORD_LEN)
    ensures ReleaseNextHeader(h, U64_MOD - RECORD_LEN) == h
  {
    PackedRoundTrip(U64_MOD - RECORD_LEN, 3);
    assert NextMultipleOf(U64_MOD - RECORD_LEN) == U64_MOD - RECORD_LEN;
  }

  /**
   * One pass of the loop as a release build runs it: `StepAt` with the
   * wrapping update and no `Overflow` stop.  It agrees with `StepAt` on
   * every pass that the debug build does not stop with `Overflow`.
   */
  function ReleaseStepAt(archive: seq<u8>, f: nat, h: nat): (s: Step)
    ensures StepAt(archive, f, h) != Stop(Failed(h, Overflow)) ==> s == StepAt(archive, f, h)
  {
    if h >= |archive| then Stop(Complete)
    else if h + RECORD_LEN > |archive| then Stop(Failed(h, PrematureEof))
    else
      var header: Record := archive[h..h + RECORD_LEN];
      if IsNull(header) && f == h then SkipPadding
      else
        match ContentLen(header)
        case Err => Stop(Failed(h, MalformedSize))
        case Ok(len) => Move(ReleaseNextHeader(h, len), !IsPrefix(header))
  }

  /** The offsets (frame_offset, header_offset) after at most n release-build passes from (f, h). */
  function ReleasePasses(archive: seq<u8>, f: nat, h: nat, n: nat): (nat, nat)
    decreases n
  {
    if n == 0 then (f, h)
    else
      match ReleaseStepAt(archive, f, h)
      case Stop(_) => (f, h)
      case SkipPadding => ReleasePasses(archive, h + RECORD_LEN, h + RECORD_LEN, n - 1)
      case Move(next, ends) => ReleasePasses(archive, if ends then next else f, next, n - 1)
  }

  /**
   * As written, in a release build: a non-null header at h whose packed size
   * field holds 2^64 - 512 makes every pass at h, whatever the frame offset,
   * a move back to h, so after any number of passes the loop is still at h
   * and the loop never ends.
   */
  lemma {:induction false} ReleaseLoopStalls(archive: seq<u8>, f: nat, h: nat, n: nat)
    requires h + RECORD_LEN <= |archive| && h < U64_MOD
    requires !IsNull(archive[h..h + RECORD_LEN])
    requires archive[h + 124..h + 136] == [0x80] + seq(3, _ => 0) + BigEndianBytes(U64_MOD - RECORD_LEN, 8)
    ensures ReleaseStepAt(archive, f, h) == Move(h, !IsPrefix(archive[h..h + RECORD_LEN]))
    ensures ReleasePasses(archive, f, h, n).1 == h
    decreases n
  {
    var header: Record := archive[h..h + RECORD_LEN];
    assert header[124..136] == archive[h + 124..h + 136] by {
      forall j | 0 <= j < 12
        ensures header[124..136][j] == archive[h + 124..h + 136][j]
      {
        assert header[124..136][j] == header[124 + j] == archive[h + (124 + j)];
      }
    }
    ReleaseOffsetStalls(header, h);
    if n > 0 {
      ReleaseLoopStalls(archive, if IsPrefix(header) then f else h, h, n - 1);
    }
  }

  /** The result of sending r and then going on as s. */
  function Emit(r: Range, s: Split): Split
  {
    Split([r] + s.ranges, s.outcome)
  }

  /** What one pass of the `split_frames` loop does with the header at h. */
  datatype Step =
    | Stop(outcome: Outcome)       // the loop ends
    | SkipPadding                  // a null header at the frame start
    | Move(next: nat, ends: bool)  // past the content; a non-prefix header ends the frame

  /**
   * One pass of the loop at (frame_offset, header_offset) = (f, h): a
   * failure is reported at h; every move is forward by whole records and
   * keeps the offset below 2^64.
   */
  function StepAt(archive: seq<u8>, f: nat, h: nat): (s: Step)
    ensures s == Stop(Complete) <==> h >= |archive|
    ensures s.Stop? && s.outcome.Failed? ==> s.outcome.offset == h
    ensures !s.Stop? ==> h + RECORD_LEN <= |archive|
    ensures s.SkipPadding? ==> f == h
    ensures s.Move? ==> h < s.next < U64_MOD && (h % RECORD_LEN == 0 ==> s.next % RECORD_LEN == 0)
  {
    if h >= |archive| then Stop(Complete)
    else if h + RECORD_LEN > |archive| then Stop(Failed(h, PrematureEof))
    else
      var header: Record := archive[h..h + RECORD_LEN];
      if IsNull(header) && f == h then SkipPadding
      else
        match ContentLen(header)
        case Err => Stop(Failed(h, MalformedSize))
        case Ok(len) =>
          var next := NextHeader(h, len);
          NextHeaderAligned(h, len);
          if next >= U64_MOD then Stop(Failed(h, Overflow))
          else Move(next, !IsPrefix(header))
  }

  /**
   * What `split_frames` sends from the state (frame_offset, header_offset)
   * on: the loop of the source, one header per step.
   */
  function SplitFrom(archive: seq<u8>, f: nat, h: nat): Split
    decreases |archive| - h
  {
    match StepAt(archive, f, h)
    case Stop(outcome) => Split([], outcome)
    case SkipPadding => SplitFrom(archive, h + RECORD_LEN, h + RECORD_LEN)
    case Move(next, ends) =>
      if ends then Emit(Range(f, next), SplitFrom(archive, next, next))
      else SplitFrom(archive, f, next)
  }

  // ---------------------------------------------------------------------
  // split_frames

  /**
   * The body of the `split_frames` loop up to its updates: the header at h
   * is read (an error if fewer than 512 bytes remain), stepped over if null
   * at the frame start, and otherwise its size is parsed (an error if
   * malformed) to find the next header (an error if that overflows).
   */
  method ReadStep(archive: seq<u8>, f: nat, h: nat) returns (step: Step)
    requires h < |archive|
    ensures step == StepAt(archive, f, h)
  {
    if h + RECORD_LEN > |archive| {
      return Stop(Failed(h, PrematureEof));
    }
    var header: Record := archive[h..h + RECORD_LEN];
    if IsNull(header) && f == h {
      return SkipPadding;
    }
    var contentLen := ParseNumeric(header[124..136]);
    if contentLen.Err? {
      return Stop(Failed(h, MalformedSize));
    }
    var next := NextHeader(h, contentLen.value);
    if next >= U64_MOD {
      return Stop(Failed(h, Overflow));
    }
    return Move(next, !IsPrefix(header));
  }

  /**
   * `split_frames`: a null header at the start of a frame is padding and is
   * stepped over; any other header moves the header offset past its
   * content; a header that is not a prefix record ends the frame and sends
   * its range.
   */
  method SplitFrames(archive: seq<u8>) returns (s: Split)
    ensures s == SplitFrom(archive, 0, 0)
  {
    var ranges: seq<Range> := [];
    var frameOffset: nat, headerOffset: nat := 0, 0;
    while headerOffset < |archive|
      invariant Split(ranges + SplitFrom(archive, frameOffset, headerOffset).ranges,
                      SplitFrom(archive, frameOffset, headerOffset).outcome) == SplitFrom(archive, 0, 0)
      decreases |archive| - headerOffset
    {
      var step := ReadStep(archive, frameOffset, headerOffset);
      match step
      case Stop(outcome) =>
        assert ranges + [] == ranges;
        return Split(ranges, outcome);
      case SkipPadding =>
        headerOffset := headerOffset + RECORD_LEN;
        frameOffset := headerOffset;
      case Move(next, ends) =>
        if ends {
          ghost var rest := SplitFrom(archive, next, next);
          assert ranges + ([Range(frameOffset, next)] + rest.ranges)
              == (ranges + [Range(frameOffset, next)]) + rest.ranges;
          ranges := ranges + [Range(frameOffset, next)];
          frameOffset := next;
        }
        headerOffset := next;
    }
    s := Split(ranges, Complete);
    assert ranges + [] == ranges;
  }

  // ---------------------------------------------------------------------
  // Properties of the ranges

  /** The ranges are non-empty, record-aligned, in ascending order and non-overlapping. */
  ghost predicate WellFormed(ranges: seq<Range>)
  {
    && (forall i :: 0 <= i < |ranges| ==>
          ranges[i].start < ranges[i].end && ranges[i].start % RECORD_LEN == 0 && ranges[i].end % RECORD_LEN == 0)
    && (forall i, j :: 0 <= i < j < |ranges| ==> ranges[i].end <= ranges[j].start)
  }

  /**
   * From a record-aligned state every range sent is non-empty,
   * record-aligned, below 2^64 and at or after the frame offset.
   */
  lemma {:induction false} RangesAligned(archive: seq<u8>, f: nat, h: nat)
    requires f <= h && f % RECORD_LEN == 0 && h % RECORD_LEN == 0
    ensures forall r :: r in SplitFrom(archive, f, h).ranges ==>
      && f <= r.start < r.end < U64_MOD
      && r.start % RECORD_LEN == 0 && r.end % RECORD_LEN == 0
    decreases |archive| - h
  {
    match StepAt(archive, f, h)
    case Stop(_) =>
    case SkipPadding => RangesAligned(archive, h + RECORD_LEN, h + RECORD_LEN);
    case Move(next, ends) => RangesAligned(archive, if ends then next else f, next);
  }

  /** From a record-aligned state the ranges sent are in ascending order and do not overlap. */
  lemma {:induction false} RangesOrdered(archive: seq<u8>, f: nat, h: nat)
    requires f <= h && f % RECORD_LEN == 0 && h % RECORD_LEN == 0
    ensures forall i, j :: 0 <= i < j < |SplitFrom(archive, f, h).ranges| ==>
      SplitFrom(archive, f, h).ranges[i].end <= SplitFrom(archive, f, h).ranges[j].start
    decreases |archive| - h
  {
    match StepAt(archive, f, h)
    case Stop(_) =>
    case SkipPadding => RangesOrdered(archive, h + RECORD_LEN, h + RECORD_LEN);
    case Move(next, ends) =>
      RangesOrdered(archive, if ends then next else f, next);
      if ends {
        var rest := SplitFrom(archive, next, next).ranges;
        RangesAligned(archive, next, next);
        assert SplitFrom(archive, f, h).ranges == [Range(f, next)] + rest;
        assert forall j :: 0 <= j < |rest| ==> rest[j] in rest;
      }
  }

  /**
   * Every range but the last ends at least one record before the end of
   * the archive: a further range needs a header there.  Only the last
   * range can run past the end, since a content length is not checked
   * against the archive.
   */
  lemma {:induction false} OnlyLastOverruns(archive: seq<u8>, f: nat, h: nat)
    ensures forall i :: 0 <= i < |SplitFrom(archive, f, h).ranges| - 1 ==>
      SplitFrom(archive, f, h).ranges[i].end + RECORD_LEN <= |archive|
    decreases |archive| - h
  {
    match StepAt(archive, f, h)
    case Stop(_) =>
    case SkipPadding => OnlyLastOverruns(archive, h + RECORD_LEN, h + RECORD_LEN);
    case Move(next, ends) =>
      OnlyLastOverruns(archive, if ends then next else f, next);
      if ends {
        var rest := SplitFrom(archive, next, next).ranges;
        if rest != [] {
          NonEmptyReadsHeader(archive, next, next);
        }
      }
  }

  /**
   * A failure is reported at a header offset at or after h, inside the
   * archive, record-aligned, and after the end of every range sent: no
   * range is sent once splitting has stopped.
   */
  lemma {:induction false} FailureAfterRanges(archive: seq<u8>, f: nat, h: nat)
    requires h % RECORD_LEN == 0
    ensures SplitFrom(archive, f, h).outcome.Failed? ==>
      var o := SplitFrom(archive, f, h).outcome.offset;
      && h <= o < |archive| && o % RECORD_LEN == 0
      && forall r :: r in SplitFrom(archive, f, h).ranges ==> r.end <= o
    decreases |archive| - h
  {
    match StepAt(archive, f, h)
    case Stop(_) =>
    case SkipPadding => FailureAfterRanges(archive, h + RECORD_LEN, h + RECORD_LEN);
    case Move(next, ends) => FailureAfterRanges(archive, if ends then next else f, next);
  }

  /** A state that goes on to send a range first reads a whole header at h. */
  lemma {:induction false} NonEmptyReadsHeader(archive: seq<u8>, f: nat, h: nat)
    requires SplitFrom(archive, f, h).ranges != []
    ensures h + RECORD_LEN <= |archive|
  {
  }

  /**
   * The ranges `split_frames` sends are non-empty, record-aligned, in
   * ascending order and non-overlapping; all but the last lie inside the
   * archive; a failure is reported at a header after all of them.
   */
  lemma SplitFramesShape(archive: seq<u8>)
    ensures WellFormed(SplitFrom(archive, 0, 0).ranges)
    ensures forall i :: 0 <= i < |SplitFrom(archive, 0, 0).ranges| - 1 ==>
      SplitFrom(archive, 0, 0).ranges[i].end + RECORD_LEN <= |archive|
    ensures SplitFrom(archive, 0, 0).outcome.Failed? ==>
      var o := SplitFrom(archive, 0, 0).outcome.offset;
      && o < |archive| && o % RECORD_LEN == 0
      && forall r :: r in SplitFrom(archive, 0, 0).ranges ==> r.end <= o
  {
    var ranges := SplitFrom(archive, 0, 0).ranges;
    RangesAligned(archive, 0, 0);
    assert forall i :: 0 <= i < |ranges| ==> ranges[i] in ranges;
    RangesOrdered(archive, 0, 0);
    OnlyLastOverruns(archive, 0, 0);
    FailureAfterRanges(archive, 0, 0);
  }

  // ---------------------------------------------------------------------
  // Single steps and whole archives

  /** A run of n all-zero records. */
  function Zeros(n: nat): seq<u8>
  {
    seq(RECORD_LEN * n, _ => 0)
  }

  /** A header that is not padding at the frame start and whose size parses moves past its content. */
  lemma EntryStep(archive: seq<u8>, f: nat, h: nat, header: Record, len: nat)
    requires h + RECORD_LEN <= |archive| && archive[h..h + RECORD_LEN] == header
    requires !(IsNull(header) && f == h) && ContentLen(header) == Ok(len)
    requires NextHeader(h, len) < U64_MOD
    ensures IsPrefix(header) ==> SplitFrom(archive, f, h) == SplitFrom(archive, f, NextHeader(h, len))
    ensures !IsPrefix(header) ==>
      SplitFrom(archive, f, h) == Emit(Range(f, NextHeader(h, len)), SplitFrom(archive, NextHeader(h, len), NextHeader(h, len)))
  {
  }

  /** End-of-archive padding: zero records at a frame start are stepped over and nothing is sent. */
  lemma {:induction false} PaddingIgnored(archive: seq<u8>, h: nat, n: nat)
    requires h + RECORD_LEN * n == |archive|
    requires forall j :: h <= j < |archive| ==> archive[j] == 0
    ensures SplitFrom(archive, h, h) == Split([], Complete)
    decreases n
  {
    if n > 0 {
      var header: Record := archive[h..h + RECORD_LEN];
      assert header == seq(RECORD_LEN, _ => 0);
      ZeroRecordIsNull();
      PaddingIgnored(archive, h + RECORD_LEN, n - 1);
    }
  }

  /** An archive of nothing but zero records holds no frame. */
  lemma PaddingOnly(n: nat)
    ensures SplitFrom(Zeros(n), 0, 0) == Split([], Complete)
  {
    PaddingIgnored(Zeros(n), 0, n);
  }

  /** The content of an entry as stored: its length rounded up to whole records. */
  predicate Stored(content: seq<u8>, header: Record)
  {
    ContentLen(header).Ok? && |content| == NextMultipleOf(ContentLen(header).value)
  }

  /**
   * The splitting of TwoEntries on any archive laid out that way: headers
   * at 0, e1 and e2, zero records from e3 to the end.
   */
  lemma TwoEntriesLaidOut(archive: seq<u8>, h1: Record, h2: Record, h3: Record, e1: nat, e2: nat, e3: nat, n: nat)
    requires ContentLen(h1).Ok? && e1 == NextHeader(0, ContentLen(h1).value)
    requires ContentLen(h2).Ok? && e2 == NextHeader(e1, ContentLen(h2).value)
    requires ContentLen(h3).Ok? && e3 == NextHeader(e2, ContentLen(h3).value)
    requires |archive| == e3 + RECORD_LEN * n < U64_MOD
    requires archive[0..RECORD_LEN] == h1 && archive[e1..e1 + RECORD_LEN] == h2 && archive[e2..e2 + RECORD_LEN] == h3
    requires forall j :: e3 <= j < |archive| ==> archive[j] == 0
    requires !IsNull(h1) && !IsPrefix(h1) && TypeFlag(h2) == 'L' as u8 && !IsPrefix(h3)
    ensures SplitFrom(archive, 0, 0) == Split([Range(0, e1), Range(e1, e3)], Complete)
  {
    assert SplitFrom(archive, e3, e3) == Split([], Complete) by {
      PaddingIgnored(archive, e3, n);
    }
    assert SplitFrom(archive, e1, e2) == Split([Range(e1, e3)], Complete) by {
      EntryStep(archive, e1, e2, h3, ContentLen(h3).value);
    }
    assert SplitFrom(archive, e1, e1) == Split([Range(e1, e3)], Complete) by {
      EntryStep(archive, e1, e1, h2, ContentLen(h2).value);
    }
    assert SplitFrom(archive, 0, 0) == Split([Range(0, e1)] + [Range(e1, e3)], Complete) by {
      EntryStep(archive, 0, 0, h1, ContentLen(h1).value);
    }
  }

  /**
   * One small entry, one entry behind a GNU long-name record, then zero
   * padding: exactly two frames, the long-name record merged into the
   * second, and the padding consumed without error.
   */
  lemma TwoEntries(archive: seq<u8>, h1: Record, c1: seq<u8>, h2: Record, c2: seq<u8>, h3: Record, c3: seq<u8>, n: nat)
    requires archive == h1 + c1 + h2 + c2 + h3 + c3 + Zeros(n)
    requires Stored(c1, h1) && Stored(c2, h2) && Stored(c3, h3)
    requires !IsNull(h1) && !IsPrefix(h1) && TypeFlag(h2) == 'L' as u8 && !IsPrefix(h3)
    requires 3 * RECORD_LEN + |c1| + |c2| + |c3| + RECORD_LEN * n < U64_MOD
    ensures SplitFrom(archive, 0, 0)
      == Split([Range(0, RECORD_LEN + |c1|),
                Range(RECORD_LEN + |c1|, RECORD_LEN + |c1| + RECORD_LEN + |c2| + RECORD_LEN + |c3|)], Complete)
  {
    var e1 := RECORD_LEN + |c1|;
    var e2 := e1 + RECORD_LEN + |c2|;
    var e3 := e2 + RECORD_LEN + |c3|;
    assert archive[0..RECORD_LEN] == h1;
    assert archive[e1..e1 + RECORD_LEN] == h2;
    assert archive[e2..e2 + RECORD_LEN] == h3;
    assert forall j :: e3 <= j < |archive| ==> archive[j] == 0 by {
      assert archive[e3..] == Zeros(n);
      assert forall j :: e3 <= j < |archive| ==> archive[j] == archive[e3..][j - e3];
    }
    TwoEntriesLaidOut(archive, h1, h2, h3, e1, e2, e3, n);
  }

  /**
   * A prefix record whose entry is missing from the end of the archive is
   * dropped: nothing is sent for it and splitting still completes.
   */
  lemma DanglingPrefixDropped(h2: Record, c2: seq<u8>)
    requires Stored(c2, h2) && IsPrefix(h2)
    requires RECORD_LEN + |c2| < U64_MOD
    ensures SplitFrom(h2 + c2, 0, 0) == Split([], Complete)
  {
    NullIsNotPrefix(h2);
    assert (h2 + c2)[0..RECORD_LEN] == h2;
    EntryStep(h2 + c2, 0, 0, h2, ContentLen(h2).value);
  }

  // ---------------------------------------------------------------------
  // shingleprint_frames

  /** `Frame`: a range of the archive and the sketches of its head and tail. */
  datatype Frame = Frame(bounds: Range, headSp: Shingleprint, tailSp: Shingleprint)

  /**
   * The body of the `shingleprint_frames` loop for one range: a frame no
   * longer than MAX_HEAD_AND_TAIL_LEN is sketched once and the sketch serves
   * as head and tail; a longer one has its first and its last
   * MAX_HEAD_AND_TAIL_LEN bytes sketched separately.  The source slices the
   * archive with the range unchecked, so the range must lie inside it.
   */
  function ShingleprintFrame(archive: seq<u8>, bounds: Range): (frame: Frame)
    requires bounds.start <= bounds.end <= |archive|
    ensures frame.bounds == bounds
  {
    var content := archive[bounds.start..bounds.end];
    if |content| <= MAX_HEAD_AND_TAIL_LEN then
      var sp := ShingleprintPortable(content);
      Frame(bounds, sp, sp)
    else
      Frame(bounds, ShingleprintPortable(content[..MAX_HEAD_AND_TAIL_LEN]),
            ShingleprintPortable(content[|content| - MAX_HEAD_AND_TAIL_LEN..]))
  }

  /** A slice of a slice is a slice. */
  lemma SliceOfSlice(archive: seq<u8>, lo: nat, hi: nat, i: nat, j: nat)
    requires lo <= hi <= |archive| && i <= j <= hi - lo
    ensures archive[lo..hi][i..j] == archive[lo + i..lo + j]
  {
    forall k | 0 <= k < j - i
      ensures archive[lo..hi][i..j][k] == archive[lo + i..lo + j][k]
    {
      assert archive[lo..hi][i..j][k] == archive[lo..hi][i + k];
    }
  }

  /** A frame no longer than MAX_HEAD_AND_TAIL_LEN has one sketch of its whole content as head and tail. */
  lemma ShortFrame(archive: seq<u8>, bounds: Range)
    requires bounds.start <= bounds.end <= |archive|
    requires bounds.end - bounds.start <= MAX_HEAD_AND_TAIL_LEN
    ensures ShingleprintFrame(archive, bounds).headSp == ShingleprintPortable(archive[bounds.start..bounds.end])
    ensures ShingleprintFrame(archive, bounds).tailSp == ShingleprintPortable(archive[bounds.start..bounds.end])
  {
  }

  /**
   * A longer frame has the sketch of its first MAX_HEAD_AND_TAIL_LEN bytes
   * as head and of its last MAX_HEAD_AND_TAIL_LEN bytes as tail.
   */
  lemma LongFrame(archive: seq<u8>, bounds: Range)
    requires bounds.start <= bounds.end <= |archive|
    requires bounds.end - bounds.start > MAX_HEAD_AND_TAIL_LEN
    ensures ShingleprintFrame(archive, bounds).headSp
      == ShingleprintPortable(archive[bounds.start..bounds.start + MAX_HEAD_AND_TAIL_LEN])
    ensures ShingleprintFrame(archive, bounds).tailSp
      == ShingleprintPortable(archive[bounds.end - MAX_HEAD_AND_TAIL_LEN..bounds.end])
  {
    var content := archive[bounds.start..bounds.end];
    var m := MAX_HEAD_AND_TAIL_LEN;
    assert content[..m] == archive[bounds.start..bounds.start + m] by {
      SliceOfSlice(archive, bounds.start, bounds.end, 0, m);
    }
    assert content[|content| - m..] == archive[bounds.end - m..bounds.end] by {
      SliceOfSlice(archive, bounds.start, bounds.end, |content| - m, |content|);
    }
  }

  /** Both sketches of a frame keep the invariant of the `Shingleprint` type. */
  lemma FrameValid(archive: seq<u8>, bounds: Range)
    requires bounds.start <= bounds.end <= |archive|
    ensures Valid(ShingleprintFrame(archive, bounds).headSp) && Valid(ShingleprintFrame(archive, bounds).tailSp)
  {
    if bounds.end - bounds.start <= MAX_HEAD_AND_TAIL_LEN {
      ShortFrame(archive, bounds);
      ShingleprintValid(archive[bounds.start..bounds.end]);
    } else {
      LongFrame(archive, bounds);
      ShingleprintValid(archive[bounds.start..bounds.start + MAX_HEAD_AND_TAIL_LEN]);
      ShingleprintValid(archive[bounds.end - MAX_HEAD_AND_TAIL_LEN..bounds.end]);
    }
  }

  /**
   * The middle of a long frame is never looked at: two archives that agree
   * on the frame's first and last MAX_HEAD_AND_TAIL_LEN bytes give the same
   * frame.
   */
  lemma MiddleIgnored(a: seq<u8>, b: seq<u8>, bounds: Range)
    requires bounds.start <= bounds.end <= |a| && bounds.end <= |b|
    requires bounds.end - bounds.start > MAX_HEAD_AND_TAIL_LEN
    requires a[bounds.start..bounds.start + MAX_HEAD_AND_TAIL_LEN] == b[bounds.start..bounds.start + MAX_HEAD_AND_TAIL_LEN]
    requires a[bounds.end - MAX_HEAD_AND_TAIL_LEN..bounds.end] == b[bounds.end - MAX_HEAD_AND_TAIL_LEN..bounds.end]
    ensures ShingleprintFrame(a, bounds) == ShingleprintFrame(b, bounds)
  {
    LongFrame(a, bounds);
    LongFrame(b, bounds);
  }

  /** A window of a slice of the archive is a window of the archive. */
  lemma WindowOfSlice(archive: seq<u8>, lo: nat, hi: nat, i: nat)
    requires lo <= hi <= |archive| && i + SHINGLE_LEN <= hi - lo
    ensures WindowHash(archive[lo..hi], i) == WindowHash(archive, lo + i)
  {
    var window := archive[lo..hi][i..i + SHINGLE_LEN];
    forall j | 0 <= j < SHINGLE_LEN
      ensures window[j] == archive[lo + i + j]
    {
    }
    assert window == archive[lo + i..lo + i + SHINGLE_LEN];
  }

  /** Every feature of a sketch of archive[lo..hi] is the hash of a window inside lo..hi. */
  lemma SliceFeature(archive: seq<u8>, lo: nat, hi: nat, x: int)
    requires lo <= hi <= |archive| && x in ShingleprintPortable(archive[lo..hi]).hashes
    ensures exists i: nat :: lo <= i && i + SHINGLE_LEN <= hi && x == WindowHash(archive, i)
  {
    FeatureIsWindowHash(archive[lo..hi], x);
    var i: nat :| i + SHINGLE_LEN <= |archive[lo..hi]| && x == WindowHash(archive[lo..hi], i);
    WindowOfSlice(archive, lo, hi, i);
  }

  /**
   * Every feature of the head sketch is the hash of a window inside the
   * frame's first MAX_HEAD_AND_TAIL_LEN bytes.
   */
  lemma HeadFeature(archive: seq<u8>, bounds: Range, x: int)
    requires bounds.start <= bounds.end <= |archive|
    requires x in ShingleprintFrame(archive, bounds).headSp.hashes
    ensures exists i: nat ::
      (bounds.start <= i && i + SHINGLE_LEN <= bounds.end
       && i + SHINGLE_LEN <= bounds.start + MAX_HEAD_AND_TAIL_LEN && x == WindowHash(archive, i))
  {
    var long := bounds.end - bounds.start > MAX_HEAD_AND_TAIL_LEN;
    var lo := bounds.start;
    var hi := if long then bounds.start + MAX_HEAD_AND_TAIL_LEN else bounds.end;
    assert x in ShingleprintPortable(archive[lo..hi]).hashes by {
      if long {
        LongFrame(archive, bounds);
      } else {
        ShortFrame(archive, bounds);
      }
    }
    SliceFeature(archive, lo, hi, x);
    var i: nat :| lo <= i && i + SHINGLE_LEN <= hi && x == WindowHash(archive, i);
  }

  /**
   * Every feature of the tail sketch is the hash of a window inside the
   * frame's last MAX_HEAD_AND_TAIL_LEN bytes.
   */
  lemma TailFeature(archive: seq<u8>, bounds: Range, x: int)
    requires bounds.start <= bounds.end <= |archive|
    requires x in ShingleprintFrame(archive, bounds).tailSp.hashes
    ensures exists i: nat ::
      (bounds.start <= i && i + SHINGLE_LEN <= bounds.end
       && bounds.end <= i + MAX_HEAD_AND_TAIL_LEN && x == WindowHash(archive, i))
  {
    var long := bounds.end - bounds.start > MAX_HEAD_AND_TAIL_LEN;
    var lo := if long then bounds.end - MAX_HEAD_AND_TAIL_LEN else bounds.start;
    var hi := bounds.end;
    assert x in ShingleprintPortable(archive[lo..hi]).hashes by {
      if long {
        LongFrame(archive, bounds);
      } else {
        ShortFrame(archive, bounds);
      }
    }
    SliceFeature(archive, lo, hi, x);
    var i: nat :| lo <= i && i + SHINGLE_LEN <= hi && x == WindowHash(archive, i);
  }
}
