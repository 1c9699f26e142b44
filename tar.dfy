/**
 * Numeric fields and header classification of TAR records.
 *
 * A numeric field is either ASCII octal (the POSIX ustar encoding, where
 * NUL and space bytes are padding) or, when the most significant bit of its
 * first byte is set, GNU "packed binary": the remaining bits form a
 * big-endian number, of which only the last eight bytes may be non-zero for
 * the value to fit in a u64.  A header is one 512-byte record.
 */
module Tar {
  import opened Bits

  /** `Result<u64, ParseNumericError>`. */
  datatype Result<T> = Ok(value: T) | Err

  const U64_MOD: nat := 0x1_0000_0000_0000_0000
  const RECORD_LEN: nat := 512

  // ---------------------------------------------------------------------
  // Specification of parse_numeric

  /** `u64::from_be_bytes`: the first byte is the most significant. */
  function BigEndian(bytes: seq<u8>): nat
  {
    if bytes == [] then 0 else 0x100 * BigEndian(bytes[..|bytes| - 1]) + bytes[|bytes| - 1]
  }

  predicate IsOctalDigit(b: u8)
  {
    '0' as u8 <= b <= '7' as u8
  }

  /** NUL and space are padding in an octal field. */
  predicate IsPadding(b: u8)
  {
    b == 0 || b == ' ' as u8
  }

  /** The digit values of an octal field, padding dropped. */
  function Digits(field: seq<u8>): seq<nat>
  {
    if field == [] then []
    else
      var init, b := field[..|field| - 1], field[|field| - 1];
      if IsOctalDigit(b) then Digits(init) + [b - '0' as u8] else Digits(init)
  }

  /** The number written by a sequence of octal digits, most significant first. */
  function Octal(ds: seq<nat>): nat
  {
    if ds == [] then 0 else 8 * Octal(ds[..|ds| - 1]) + ds[|ds| - 1]
  }

  /** The packed-binary field with the marker bit cleared (`input[0] &= 0x7F`). */
  function Unmarked(field: seq<u8>): seq<u8>
    requires |field| >= 1
  {
    field[0 := field[0] % 0x80]
  }

  /**
   * What `parse_numeric` returns.  Packed binary (marker bit set): an error
   * when a byte before the last eight is non-zero after clearing the
   * marker, else the big-endian value of the last eight.  Octal: an error
   * when a byte is neither an octal digit nor padding, else the value of the
   * digits, wrapped to 64 bits as the u64 accumulator is.  A field shorter
   * than eight bytes cannot be packed: the slicing would panic.
   */
  function NumericValue(field: seq<u8>): Result<nat>
    requires |field| >= 1 && (field[0] >= 0x80 ==> |field| >= 8)
  {
    if field[0] >= 0x80 then
      var bytes := Unmarked(field);
      if exists j :: 0 <= j < |bytes| - 8 && bytes[j] != 0 then Err
      else Ok(BigEndian(bytes[|bytes| - 8..]))
    else if forall j :: 0 <= j < |field| ==> IsOctalDigit(field[j]) || IsPadding(field[j]) then
      Ok(Octal(Digits(field)) % U64_MOD)
    else Err
  }

  // ---------------------------------------------------------------------
  // parse_numeric

  lemma DigitsSnoc(field: seq<u8>, j: nat)
    requires j < |field|
    ensures Digits(field[..j + 1]) == if IsOctalDigit(field[j]) then Digits(field[..j]) + [field[j] - '0' as u8] else Digits(field[..j])
  {
    assert field[..j + 1][..j] == field[..j];
  }

  /** The wrapped accumulator step agrees with wrapping once at the end. */
  lemma WrapStep(accum: nat, ds: seq<nat>, d: nat)
    requires accum == Octal(ds) % U64_MOD
    ensures (accum * 8 + d) % U64_MOD == Octal(ds + [d]) % U64_MOD
  {
    assert (ds + [d])[..|ds|] == ds;
    var q := Octal(ds) / U64_MOD;
    assert Octal(ds) == q * U64_MOD + accum;
    assert Octal(ds + [d]) == (8 * q) * U64_MOD + (accum * 8 + d);
  }

  /** One byte of the octal loop: a digit enters the wrapped accumulator, padding leaves it. */
  lemma OctalAccumStep(field: seq<u8>, j: nat, accum: nat)
    requires j < |field| && accum == Octal(Digits(field[..j])) % U64_MOD
    ensures IsOctalDigit(field[j]) ==>
      (accum * 8 + (field[j] - '0' as u8)) % U64_MOD == Octal(Digits(field[..j + 1])) % U64_MOD
    ensures !IsOctalDigit(field[j]) ==> accum == Octal(Digits(field[..j + 1])) % U64_MOD
  {
    DigitsSnoc(field, j);
    if IsOctalDigit(field[j]) {
      WrapStep(accum, Digits(field[..j]), field[j] - '0' as u8);
    }
  }

  /**
   * `parse_numeric::<LEN>`.  The field is passed by value; clearing the
   * marker bit changes the local copy only.
   */
  method ParseNumeric(input: seq<u8>) returns (r: Result<nat>)
    requires |input| >= 1 && (input[0] >= 0x80 ==> |input| >= 8)
    ensures r == NumericValue(input)
    ensures r.Ok? ==> r.value < U64_MOD
  {
    if input[0] >= 0x80 {
      var bytes := Unmarked(input);
      var j := 0;
      while j < |bytes| - 8
        invariant j <= |bytes| - 8
        invariant forall t :: 0 <= t < j ==> bytes[t] == 0
      {
        if bytes[j] != 0 {
          return Err;
        }
        j := j + 1;
      }
      BigEndianBound(bytes[|bytes| - 8..]);
      U64ModIsPow2();
      r := Ok(BigEndian(bytes[|bytes| - 8..]));
    } else {
      var accum := 0;
      var j := 0;
      while j < |input|
        invariant j <= |input|
        invariant forall t :: 0 <= t < j ==> IsOctalDigit(input[t]) || IsPadding(input[t])
        invariant accum == Octal(Digits(input[..j])) % U64_MOD
      {
        var byte := input[j];
        OctalAccumStep(input, j, accum);
        if IsOctalDigit(byte) {
          accum := (accum * 8 + (byte - '0' as u8)) % U64_MOD;
        } else if IsPadding(byte) {
        } else {
          return Err;
        }
        j := j + 1;
      }
      assert input[..j] == input;
      r := Ok(accum);
    }
  }

  // ---------------------------------------------------------------------
  // Properties of the field encodings

  lemma U64ModIsPow2()
    ensures U64_MOD == Pow2(64)
  {
    Pow2Of32();
    Pow2Add(32, 32);
  }

  /** Eight bytes hold a u64. */
  lemma {:induction false} BigEndianBound(bytes: seq<u8>)
    ensures BigEndian(bytes) < Pow2(8 * |bytes|)
    decreases |bytes|
  {
    if bytes != [] {
      var init := bytes[..|bytes| - 1];
      BigEndianBound(init);
      Pow2Add(8 * |init|, 8);
      Pow2Of8();
      assert BigEndian(bytes) <= 0x100 * (Pow2(8 * |init|) - 1) + 0xFF;
    }
  }

  /** The number of octal digits bounds the value. */
  lemma {:induction false} OctalBound(ds: seq<nat>)
    requires forall j :: 0 <= j < |ds| ==> ds[j] < 8
    ensures Octal(ds) < Pow2(3 * |ds|)
    decreases |ds|
  {
    if ds != [] {
      OctalBound(ds[..|ds| - 1]);
      Pow2Add(3 * (|ds| - 1), 3);
    }
  }

  lemma {:induction false} DigitsFacts(field: seq<u8>)
    ensures |Digits(field)| <= |field|
    ensures forall j :: 0 <= j < |Digits(field)| ==> Digits(field)[j] < 8
    decreases |field|
  {
    if field != [] {
      DigitsFacts(field[..|field| - 1]);
    }
  }

  /**
   * An octal field of at most 21 bytes never wraps the u64 accumulator:
   * 21 octal digits stay below 2^63.  A 12-byte header field is one.
   */
  lemma OctalFieldFits(field: seq<u8>)
    requires 1 <= |field| <= 21 && field[0] < 0x80
    requires forall j :: 0 <= j < |field| ==> IsOctalDigit(field[j]) || IsPadding(field[j])
    ensures NumericValue(field) == Ok(Octal(Digits(field)))
  {
    var ds := Digits(field);
    assert NumericValue(field) == Ok(Octal(ds) % U64_MOD);
    assert Octal(ds) < U64_MOD by {
      DigitsFacts(field);
      OctalBound(ds);
      Pow2Monotone(3 * |ds|, 64);
      U64ModIsPow2();
    }
    ModSmall(Octal(ds), U64_MOD);
  }

  lemma ModSmall(x: nat, m: nat)
    requires x < m
    ensures x % m == x
  {
  }

  /** v written as n octal digits, zero-padded on the left. */
  function OctalField(v: nat, n: nat): (digits: seq<u8>)
    ensures |digits| == n
  {
    if n == 0 then [] else OctalField(v / 8, n - 1) + [('0' as u8 + v % 8) as u8]
  }

  /** The digits of a zero-padded octal numeral read back as its value. */
  lemma {:induction false} OctalFieldDigits(v: nat, n: nat)
    requires v < Pow2(3 * n)
    ensures forall j :: 0 <= j < n ==> IsOctalDigit(OctalField(v, n)[j])
    ensures Octal(Digits(OctalField(v, n))) == v
    decreases n
  {
    if n > 0 {
      var f, d := OctalField(v, n), v % 8;
      var init := OctalField(v / 8, n - 1);
      assert v / 8 < Pow2(3 * (n - 1)) by {
        Pow2Add(3 * (n - 1), 3);
        assert Pow2(3) == 8;
      }
      OctalFieldDigits(v / 8, n - 1);
      assert f == init + [('0' as u8 + d) as u8];
      assert f[..n - 1] == init;
      var ds := Digits(init);
      assert Digits(f) == ds + [d];
      assert (ds + [d])[..|ds|] == ds;
      assert Octal(ds + [d]) == 8 * (v / 8) + d;
    }
  }

  /**
   * Round trip: v < 8^11 written as eleven zero-padded octal digits and a
   * NUL, the way a ustar size field is written, parses back to v.
   */
  lemma OctalRoundTrip(v: nat)
    requires v < Pow2(33)
    ensures NumericValue(OctalField(v, 11) + [0]) == Ok(v)
  {
    var field := OctalField(v, 11) + [0];
    OctalFieldDigits(v, 11);
    assert field[..11] == OctalField(v, 11);
    assert Digits(field) == Digits(OctalField(v, 11));
    forall j | 0 <= j < 12
      ensures IsOctalDigit(field[j]) || IsPadding(field[j])
    {
      if j < 11 {
        assert field[j] == OctalField(v, 11)[j];
      }
    }
    assert field[0] < 0x80 by {
      assert field[0] == OctalField(v, 11)[0];
    }
    OctalFieldFits(field);
  }

  /** `u64::to_be_bytes` for n bytes. */
  function BigEndianBytes(v: nat, n: nat): (bytes: seq<u8>)
    ensures |bytes| == n
  {
    if n == 0 then [] else BigEndianBytes(v / 0x100, n - 1) + [(v % 0x100) as u8]
  }

  lemma {:induction false} BigEndianBytesValue(v: nat, n: nat)
    requires v < Pow2(8 * n)
    ensures BigEndian(BigEndianBytes(v, n)) == v
    decreases n
  {
    if n > 0 {
      Pow2Add(8 * (n - 1), 8);
      Pow2Of8();
      BigEndianBytesValue(v / 0x100, n - 1);
      assert BigEndianBytes(v, n)[..n - 1] == BigEndianBytes(v / 0x100, n - 1);
    }
  }

  /**
   * Round trip in packed binary: a marker byte, `pad` zero bytes and the
   * eight big-endian bytes of a u64 parse back to that u64.
   */
  lemma PackedRoundTrip(v: nat, pad: nat)
    requires v < U64_MOD
    ensures NumericValue([0x80] + seq(pad, _ => 0) + BigEndianBytes(v, 8)) == Ok(v)
  {
    var field := [0x80] + seq(pad, _ => 0) + BigEndianBytes(v, 8);
    var bytes := Unmarked(field);
    assert bytes == [0] + seq(pad, _ => 0) + BigEndianBytes(v, 8);
    assert bytes[|bytes| - 8..] == BigEndianBytes(v, 8);
    assert forall j :: 0 <= j < |bytes| - 8 ==> bytes[j] == 0;
    U64ModIsPow2();
    BigEndianBytesValue(v, 8);
  }

  /** In packed binary, a non-zero byte before the last eight means the value does not fit. */
  lemma PackedOverflow(field: seq<u8>, j: nat)
    requires |field| >= 8 && field[0] >= 0x80
    requires j < |field| - 8 && Unmarked(field)[j] != 0
    ensures NumericValue(field) == Err
  {
  }

  /** In octal, any byte other than a digit, NUL or space is an error. */
  lemma OctalBadByte(field: seq<u8>, j: nat)
    requires |field| >= 1 && field[0] < 0x80
    requires j < |field| && !IsOctalDigit(field[j]) && !IsPadding(field[j])
    ensures NumericValue(field) == Err
  {
  }

  /** Padding carries no digits. */
  lemma {:induction false} PaddingDigits(field: seq<u8>)
    requires forall t :: 0 <= t < |field| ==> IsPadding(field[t])
    ensures Digits(field) == []
    decreases |field|
  {
    if field != [] {
      PaddingDigits(field[..|field| - 1]);
    }
  }

  lemma {:induction false} DigitsConcat(a: seq<u8>, b: seq<u8>)
    ensures Digits(a + b) == Digits(a) + Digits(b)
    decreases |b|
  {
    if b == [] {
      assert a + b == a;
    } else {
      var init := b[..|b| - 1];
      assert (a + b)[..|a + b| - 1] == a + init;
      DigitsConcat(a, init);
    }
  }

  // ---------------------------------------------------------------------
  // The unit tests

  /** An eight-byte packed field, once unmarked, is its own value bytes. */
  lemma PackedRecordTest(field: seq<u8>, bytes: seq<u8>)
    requires |field| == 8 && field[0] >= 0x80 && Unmarked(field) == bytes
    ensures NumericValue(field) == Ok(BigEndian(bytes))
  {
    assert bytes[0..] == bytes;
  }

  /** The big-endian value of the bytes 1 to 8. */
  lemma BigEndianOneToEight()
    ensures BigEndian([0x01, 0x02, 0x03, 0x04, 0x05, 0x06, 0x07, 0x08]) == 0x0102030405060708
  {
    var bytes: seq<u8> := [0x01, 0x02, 0x03, 0x04, 0x05, 0x06, 0x07, 0x08];
    assert BigEndian(bytes[..1]) == 0x01 by { assert bytes[..1][..0] == []; }
    assert BigEndian(bytes[..2]) == 0x0102 by { assert bytes[..2][..1] == bytes[..1]; }
    assert BigEndian(bytes[..3]) == 0x010203 by { assert bytes[..3][..2] == bytes[..2]; }
    assert BigEndian(bytes[..4]) == 0x01020304 by { assert bytes[..4][..3] == bytes[..3]; }
    assert BigEndian(bytes[..5]) == 0x0102030405 by { assert bytes[..5][..4] == bytes[..4]; }
    assert BigEndian(bytes[..6]) == 0x010203040506 by { assert bytes[..6][..5] == bytes[..5]; }
    assert BigEndian(bytes[..7]) == 0x01020304050607 by { assert bytes[..7][..6] == bytes[..6]; }
    assert BigEndian(bytes) == 0x0102030405060708 by { assert bytes[..7] == bytes[..|bytes| - 1]; }
  }

  lemma Packed8Test(field: seq<u8>)
    requires field == [0x81, 0x02, 0x03, 0x04, 0x05, 0x06, 0x07, 0x08]
    ensures NumericValue(field) == Ok(0x0102030405060708)
  {
    BigEndianOneToEight();
    PackedRecordTest(field, [0x01, 0x02, 0x03, 0x04, 0x05, 0x06, 0x07, 0x08]);
  }

  lemma Packed12Test(field: seq<u8>)
    requires field == [0x80, 0x00, 0x00, 0x00, 0x01, 0x02, 0x03, 0x04, 0x05, 0x06, 0x07, 0x08]
    ensures NumericValue(field) == Ok(0x0102030405060708)
  {
    var bytes := Unmarked(field);
    assert bytes == [0x00, 0x00, 0x00, 0x00, 0x01, 0x02, 0x03, 0x04, 0x05, 0x06, 0x07, 0x08];
    assert bytes[|bytes| - 8..] == [0x01, 0x02, 0x03, 0x04, 0x05, 0x06, 0x07, 0x08];
    assert forall j :: 0 <= j < |bytes| - 8 ==> bytes[j] == 0;
    BigEndianOneToEight();
  }

  lemma Packed12OverflowTest(field: seq<u8>)
    requires field == [0x80, 0x00, 0x00, 0x01, 0x02, 0x03, 0x04, 0x05, 0x06, 0x07, 0x08, 0x09]
    ensures NumericValue(field) == Err
  {
    PackedOverflow(field, 3);
  }

  /** A multiple of 8^k ends in k zero digits. */
  lemma {:induction false} ZerosAppended(v: nat, n: nat, k: nat)
    ensures OctalField(v * Pow2(3 * k), n + k) == OctalField(v, n) + seq(k, _ => '0' as u8)
    decreases k
  {
    if k > 0 {
      var w := v * Pow2(3 * (k - 1));
      assert v * Pow2(3 * k) == 8 * w by {
        Pow2Add(3 * (k - 1), 3);
        assert Pow2(3) == 8;
      }
      ZerosAppended(v, n, k - 1);
      assert OctalField(8 * w, n + k) == OctalField(w, n + k - 1) + ['0' as u8];
    }
  }

  /** A field that is v written the ustar way parses to v. */
  lemma ParsesTo(field: seq<u8>, v: nat)
    requires v < Pow2(33) && field == OctalField(v, 11) + [0]
    ensures NumericValue(field) == Ok(v)
  {
    OctalRoundTrip(v);
  }

  /** Zero written in n octal digits is n zero digits. */
  lemma {:induction false} ZeroField(n: nat)
    ensures OctalField(0, n) == seq(n, _ => '0' as u8)
  {
    if n > 0 {
      ZeroField(n - 1);
    }
  }

  /** The bytes of "00000000017\0". */
  lemma AsciiSmallTest(field: seq<u8>)
    requires field == [48, 48, 48, 48, 48, 48, 48, 48, 48, 49, 55, 0]
    ensures NumericValue(field) == Ok(15)
  {
    assert OctalField(15, 11) == [48, 48, 48, 48, 48, 48, 48, 48, 48, 49, 55] by {
      ZeroField(9);
      assert OctalField(1, 10) == OctalField(0, 9) + [49];
      assert OctalField(15, 11) == OctalField(1, 10) + [55];
    }
    Pow2Of32();
    ParsesTo(field, 15);
  }

  /** 8000 MiB is 764 followed by eight zeros in octal. */
  lemma LargeDigits(v: nat)
    requires v == 8000 * 1024 * 1024
    ensures OctalField(v, 11) == [55, 54, 52, 48, 48, 48, 48, 48, 48, 48, 48]
  {
    assert Pow2(24) == 16777216 by {
      Pow2Of16();
      Pow2Of8();
      Pow2Add(16, 8);
    }
    assert v == 500 * Pow2(3 * 8);
    ZerosAppended(500, 3, 8);
    assert OctalField(500, 3) == [55, 54, 52];
  }

  /** The bytes of "76400000000\0": 8000 MiB. */
  lemma AsciiLargeTest(field: seq<u8>)
    requires field == [55, 54, 52, 48, 48, 48, 48, 48, 48, 48, 48, 0]
    ensures NumericValue(field) == Ok(8000 * 1024 * 1024)
  {
    var v := 8000 * 1024 * 1024;
    LargeDigits(v);
    assert v < Pow2(33) by {
      Pow2Of32();
    }
    ParsesTo(field, v);
  }

  /** The bytes of "         17 ", space-padded as pre-POSIX archives do. */
  lemma AsciiPrePosixTest(field: seq<u8>)
    requires field == [32, 32, 32, 32, 32, 32, 32, 32, 32, 49, 55, 32]
    ensures NumericValue(field) == Ok(15)
  {
    var spaces: seq<u8> := seq(9, _ => 32);
    var digits: seq<u8> := [49, 55];
    assert Digits(field) == [1, 7] by {
      assert field == spaces + digits + [32];
      PaddingDigits(spaces);
      PaddingDigits([32]);
      assert digits[..1] == [49];
      assert Digits(digits) == [1, 7];
      DigitsConcat(spaces, digits);
      DigitsConcat(spaces + digits, [32]);
    }
    assert forall j :: 0 <= j < |field| ==> IsOctalDigit(field[j]) || IsPadding(field[j]);
    OctalFieldFits(field);
    assert Octal([1, 7]) == 15 by {
      assert [1, 7][..1] == [1];
    }
  }

  // ---------------------------------------------------------------------
  // Header

  /** `Header`: one 512-byte record. */
  type Record = r: seq<u8> | |r| == RECORD_LEN witness seq(RECORD_LEN, _ => 0)

  /** `Header::content_len`: the size field, bytes 124 to 135. */
  function ContentLen(h: Record): Result<nat>
  {
    NumericValue(h[124..136])
  }

  /** `Header::type_flag`: byte 156. */
  function TypeFlag(h: Record): u8
  {
    h[156]
  }

  /** `Header::is_null`. */
  predicate IsNull(h: Record)
  {
    TypeFlag(h) == 0 && h[0] == 0
  }

  /** `Header::is_prefix`: pax extended header, GNU long link name or GNU long name. */
  predicate IsPrefix(h: Record)
  {
    TypeFlag(h) in {'x' as u8, 'K' as u8, 'L' as u8}
  }

  /** A null record is never a prefix record. */
  lemma NullIsNotPrefix(h: Record)
    ensures IsNull(h) ==> !IsPrefix(h)
  {
  }

  /** The all-zero record, the end-of-archive marker, is null, and its size is 0. */
  lemma ZeroRecordIsNull()
    ensures IsNull(seq(RECORD_LEN, _ => 0))
    ensures ContentLen(seq(RECORD_LEN, _ => 0)) == Ok(0)
  {
    var z: Record := seq(RECORD_LEN, _ => 0);
    var field := z[124..136];
    PaddingDigits(field);
  }

  /** A header whose size field is written the ustar way reports that size. */
  lemma ContentLenOfOctal(h: Record, v: nat)
    requires v < Pow2(33) && h[124..136] == OctalField(v, 11) + [0]
    ensures ContentLen(h) == Ok(v)
  {
    OctalRoundTrip(v);
  }
}
