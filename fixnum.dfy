/*
 * Fixed-width integer codecs (src/fixnum.rs): every `U8`..`I64` decoder and
 * encoder, in big- and little-endian byte order.
 *
 * The Rust file spells out one struct per width, order and signedness; here
 * one description `IntCodec` carries those three choices, and the 26 integer
 * pairs of the file are constants of that type.  A decoder is a
 * `CopyableBytesDecoder` of `width` bytes whose finished array goes through
 * `DecodeItem`; an encoder turns its item into `width` bytes by `EncodeItem`
 * and hands them to a `BytesEncoder` (the `impl_decode!`/`impl_encode!`
 * delegation of the Rust file).
 */
module Fixnum {
  import opened Base
  import opened ByteCounts
  import opened EndOfStream
  import opened Decode
  import opened Encode
  import opened Bytes

  // ---------------------------------------------------------------------
  // Unsigned byte-order conversions
  // ---------------------------------------------------------------------

  function Pow256(k: nat): (p: nat)
    ensures p >= 1
  {
    if k == 0 then 1 else 256 * Pow256(k - 1)
  }

  /** More bytes hold at least as many numbers; from one byte on the count is even. */
  lemma {:induction false} Pow256Monotone(a: nat, b: nat)
    ensures a <= b ==> Pow256(a) <= Pow256(b)
    ensures 1 <= a ==> Pow256(a) / 2 * 2 == Pow256(a)
    decreases b
  {
    if a < b {
      Pow256Monotone(a, b - 1);
    }
  }

  /** The number a big-endian byte string denotes (`BigEndian::read_*`). */
  function BeValue(b: seq<byte>): nat
  {
    if b == [] then 0 else BeValue(b[..|b| - 1]) * 256 + b[|b| - 1] as nat
  }

  /** The `w` low-order bytes of `n`, most significant first (`BigEndian::write_*`). */
  function BeBytes(n: nat, w: nat): (b: seq<byte>)
    ensures |b| == w
  {
    if w == 0 then [] else BeBytes(n / 256, w - 1) + [(n % 256) as byte]
  }

  /** The number a little-endian byte string denotes (`LittleEndian::read_*`). */
  function LeValue(b: seq<byte>): nat
  {
    if b == [] then 0 else b[0] as nat + 256 * LeValue(b[1..])
  }

  /** The `w` low-order bytes of `n`, least significant first (`LittleEndian::write_*`). */
  function LeBytes(n: nat, w: nat): (b: seq<byte>)
    ensures |b| == w
  {
    if w == 0 then [] else [(n % 256) as byte] + LeBytes(n / 256, w - 1)
  }

  function Reverse(s: seq<byte>): (r: seq<byte>)
    ensures |r| == |s|
  {
    if s == [] then [] else Reverse(s[1..]) + [s[0]]
  }

  /** A `w`-byte string never denotes a number of more than `w` bytes: the high bits are zero. */
  lemma {:induction false} BeValueBound(b: seq<byte>)
    ensures BeValue(b) < Pow256(|b|)
    decreases |b|
  {
    if b != [] {
      BeValueBound(b[..|b| - 1]);
    }
  }

  lemma {:induction false} LeValueBound(b: seq<byte>)
    ensures LeValue(b) < Pow256(|b|)
    decreases |b|
  {
    if b != [] {
      LeValueBound(b[1..]);
    }
  }

  /** Reading back what was written gives the number, when it fits in `w` bytes. */
  lemma {:induction false} BeRoundTrip(n: nat, w: nat)
    requires n < Pow256(w)
    ensures BeValue(BeBytes(n, w)) == n
    decreases w
  {
    if w > 0 {
      var b := BeBytes(n, w);
      assert b[..|b| - 1] == BeBytes(n / 256, w - 1);
      BeRoundTrip(n / 256, w - 1);
    }
  }

  /** Writing what was read gives the bytes back. */
  lemma {:induction false} BeBytesOfValue(b: seq<byte>)
    ensures BeBytes(BeValue(b), |b|) == b
    decreases |b|
  {
    if b != [] {
      var init := b[..|b| - 1];
      BeBytesOfValue(init);
      var v := BeValue(b);
      assert v / 256 == BeValue(init) && v % 256 == b[|b| - 1] as nat;
      assert b == init + [b[|b| - 1]];
    }
  }

  lemma {:induction false} LeRoundTrip(n: nat, w: nat)
    requires n < Pow256(w)
    ensures LeValue(LeBytes(n, w)) == n
    decreases w
  {
    if w > 0 {
      var b := LeBytes(n, w);
      assert b[1..] == LeBytes(n / 256, w - 1);
      LeRoundTrip(n / 256, w - 1);
    }
  }

  lemma {:induction false} LeBytesOfValue(b: seq<byte>)
    ensures LeBytes(LeValue(b), |b|) == b
    decreases |b|
  {
    if b != [] {
      LeBytesOfValue(b[1..]);
      var v := LeValue(b);
      assert v / 256 == LeValue(b[1..]) && v % 256 == b[0] as nat;
      assert b == [b[0]] + b[1..];
    }
  }

  lemma {:induction false} ReverseSnoc(s: seq<byte>, x: byte)
    ensures Reverse(s + [x]) == [x] + Reverse(s)
    decreases |s|
  {
    if s != [] {
      assert (s + [x])[1..] == s[1..] + [x];
      ReverseSnoc(s[1..], x);
    } else {
      assert [] + [x] == [x];
    }
  }

  /** Little-endian order is big-endian order reversed. */
  lemma {:induction false} LeIsReversedBe(n: nat, w: nat)
    ensures LeBytes(n, w) == Reverse(BeBytes(n, w))
    decreases w
  {
    if w > 0 {
      LeIsReversedBe(n / 256, w - 1);
      ReverseSnoc(BeBytes(n / 256, w - 1), (n % 256) as byte);
    }
  }

  // ---------------------------------------------------------------------
  // The codec descriptions
  // ---------------------------------------------------------------------

  datatype Endian = Big | Little

  /**
   * One `XxxDecoder`/`XxxEncoder` pair: the length of its byte array, its byte
   * order, whether the item type is signed, and the byte width of the Rust
   * item type (`u32` for the 24-bit codecs, `u64` for the 40- to 56-bit ones).
   */
  datatype IntCodec = IntCodec(width: nat, endian: Endian, signed: bool, itemBytes: nat)

  predicate WellFormed(c: IntCodec)
  {
    1 <= c.width <= c.itemBytes <= 8 && (c.signed ==> c.width == c.itemBytes)
  }

  /** The values of the Rust item type. */
  predicate InItemRange(c: IntCodec, n: int)
    requires WellFormed(c)
  {
    if c.signed then -((Pow256(c.itemBytes) / 2) as int) <= n < Pow256(c.itemBytes) / 2
    else 0 <= n < Pow256(c.itemBytes)
  }

  const U8: IntCodec := IntCodec(1, Big, false, 1)
  const I8: IntCodec := IntCodec(1, Big, true, 1)
  const U16BE: IntCodec := IntCodec(2, Big, false, 2)
  const U16LE: IntCodec := IntCodec(2, Little, false, 2)
  const I16BE: IntCodec := IntCodec(2, Big, true, 2)
  const I16LE: IntCodec := IntCodec(2, Little, true, 2)
  const U24BE: IntCodec := IntCodec(3, Big, false, 4)
  const U24LE: IntCodec := IntCodec(3, Little, false, 4)
  const U32BE: IntCodec := IntCodec(4, Big, false, 4)
  const U32LE: IntCodec := IntCodec(4, Little, false, 4)
  const I32BE: IntCodec := IntCodec(4, Big, true, 4)
  const I32LE: IntCodec := IntCodec(4, Little, true, 4)
  const U40BE: IntCodec := IntCodec(5, Big, false, 8)
  const U40LE: IntCodec := IntCodec(5, Little, false, 8)
  const U48BE: IntCodec := IntCodec(6, Big, false, 8)
  const U48LE: IntCodec := IntCodec(6, Little, false, 8)
  const U56BE: IntCodec := IntCodec(7, Big, false, 8)
  const U56LE: IntCodec := IntCodec(7, Little, false, 8)
  const U64BE: IntCodec := IntCodec(8, Big, false, 8)
  const U64LE: IntCodec := IntCodec(8, Little, false, 8)
  const I64BE: IntCodec := IntCodec(8, Big, true, 8)
  const I64LE: IntCodec := IntCodec(8, Little, true, 8)

  function FromBytes(c: IntCodec, b: seq<byte>): nat
  {
    if c.endian == Big then BeValue(b) else LeValue(b)
  }

  lemma FromBytesBound(c: IntCodec, b: seq<byte>)
    ensures FromBytes(c, b) < Pow256(|b|)
  {
    if c.endian == Big { BeValueBound(b); } else { LeValueBound(b); }
  }

  function ToBytes(c: IntCodec, u: nat): (b: seq<byte>)
    ensures |b| == c.width
  {
    if c.endian == Big then BeBytes(u, c.width) else LeBytes(u, c.width)
  }

  /**
   * `decode_item`: read the array in the codec's byte order; a signed codec
   * reinterprets the bits as two's complement (`b[0] as i8`, `read_i16`, ...).
   */
  function DecodeItem(c: IntCodec, b: seq<byte>): (n: int)
    ensures WellFormed(c) && |b| == c.width ==> InItemRange(c, n)
    ensures WellFormed(c) && |b| == c.width && !c.signed ==> 0 <= n < Pow256(c.width)
  {
    var u := FromBytes(c, b);
    FromBytesBound(c, b);
    Pow256Monotone(c.width, c.itemBytes);
    if c.signed && u >= Pow256(|b|) / 2 then u - Pow256(|b|) else u
  }

  /**
   * `encode_item`: the 24-, 40-, 48- and 56-bit codecs reject an item that
   * does not fit in `width` bytes with `InvalidInput`; for the others the
   * item type already guarantees it fits.  A signed item is written as its
   * two's-complement bits (`n as u8`, `write_i16`, ...).
   */
  function EncodeItem(c: IntCodec, n: int): (r: Result<seq<byte>>)
    requires WellFormed(c) && InItemRange(c, n)
    ensures r.Err? <==> !c.signed && n >= Pow256(c.width)
    ensures r.Err? ==> r.error == InvalidInput
    ensures r.Ok? ==> |r.value| == c.width
  {
    if !c.signed && n >= Pow256(c.width) then Err(InvalidInput)
    else Ok(ToBytes(c, if n < 0 then n + Pow256(c.width) else n))
  }

  /** The round trip of every integer codec pair: decoding the bytes an item encodes to gives the item. */
  lemma FixnumRoundTrip(c: IntCodec, n: int)
    requires WellFormed(c) && InItemRange(c, n)
    requires EncodeItem(c, n).Ok?
    ensures DecodeItem(c, EncodeItem(c, n).value) == n
  {
    var w := c.width;
    var u := if n < 0 then n + Pow256(w) else n;
    if c.signed {
      assert Pow256(w) / 2 * 2 == Pow256(w) by {
        assert Pow256(w) == 256 * Pow256(w - 1);
      }
    }
    assert 0 <= u < Pow256(w);
    if c.endian == Big { BeRoundTrip(u, w); } else { LeRoundTrip(u, w); }
  }

  /** The other direction: every `width`-byte array is the encoding of the item it decodes to. */
  lemma FixnumBytesRoundTrip(c: IntCodec, b: seq<byte>)
    requires WellFormed(c) && |b| == c.width
    ensures EncodeItem(c, DecodeItem(c, b)) == Ok(b)
  {
    var w := c.width;
    assert Pow256(w) == 256 * Pow256(w - 1);
    if c.endian == Big { BeValueBound(b); BeBytesOfValue(b); } else { LeValueBound(b); LeBytesOfValue(b); }
  }

  lemma RangeChecksMatchSource()
    ensures Pow256(3) - 1 == 0xFF_FFFF
    ensures Pow256(5) - 1 == 0xFF_FFFF_FFFF
    ensures Pow256(6) - 1 == 0xFFFF_FFFF_FFFF
    ensures Pow256(7) - 1 == 0xFF_FFFF_FFFF_FFFF
  {
  }

  // ---------------------------------------------------------------------
  // The decoders and encoders
  // ---------------------------------------------------------------------

  /** `finish_decoding` of `impl_decode!`: the inner array's item, mapped through `decode_item`. */
  function FixnumFinish(c: IntCodec, s: CopyableState): (o: Outcome<CopyableState, int>)
    ensures o.state == CopyableFinish(s).state
    ensures o.result.Ok? <==> CopyableFinish(s).result.Ok?
    ensures o.result.Ok? ==> o.result.value == DecodeItem(c, s.bytes)
    ensures o.result.Err? ==> o.result.error == IncompleteDecoding
  {
    var inner := CopyableFinish(s);
    match inner.result
    case Ok(b) => Outcome(inner.state, Ok(DecodeItem(c, b)))
    case Err(e) => Outcome(inner.state, Err(e))
  }

  /** The decoder of codec `c`; `is_idle` is the trait's default. */
  function FixnumDecoderOps(c: IntCodec): DecoderOps<CopyableState, int>
  {
    DecoderOps(CopyableDecode, s => FixnumFinish(c, s), CopyableRequiringBytes,
               s => CopyableRequiringBytes(s) == Finite(0))
  }

  /** `XxxDecoder::new()`: an all-zero array of the codec's width. */
  function NewDecoder(c: IntCodec): (s: CopyableState)
    ensures |s.bytes| == c.width && s.offset == 0
    ensures CopyableRequiringBytes(s) == Finite(c.width)
  {
    CopyableFields(seq(c.width, _ => 0), 0)
  }

  /**
   * `start_encoding` of `impl_encode!`: `encode_item` into a fresh array,
   * then `BytesEncoder::start_encoding`; the range check comes first.
   */
  function FixnumStart(c: IntCodec, s: EncoderState, n: int): (o: Outcome<EncoderState, ()>)
    requires WellFormed(c) && InItemRange(c, n)
    ensures EncodeItem(c, n).Err? ==> o == Outcome(s, Err(InvalidInput))
    ensures EncodeItem(c, n).Ok? ==> o == EncoderStart(s, EncodeItem(c, n).value)
    ensures o.result.Ok? ==> Pending(o.state) == EncodeItem(c, n).value && |Pending(o.state)| == c.width
  {
    match EncodeItem(c, n)
    case Err(e) => Outcome(s, Err(e))
    case Ok(b) => EncoderStart(s, b)
  }

  /**
   * The encoder of codec `c` as a record.  The record's item type is `int`;
   * a value outside the Rust item type, which Rust cannot pass, is refused
   * with `InvalidInput` here.
   */
  function FixnumEncoderOps(c: IntCodec): EncoderOps<EncoderState, int>
    requires WellFormed(c)
  {
    EncoderOps(EncoderEncode,
               (s, n) => if InItemRange(c, n) then FixnumStart(c, s, n) else Outcome(s, Err(InvalidInput)),
               EncoderRequiringBytes, EncoderIsIdle)
  }

  lemma FixnumOpsLawful(c: IntCodec)
    requires WellFormed(c)
    ensures Decode.Lawful(FixnumDecoderOps(c)) && Decode.HasDefaultIsIdle(FixnumDecoderOps(c))
    ensures Encode.Lawful(FixnumEncoderOps(c))
  {
  }

  /**
   * What the tests of src/fixnum.rs check for every pair: a started encoder
   * requires exactly `width` bytes and writes `EncodeItem`'s bytes, and a
   * fresh decoder fed those bytes yields the item again.
   */
  lemma FixnumEncodeDecode(c: IntCodec, n: int, bufLen: nat, eos: Eos)
    requires WellFormed(c) && InItemRange(c, n) && EncodeItem(c, n).Ok?
    requires bufLen >= c.width
    ensures var started := FixnumStart(c, EncoderFields(None, 0), n).state;
      var written := EncoderEncode(started, bufLen, eos);
      EncoderExactRequiringBytes(started) == c.width &&
      written.result == EncodeItem(c, n) && EncoderIsIdle(written.state) &&
      DecodeFromBytes(FixnumDecoderOps(c), NewDecoder(c), written.result.value).result == Ok(n)
  {
    var b := EncodeItem(c, n).value;
    EncoderWritesItem(EncoderFields(None, 0), b, bufLen, eos);
    CopyableReusable(NewDecoder(c), b, New(true));
    assert b[..|b|] == b;
    FixnumRoundTrip(c, n);
  }

  /** The byte strings the tests of src/fixnum.rs expect. */
  lemma Fixnum8Examples()
    ensures EncodeItem(U8, 7) == Ok([7])
    ensures EncodeItem(I8, -1) == Ok([255])
  {
    assert BeBytes(7, 1) == [7];
    assert BeBytes(255, 1) == [255];
  }

  lemma Fixnum16Examples()
    ensures EncodeItem(U16BE, 0x0102) == Ok([0x01, 0x02])
    ensures EncodeItem(U16LE, 0x0102) == Ok([0x02, 0x01])
    ensures EncodeItem(I16BE, -2) == Ok([0xFF, 0xFE])
    ensures EncodeItem(I16LE, -2) == Ok([0xFE, 0xFF])
  {
    assert Pow256(2) == 0x1_0000;
    assert BeBytes(0x0102, 2) == [0x01, 0x02];
    assert LeBytes(0x0102, 2) == [0x02, 0x01];
    assert BeBytes(0xFFFE, 2) == [0xFF, 0xFE];
    assert LeBytes(0xFFFE, 2) == [0xFE, 0xFF];
  }

  lemma Fixnum24Examples()
    ensures EncodeItem(U24BE, 0x01_0203) == Ok([0x01, 0x02, 0x03])
    ensures EncodeItem(U24LE, 0x01_0203) == Ok([0x03, 0x02, 0x01])
  {
    assert Pow256(3) == 0x100_0000;
    assert BeBytes(0x01_0203, 3) == [0x01, 0x02, 0x03];
    assert LeBytes(0x01_0203, 3) == [0x03, 0x02, 0x01];
  }

  lemma Fixnum32Examples()
    ensures EncodeItem(U32BE, 0x0102_0304) == Ok([0x01, 0x02, 0x03, 0x04])
    ensures EncodeItem(U32LE, 0x0102_0304) == Ok([0x04, 0x03, 0x02, 0x01])
    ensures EncodeItem(I32BE, -2) == Ok([0xFF, 0xFF, 0xFF, 0xFE])
    ensures EncodeItem(I32LE, -2) == Ok([0xFE, 0xFF, 0xFF, 0xFF])
  {
    assert Pow256(4) == 0x1_0000_0000;
    CountingBe32();
    CountingLe32();
    MinusTwoBe32();
    MinusTwoLe32();
  }

  lemma CountingBe32()
    ensures BeBytes(0x0102_0304, 4) == [0x01, 0x02, 0x03, 0x04]
  {
  }

  lemma CountingLe32()
    ensures LeBytes(0x0102_0304, 4) == [0x04, 0x03, 0x02, 0x01]
  {
  }

  lemma MinusTwoBe32()
    ensures BeBytes(0xFFFF_FFFE, 4) == [0xFF, 0xFF, 0xFF, 0xFE]
  {
  }

  lemma MinusTwoLe32()
    ensures LeBytes(0xFFFF_FFFE, 4) == [0xFE, 0xFF, 0xFF, 0xFF]
  {
  }

  lemma Fixnum40Examples()
    ensures EncodeItem(U40BE, 0x01_0203_0405) == Ok([0x01, 0x02, 0x03, 0x04, 0x05])
    ensures EncodeItem(U40LE, 0x01_0203_0405) == Ok([0x05, 0x04, 0x03, 0x02, 0x01])
  {
    assert Pow256(5) == 0x100_0000_0000;
    CountingBe40();
    CountingLe40();
  }

  lemma CountingBe40()
    ensures BeBytes(0x01_0203_0405, 5) == [0x01, 0x02, 0x03, 0x04, 0x05]
  {
  }

  lemma CountingLe40()
    ensures LeBytes(0x01_0203_0405, 5) == [0x05, 0x04, 0x03, 0x02, 0x01]
  {
  }

  lemma Fixnum48Examples()
    ensures EncodeItem(U48BE, 0x0102_0304_0506) == Ok([0x01, 0x02, 0x03, 0x04, 0x05, 0x06])
    ensures EncodeItem(U48LE, 0x0102_0304_0506) == Ok([0x06, 0x05, 0x04, 0x03, 0x02, 0x01])
  {
    assert Pow256(6) == 0x1_0000_0000_0000;
    CountingBe48();
    CountingLe48();
  }

  lemma CountingBe48()
    ensures BeBytes(0x0102_0304_0506, 6) == [0x01, 0x02, 0x03, 0x04, 0x05, 0x06]
  {
  }

  lemma CountingLe48()
    ensures LeBytes(0x0102_0304_0506, 6) == [0x06, 0x05, 0x04, 0x03, 0x02, 0x01]
  {
  }

  lemma Fixnum56Examples()
    ensures EncodeItem(U56BE, 0x01_0203_0405_0607) == Ok([0x01, 0x02, 0x03, 0x04, 0x05, 0x06, 0x07])
    ensures EncodeItem(U56LE, 0x01_0203_0405_0607) == Ok([0x07, 0x06, 0x05, 0x04, 0x03, 0x02, 0x01])
  {
    assert Pow256(7) == 0x100_0000_0000_0000;
    CountingBe56();
    CountingLe56();
  }

  lemma CountingBe56()
    ensures BeBytes(0x01_0203_0405_0607, 7) == [0x01, 0x02, 0x03, 0x04, 0x05, 0x06, 0x07]
  {
  }

  lemma CountingLe56()
    ensures LeBytes(0x01_0203_0405_0607, 7) == [0x07, 0x06, 0x05, 0x04, 0x03, 0x02, 0x01]
  {
  }

  lemma Fixnum64Examples()
    ensures EncodeItem(U64BE, 0x0102_0304_0506_0708) == Ok([0x01, 0x02, 0x03, 0x04, 0x05, 0x06, 0x07, 0x08])
    ensures EncodeItem(U64LE, 0x0102_0304_0506_0708) == Ok([0x08, 0x07, 0x06, 0x05, 0x04, 0x03, 0x02, 0x01])
  {
    assert Pow256(8) == 0x1_0000_0000_0000_0000;
    CountingBe64();
    CountingLe64();
  }

  lemma CountingBe64()
    ensures BeBytes(0x0102_0304_0506_0708, 8) == [0x01, 0x02, 0x03, 0x04, 0x05, 0x06, 0x07, 0x08]
  {
  }

  lemma CountingLe64()
    ensures LeBytes(0x0102_0304_0506_0708, 8) == [0x08, 0x07, 0x06, 0x05, 0x04, 0x03, 0x02, 0x01]
  {
  }

  lemma FixnumI64Examples()
    ensures EncodeItem(I64BE, -2) == Ok([0xFF, 0xFF, 0xFF, 0xFF, 0xFF, 0xFF, 0xFF, 0xFE])
    ensures EncodeItem(I64LE, -2) == Ok([0xFE, 0xFF, 0xFF, 0xFF, 0xFF, 0xFF, 0xFF, 0xFF])
  {
    assert Pow256(8) == 0x1_0000_0000_0000_0000;
    MinusTwoBe64();
    MinusTwoLe64();
  }

  lemma MinusTwoBe64()
    ensures BeBytes(0xFFFF_FFFF_FFFF_FFFE, 8) == [0xFF, 0xFF, 0xFF, 0xFF, 0xFF, 0xFF, 0xFF, 0xFE]
  {
  }

  lemma MinusTwoLe64()
    ensures LeBytes(0xFFFF_FFFF_FFFF_FFFE, 8) == [0xFE, 0xFF, 0xFF, 0xFF, 0xFF, 0xFF, 0xFF, 0xFF]
  {
  }

  /** The range checks of the 24- to 56-bit encoders, at the first value they refuse. */
  lemma FixnumRangeExamples()
    ensures EncodeItem(U24BE, 0x100_0000) == Err(InvalidInput)
    ensures EncodeItem(U24LE, 0xFF_FFFF).Ok?
    ensures EncodeItem(U40LE, 0x100_0000_0000) == Err(InvalidInput)
    ensures EncodeItem(U48BE, 0x1_0000_0000_0000) == Err(InvalidInput)
    ensures EncodeItem(U56BE, 0x100_0000_0000_0000) == Err(InvalidInput)
  {
  }

  /** The tests of `decode_from_bytes` (src/decode.rs) and `encode_into_bytes` (src/encode.rs). */
  lemma ExtensionExamples()
    ensures DecodeFromBytes(FixnumDecoderOps(U16BE), NewDecoder(U16BE), [0x12, 0x34]).result == Ok(0x1234)
    ensures EncodeIntoBytes(FixnumEncoderOps(U16BE), EncoderFields(None, 0), 0x1234).result == Ok(Some([0x12, 0x34]))
  {
    FixnumBytesRoundTrip(U16BE, [0x12, 0x34]);
    FixnumEncodeDecode(U16BE, 0x1234, 2, New(true));
    var started := FixnumStart(U16BE, EncoderFields(None, 0), 0x1234).state;
    var written := EncoderEncode(started, 2, New(true));
    assert Filled(written.result.value, 2) == [0x12, 0x34];
  }

  /** A fixnum decoder: a `CopyableBytesDecoder` of the codec's width plus `decode_item`. */
  class FixnumDecoder {
    const codec: IntCodec
    const inner: CopyableBytesDecoder

    ghost predicate Valid()
      reads this, inner
    {
      WellFormed(codec) && inner.Valid() && inner.bytes.Length == codec.width
    }

    function State(): CopyableState
      reads this, inner, inner.bytes
      requires Valid()
    {
      inner.State()
    }

    /** `XxxDecoder::new()`. */
    constructor (c: IntCodec)
      requires WellFormed(c)
      ensures Valid() && codec == c && State() == NewDecoder(c) && fresh(inner) && fresh(inner.bytes)
    {
      codec := c;
      inner := new CopyableBytesDecoder(seq(c.width, _ => 0));
    }

    method Decode(buf: seq<byte>, eos: Eos) returns (r: Result<nat>)
      requires Valid()
      modifies inner, inner.bytes
      ensures Valid()
      ensures Outcome(State(), r) == FixnumDecoderOps(codec).decode(old(State()), buf, eos)
    {
      r := inner.Decode(buf, eos);
    }

    method FinishDecoding() returns (r: Result<int>)
      requires Valid()
      modifies inner
      ensures Valid()
      ensures Outcome(State(), r) == FixnumFinish(codec, old(State()))
    {
      var b := inner.FinishDecoding();
      if b.Err? {
        return Err(b.error);
      }
      return Ok(DecodeItem(codec, b.value));
    }
  }

  /** A fixnum encoder: `encode_item` in front of a `BytesEncoder`. */
  class FixnumEncoder {
    const codec: IntCodec
    const inner: BytesEncoder

    ghost predicate Valid()
      reads this, inner
    {
      WellFormed(codec) && inner.Valid()
    }

    function State(): EncoderState
      reads this, inner
      requires Valid()
    {
      inner.State()
    }

    /** `XxxEncoder::new()`. */
    constructor (c: IntCodec)
      requires WellFormed(c)
      ensures Valid() && codec == c && State() == EncoderFields(None, 0) && fresh(inner)
    {
      codec := c;
      inner := new BytesEncoder();
    }

    method Encode(buf: array<byte>, eos: Eos) returns (r: Result<nat>)
      requires Valid()
      modifies inner, buf
      ensures Valid()
      ensures var o := EncoderEncode(old(State()), buf.Length, eos);
        State() == o.state &&
        r == (if o.result.Ok? then Ok(|o.result.value|) else Err(o.result.error))
      ensures var k := Min(buf.Length, |Pending(old(State()))|);
        buf[..] == Pending(old(State()))[..k] + old(buf[k..])
    {
      r := inner.Encode(buf, eos);
    }

    method StartEncoding(n: int) returns (r: Result<()>)
      requires Valid() && InItemRange(codec, n)
      modifies inner
      ensures Valid()
      ensures Outcome(State(), r) == FixnumStart(codec, old(State()), n)
    {
      var b := EncodeItem(codec, n);
      if b.Err? {
        return Err(b.error);
      }
      r := inner.StartEncoding(b.value);
    }
  }
}
