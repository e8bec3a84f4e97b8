/*
 * The integer codecs of the fourth trait generation (src/numbers.rs): the
 * one-byte `U8`/`I8`, which keep their value in an `Option` slot, and the
 * wider endian codecs, which wrap a `Bytes<[u8; N]>` and convert at
 * `pop_item`/`push_item` with the byte-order functions of the Fixnum module.
 */
module Numbers {
  import opened Base
  import opened Decode
  import opened Fixnum
  import opened Sequences

  // ---------------------------------------------------------------------
  // Octets as u8 and as i8
  // ---------------------------------------------------------------------

  type I8Value = x: int | -0x80 <= x < 0x80

  /** `b as i8`: the octet read as two's complement. */
  function ByteToI8(b: byte): (v: I8Value)
    ensures b < 0x80 ==> v == b as int
    ensures b >= 0x80 ==> v == b as int - 0x100
  {
    if b < 0x80 then b as int else b as int - 0x100
  }

  /** `v as u8`: the two's-complement bits of `v`. */
  function I8ToByte(v: I8Value): (b: byte)
    ensures v >= 0 ==> b as int == v
    ensures v < 0 ==> b as int == v + 0x100
  {
    if v >= 0 then v as byte else (v + 0x100) as byte
  }

  function U8Identity(b: byte): byte
  {
    b
  }

  /** The two conversions are inverse, and, for example, `-1` is the octet 255. */
  lemma I8ConversionsInverse(b: byte, v: I8Value)
    ensures ByteToI8(I8ToByte(v)) == v && I8ToByte(ByteToI8(b)) == b
    ensures I8ToByte(-1) == 0xFF && I8ToByte(-0x80) == 0x80 && ByteToI8(0xFE) == -2
  {
  }

  // ---------------------------------------------------------------------
  // U8 and I8 (src/numbers.rs:45-161)
  // ---------------------------------------------------------------------

  /** `decode` of `U8`/`I8`: an empty slot takes the first octet, and refuses an empty buffer; a full slot consumes nothing. */
  function SlotDecode<T>(s: Option<T>, buf: seq<byte>, conv: byte -> T): (o: Outcome<Option<T>, nat>)
    ensures s.Some? ==> o == Outcome(s, Ok(0))
    ensures s.None? && |buf| == 0 ==> o == Outcome(s, Err(InvalidInput))
    ensures s.None? && |buf| > 0 ==> o == Outcome(Some(conv(buf[0])), Ok(1))
  {
    if s.Some? then Outcome(s, Ok(0))
    else if |buf| == 0 then Outcome(s, Err(InvalidInput))
    else Outcome(Some(conv(buf[0])), Ok(1))
  }

  /** `pop_item`: the slot's value, leaving it empty. */
  function SlotPop<T>(s: Option<T>): (o: Outcome<Option<T>, Option<T>>)
    ensures o == Outcome(None, Ok(s))
  {
    Outcome(None, Ok(s))
  }

  /** `decode_size_hint`: 0 with a value, 1 without. */
  function SlotDecodeSizeHint<T>(s: Option<T>): (h: Option<nat>)
    ensures h == Some(if s.Some? then 0 else 1)
  {
    Some(if s.Some? then 0 else 1)
  }

  /**
   * `encode` of `U8`/`I8`: a held value is taken out of the slot first and
   * then written as the buffer's first octet; an empty buffer is an
   * `InvalidInput` error, and the value is gone all the same.
   */
  function SlotEncode<T>(s: Option<T>, room: nat, conv: T -> byte): (o: Outcome<Option<T>, seq<byte>>)
    ensures o.state.None?
    ensures s.None? ==> o.result == Ok([])
    ensures s.Some? && room == 0 ==> o.result == Err(InvalidInput)
    ensures s.Some? && room > 0 ==> o.result == Ok([conv(s.value)])
  {
    match s
    case None => Outcome(None, Ok([]))
    case Some(v) => if room == 0 then Outcome(None, Err(InvalidInput)) else Outcome(None, Ok([conv(v)]))
  }

  /** `push_item`: accepted into an empty slot, handed back otherwise. */
  function SlotPush<T>(s: Option<T>, item: T): (o: Outcome<Option<T>, Option<T>>)
    ensures s.None? ==> o == Outcome(Some(item), Ok(None))
    ensures s.Some? ==> o == Outcome(s, Ok(Some(item)))
  {
    if s.None? then Outcome(Some(item), Ok(None)) else Outcome(s, Ok(Some(item)))
  }

  /** `encode_size_hint`: 1 with a value, 0 without. */
  function SlotEncodeSizeHint<T>(s: Option<T>): (h: Option<nat>)
    ensures h == Some(if s.Some? then 1 else 0)
  {
    Some(if s.Some? then 1 else 0)
  }

  function SlotDecoderOps<T>(conv: byte -> T): SeqDecoderOps<Option<T>, T>
  {
    SeqDecoderOps((s, buf, eos) => SlotDecode(s, buf, conv), s => SlotPop(s), s => SlotDecodeSizeHint(s))
  }

  function SlotEncoderOps<T>(conv: T -> byte): SeqEncoderOps<Option<T>, T>
  {
    SeqEncoderOps((s, room) => SlotEncode(s, room, conv), (s, item) => SlotPush(s, item), s => SlotEncodeSizeHint(s))
  }

  lemma SlotOpsLawful<T(!new)>(fromByte: byte -> T, toByte: T -> byte)
    ensures ConsumesAtMost(SlotDecoderOps(fromByte)) && WritesAtMost(SlotEncoderOps(toByte))
  {
  }

  /**
   * The round trip of `U8`/`I8`: an empty encoder accepts `v` and writes
   * its one octet; an empty decoder given that octet consumes it and pops
   * `v`, so both end empty.
   */
  lemma SlotRoundTrip<T>(fromByte: byte -> T, toByte: T -> byte, v: T, room: nat)
    requires fromByte(toByte(v)) == v && room >= 1
    ensures var p := SlotPush(None, v);
      var e := SlotEncode(p.state, room, toByte);
      var d := SlotDecode(None, e.result.value, fromByte);
      p.result == Ok(None) && e == Outcome(None, Ok([toByte(v)])) &&
      d.result == Ok(1) && SlotPop(d.state) == Outcome(None, Ok(Some(v)))
  {
  }

  lemma U8AndI8RoundTrip(u: byte, v: I8Value)
    ensures SlotDecode(None, SlotEncode(Some(u), 1, U8Identity).result.value, U8Identity).state == Some(u)
    ensures SlotDecode(None, SlotEncode(Some(v), 1, I8ToByte).result.value, ByteToI8).state == Some(v)
    ensures SlotEncode(Some(-1 as I8Value), 1, I8ToByte).result == Ok([0xFF])
  {
    I8ConversionsInverse(0, v);
  }

  /** As written, a value whose `encode` fails for want of room is lost: the next call writes nothing. */
  lemma SlotEncodeLosesValueOnEmptyBuffer<T>(v: T, conv: T -> byte, room: nat)
    ensures var o := SlotEncode(Some(v), 0, conv);
      o.result == Err(InvalidInput) && SlotEncode(o.state, room, conv) == Outcome(None, Ok([]))
  {
  }

  /** `U8`/`I8` updating its slot in place; `fromByte`/`toByte` are the identity for `U8` and the two's-complement casts for `I8`. */
  class ByteSlot<T> {
    var value: Option<T>
    const fromByte: byte -> T
    const toByte: T -> byte

    /** `U8::new(v)` / `I8::new(v)`. */
    constructor New(v: T, f: byte -> T, g: T -> byte)
      ensures value == Some(v) && fromByte == f && toByte == g
    {
      value, fromByte, toByte := Some(v), f, g;
    }

    /** `U8::empty()` / `I8::empty()`. */
    constructor Empty(f: byte -> T, g: T -> byte)
      ensures value == None && fromByte == f && toByte == g
    {
      value, fromByte, toByte := None, f, g;
    }

    method Decode(buf: seq<byte>, eos: bool) returns (r: Result<nat>)
      modifies this
      ensures Outcome(value, r) == SlotDecode(old(value), buf, fromByte)
    {
      if value.Some? {
        return Ok(0);
      }
      if |buf| == 0 {
        return Err(InvalidInput);
      }
      value := Some(fromByte(buf[0]));
      return Ok(1);
    }

    method PopItem() returns (r: Result<Option<T>>)
      modifies this
      ensures Outcome(value, r) == SlotPop(old(value))
    {
      r := Ok(value);
      value := None;
    }

    method Encode(buf: array<byte>) returns (r: Result<nat>)
      modifies this, buf
      ensures var o := SlotEncode(old(value), buf.Length, toByte);
        value == o.state && (r.Ok? <==> o.result.Ok?) &&
        (o.result.Err? ==> r.error == o.result.error && buf[..] == old(buf[..])) &&
        (o.result.Ok? ==> r.value == |o.result.value| && buf[..] == o.result.value + old(buf[|o.result.value|..]))
    {
      var v := value;
      value := None;
      if v.None? {
        return Ok(0);
      }
      if buf.Length == 0 {
        return Err(InvalidInput);
      }
      buf[0] := toByte(v.value);
      assert buf[..] == [toByte(v.value)] + old(buf[1..]);
      return Ok(1);
    }

    method PushItem(item: T) returns (r: Result<Option<T>>)
      modifies this
      ensures Outcome(value, r) == SlotPush(old(value), item)
    {
      if value.Some? {
        return Ok(Some(item));
      }
      value := Some(item);
      return Ok(None);
    }

    function DecodeSizeHint(): (h: Option<nat>)
      reads this
      ensures h == SlotDecodeSizeHint(value)
    {
      Some(if value.Some? then 0 else 1)
    }

    function EncodeSizeHint(): (h: Option<nat>)
      reads this
      ensures h == SlotEncodeSizeHint(value)
    {
      Some(if value.Some? then 1 else 0)
    }
  }

  // ---------------------------------------------------------------------
  // The endian codecs (src/numbers.rs:6-43, 163-527)
  // ---------------------------------------------------------------------

  /**
   * `new(n)` of a codec whose item type has exactly its width (`U16be`,
   * `I32le`, `U64be`, ...): a `Bytes` holding the encoding of `n` with the
   * cursor at 0, whose bytes decode back to `n`.
   */
  function NumberNew(c: IntCodec, n: int): (s: BytesValue)
    requires WellFormed(c) && c.width == c.itemBytes && InItemRange(c, n)
    ensures s.offset == 0 && s.bytes.Some? && |s.bytes.value| == c.width
    ensures DecodeItem(c, s.bytes.value) == n
  {
    FixnumRoundTrip(c, n);
    BytesNew(EncodeItem(c, n).value)
  }

  /**
   * `new(n)` of `U24*`, `U40*`, `U48*` and `U56*`: `InvalidInput` when `n`
   * does not fit in the width, otherwise the `Bytes` holding its encoding.
   */
  function NumberNewChecked(c: IntCodec, n: int): (r: Result<BytesValue>)
    requires WellFormed(c) && !c.signed && InItemRange(c, n)
    ensures r.Err? <==> n >= Pow256(c.width)
    ensures r.Err? ==> r.error == InvalidInput
    ensures r.Ok? ==> r.value.offset == 0 && r.value.bytes.Some? && |r.value.bytes.value| == c.width &&
                      DecodeItem(c, r.value.bytes.value) == n
  {
    match EncodeItem(c, n)
    case Err(e) => Err(e)
    case Ok(b) => FixnumRoundTrip(c, n); Ok(BytesNew(b))
  }

  /** `new_truncate(n)`: the `Bytes` holding the encoding of `n` with the bits above the width cleared. */
  function NewTruncate(c: IntCodec, n: nat): (s: BytesValue)
    requires WellFormed(c) && !c.signed
    ensures s.offset == 0 && s.bytes.Some? && |s.bytes.value| == c.width
    ensures DecodeItem(c, s.bytes.value) == n % Pow256(c.width)
  {
    var u := n % Pow256(c.width);
    ToBytesRoundTrip(c, u);
    BytesNew(ToBytes(c, u))
  }

  lemma ToBytesRoundTrip(c: IntCodec, u: nat)
    requires u < Pow256(c.width)
    ensures FromBytes(c, ToBytes(c, u)) == u
  {
    if c.endian == Big { BeRoundTrip(u, c.width); } else { LeRoundTrip(u, c.width); }
  }

  /** `new_truncate` as written: `U24le` writes its masked value in big-endian order. */
  function NewTruncateAsWritten(c: IntCodec, n: nat): (s: BytesValue)
    requires WellFormed(c) && !c.signed
    ensures c != U24LE ==> s == NewTruncate(c, n)
    ensures c == U24LE ==> s == BytesNew(BeBytes(n % 0x100_0000, 3))
  {
    if c == U24LE then BytesNew(BeBytes(n % 0x100_0000, 3)) else NewTruncate(c, n)
  }

  /** For a number that fits, `new_truncate` and `new` agree. */
  lemma NewTruncateAgreesWithNew(c: IntCodec, n: nat)
    requires WellFormed(c) && !c.signed && InItemRange(c, n) && n < Pow256(c.width)
    ensures NumberNewChecked(c, n) == Ok(NewTruncate(c, n))
  {
    ModOfSmaller(n, Pow256(c.width));
    assert EncodeItem(c, n) == Ok(ToBytes(c, n));
  }

  /**
   * The discrepancy: `U24le::new_truncate(1)` holds `[0, 0, 1]`, which the
   * little-endian `pop_item` reads as `0x1_0000`; the corrected
   * `new_truncate` holds `[1, 0, 0]`, read back as 1.
   */
  lemma U24leNewTruncateAsWrittenMisorders()
    ensures NewTruncateAsWritten(U24LE, 1).bytes == Some([0, 0, 1])
    ensures DecodeItem(U24LE, [0, 0, 1]) == 0x1_0000
    ensures NewTruncate(U24LE, 1).bytes == Some([1, 0, 0])
  {
    assert BeBytes(1, 3) == [0, 0, 1] by {
      assert BeBytes(0, 2) == [0, 0] by { assert BeBytes(0, 1) == [0]; }
    }
    assert LeBytes(1, 3) == [1, 0, 0] by {
      assert LeBytes(0, 2) == [0, 0] by { assert LeBytes(0, 1) == [0]; }
    }
    assert LeValue([0, 0, 1]) == 0x1_0000 by {
      assert LeValue([1]) == 1 by { assert LeValue([]) == 0; }
      assert [0, 0, 1][1..] == [0, 1] && [0, 1][1..] == [1];
    }
  }

  /** `pop_item` of `impl_codec!`: the popped array, read with the codec's read function. */
  function NumberPop(c: IntCodec, s: BytesValue): (o: Outcome<BytesValue, Option<int>>)
    ensures var p := BytesPop(s);
      o.state == p.state && o.result.Ok? && (o.result.value.Some? <==> p.result.value.Some?) &&
      (p.result.value.Some? ==> o.result.value.value == DecodeItem(c, p.result.value.value))
  {
    var p := BytesPop(s);
    match p.result.value
    case None => Outcome(p.state, Ok(None))
    case Some(b) => Outcome(p.state, Ok(Some(DecodeItem(c, b))))
  }

  /**
   * `push_item` of `impl_codec!`: the item's encoding is pushed into the
   * `Bytes`; a rejected push hands back the item itself.  The byte-order
   * writers refuse an item wider than the codec, so the item must fit.
   */
  function NumberPush(c: IntCodec, s: BytesValue, n: int): (o: Outcome<BytesValue, Option<int>>)
    requires WellFormed(c) && InItemRange(c, n) && EncodeItem(c, n).Ok?
    ensures var p := BytesPush(s, EncodeItem(c, n).value);
      o.state == p.state && o.result == (if p.result.value.None? then Ok(None) else Ok(Some(n)))
  {
    var p := BytesPush(s, EncodeItem(c, n).value);
    if p.result.value.None? then Outcome(p.state, Ok(None)) else Outcome(p.state, Ok(Some(n)))
  }

  /** `decode` of `impl_codec!` is the one of `Bytes`; the decoder type, with the conversion at `pop_item`. */
  function NumberDecoderOps(c: IntCodec): SeqDecoderOps<BytesValue, int>
  {
    SeqDecoderOps((s, buf, eos) => BytesDecode(s, buf, eos), s => NumberPop(c, s), s => BytesSizeHint(s))
  }

  lemma NumberDecoderLawful(c: IntCodec)
    ensures ConsumesAtMost(NumberDecoderOps(c))
  {
  }

  /**
   * The round trip of every endian codec pair: an idle encoder accepts `n`
   * and writes its `width` bytes; a default decoder given them at the end
   * of the stream consumes them all and pops `n`.
   */
  lemma NumberRoundTrip(c: IntCodec, s: BytesValue, n: int, room: nat)
    requires WellFormed(c) && InItemRange(c, n) && EncodeItem(c, n).Ok?
    requires RemainingSize(s) == 0 && room >= c.width
    ensures var p := NumberPush(c, s, n);
      var e := BytesEncode(p.state, room);
      var d := BytesDecode(BytesDefault(c.width), e.result.value, true);
      p.result == Ok(None) && e.result == Ok(EncodeItem(c, n).value) &&
      d.result == Ok(c.width) && NumberPop(c, d.state).result == Ok(Some(n))
  {
    BytesRoundTrip(s, EncodeItem(c, n).value, room);
    FixnumRoundTrip(c, n);
  }

  /** The endian codecs of `impl_codec!`, wrapping a `Bytes<[u8; width]>` object. */
  class NumberCodec {
    const c: IntCodec
    const inner: BytesCodec

    predicate Valid()
      reads this, inner
    {
      inner.Valid()
    }

    function State(): BytesValue
      reads this, inner, inner.slot
      requires Valid()
    {
      inner.State()
    }

    /** `Default::default()`: a `Bytes` of `width` zero bytes, ready to decode. */
    constructor Default(c0: IntCodec)
      ensures Valid() && State() == BytesDefault(c0.width) && c == c0 && fresh(inner) && fresh(inner.slot)
    {
      c := c0;
      inner := new BytesCodec.Default(c0.width);
    }

    /** `new(n)` of the codecs without a range check. */
    constructor New(c0: IntCodec, n: int)
      requires WellFormed(c0) && c0.width == c0.itemBytes && InItemRange(c0, n)
      ensures Valid() && State() == NumberNew(c0, n) && c == c0 && fresh(inner) && fresh(inner.slot)
    {
      c := c0;
      inner := new BytesCodec.New(EncodeItem(c0, n).value);
    }

    /** `new_truncate(n)`, with the byte order of the codec. */
    constructor Truncated(c0: IntCodec, n: nat)
      requires WellFormed(c0) && !c0.signed
      ensures Valid() && State() == NewTruncate(c0, n) && c == c0 && fresh(inner) && fresh(inner.slot)
    {
      c := c0;
      inner := new BytesCodec.New(NewTruncate(c0, n).bytes.value);
    }

    method Decode(buf: seq<byte>, eos: bool) returns (r: Result<nat>)
      requires Valid()
      modifies inner, inner.slot
      ensures Valid() && inner.slot == old(inner.slot)
      ensures Outcome(State(), r) == BytesDecode(old(State()), buf, eos)
    {
      r := inner.Decode(buf, eos);
    }

    method PopItem() returns (r: Result<Option<int>>)
      requires Valid()
      modifies inner
      ensures Valid() && inner.slot == old(inner.slot)
      ensures Outcome(State(), r) == NumberPop(c, old(State()))
    {
      var p := inner.PopItem();
      if p.value.None? {
        return Ok(None);
      }
      return Ok(Some(DecodeItem(c, p.value.value)));
    }

    method Encode(buf: array<byte>) returns (r: Result<nat>)
      requires Valid() && buf != inner.slot
      modifies inner, buf
      ensures Valid() && inner.slot == old(inner.slot)
      ensures var o := BytesEncode(old(State()), buf.Length);
        State() == o.state && r == Ok(|o.result.value|) &&
        buf[..] == o.result.value + old(buf[|o.result.value|..])
    {
      r := inner.Encode(buf);
    }

    method PushItem(n: int) returns (r: Result<Option<int>>)
      requires Valid() && WellFormed(c) && InItemRange(c, n) && EncodeItem(c, n).Ok?
      modifies inner
      ensures Valid()
      ensures Outcome(State(), r) == NumberPush(c, old(State()), n)
    {
      var p := inner.PushItem(EncodeItem(c, n).value);
      if p.value.None? {
        return Ok(None);
      }
      return Ok(Some(n));
    }

    function SizeHint(): (h: Option<nat>)
      reads this, inner, inner.slot
      requires Valid()
      ensures h == BytesSizeHint(State())
    {
      inner.SizeHint()
    }
  }
}
