/*
 * src/items.rs: the same fourth-generation integer codecs as
 * src/numbers.rs: its `U8`/`I8` slots, `impl_codec!` and range-checked
 * `U24*::new` are the members of the Numbers module, and the lemmas
 * `U8SlotOccupancy`, `I8SlotReinterprets` and `U24NewChecksRange` below
 * state them for this file. New here are the signed 24-bit
 * `I24be`/`I24le`, whose item type is `i32`.
 */
module Items {
  import opened Base
  import opened Decode
  import opened Fixnum
  import opened Sequences
  import opened Numbers

  type I32Value = x: int | -0x8000_0000 <= x < 0x8000_0000

  /** The byte layout of `I24be`/`I24le`: three bytes, read as a signed number. */
  function I24Layout(e: Endian): IntCodec
  {
    IntCodec(3, e, true, 4)
  }

  /** `write_i24`: the low 24 bits of the two's complement of `n`, in byte order `e`. */
  function I24Bytes(e: Endian, n: int): (b: seq<byte>)
    ensures |b| == 3
  {
    ToBytes(I24Layout(e), n % 0x100_0000)
  }

  /** `read_i24`: three bytes in byte order `e`, sign-extended from bit 23. */
  function I24Value(e: Endian, b: seq<byte>): (n: int)
    requires |b| == 3
    ensures -0x80_0000 <= n < 0x80_0000
    ensures n == DecodeItem(I24Layout(e), b)
  {
    FromBytesBound(I24Layout(e), b);
    DecodeItem(I24Layout(e), b)
  }

  /** `n as u32`. */
  function AsU32(n: I32Value): (u: nat)
    ensures u < 0x1_0000_0000
    ensures n >= 0 ==> u == n
    ensures n < 0 ==> u == n + 0x1_0000_0000
  {
    if n >= 0 then n else n + 0x1_0000_0000
  }

  /**
   * `I24be::new` / `I24le::new` as written: `InvalidInput` unless `n as u32`
   * is at most `0xFF_FFFF`, which rejects every negative `n` and accepts
   * numbers up to `0xFF_FFFF` that do not fit in a signed 24-bit value.
   */
  function I24NewAsWritten(e: Endian, n: I32Value): (r: Result<BytesValue>)
    ensures r.Err? <==> n < 0 || n > 0xFF_FFFF
    ensures r.Err? ==> r.error == InvalidInput
    ensures r.Ok? ==> r.value == BytesNew(I24Bytes(e, n))
  {
    if AsU32(n) <= 0xFF_FFFF then Ok(BytesNew(I24Bytes(e, n))) else Err(InvalidInput)
  }

  /** `read_i24` undoes `write_i24` on the signed 24-bit range, and `write_i24` undoes `read_i24` on every three bytes. */
  lemma I24RoundTrip(e: Endian, n: int, b: seq<byte>)
    requires -0x80_0000 <= n < 0x80_0000 && |b| == 3
    ensures I24Value(e, I24Bytes(e, n)) == n
    ensures I24Bytes(e, I24Value(e, b)) == b
  {
    var c := I24Layout(e);
    assert Pow256(3) == 0x100_0000;
    var u := n % 0x100_0000;
    assert u == if n >= 0 then n else n + 0x100_0000;
    ToBytesRoundTrip(c, u);
    FromBytesBound(c, b);
    var v := FromBytes(c, b);
    var m := I24Value(e, b);
    assert m % 0x100_0000 == v;
    if e == Big { BeBytesOfValue(b); } else { LeBytesOfValue(b); }
  }

  /** `I24be::new` / `I24le::new` accepting exactly the numbers a signed 24-bit value holds. */
  function I24New(e: Endian, n: I32Value): (r: Result<BytesValue>)
    ensures r.Err? <==> n < -0x80_0000 || n >= 0x80_0000
    ensures r.Err? ==> r.error == InvalidInput
    ensures r.Ok? ==> r.value.offset == 0 && r.value.bytes.Some? && |r.value.bytes.value| == 3 &&
                      I24Value(e, r.value.bytes.value) == n
  {
    if -0x80_0000 <= n < 0x80_0000 then I24RoundTrip(e, n, [0, 0, 0]); Ok(BytesNew(I24Bytes(e, n)))
    else Err(InvalidInput)
  }

  /**
   * The discrepancy: `I24be::new(-1)` is refused although -1 is a 24-bit
   * signed number, and `I24be::new(0x80_0000)` is accepted although its
   * bytes read back as `-0x80_0000`; the corrected check does the opposite
   * in both cases.
   */
  lemma I24NewAsWrittenMisjudges(e: Endian)
    ensures I24NewAsWritten(e, -1) == Err(InvalidInput) && I24New(e, -1).Ok?
    ensures I24NewAsWritten(e, 0x80_0000).Ok? && I24New(e, 0x80_0000).Err?
    ensures I24Value(e, I24Bytes(e, 0x80_0000)) == -0x80_0000
  {
    var c := I24Layout(e);
    assert Pow256(3) == 0x100_0000;
    ToBytesRoundTrip(c, 0x80_0000);
  }

  /** `pop_item` of `I24be`/`I24le`: the full array, read with `read_i24`. */
  function I24Pop(e: Endian, s: BytesValue): (o: Outcome<BytesValue, Option<int>>)
    ensures var p := BytesPop(s);
      o.state == p.state && o.result.Ok? && (o.result.value.Some? <==> p.result.value.Some?) &&
      (p.result.value.Some? && |p.result.value.value| == 3 ==> o.result.value.value == I24Value(e, p.result.value.value))
  {
    NumberPop(I24Layout(e), s)
  }

  /** `push_item` of `I24be`/`I24le`: the `write_i24` bytes are pushed; a rejected push hands back the item. */
  function I24Push(e: Endian, s: BytesValue, n: I32Value): (o: Outcome<BytesValue, Option<I32Value>>)
    ensures var p := BytesPush(s, I24Bytes(e, n));
      o.state == p.state && o.result == (if p.result.value.None? then Ok(None) else Ok(Some(n)))
  {
    var p := BytesPush(s, I24Bytes(e, n));
    if p.result.value.None? then Outcome(p.state, Ok(None)) else Outcome(p.state, Ok(Some(n)))
  }

  /**
   * The round trip of `I24be`/`I24le`: an idle encoder accepts a signed
   * 24-bit `n` and writes 3 bytes; a default decoder given them at the end
   * of the stream consumes them and pops `n`.
   */
  lemma I24PushPopRoundTrip(e: Endian, s: BytesValue, n: I32Value, room: nat)
    requires -0x80_0000 <= n < 0x80_0000 && RemainingSize(s) == 0 && room >= 3
    ensures var p := I24Push(e, s, n);
      var w := BytesEncode(p.state, room);
      var d := BytesDecode(BytesDefault(3), w.result.value, true);
      p.result == Ok(None) && w.result == Ok(I24Bytes(e, n)) &&
      d.result == Ok(3) && I24Pop(e, d.state).result == Ok(Some(n))
  {
    BytesRoundTrip(s, I24Bytes(e, n), room);
    I24RoundTrip(e, n, [0, 0, 0]);
  }

  /**
   * `U8` of src/items.rs: an empty slot refuses an empty buffer, a full one
   * consumes nothing and hands back a pushed item, popping empties it, and
   * the decode and encode size hints always add up to the one octet the
   * slot holds or awaits.
   */
  lemma U8SlotOccupancy(s: Option<byte>, item: byte, buf: seq<byte>)
    ensures s.None? ==> SlotDecode(s, [], U8Identity) == Outcome(None, Err(InvalidInput))
    ensures s.Some? ==> SlotDecode(s, buf, U8Identity) == Outcome(s, Ok(0)) &&
                        SlotPush(s, item) == Outcome(s, Ok(Some(item)))
    ensures SlotPop(s).state.None?
    ensures SlotDecodeSizeHint(s).value + SlotEncodeSizeHint(s).value == 1
  {
  }

  /**
   * `I8` of src/items.rs reads an octet as two's complement and writes a
   * value as its two's-complement octet, so encoding then decoding gives
   * the value back.
   */
  lemma I8SlotReinterprets(b: byte, v: I8Value)
    ensures SlotDecode(None, [b], ByteToI8).state == Some(if b < 0x80 then b as int else b as int - 0x100)
    ensures SlotEncode(Some(v), 1, I8ToByte).result == Ok([(if v >= 0 then v else v + 0x100) as byte])
    ensures SlotDecode(None, SlotEncode(Some(v), 1, I8ToByte).result.value, ByteToI8).state == Some(v)
  {
    I8ConversionsInverse(b, v);
  }

  /**
   * `U24be::new` / `U24le::new`: `InvalidInput` for a number above
   * `0xFF_FFFF`; otherwise both hold its three bytes, the little-endian
   * array being the big-endian one reversed.
   */
  lemma U24NewChecksRange(n: nat)
    requires n < 0x1_0000_0000
    ensures NumberNewChecked(U24BE, n).Err? <==> n > 0xFF_FFFF
    ensures NumberNewChecked(U24LE, n).Err? <==> n > 0xFF_FFFF
    ensures n <= 0xFF_FFFF ==>
      NumberNewChecked(U24LE, n).value.bytes.value == Reverse(NumberNewChecked(U24BE, n).value.bytes.value)
  {
    assert Pow256(3) == 0x100_0000;
    assert Pow256(4) == 0x1_0000_0000;
    LeIsReversedBe(n, 3);
  }

  /** `I24be`/`I24le` wrapping a `Bytes<[u8; 3]>` object. */
  class I24Codec {
    const endian: Endian
    const inner: BytesCodec

    predicate Valid()
      reads this, inner
    {
      inner.Valid()
    }

    function State(): BytesValue
      reads this, inner, inner.slot
      requires Valid()
    {
      inner.State()
    }

    /** `Default::default()`. */
    constructor Default(e: Endian)
      ensures Valid() && State() == BytesDefault(3) && endian == e && fresh(inner) && fresh(inner.slot)
    {
      endian := e;
      inner := new BytesCodec.Default(3);
    }

    /** The corrected `new(n)`, for a number the signed 24-bit range holds. */
    constructor New(e: Endian, n: I32Value)
      requires -0x80_0000 <= n < 0x80_0000
      ensures Valid() && State() == I24New(e, n).value && endian == e && fresh(inner) && fresh(inner.slot)
    {
      endian := e;
      inner := new BytesCodec.New(I24Bytes(e, n));
    }

    method Decode(buf: seq<byte>, eos: bool) returns (r: Result<nat>)
      requires Valid()
      modifies inner, inner.slot
      ensures Valid() && inner.slot == old(inner.slot)
      ensures Outcome(State(), r) == BytesDecode(old(State()), buf, eos)
    {
      r := inner.Decode(buf, eos);
    }

    method PopItem() returns (r: Result<Option<int>>)
      requires Valid()
      modifies inner
      ensures Valid() && inner.slot == old(inner.slot)
      ensures Outcome(State(), r) == I24Pop(endian, old(State()))
    {
      var p := inner.PopItem();
      if p.value.None? {
        return Ok(None);
      }
      return Ok(Some(DecodeItem(I24Layout(endian), p.value.value)));
    }

    method Encode(buf: array<byte>) returns (r: Result<nat>)
      requires Valid() && buf != inner.slot
      modifies inner, buf
      ensures Valid() && inner.slot == old(inner.slot)
      ensures var o := BytesEncode(old(State()), buf.Length);
        State() == o.state && r == Ok(|o.result.value|) &&
        buf[..] == o.result.value + old(buf[|o.result.value|..])
    {
      r := inner.Encode(buf);
    }

    method PushItem(n: I32Value) returns (r: Result<Option<I32Value>>)
      requires Valid()
      modifies inner
      ensures Valid()
      ensures Outcome(State(), r) == I24Push(endian, old(State()), n)
    {
      var p := inner.PushItem(I24Bytes(endian, n));
      if p.value.None? {
        return Ok(None);
      }
      return Ok(Some(n));
    }

    function SizeHint(): (h: Option<nat>)
      reads this, inner, inner.slot
      requires Valid()
      ensures h == BytesSizeHint(State())
    {
      inner.SizeHint()
    }
  }
}
