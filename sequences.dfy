/*
 * The fourth trait generation (src/traits.rs:3-27) and its byte-sequence
 * codec `Bytes<B>` (src/sequences.rs).  In this generation `decode(buf,
 * eos: bool)` only reports how many bytes it consumed and a separate
 * `pop_item` hands out a finished item; `encode(buf)` writes into the
 * buffer it is given and `push_item` hands over the next item, returning
 * it if the encoder is still busy.  Both sides report an optional size hint.
 */
module Sequences {
  import opened Base
  import opened Decode

  // ---------------------------------------------------------------------
  // The trait (src/traits.rs:3-27)
  // ---------------------------------------------------------------------

  /** A decoder type of this generation, as the record of its operations on its state `S`. */
  datatype SeqDecoderOps<!S, T> = SeqDecoderOps(
    decode: (S, seq<byte>, bool) -> Outcome<S, nat>,
    pop: S -> Outcome<S, Option<T>>,
    sizeHint: S -> Option<nat>)

  /** An encoder type of this generation; `encode` gets the length of the buffer and returns what it wrote at its start. */
  datatype SeqEncoderOps<!S, !T> = SeqEncoderOps(
    encode: (S, nat) -> Outcome<S, seq<byte>>,
    push: (S, T) -> Outcome<S, Option<T>>,
    sizeHint: S -> Option<nat>)

  /** `decode` reports no more bytes than the buffer holds. */
  ghost predicate ConsumesAtMost<S(!new), T>(d: SeqDecoderOps<S, T>)
  {
    forall s: S, buf: seq<byte>, eos: bool {:trigger d.decode(s, buf, eos)} ::
      d.decode(s, buf, eos).result.Ok? ==> d.decode(s, buf, eos).result.value <= |buf|
  }

  /** `encode` writes no more bytes than the buffer holds. */
  ghost predicate WritesAtMost<S(!new), T>(e: SeqEncoderOps<S, T>)
  {
    forall s: S, room: nat {:trigger e.encode(s, room)} ::
      e.encode(s, room).result.Ok? ==> |e.encode(s, room).result.value| <= room
  }

  // ---------------------------------------------------------------------
  // Bytes<B> as values (src/sequences.rs:5-92)
  // ---------------------------------------------------------------------

  /** The fields of `Bytes<B>`: the byte array, if held, and the cursor into it. */
  datatype BytesState = BytesState(bytes: Option<seq<byte>>, offset: nat)

  type BytesValue = s: BytesState | s.bytes.Some? ==> s.offset <= |s.bytes.value|
    witness BytesState(None, 0)

  /** `Bytes::new(bytes)`. */
  function BytesNew(b: seq<byte>): (s: BytesValue)
    ensures s.bytes == Some(b) && s.offset == 0
  {
    BytesState(Some(b), 0)
  }

  /** `Bytes::default()` for `B = [u8; n]`. */
  function BytesDefault(n: nat): (s: BytesValue)
    ensures s == BytesNew(Zeros(n))
  {
    BytesState(Some(Zeros(n)), 0)
  }

  /** `remaining_size`: the bytes of the array past the cursor, 0 without an array. */
  function RemainingSize(s: BytesValue): (n: nat)
    ensures s.bytes.None? ==> n == 0
    ensures s.bytes.Some? ==> n == |s.bytes.value| - s.offset
  {
    match s.bytes
    case None => 0
    case Some(b) => |b| - s.offset
  }

  /**
   * `Bytes::decode`: copy as much of `buf` as fits into the array at the
   * cursor and move the cursor past it; at the end of the stream an array
   * that is still not full is an `InvalidInput` error (the copy having been
   * made).  Without an array nothing is consumed.
   */
  function BytesDecode(s: BytesValue, buf: seq<byte>, eos: bool): (o: Outcome<BytesValue, nat>)
    ensures s.bytes.None? ==> o == Outcome(s, Ok(0))
    ensures s.bytes.Some? ==>
      var size := Min(|buf|, RemainingSize(s));
      var b := s.bytes.value;
      o.state.bytes.Some? && |o.state.bytes.value| == |b| && o.state.offset == s.offset + size &&
      o.state.bytes.value[..s.offset] == b[..s.offset] &&
      o.state.bytes.value[s.offset..o.state.offset] == buf[..size] &&
      o.state.bytes.value[o.state.offset..] == b[o.state.offset..] &&
      (o.result.Err? <==> eos && |buf| < RemainingSize(s)) &&
      (o.result.Err? ==> o.result.error == InvalidInput) &&
      (o.result.Ok? ==> o.result.value == size)
  {
    match s.bytes
    case None => Outcome(s, Ok(0))
    case Some(b) =>
      var size := Min(|buf|, |b| - s.offset);
      var filled := b[..s.offset] + buf[..size] + b[s.offset + size..];
      assert filled[s.offset..s.offset + size] == buf[..size];
      assert filled[s.offset + size..] == b[s.offset + size..];
      var after := BytesState(Some(filled), s.offset + size);
      if eos && after.offset != |b| then Outcome(after, Err(InvalidInput)) else Outcome(after, Ok(size))
  }

  /** `pop_item`: the array, only once it is full; taking it leaves the codec without one. */
  function BytesPop(s: BytesValue): (o: Outcome<BytesValue, Option<seq<byte>>>)
    ensures o.result.Ok?
    ensures o.result.value.Some? <==> s.bytes.Some? && RemainingSize(s) == 0
    ensures o.result.value.Some? ==> o.result.value == s.bytes && o.state == BytesState(None, s.offset)
    ensures o.result.value.None? ==> o.state == s
  {
    if s.bytes.Some? && |s.bytes.value| == s.offset then Outcome(BytesState(None, s.offset), Ok(s.bytes))
    else Outcome(s, Ok(None))
  }

  /** `Bytes::encode`: write as much of the array past the cursor as fits into a buffer of `room` bytes. */
  function BytesEncode(s: BytesValue, room: nat): (o: Outcome<BytesValue, seq<byte>>)
    ensures o.result.Ok? && |o.result.value| == Min(room, RemainingSize(s))
    ensures s.bytes.None? ==> o == Outcome(s, Ok([]))
    ensures s.bytes.Some? ==>
      o.state == BytesState(s.bytes, s.offset + |o.result.value|) &&
      o.result.value == s.bytes.value[s.offset..s.offset + |o.result.value|]
  {
    match s.bytes
    case None => Outcome(s, Ok([]))
    case Some(b) =>
      var size := Min(room, |b| - s.offset);
      Outcome(BytesState(s.bytes, s.offset + size), Ok(b[s.offset..s.offset + size]))
  }

  /** `push_item`: accepted, with the cursor at 0, only once nothing is left to write; otherwise handed back. */
  function BytesPush(s: BytesValue, item: seq<byte>): (o: Outcome<BytesValue, Option<seq<byte>>>)
    ensures RemainingSize(s) == 0 ==> o == Outcome(BytesNew(item), Ok(None))
    ensures RemainingSize(s) > 0 ==> o == Outcome(s, Ok(Some(item)))
  {
    if RemainingSize(s) == 0 then Outcome(BytesNew(item), Ok(None)) else Outcome(s, Ok(Some(item)))
  }

  /** Both size hints: `Some(remaining_size())`. */
  function BytesSizeHint(s: BytesValue): (h: Option<nat>)
    ensures h == Some(RemainingSize(s))
  {
    Some(RemainingSize(s))
  }

  function BytesDecoderOps(): SeqDecoderOps<BytesValue, seq<byte>>
  {
    SeqDecoderOps((s, buf, eos) => BytesDecode(s, buf, eos), s => BytesPop(s), s => BytesSizeHint(s))
  }

  function BytesEncoderOps(): SeqEncoderOps<BytesValue, seq<byte>>
  {
    SeqEncoderOps((s, room) => BytesEncode(s, room), (s, item) => BytesPush(s, item), s => BytesSizeHint(s))
  }

  lemma BytesOpsLawful()
    ensures ConsumesAtMost(BytesDecoderOps()) && WritesAtMost(BytesEncoderOps())
  {
  }

  // ---------------------------------------------------------------------
  // Properties of Bytes<B>
  // ---------------------------------------------------------------------

  /** Each call lowers both size hints by exactly the bytes it consumed or wrote. */
  lemma BytesHintTracksProgress(s: BytesValue, buf: seq<byte>, eos: bool, room: nat)
    ensures var o := BytesDecode(s, buf, eos);
      RemainingSize(o.state) == RemainingSize(s) - Min(|buf|, RemainingSize(s))
    ensures var o := BytesEncode(s, room);
      RemainingSize(o.state) == RemainingSize(s) - |o.result.value|
  {
  }

  /**
   * Away from the end of the stream, the decoder does not care how its
   * input is cut: two calls on `w1` and `w2` leave the state one call on
   * `w1 + w2` leaves, and consume as much in total.
   */
  lemma BytesDecodeSplits(s: BytesValue, w1: seq<byte>, w2: seq<byte>)
    ensures var o1 := BytesDecode(s, w1, false);
      var o2 := BytesDecode(o1.state, w2, false);
      var o := BytesDecode(s, w1 + w2, false);
      o2.state == o.state && o1.result.value + o2.result.value == o.result.value
  {
    if s.bytes.Some? {
      var b := s.bytes.value;
      var off := s.offset;
      var k1 := Min(|w1|, |b| - off);
      var o1 := BytesDecode(s, w1, false);
      var b1 := o1.state.bytes.value;
      var k2 := Min(|w2|, |b| - off - k1);
      var o2 := BytesDecode(o1.state, w2, false);
      var b2 := o2.state.bytes.value;
      var o := BytesDecode(s, w1 + w2, false);
      var bb := o.state.bytes.value;
      assert k1 + k2 == Min(|w1 + w2|, |b| - off);
      assert (w1 + w2)[..k1 + k2] == w1[..k1] + w2[..k2] by {
        if k2 > 0 {
          assert k1 == |w1|;
          assert w1[..k1] == w1;
        }
      }
      assert b2 == bb by {
        assert b2[..off] == b1[..off] == b[..off] == bb[..off];
        assert b2[off..off + k1] == b1[off..off + k1] == w1[..k1];
        assert b2[off + k1..off + k1 + k2] == w2[..k2];
        assert bb[off..off + k1 + k2] == w1[..k1] + w2[..k2];
        assert b2[off + k1 + k2..] == b1[off + k1 + k2..] == b[off + k1 + k2..] == bb[off + k1 + k2..];
        assert b2 == b2[..off] + b2[off..off + k1] + b2[off + k1..off + k1 + k2] + b2[off + k1 + k2..];
        assert bb == bb[..off] + bb[off..off + k1 + k2] + bb[off + k1 + k2..];
      }
    }
  }

  /**
   * The round trip of `Bytes<B>`: an idle encoder accepts an item and
   * writes exactly its bytes into a buffer large enough for them; a
   * default decoder of the same size given those bytes at the end of the
   * stream consumes all of them and pops the item.
   */
  lemma BytesRoundTrip(s: BytesValue, item: seq<byte>, room: nat)
    requires RemainingSize(s) == 0 && |item| <= room
    ensures var p := BytesPush(s, item);
      var e := BytesEncode(p.state, room);
      var d := BytesDecode(BytesDefault(|item|), e.result.value, true);
      p.result == Ok(None) && e.result == Ok(item) && RemainingSize(e.state) == 0 &&
      d.result == Ok(|item|) && BytesPop(d.state) == Outcome(BytesState(None, |item|), Ok(Some(item)))
  {
    var d := BytesDecode(BytesDefault(|item|), item, true);
    assert d.state.bytes.value == d.state.bytes.value[0..|item|];
    assert item[..|item|] == item;
  }

  /** After its item was popped, a decoder consumes nothing more until an item is pushed. */
  lemma BytesPopThenIdle(s: BytesValue, buf: seq<byte>, eos: bool)
    requires BytesPop(s).result.value.Some?
    ensures BytesDecode(BytesPop(s).state, buf, eos) == Outcome(BytesPop(s).state, Ok(0))
    ensures RemainingSize(BytesPop(s).state) == 0
  {
  }

  // ---------------------------------------------------------------------
  // Bytes<B> in place
  // ---------------------------------------------------------------------

  /**
   * `Bytes<B>` updating its fields in place: `slot` is the array while
   * `held`, and `offset` the cursor.
   */
  class BytesCodec {
    var slot: array<byte>
    var held: bool
    var offset: nat

    predicate Valid()
      reads this
    {
      held ==> offset <= slot.Length
    }

    function State(): BytesValue
      reads this, slot
      requires Valid()
    {
      BytesState(if held then Some(slot[..]) else None, offset)
    }

    /** `Bytes::new(bytes)`. */
    constructor New(b: seq<byte>)
      ensures Valid() && State() == BytesNew(b) && fresh(slot)
    {
      var a := new byte[|b|](i requires 0 <= i < |b| => b[i]);
      assert a[..] == b;
      slot := a;
      held := true;
      offset := 0;
    }

    /** `Bytes::default()` for `[u8; n]`. */
    constructor Default(n: nat)
      ensures Valid() && State() == BytesDefault(n) && fresh(slot)
    {
      var a := new byte[n](i => 0);
      assert a[..] == Zeros(n);
      slot := a;
      held := true;
      offset := 0;
    }

    method Decode(buf: seq<byte>, eos: bool) returns (r: Result<nat>)
      requires Valid()
      modifies this, slot
      ensures Valid() && slot == old(slot)
      ensures Outcome(State(), r) == BytesDecode(old(State()), buf, eos)
    {
      if !held {
        return Ok(0);
      }
      var size := Min(|buf|, slot.Length - offset);
      CopyInto(slot, offset, buf[..size]);
      offset := offset + size;
      if eos && offset != slot.Length {
        return Err(InvalidInput);
      }
      return Ok(size);
    }

    method PopItem() returns (r: Result<Option<seq<byte>>>)
      requires Valid()
      modifies this
      ensures Valid() && slot == old(slot)
      ensures Outcome(State(), r) == BytesPop(old(State()))
    {
      if held && slot.Length == offset {
        held := false;
        return Ok(Some(slot[..]));
      }
      return Ok(None);
    }

    /** `Bytes::encode` into `buf`, which Rust's borrowing keeps apart from the codec's own array. */
    method Encode(buf: array<byte>) returns (r: Result<nat>)
      requires Valid() && buf != slot
      modifies this, buf
      ensures Valid() && slot == old(slot)
      ensures var o := BytesEncode(old(State()), buf.Length);
        State() == o.state && r == Ok(|o.result.value|) &&
        buf[..] == o.result.value + old(buf[|o.result.value|..])
    {
      if !held {
        return Ok(0);
      }
      var size := Min(buf.Length, slot.Length - offset);
      CopyInto(buf, 0, slot[offset..offset + size]);
      offset := offset + size;
      return Ok(size);
    }

    method PushItem(item: seq<byte>) returns (r: Result<Option<seq<byte>>>)
      requires Valid()
      modifies this
      ensures Valid()
      ensures Outcome(State(), r) == BytesPush(old(State()), item)
      ensures r == Ok(None) ==> fresh(slot)
      ensures r != Ok(None) ==> slot == old(slot)
    {
      if held && offset < slot.Length {
        return Ok(Some(item));
      }
      var a := new byte[|item|](i requires 0 <= i < |item| => item[i]);
      assert a[..] == item;
      slot, held, offset := a, true, 0;
      return Ok(None);
    }

    function SizeHint(): (h: Option<nat>)
      reads this, slot
      requires Valid()
      ensures h == BytesSizeHint(State())
    {
      Some(if held then slot.Length - offset else 0)
    }
  }
}
