/*
 * The byte codecs of src/bytes_codec.rs, in the trait generation that
 * works on `DecodeBuf`/`EncodeBuf`: `BytesEncoder` writes a byte slice out,
 * `BytesDecoder` fills a fixed-size byte array, `VecDecoder` collects the
 * whole stream, and the `Utf8` pair carries strings as their UTF-8 bytes.
 */
module BufBytes {
  import opened Base
  import opened EndOfStream
  import opened Decode
  import opened ItemDecode
  import opened Buffers
  import opened BufCodec
  import opened Utf8

  // ---------------------------------------------------------------------
  // BytesEncoder (src/bytes_codec.rs:7-50)
  // ---------------------------------------------------------------------

  /** The fields of `BytesEncoder`: the item being written and how much of it is written. */
  datatype BytesEncoderState = BytesEncoderState(bytes: Option<seq<byte>>, offset: nat)

  type BytesEncoderValue = s: BytesEncoderState | s.bytes.Some? ==> s.offset <= |s.bytes.value|
    witness BytesEncoderState(None, 0)

  /** The bytes of the item not written yet. */
  function Unsent(s: BytesEncoderValue): seq<byte>
  {
    if s.bytes.Some? then s.bytes.value[s.offset..] else []
  }

  /** `BytesEncoder::new()`/`default()`. */
  function BytesEncoderNew(): (s: BytesEncoderValue)
    ensures Unsent(s) == []
  {
    BytesEncoderState(None, 0)
  }

  /**
   * `encode`: write as much of the rest of the item as the room admits and
   * advance `offset` by what was written; the call never fails.
   */
  function BytesEncode(s: BytesEncoderValue, room: nat, eos: bool): (o: Outcome<BytesEncoderValue, seq<byte>>)
    ensures o.result.Ok? && o.result.value == Unsent(s)[..Min(room, |Unsent(s)|)]
    ensures o.result.value + Unsent(o.state) == Unsent(s)
    ensures o.state.bytes == s.bytes
  {
    match s.bytes
    case None => Outcome(s, Ok([]))
    case Some(b) =>
      var size := Min(room, |b| - s.offset);
      assert b[s.offset..][..size] + b[s.offset + size..] == b[s.offset..];
      Outcome(s.(offset := s.offset + size), Ok(b[s.offset..][..size]))
  }

  /** `remaining_bytes`: the length of the unwritten rest, `Some(0)` without an item. */
  function BytesRemaining(s: BytesEncoderValue): (r: Option<nat>)
    ensures r == Some(|Unsent(s)|)
  {
    Some(if s.bytes.Some? then |s.bytes.value| - s.offset else 0)
  }

  /** `start_encoding`: `Full` unless nothing is left to write; the new item is written from its start. */
  function BytesStart(s: BytesEncoderValue, item: seq<byte>): (o: Outcome<BytesEncoderValue, ()>)
    ensures o.result.Ok? <==> Unsent(s) == []
    ensures o.result.Err? ==> o == Outcome(s, Err(Full))
    ensures o.result.Ok? ==> Unsent(o.state) == item
  {
    if BytesRemaining(s) != Some(0) then Outcome(s, Err(Full))
    else Outcome(BytesEncoderState(Some(item), 0), Ok(()))
  }

  function BytesEncoderOps(): BufEncoderOps<BytesEncoderValue, seq<byte>>
  {
    BufEncoderOps((s, room, eos) => BytesEncode(s, room, eos), BytesStart, s => |Unsent(s)|)
  }

  lemma BytesEncoderLawful()
    ensures EncodesWithinRoom(BytesEncoderOps())
  {
  }

  /**
   * Writing in two calls with room `n1` and then `n2` writes what one call
   * with room `n1 + n2` writes, and leaves the same state: the output does
   * not depend on how the room is cut up.
   */
  lemma BytesEncodeSplits(s: BytesEncoderValue, n1: nat, n2: nat, eos: bool)
    ensures var first := BytesEncode(s, n1, eos);
      var second := BytesEncode(first.state, n2, eos);
      var whole := BytesEncode(s, n1 + n2, eos);
      first.result.value + second.result.value == whole.result.value && second.state == whole.state
  {
    var first := BytesEncode(s, n1, eos);
    var second := BytesEncode(first.state, n2, eos);
    var whole := BytesEncode(s, n1 + n2, eos);
    var u := Unsent(s);
    assert Unsent(first.state) == u[|first.result.value|..];
    assert first.result.value + second.result.value == whole.result.value by {
      assert second.result.value == u[|first.result.value|..][..|second.result.value|];
      assert forall k :: 0 <= k < |whole.result.value| ==>
        (first.result.value + second.result.value)[k] == whole.result.value[k];
    }
  }

  /**
   * After the last item is written out, `start_encoding(item)` succeeds,
   * and one call with room for the whole item writes exactly the item and
   * leaves nothing to write.
   */
  lemma BytesEncoderWritesItem(s: BytesEncoderValue, item: seq<byte>, room: nat, eos: bool)
    requires Unsent(s) == [] && |item| <= room
    ensures var started := BytesStart(s, item);
      var o := BytesEncode(started.state, room, eos);
      started.result.Ok? && o.result.value == item && BytesRemaining(o.state) == Some(0)
  {
    var started := BytesStart(s, item);
    assert Unsent(started.state)[..|item|] == item;
  }

  /** `BytesEncoder` advancing its offset in place. */
  class BytesEncoder {
    var bytes: Option<seq<byte>>
    var offset: nat

    predicate Valid()
      reads this
    {
      bytes.Some? ==> offset <= |bytes.value|
    }

    function State(): BytesEncoderValue
      reads this
      requires Valid()
    {
      BytesEncoderState(bytes, offset)
    }

    constructor ()
      ensures Valid() && State() == BytesEncoderNew()
    {
      bytes := None;
      offset := 0;
    }

    method Encode(buf: EncodeBuf) returns (r: Result<()>)
      requires Valid() && buf.Valid()
      modifies this, buf, buf.buf
      ensures Valid() && buf.Valid()
      ensures var o := BytesEncode(old(State()), EncodeRoom(old(buf.State())), old(buf.State()).eos);
        r == Ok(()) && State() == o.state && buf.State() == EncodeWrite(old(buf.State()), o.result.value).1
    {
      ghost var s := State();
      ghost var bs := buf.State();
      if bytes.Some? {
        var b := bytes.value;
        var size := buf.Write(b[offset..]);
        assert size == Min(EncodeRoom(bs), |b| - s.offset);
        assert BytesEncode(s, EncodeRoom(bs), bs.eos).result.value == b[s.offset..][..size];
        offset := offset + size;
      }
      return Ok(());
    }

    method StartEncoding(item: seq<byte>) returns (r: Result<()>)
      requires Valid()
      modifies this
      ensures Valid() && Outcome(State(), r) == BytesStart(old(State()), item)
    {
      if bytes.Some? && |bytes.value| - offset != 0 {
        return Err(Full);
      }
      bytes := Some(item);
      offset := 0;
      return Ok(());
    }

    function RemainingBytes(): (n: Option<nat>)
      reads this
      requires Valid()
      ensures n == BytesRemaining(State())
    {
      Some(if bytes.Some? then |bytes.value| - offset else 0)
    }
  }

  // ---------------------------------------------------------------------
  // BytesDecoder (src/bytes_codec.rs:52-81), for a byte array `[u8; N]`
  // ---------------------------------------------------------------------

  /** The fields of `BytesDecoder<[u8; N]>`: the array and how much of it is filled. */
  datatype BytesDecoderState = BytesDecoderState(bytes: seq<byte>, offset: nat)

  type BytesDecoderValue = s: BytesDecoderState | s.offset <= |s.bytes| witness BytesDecoderState([], 0)

  /** `BytesDecoder::new()` for `[u8; n]`. */
  function BytesDecoderNew(n: nat): (s: BytesDecoderValue)
    ensures |s.bytes| == n && s.offset == 0
  {
    BytesDecoderState(Zeros(n), 0)
  }

  /**
   * The first step of `decode`: `read` as many bytes of the window as the
   * array has room for into `bytes[offset..]` and advance `offset`.
   */
  function BytesFill(s: BytesDecoderValue, w: seq<byte>): (r: (nat, BytesDecoderValue))
    ensures r.0 == Min(|w|, |s.bytes| - s.offset)
    ensures r.1.bytes == s.bytes[..s.offset] + w[..r.0] + s.bytes[s.offset + r.0..]
    ensures r.1.offset == s.offset + r.0
  {
    var size := Min(|w|, |s.bytes| - s.offset);
    (size, BytesDecoderState(s.bytes[..s.offset] + w[..size] + s.bytes[s.offset + size..], s.offset + size))
  }

  /**
   * `decode` as written: the full array is yielded and replaced with
   * `B::default()`, but `offset` is left at `N`; an array still not full at
   * the end of the stream is an `InvalidInput`.
   */
  function BytesDecodeAsWritten(s: BytesDecoderValue, w: seq<byte>, e: Eos): (o: Outcome<BytesDecoderValue, Decoded<seq<byte>>>)
    ensures var (size, filled) := BytesFill(s, w);
      (filled.offset == |filled.bytes| ==> o == Outcome(BytesDecoderState(Zeros(|s.bytes|), |s.bytes|), Ok(Decoded(size, Some(filled.bytes))))) &&
      (filled.offset < |filled.bytes| ==>
        o.state == filled && o.result == if IsEos(e) then Err(InvalidInput) else Ok(Decoded(size, None)))
  {
    var (size, filled) := BytesFill(s, w);
    if filled.offset == |filled.bytes| then
      Outcome(BytesDecoderState(Zeros(|s.bytes|), filled.offset), Ok(Decoded(size, Some(filled.bytes))))
    else if IsEos(e) then Outcome(filled, Err(InvalidInput))
    else Outcome(filled, Ok(Decoded(size, None)))
  }

  /**
   * `decode` with `offset` reset together with the array, so that the
   * decoder can decode the next item: it copies `min(window, room)` bytes,
   * yields exactly when the array becomes full, and then starts over.
   */
  function BytesDecode(s: BytesDecoderValue, w: seq<byte>, e: Eos): (o: Outcome<BytesDecoderValue, Decoded<seq<byte>>>)
    ensures var size := Min(|w|, |s.bytes| - s.offset);
      var full := s.offset + size == |s.bytes|;
      (o.result.Ok? ==> o.result.value.size == size) &&
      (o.result.Ok? && o.result.value.item.Some? <==> full) &&
      (o.result.Err? <==> !full && IsEos(e)) &&
      (o.result.Err? ==> o.result.error == InvalidInput) &&
      (full ==> o.state == BytesDecoderNew(|s.bytes|) && o.result.value.item.value == s.bytes[..s.offset] + w[..size]) &&
      (!full ==> |o.state.bytes| == |s.bytes| && o.state.offset == s.offset + size &&
                 o.state.bytes[..o.state.offset] == s.bytes[..s.offset] + w[..size])
  {
    var (size, filled) := BytesFill(s, w);
    assert filled.bytes[..filled.offset] == s.bytes[..s.offset] + w[..size];
    if filled.offset == |filled.bytes| then
      Outcome(BytesDecoderNew(|s.bytes|), Ok(Decoded(size, Some(filled.bytes))))
    else if IsEos(e) then Outcome(filled, Err(InvalidInput))
    else Outcome(filled, Ok(Decoded(size, None)))
  }

  /**
   * The discrepancy, for every array size `N > 0`: after the as-written
   * `decode` has yielded one array, every later call yields `N` zero bytes
   * without consuming anything, whatever the window holds.
   */
  lemma BytesDecodeAsWrittenRepeatsDefault(s: BytesDecoderValue, w1: seq<byte>, e1: Eos, w2: seq<byte>, e2: Eos)
    requires |s.bytes| > 0
    requires var o := BytesDecodeAsWritten(s, w1, e1); o.result.Ok? && o.result.value.item.Some?
    ensures var o1 := BytesDecodeAsWritten(s, w1, e1);
      BytesDecodeAsWritten(o1.state, w2, e2).result == Ok(Decoded(0, Some(Zeros(|s.bytes|))))
  {
    var o1 := BytesDecodeAsWritten(s, w1, e1);
    assert o1.state.bytes[..|s.bytes|] + w2[..0] + o1.state.bytes[|s.bytes|..] == Zeros(|s.bytes|);
  }

  /** The concrete input: `[u8; 2]` on `[1, 2, 3, 4]` and then on `[3, 4]`. */
  lemma BytesDecodeAsWrittenExample()
    ensures var o1 := BytesDecodeAsWritten(BytesDecoderNew(2), [1, 2, 3, 4], New(false));
      o1.result == Ok(Decoded(2, Some([1, 2]))) &&
      BytesDecodeAsWritten(o1.state, [3, 4], New(false)).result == Ok(Decoded(0, Some([0, 0])))
    ensures var c1 := BytesDecode(BytesDecoderNew(2), [1, 2, 3, 4], New(false));
      c1.result == Ok(Decoded(2, Some([1, 2]))) &&
      BytesDecode(c1.state, [3, 4], New(false)).result == Ok(Decoded(2, Some([3, 4])))
  {
    var w: seq<byte> := [1, 2, 3, 4];
    assert w[..2] == [1, 2];
    var s := BytesDecoderNew(2);
    assert BytesFill(s, w).1.bytes == [1, 2];
    var o1 := BytesDecodeAsWritten(s, w, New(false));
    BytesDecodeAsWrittenRepeatsDefault(s, w, New(false), [3, 4], New(false));
    assert Zeros(2) == [0, 0];
    var c1 := BytesDecode(s, w, New(false));
    var w2: seq<byte> := [3, 4];
    assert w2[..2] == [3, 4];
    assert BytesFill(c1.state, w2).1.bytes == [3, 4];
  }

  function BytesDecoderOps(): BufDecoderOps<BytesDecoderValue, seq<byte>>
  {
    BufDecoderOps(BytesDecode, (s: BytesDecoderValue) => |s.bytes| - s.offset)
  }

  lemma BytesDecoderLawful()
    ensures DecodesWithinWindow(BytesDecoderOps())
  {
  }

  /**
   * Feeding an `N`-byte decoder a first window too short to fill it and
   * then a second window yields the first `N` bytes of the two windows
   * together, taking from the second only what was missing.
   */
  lemma BytesDecodeAcrossWindows(n: nat, w1: seq<byte>, w2: seq<byte>, e2: Eos)
    requires |w1| < n <= |w1| + |w2|
    ensures var o1 := BytesDecode(BytesDecoderNew(n), w1, New(false));
      var o2 := BytesDecode(o1.state, w2, e2);
      o1.result == Ok(Decoded(|w1|, None)) &&
      o2.result == Ok(Decoded(n - |w1|, Some((w1 + w2)[..n]))) && o2.state == BytesDecoderNew(n)
  {
    var o1 := BytesDecode(BytesDecoderNew(n), w1, New(false));
    assert w1[..|w1|] == w1;
    var o2 := BytesDecode(o1.state, w2, e2);
    assert o1.state.bytes[..|w1|] + w2[..n - |w1|] == (w1 + w2)[..n];
  }

  /**
   * Round trip: what a `BytesEncoder` writes of an item in one call with
   * enough room, an `N`-byte decoder with `N` the item's length decodes
   * back to the item, at the end of the stream or not.
   */
  lemma BytesRoundTrip(item: seq<byte>, room: nat, eos: Eos)
    requires |item| <= room
    ensures var started := BytesStart(BytesEncoderNew(), item);
      var written := BytesEncode(started.state, room, false).result.value;
      BytesDecode(BytesDecoderNew(|item|), written, eos).result == Ok(Decoded(|item|, Some(item)))
  {
    BytesEncoderWritesItem(BytesEncoderNew(), item, room, false);
    var d := BytesDecoderNew(|item|);
    assert d.bytes[..0] + item[..|item|] == item;
  }

  /** `BytesDecoder<[u8; N]>` filling its array in place. */
  class BytesDecoder {
    var bytes: array<byte>
    var offset: nat

    predicate Valid()
      reads this
    {
      offset <= bytes.Length
    }

    function State(): BytesDecoderValue
      reads this, bytes
      requires Valid()
    {
      BytesDecoderState(bytes[..], offset)
    }

    constructor (n: nat)
      ensures Valid() && State() == BytesDecoderNew(n) && fresh(bytes)
    {
      var a := new byte[n](i => 0);
      assert a[..] == Zeros(n);
      bytes := a;
      offset := 0;
    }

    /** `decode(buf)`; the buffer's cursor moves past what was read, whatever the outcome. */
    method Decode(buf: DecodeBuf) returns (r: Result<Option<seq<byte>>>)
      requires Valid() && buf.Valid()
      modifies this, bytes, buf
      ensures Valid() && buf.Valid()
      ensures var o := BytesDecode(old(State()), DecodeWindow(old(buf.State())), DecodeEos(old(buf.State())));
        State() == o.state && r == ItemOf(o.result) &&
        buf.State() == DecodeRead(old(buf.State()), old(bytes.Length - offset)).1
    {
      ghost var s := State();
      ghost var w := DecodeWindow(buf.State());
      var size := buf.ReadInto(bytes, offset);
      offset := offset + size;
      assert bytes[..] == BytesFill(s, w).1.bytes;
      if offset == bytes.Length {
        var item := bytes[..];
        bytes := new byte[bytes.Length](i => 0);
        offset := 0;
        assert bytes[..] == Zeros(bytes.Length);
        return Ok(Some(item));
      }
      if buf.IsEos() {
        return Err(InvalidInput);
      }
      return Ok(None);
    }
  }

  // ---------------------------------------------------------------------
  // VecDecoder (src/bytes_codec.rs:83-106)
  // ---------------------------------------------------------------------

  /**
   * `decode`: everything in the window is appended (`read_to_end`); at the
   * end of the stream the collected bytes are yielded and the decoder
   * starts empty again.
   */
  function VecDecode(acc: seq<byte>, w: seq<byte>, e: Eos): (o: Outcome<seq<byte>, Decoded<seq<byte>>>)
    ensures o.result.Ok? && o.result.value.size == |w|
    ensures o.result.value.item.Some? <==> IsEos(e)
    ensures IsEos(e) ==> o.state == [] && o.result.value.item.value == acc + w
    ensures !IsEos(e) ==> o.state == acc + w
  {
    if IsEos(e) then Outcome([], Ok(Decoded(|w|, Some(acc + w))))
    else Outcome(acc + w, Ok(Decoded(|w|, None)))
  }

  function VecDecoderOps(): BufDecoderOps<seq<byte>, seq<byte>>
  {
    BufDecoderOps(VecDecode, acc => 0)
  }

  lemma VecDecoderLawful()
    ensures DecodesWithinWindow(VecDecoderOps())
  {
  }

  function Concat(ws: seq<seq<byte>>): seq<byte>
  {
    if ws == [] then [] else Concat(ws[..|ws| - 1]) + ws[|ws| - 1]
  }

  /** Windows before the end of the stream only accumulate: the state is all of them, in order. */
  function VecDecodeAll(acc: seq<byte>, ws: seq<seq<byte>>): seq<byte>
  {
    if ws == [] then acc else VecDecode(VecDecodeAll(acc, ws[..|ws| - 1]), ws[|ws| - 1], New(false)).state
  }

  lemma {:induction false} VecDecodeAllIsConcat(acc: seq<byte>, ws: seq<seq<byte>>)
    ensures VecDecodeAll(acc, ws) == acc + Concat(ws)
  {
    if ws != [] {
      VecDecodeAllIsConcat(acc, ws[..|ws| - 1]);
    }
  }

  /**
   * However the stream is cut into windows, a `VecDecoder` yields, at the
   * end of the stream, all of its bytes in order, and is empty afterwards.
   */
  lemma VecDecoderYieldsStream(ws: seq<seq<byte>>, last: seq<byte>)
    ensures var o := VecDecode(VecDecodeAll([], ws), last, New(true));
      o.result == Ok(Decoded(|last|, Some(Concat(ws) + last))) && o.state == []
  {
    VecDecodeAllIsConcat([], ws);
    assert [] + Concat(ws) == Concat(ws);
  }

  /** `VecDecoder` appending to its vector in place. */
  class VecDecoder {
    var acc: seq<byte>

    constructor ()
      ensures acc == []
    {
      acc := [];
    }

    method Decode(buf: DecodeBuf) returns (r: Result<Option<seq<byte>>>)
      requires buf.Valid()
      modifies this, buf
      ensures buf.Valid()
      ensures var o := VecDecode(old(acc), DecodeWindow(old(buf.State())), DecodeEos(old(buf.State())));
        acc == o.state && r == ItemOf(o.result) && buf.State() == DecodeConsumeAll(old(buf.State()))
    {
      acc := acc + buf.buf[buf.offset..];
      buf.ConsumeAll();
      if buf.IsEos() {
        var item := acc;
        acc := [];
        return Ok(Some(item));
      }
      return Ok(None);
    }
  }

  // ---------------------------------------------------------------------
  // Utf8Encoder and Utf8Decoder (src/bytes_codec.rs:108-156)
  // ---------------------------------------------------------------------

  /** `Utf8Encoder`: a `VecEncoder` started with the string's bytes (`into_bytes`). */
  function Utf8EncoderOps(): BufEncoderOps<BytesEncoderValue, Utf8String>
  {
    BufEncoderOps((s, room, eos) => BytesEncode(s, room, eos), (s, item: Utf8String) => BytesStart(s, item), s => |Unsent(s)|)
  }

  /**
   * `Utf8Decoder::decode`: the bytes the inner decoder yields are the item
   * if they are well-formed UTF-8, and an `InvalidInput` otherwise.
   */
  function Utf8Decode<S>(d: BufDecoderOps<S, seq<byte>>, s: S, w: seq<byte>, e: Eos): (o: Outcome<S, Decoded<Utf8String>>)
    ensures var i := d.decode(s, w, e);
      o.state == i.state &&
      (i.result.Err? ==> o.result == Err(i.result.error)) &&
      (i.result.Ok? && i.result.value.item.None? ==> o.result == Ok(Decoded(i.result.value.size, None))) &&
      (i.result.Ok? && i.result.value.item.Some? ==>
        o.result == if ValidUtf8(i.result.value.item.value) then Ok(Decoded(i.result.value.size, Some(i.result.value.item.value)))
                    else Err(InvalidInput))
  {
    var i := d.decode(s, w, e);
    match i.result
    case Err(err) => Outcome(i.state, Err(err))
    case Ok(r) =>
      match r.item
      case None => Outcome(i.state, Ok(Decoded(r.size, None)))
      case Some(b) => if ValidUtf8(b) then Outcome(i.state, Ok(Decoded(r.size, Some(b)))) else Outcome(i.state, Err(InvalidInput))
  }

  function Utf8DecoderOps<S>(d: BufDecoderOps<S, seq<byte>>): BufDecoderOps<S, Utf8String>
  {
    BufDecoderOps((s, w, e) => Utf8Decode(d, s, w, e), d.sizeHint)
  }

  /**
   * Round trip: the bytes a `Utf8Encoder` writes for a string in one call
   * with enough room, a `Utf8Decoder` over a `VecDecoder` decodes back to
   * the string at the end of the stream.
   */
  lemma Utf8RoundTrip(str: Utf8String, room: nat)
    requires |str| <= room
    ensures var e := Utf8EncoderOps();
      var started := e.start(BytesEncoderNew(), str);
      var written := e.encode(started.state, room, true).result.value;
      Utf8Decode(VecDecoderOps(), [], written, New(true)).result == Ok(Decoded(|str|, Some(str)))
  {
    BytesEncoderWritesItem(BytesEncoderNew(), str, room, true);
    assert [] + str == str;
  }

  /** A lone continuation byte at the end of the stream is refused. */
  lemma Utf8DecoderRefusesInvalid()
    ensures Utf8Decode(VecDecoderOps(), [], [0x80], New(true)).result == Err(InvalidInput)
  {
    InvalidExamples();
    assert [] + [0x80 as byte] == [0x80];
  }
}
