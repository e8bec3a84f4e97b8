/*
 * The byte-sequence codecs of src/bytes.rs: `BytesEncoder`,
 * `CopyableBytesDecoder`, `BytesDecoder`, `RemainingBytesDecoder`,
 * `Utf8Encoder` and `Utf8Decoder`.
 *
 * Each codec appears twice: its fields as a value (`...State`) with the
 * step functions one call performs on them, and a class holding those
 * fields whose methods perform that step in place.  The step functions
 * plug into the combinators as `DecoderOps`/`EncoderOps` records.
 */
module Bytes {
  import opened Base
  import opened ByteCounts
  import opened EndOfStream
  import opened Decode
  import opened Encode
  import opened Utf8

  /**
   * `bytes[offset..][..size].copy_from_slice(&buf[..size])` with
   * `size = min(buf.len(), bytes.len() - offset)`: the bytes before the
   * cursor and after the copied part stay, the copied part comes from `buf`.
   */
  function FillAt(bytes: seq<byte>, offset: nat, buf: seq<byte>): (r: seq<byte>)
    requires offset <= |bytes|
    ensures |r| == |bytes|
    ensures var size := Min(|buf|, |bytes| - offset);
      r[..offset + size] == bytes[..offset] + buf[..size] &&
      r[offset + size..] == bytes[offset + size..]
  {
    var size := Min(|buf|, |bytes| - offset);
    bytes[..offset] + buf[..size] + bytes[offset + size..]
  }

  // ---------------------------------------------------------------------
  // BytesEncoder (src/bytes.rs:22-87)
  // ---------------------------------------------------------------------

  /** The fields of `BytesEncoder`: the item being written, if any, and how much of it is out. */
  datatype EncoderFields = EncoderFields(bytes: Option<seq<byte>>, offset: nat)

  type EncoderState = s: EncoderFields | s.bytes.Some? ==> s.offset <= |s.bytes.value|
    witness EncoderFields(None, 0)

  /** The bytes of the current item that have not been written yet. */
  function Pending(s: EncoderState): seq<byte>
  {
    if s.bytes.Some? then s.bytes.value[s.offset..] else []
  }

  /** `exact_requiring_bytes`: `len - offset` while an item is held, else 0. */
  function EncoderExactRequiringBytes(s: EncoderState): (n: nat)
    ensures n == |Pending(s)|
    ensures s.bytes.None? ==> n == 0
  {
    if s.bytes.Some? then |s.bytes.value| - s.offset else 0
  }

  /** `requiring_bytes`. */
  function EncoderRequiringBytes(s: EncoderState): (c: ByteCount)
    ensures c == Finite(|Pending(s)|)
  {
    Finite(EncoderExactRequiringBytes(s))
  }

  /** `is_idle`: no item is held. */
  predicate EncoderIsIdle(s: EncoderState)
  {
    s.bytes.None?
  }

  /**
   * `encode` into a buffer of `bufLen` bytes.  The next
   * `min(bufLen, len - offset)` pending bytes are written; the item is
   * dropped once all of it is out; an unfinished item at the end of the
   * stream is an `UnexpectedEos` (the cursor has advanced all the same).
   */
  function EncoderEncode(s: EncoderState, bufLen: nat, eos: Eos): (o: Outcome<EncoderState, seq<byte>>)
    ensures var k := Min(bufLen, |Pending(s)|);
      Pending(o.state) == Pending(s)[k..] &&
      (o.result.Ok? ==> o.result.value == Pending(s)[..k])
    ensures EncoderIsIdle(o.state) <==> EncoderIsIdle(s) || bufLen >= |Pending(s)|
    ensures o.result.Err? <==> !EncoderIsIdle(s) && bufLen < |Pending(s)| && IsEos(eos)
    ensures o.result.Err? ==> o.result.error == UnexpectedEos
  {
    match s.bytes
    case None => Outcome(s, Ok([]))
    case Some(b) =>
      var size := Min(bufLen, |b| - s.offset);
      var offset := s.offset + size;
      if offset == |b| then Outcome(EncoderFields(None, offset), Ok(b[s.offset..offset]))
      else if IsEos(eos) then Outcome(EncoderFields(Some(b), offset), Err(UnexpectedEos))
      else Outcome(EncoderFields(Some(b), offset), Ok(b[s.offset..offset]))
  }

  /** `start_encoding`: only an idle encoder takes a new item (else `EncoderFull`). */
  function EncoderStart(s: EncoderState, item: seq<byte>): (o: Outcome<EncoderState, ()>)
    ensures o.result.Ok? <==> EncoderIsIdle(s)
    ensures o.result.Err? ==> o == Outcome(s, Err(EncoderFull))
    ensures o.result.Ok? ==> Pending(o.state) == item && o.state.offset == 0 && !EncoderIsIdle(o.state)
  {
    if !EncoderIsIdle(s) then Outcome(s, Err(EncoderFull))
    else Outcome(EncoderFields(Some(item), 0), Ok(()))
  }

  function BytesEncoderOps(): EncoderOps<EncoderState, seq<byte>>
  {
    EncoderOps(EncoderEncode, EncoderStart, EncoderRequiringBytes, EncoderIsIdle)
  }

  lemma BytesEncoderLawful()
    ensures Encode.Lawful(BytesEncoderOps())
  {
  }

  /**
   * Bytes that do not fit are kept for the next call: two calls write the
   * same bytes, in the same order, as one call with both buffers' room,
   * and leave the same bytes pending.
   */
  lemma EncoderEncodeInPieces(s: EncoderState, n1: nat, n2: nat, eos: Eos)
    ensures EncoderEncode(s, n1, New(false)).result.Ok?
    ensures var first := EncoderEncode(s, n1, New(false));
      var second := EncoderEncode(first.state, n2, eos);
      var k := Min(n1 + n2, |Pending(s)|);
      Pending(second.state) == Pending(s)[k..] &&
      (second.result.Ok? ==> first.result.value + second.result.value == Pending(s)[..k])
  {
    assert !IsEos(New(false));
    var p := Pending(s);
    var first := EncoderEncode(s, n1, New(false));
    var k1 := Min(n1, |p|);
    var q := Pending(first.state);
    assert q == p[k1..];
    var k2 := Min(n2, |q|);
    var second := EncoderEncode(first.state, n2, eos);
    assert Pending(second.state) == q[k2..];
    assert second.result.Ok? ==> second.result.value == q[..k2];
    MinSplit(n1, n2, |p|);
    SplitTwice(p, k1, k2);
  }

  lemma MinSplit(n1: nat, n2: nat, m: nat)
    ensures Min(n1, m) + Min(n2, m - Min(n1, m)) == Min(n1 + n2, m)
  {
  }

  lemma SplitTwice(p: seq<byte>, k1: nat, k2: nat)
    requires k1 <= |p| && k2 <= |p| - k1
    ensures p[..k1] + p[k1..][..k2] == p[..k1 + k2]
    ensures p[k1..][k2..] == p[k1 + k2..]
  {
  }

  /** A started encoder given room for the whole item writes exactly the item and becomes idle. */
  lemma EncoderWritesItem(s: EncoderState, item: seq<byte>, n: nat, eos: Eos)
    requires EncoderIsIdle(s) && n >= |item|
    ensures var started := EncoderStart(s, item).state;
      EncoderExactRequiringBytes(started) == |item| &&
      EncoderEncode(started, n, eos).result == Ok(item) &&
      EncoderIsIdle(EncoderEncode(started, n, eos).state)
  {
    assert item[..|item|] == item;
  }

  /** `BytesEncoder` performing `EncoderEncode`/`EncoderStart` on its own fields. */
  class BytesEncoder {
    var bytes: Option<seq<byte>>
    var offset: nat

    ghost predicate Valid()
      reads this
    {
      bytes.Some? ==> offset <= |bytes.value|
    }

    function State(): EncoderState
      reads this
      requires Valid()
    {
      EncoderFields(bytes, offset)
    }

    /** `BytesEncoder::new()` and `Default::default()`. */
    constructor ()
      ensures Valid() && State() == EncoderFields(None, 0)
    {
      bytes := None;
      offset := 0;
    }

    method Encode(buf: array<byte>, eos: Eos) returns (r: Result<nat>)
      requires Valid()
      modifies this, buf
      ensures Valid()
      ensures var o := EncoderEncode(old(State()), buf.Length, eos);
        State() == o.state &&
        r == (if o.result.Ok? then Ok(|o.result.value|) else Err(o.result.error))
      ensures var k := Min(buf.Length, |Pending(old(State()))|);
        buf[..] == Pending(old(State()))[..k] + old(buf[k..])
    {
      var size := 0;
      var dropItem := false;
      if bytes.Some? {
        var b := bytes.value;
        size := Min(buf.Length, |b| - offset);
        CopyInto(buf, 0, b[offset..offset + size]);
        offset := offset + size;
        if offset == |b| {
          dropItem := true;
        } else if IsEos(eos) {
          assert EncoderEncode(old(State()), buf.Length, eos) == Outcome(State(), Err(UnexpectedEos));
          return Err(UnexpectedEos);
        }
      }
      if dropItem {
        bytes := None;
      }
      return Ok(size);
    }

    method StartEncoding(item: seq<byte>) returns (r: Result<()>)
      requires Valid()
      modifies this
      ensures Valid()
      ensures Outcome(State(), r) == EncoderStart(old(State()), item)
    {
      if bytes.Some? {
        return Err(EncoderFull);
      }
      bytes := Some(item);
      offset := 0;
      return Ok(());
    }
  }

  // ---------------------------------------------------------------------
  // CopyableBytesDecoder (src/bytes.rs:92-175)
  // ---------------------------------------------------------------------

  /** The fields of `CopyableBytesDecoder`: the fixed-size target and the fill cursor. */
  datatype CopyableFields = CopyableFields(bytes: seq<byte>, offset: nat)

  type CopyableState = s: CopyableFields | s.offset <= |s.bytes| witness CopyableFields([], 0)

  /**
   * `decode`: copy as much of `buf` as fits behind the cursor.  The decoded
   * prefix grows by exactly the bytes consumed; still incomplete at the end
   * of the stream is an `UnexpectedEos` (after the copy).
   */
  function CopyableDecode(s: CopyableState, buf: seq<byte>, eos: Eos): (o: Outcome<CopyableState, nat>)
    ensures var size := Min(|buf|, |s.bytes| - s.offset);
      o.state == CopyableFields(FillAt(s.bytes, s.offset, buf), s.offset + size) &&
      o.state.bytes[..o.state.offset] == s.bytes[..s.offset] + buf[..size] &&
      (o.result.Ok? ==> o.result.value == size)
    ensures o.state.offset == |s.bytes| <==> |buf| >= |s.bytes| - s.offset
    ensures o.result.Err? <==> o.state.offset != |s.bytes| && IsEos(eos)
    ensures o.result.Err? ==> o.result.error == UnexpectedEos
  {
    var size := Min(|buf|, |s.bytes| - s.offset);
    var next := CopyableFields(FillAt(s.bytes, s.offset, buf), s.offset + size);
    if next.offset != |s.bytes| && IsEos(eos) then Outcome(next, Err(UnexpectedEos))
    else Outcome(next, Ok(size))
  }

  /** `finish_decoding`: a full target is returned and the cursor rewinds for the next item. */
  function CopyableFinish(s: CopyableState): (o: Outcome<CopyableState, seq<byte>>)
    ensures o.result.Ok? <==> s.offset == |s.bytes|
    ensures o.result.Err? ==> o == Outcome(s, Err(IncompleteDecoding))
    ensures o.result.Ok? ==> o.result.value == s.bytes && o.state == CopyableFields(s.bytes, 0)
  {
    if s.offset != |s.bytes| then Outcome(s, Err(IncompleteDecoding))
    else Outcome(CopyableFields(s.bytes, 0), Ok(s.bytes))
  }

  function CopyableRequiringBytes(s: CopyableState): (c: ByteCount)
    ensures c.Finite? && s.offset + c.n == |s.bytes|
  {
    Finite(|s.bytes| - s.offset)
  }

  predicate CopyableIsIdle(s: CopyableState)
  {
    s.offset == |s.bytes|
  }

  function CopyableOps(): DecoderOps<CopyableState, seq<byte>>
  {
    DecoderOps(CopyableDecode, CopyableFinish, CopyableRequiringBytes, CopyableIsIdle)
  }

  lemma CopyableLawful()
    ensures Decode.Lawful(CopyableOps()) && Decode.HasDefaultIsIdle(CopyableOps())
  {
  }

  /**
   * The decoder is reusable: from a rewound cursor, whatever the target held
   * before, enough input yields its first `N` bytes and leaves the cursor
   * rewound again.
   */
  lemma CopyableReusable(s: CopyableState, buf: seq<byte>, eos: Eos)
    requires s.offset == 0 && |buf| >= |s.bytes|
    ensures var decoded := CopyableDecode(s, buf, eos);
      decoded.result == Ok(|s.bytes|) &&
      CopyableFinish(decoded.state).result == Ok(buf[..|s.bytes|]) &&
      CopyableFinish(decoded.state).state.offset == 0
  {
    var decoded := CopyableDecode(s, buf, eos);
    var n := |s.bytes|;
    assert decoded.state.offset == n;
    assert decoded.state.bytes == decoded.state.bytes[..n];
    assert s.bytes[..0] + buf[..n] == buf[..n];
  }

  /**
   * Splitting the input does not matter: an unfinished call followed by a
   * second one leaves the state one call on the joined input leaves.
   */
  lemma CopyableSplitInput(s: CopyableState, a: seq<byte>, b: seq<byte>, eos: Eos)
    requires |a| < |s.bytes| - s.offset
    ensures var first := CopyableDecode(s, a, New(false));
      var second := CopyableDecode(first.state, b, eos);
      var whole := CopyableDecode(s, a + b, eos);
      first.result == Ok(|a|) && second.state == whole.state &&
      (second.result.Ok? <==> whole.result.Ok?) &&
      (whole.result.Ok? ==> whole.result.value == |a| + second.result.value)
  {
    var first := CopyableDecode(s, a, New(false));
    var second := CopyableDecode(first.state, b, eos);
    var whole := CopyableDecode(s, a + b, eos);
    var k := Min(|b|, |s.bytes| - s.offset - |a|);
    assert (a + b)[..|a| + k] == a + b[..k];
    assert second.state.bytes == whole.state.bytes by {
      assert second.state.bytes == second.state.bytes[..s.offset + |a| + k] + second.state.bytes[s.offset + |a| + k..];
      assert whole.state.bytes == whole.state.bytes[..s.offset + |a| + k] + whole.state.bytes[s.offset + |a| + k..];
      assert first.state.bytes[..s.offset + |a|] == s.bytes[..s.offset] + a;
      assert first.state.bytes[s.offset + |a|..] == s.bytes[s.offset + |a|..];
    }
  }

  /** The example of the `CopyableBytesDecoder` documentation: "foobar" through a 3-byte target. */
  lemma CopyableDocExample()
    ensures var foobar: seq<byte> := [0x66, 0x6F, 0x6F, 0x62, 0x61, 0x72];
      var s0 := CopyableFields([0, 0, 0], 0);
      var d1 := CopyableDecode(s0, foobar[0..3], New(false));
      var f1 := CopyableFinish(d1.state);
      var d2 := CopyableDecode(f1.state, foobar[3..5], New(false));
      var d3 := CopyableDecode(d2.state, foobar[5..], New(true));
      var f2 := CopyableFinish(d3.state);
      CopyableRequiringBytes(s0) == Finite(3) &&
      CopyableIsIdle(d1.state) && f1.result == Ok(foobar[..3]) &&
      CopyableRequiringBytes(f1.state) == Finite(3) &&
      !CopyableIsIdle(d2.state) && CopyableRequiringBytes(d2.state) == Finite(1) &&
      d3.result.Ok? && CopyableIsIdle(d3.state) && f2.result == Ok(foobar[3..])
  {
    var foobar: seq<byte> := [0x66, 0x6F, 0x6F, 0x62, 0x61, 0x72];
    var zeros: seq<byte> := [0, 0, 0];
    var foo: seq<byte> := [0x66, 0x6F, 0x6F];
    assert foobar[0..3] == foo && foobar[..3] == foo;
    assert FillAt(zeros, 0, foo) == foo by {
      assert zeros[..0] + foo[..3] + zeros[3..] == foo;
    }
    var d1 := CopyableDecode(CopyableFields(zeros, 0), foo, New(false));
    assert d1.state == CopyableFields(foo, 3);
    assert foobar[3..5] == [0x62, 0x61];
    assert FillAt(foo, 0, [0x62, 0x61]) == [0x62, 0x61, 0x6F] by {
      assert foo[..0] + [0x62 as byte, 0x61][..2] + foo[2..] == [0x62, 0x61, 0x6F];
    }
    var d2 := CopyableDecode(CopyableFields(foo, 0), [0x62, 0x61], New(false));
    assert d2.state == CopyableFields([0x62, 0x61, 0x6F], 2);
    assert foobar[5..] == [0x72] && foobar[3..] == [0x62, 0x61, 0x72];
    var ba: seq<byte> := [0x62, 0x61, 0x6F];
    assert FillAt(ba, 2, [0x72]) == [0x62, 0x61, 0x72] by {
      assert ba[..2] + [0x72 as byte][..1] + ba[3..] == [0x62, 0x61, 0x72];
    }
  }

  /** `CopyableBytesDecoder<[u8; N]>`: the target is a fixed-size array filled in place. */
  class CopyableBytesDecoder {
    const bytes: array<byte>
    var offset: nat

    ghost predicate Valid()
      reads this
    {
      offset <= bytes.Length
    }

    function State(): CopyableState
      reads this, bytes
      requires Valid()
    {
      CopyableFields(bytes[..], offset)
    }

    /** `CopyableBytesDecoder::new(bytes)`. */
    constructor (initial: seq<byte>)
      ensures Valid() && State() == CopyableFields(initial, 0) && fresh(bytes)
    {
      bytes := new byte[|initial|](i => if 0 <= i < |initial| then initial[i] else 0);
      offset := 0;
      new;
      assert bytes[..] == initial;
    }

    method Decode(buf: seq<byte>, eos: Eos) returns (r: Result<nat>)
      requires Valid()
      modifies this, bytes
      ensures Valid()
      ensures Outcome(State(), r) == CopyableDecode(old(State()), buf, eos)
    {
      var size := Min(|buf|, bytes.Length - offset);
      CopyInto(bytes, offset, buf[..size]);
      offset := offset + size;
      if offset != bytes.Length && IsEos(eos) {
        return Err(UnexpectedEos);
      }
      return Ok(size);
    }

    method FinishDecoding() returns (r: Result<seq<byte>>)
      requires Valid()
      modifies this
      ensures Valid()
      ensures Outcome(State(), r) == CopyableFinish(old(State()))
    {
      if offset != bytes.Length {
        return Err(IncompleteDecoding);
      }
      offset := 0;
      return Ok(bytes[..]);
    }
  }

  // ---------------------------------------------------------------------
  // BytesDecoder (src/bytes.rs:177-267)
  // ---------------------------------------------------------------------

  /** The fields of `BytesDecoder`: the target to fill (until taken) and the fill cursor. */
  datatype BytesDecoderFields = BytesDecoderFields(bytes: Option<seq<byte>>, offset: nat)

  type BytesDecoderState = s: BytesDecoderFields | s.bytes.Some? ==> s.offset <= |s.bytes.value|
    witness BytesDecoderFields(None, 0)

  /** `exact_requiring_bytes`: the room left in the target, 0 once it is taken. */
  function BytesDecoderExact(s: BytesDecoderState): (n: nat)
    ensures s.bytes.Some? ==> s.offset + n == |s.bytes.value|
    ensures s.bytes.None? ==> n == 0
  {
    if s.bytes.Some? then |s.bytes.value| - s.offset else 0
  }

  /** `decode`: fill the target; without a target the decoder has terminated. */
  function BytesDecoderDecode(s: BytesDecoderState, buf: seq<byte>, eos: Eos): (o: Outcome<BytesDecoderState, nat>)
    ensures s.bytes.None? ==> o == Outcome(s, Err(DecoderTerminated))
    ensures s.bytes.Some? ==>
      var size := Min(|buf|, BytesDecoderExact(s));
      o.state == BytesDecoderFields(Some(FillAt(s.bytes.value, s.offset, buf)), s.offset + size) &&
      (o.result.Ok? ==> o.result.value == size) &&
      (o.result.Err? <==> size < BytesDecoderExact(s) && IsEos(eos)) &&
      (o.result.Err? ==> o.result.error == UnexpectedEos)
  {
    match s.bytes
    case None => Outcome(s, Err(DecoderTerminated))
    case Some(b) =>
      var size := Min(|buf|, |b| - s.offset);
      var next := BytesDecoderFields(Some(FillAt(b, s.offset, buf)), s.offset + size);
      if BytesDecoderExact(next) != 0 && IsEos(eos) then Outcome(next, Err(UnexpectedEos))
      else Outcome(next, Ok(size))
  }

  /** `finish_decoding`: hand the full target over, once. */
  function BytesDecoderFinish(s: BytesDecoderState): (o: Outcome<BytesDecoderState, seq<byte>>)
    ensures BytesDecoderExact(s) != 0 ==> o == Outcome(s, Err(IncompleteDecoding))
    ensures BytesDecoderExact(s) == 0 && s.bytes.None? ==> o == Outcome(s, Err(DecoderTerminated))
    ensures BytesDecoderExact(s) == 0 && s.bytes.Some? ==>
      o.result == Ok(s.bytes.value) && o.state.bytes.None?
  {
    if BytesDecoderExact(s) != 0 then Outcome(s, Err(IncompleteDecoding))
    else match s.bytes
      case None => Outcome(s, Err(DecoderTerminated))
      case Some(b) => Outcome(BytesDecoderFields(None, s.offset), Ok(b))
  }

  function BytesDecoderRequiringBytes(s: BytesDecoderState): (c: ByteCount)
    ensures c == Finite(BytesDecoderExact(s))
  {
    Finite(BytesDecoderExact(s))
  }

  predicate BytesDecoderIsIdle(s: BytesDecoderState)
  {
    BytesDecoderExact(s) == 0
  }

  /** `set_bytes`: a new target, cursor at its start. */
  function BytesDecoderSetBytes(s: BytesDecoderState, bytes: seq<byte>): (r: BytesDecoderState)
    ensures BytesDecoderExact(r) == |bytes|
    ensures r.bytes == Some(bytes)
  {
    BytesDecoderFields(Some(bytes), 0)
  }

  function BytesDecoderOps(): DecoderOps<BytesDecoderState, seq<byte>>
  {
    DecoderOps(BytesDecoderDecode, BytesDecoderFinish, BytesDecoderRequiringBytes, BytesDecoderIsIdle)
  }

  lemma BytesDecoderLawful()
    ensures Decode.Lawful(BytesDecoderOps()) && Decode.HasDefaultIsIdle(BytesDecoderOps())
  {
  }

  /**
   * One shot: after the item has been taken, the decoder requires nothing
   * and every further `decode` or `finish_decoding` is `DecoderTerminated`.
   */
  lemma BytesDecoderOneShot(s: BytesDecoderState, buf: seq<byte>, eos: Eos)
    requires BytesDecoderFinish(s).result.Ok?
    ensures var taken := BytesDecoderFinish(s).state;
      BytesDecoderRequiringBytes(taken) == Finite(0) &&
      BytesDecoderDecode(taken, buf, eos).result == Err(DecoderTerminated) &&
      BytesDecoderFinish(taken).result == Err(DecoderTerminated)
  {
  }

  /** The test of src/bytes.rs: a 3-byte target fed "foobar" yields "foo", then terminates. */
  lemma BytesDecoderExample()
    ensures var foobar: seq<byte> := [0x66, 0x6F, 0x6F, 0x62, 0x61, 0x72];
      var s0 := BytesDecoderFields(Some([0, 0, 0]), 0);
      var d1 := BytesDecoderDecode(s0, foobar, New(false));
      var f1 := BytesDecoderFinish(d1.state);
      BytesDecoderRequiringBytes(s0) == Finite(3) &&
      d1.result == Ok(3) && f1.result == Ok(foobar[..3]) &&
      BytesDecoderRequiringBytes(f1.state) == Finite(0) &&
      BytesDecoderDecode(f1.state, foobar[3..], New(false)).result == Err(DecoderTerminated)
  {
    var foobar: seq<byte> := [0x66, 0x6F, 0x6F, 0x62, 0x61, 0x72];
    var zeros: seq<byte> := [0, 0, 0];
    assert FillAt(zeros, 0, foobar) == foobar[..3] by {
      assert zeros[..0] + foobar[..3] + zeros[3..] == foobar[..3];
    }
    assert foobar[..3] == [0x66, 0x6F, 0x6F];
  }

  /** `BytesDecoder` performing the step functions on its own fields. */
  class BytesDecoder {
    var bytes: Option<seq<byte>>
    var offset: nat

    ghost predicate Valid()
      reads this
    {
      bytes.Some? ==> offset <= |bytes.value|
    }

    function State(): BytesDecoderState
      reads this
      requires Valid()
    {
      BytesDecoderFields(bytes, offset)
    }

    /** `BytesDecoder::new(bytes)`. */
    constructor (initial: seq<byte>)
      ensures Valid() && State() == BytesDecoderFields(Some(initial), 0)
    {
      bytes := Some(initial);
      offset := 0;
    }

    method SetBytes(b: seq<byte>)
      requires Valid()
      modifies this
      ensures Valid() && State() == BytesDecoderSetBytes(old(State()), b)
    {
      bytes := Some(b);
      offset := 0;
    }

    method Decode(buf: seq<byte>, eos: Eos) returns (r: Result<nat>)
      requires Valid()
      modifies this
      ensures Valid()
      ensures Outcome(State(), r) == BytesDecoderDecode(old(State()), buf, eos)
    {
      if bytes.None? {
        return Err(DecoderTerminated);
      }
      var b := bytes.value;
      var size := Min(|buf|, |b| - offset);
      bytes := Some(FillAt(b, offset, buf));
      offset := offset + size;
      if |b| - offset != 0 && IsEos(eos) {
        return Err(UnexpectedEos);
      }
      return Ok(size);
    }

    method FinishDecoding() returns (r: Result<seq<byte>>)
      requires Valid()
      modifies this
      ensures Valid()
      ensures Outcome(State(), r) == BytesDecoderFinish(old(State()))
    {
      if bytes.Some? && |bytes.value| - offset != 0 {
        return Err(IncompleteDecoding);
      }
      if bytes.None? {
        return Err(DecoderTerminated);
      }
      var b := bytes.value;
      bytes := None;
      return Ok(b);
    }
  }

  // ---------------------------------------------------------------------
  // RemainingBytesDecoder (src/bytes.rs:269-334)
  // ---------------------------------------------------------------------

  /** The fields of `RemainingBytesDecoder`: the bytes gathered and whether the stream ended. */
  datatype RemainingState = RemainingState(buf: seq<byte>, eos: bool)

  /** `decode`: take the whole buffer until the end of the stream, nothing after it. */
  function RemainingDecode(s: RemainingState, buf: seq<byte>, eos: Eos): (o: Outcome<RemainingState, nat>)
    ensures s.eos ==> o == Outcome(s, Ok(0))
    ensures !s.eos ==> o.result == Ok(|buf|) && o.state.buf == s.buf + buf && (o.state.eos <==> IsEos(eos))
  {
    if s.eos then Outcome(s, Ok(0))
    else Outcome(RemainingState(s.buf + buf, IsEos(eos)), Ok(|buf|))
  }

  /** `finish_decoding`: only after the end of the stream; the decoder starts over empty. */
  function RemainingFinish(s: RemainingState): (o: Outcome<RemainingState, seq<byte>>)
    ensures !s.eos ==> o == Outcome(s, Err(IncompleteDecoding))
    ensures s.eos ==> o.result == Ok(s.buf) && o.state == RemainingState([], false)
  {
    if !s.eos then Outcome(s, Err(IncompleteDecoding))
    else Outcome(RemainingState([], false), Ok(s.buf))
  }

  /** `requiring_bytes`: `Infinite` until the end of the stream, then `Finite(0)`. */
  function RemainingRequiringBytes(s: RemainingState): (c: ByteCount)
    ensures c == Finite(0) <==> s.eos
    ensures !s.eos ==> c.Infinite?
  {
    if s.eos then Finite(0) else Infinite
  }

  predicate RemainingIsIdle(s: RemainingState)
  {
    s.eos
  }

  function RemainingOps(): DecoderOps<RemainingState, seq<byte>>
  {
    DecoderOps(RemainingDecode, RemainingFinish, RemainingRequiringBytes, RemainingIsIdle)
  }

  lemma RemainingLawful()
    ensures Decode.Lawful(RemainingOps()) && Decode.HasDefaultIsIdle(RemainingOps())
  {
  }

  function Concat(chunks: seq<seq<byte>>): seq<byte>
  {
    if chunks == [] then [] else chunks[0] + Concat(chunks[1..])
  }

  /** The state after the chunks are decoded one by one, none at the end of the stream. */
  function RemainingFeed(s: RemainingState, chunks: seq<seq<byte>>): RemainingState
    decreases |chunks|
  {
    if chunks == [] then s else RemainingFeed(RemainingDecode(s, chunks[0], New(false)).state, chunks[1..])
  }

  /** Before the end of the stream every chunk is kept, in order. */
  lemma {:induction false} RemainingGathersEverything(s: RemainingState, chunks: seq<seq<byte>>)
    requires !s.eos
    ensures RemainingFeed(s, chunks) == RemainingState(s.buf + Concat(chunks), false)
    decreases |chunks|
  {
    if chunks != [] {
      RemainingGathersEverything(RemainingDecode(s, chunks[0], New(false)).state, chunks[1..]);
      assert s.buf + chunks[0] + Concat(chunks[1..]) == s.buf + Concat(chunks);
    }
  }

  /** The example of the `RemainingBytesDecoder` documentation. */
  lemma RemainingDocExample()
    ensures var s0 := RemainingState([], false);
      var d1 := RemainingDecode(s0, [0x66, 0x6F, 0x6F], New(false));
      var d2 := RemainingDecode(d1.state, [0x62, 0x61, 0x72], New(true));
      RemainingRequiringBytes(s0).Infinite? &&
      d1.result == Ok(3) && !RemainingIsIdle(d1.state) &&
      d2.result == Ok(3) && RemainingIsIdle(d2.state) &&
      RemainingFinish(d2.state).result == Ok([0x66, 0x6F, 0x6F, 0x62, 0x61, 0x72])
  {
    assert [] + [0x66 as byte, 0x6F, 0x6F] + [0x62, 0x61, 0x72] == [0x66, 0x6F, 0x6F, 0x62, 0x61, 0x72];
  }

  /** `RemainingBytesDecoder` extending its own buffer in place. */
  class RemainingBytesDecoder {
    var buf: seq<byte>
    var eos: bool

    function State(): RemainingState
      reads this
    {
      RemainingState(buf, eos)
    }

    /** `RemainingBytesDecoder::new()` and `Default::default()`. */
    constructor ()
      ensures State() == RemainingState([], false)
    {
      buf := [];
      eos := false;
    }

    method Decode(input: seq<byte>, e: Eos) returns (r: Result<nat>)
      modifies this
      ensures Outcome(State(), r) == RemainingDecode(old(State()), input, e)
    {
      if eos {
        return Ok(0);
      }
      buf := buf + input;
      eos := IsEos(e);
      return Ok(|input|);
    }

    method FinishDecoding() returns (r: Result<seq<byte>>)
      modifies this
      ensures Outcome(State(), r) == RemainingFinish(old(State()))
    {
      if !eos {
        return Err(IncompleteDecoding);
      }
      eos := false;
      r := Ok(buf);
      buf := [];
    }
  }

  // ---------------------------------------------------------------------
  // Utf8Encoder and Utf8Decoder (src/bytes.rs:336-466)
  // ---------------------------------------------------------------------

  /** `Utf8Encoder`: a `BytesEncoder` started with the string's UTF-8 bytes. */
  function Utf8EncoderOps(): EncoderOps<EncoderState, Utf8String>
  {
    EncoderOps(EncoderEncode, (s, item: Utf8String) => EncoderStart(s, item), EncoderRequiringBytes, EncoderIsIdle)
  }

  /** A string encodes as its own bytes, and the encoder is idle afterwards (the test of src/bytes.rs). */
  lemma Utf8EncoderWritesString(item: Utf8String, n: nat)
    requires n >= |item|
    ensures var started := Utf8EncoderOps().start(EncoderFields(None, 0), item);
      started.result.Ok? &&
      Utf8EncoderOps().encode(started.state, n, New(true)).result == Ok(item) &&
      Utf8EncoderOps().isIdle(Utf8EncoderOps().encode(started.state, n, New(true)).state)
  {
    EncoderWritesItem(EncoderFields(None, 0), item, n, New(true));
  }

  /** `Utf8Decoder::finish_decoding`: the inner bytes, provided they are well-formed UTF-8. */
  function Utf8Finish<S>(d: DecoderOps<S, seq<byte>>, s: S): (o: Outcome<S, Utf8String>)
    ensures d.finish(s).result.Err? ==> o == Outcome(d.finish(s).state, Err(d.finish(s).result.error))
    ensures d.finish(s).result.Ok? ==>
      o.state == d.finish(s).state &&
      (o.result.Ok? <==> ValidUtf8(d.finish(s).result.value)) &&
      (o.result.Ok? ==> o.result.value == d.finish(s).result.value) &&
      (o.result.Err? ==> o.result.error == InvalidInput)
  {
    var inner := d.finish(s);
    match inner.result
    case Err(e) => Outcome(inner.state, Err(e))
    case Ok(b) => if ValidUtf8(b) then Outcome(inner.state, Ok(b)) else Outcome(inner.state, Err(InvalidInput))
  }

  /** `Utf8Decoder<D>`: every operation but `finish_decoding` is the inner decoder's. */
  function Utf8DecoderOps<S>(d: DecoderOps<S, seq<byte>>): DecoderOps<S, Utf8String>
  {
    DecoderOps(d.decode, s => Utf8Finish(d, s), d.requiringBytes, d.isIdle)
  }

  lemma Utf8DecoderLawful<S(!new)>(d: DecoderOps<S, seq<byte>>)
    requires Decode.Lawful(d)
    ensures Decode.Lawful(Utf8DecoderOps(d))
  {
  }

  /** The documentation example with the default inner decoder, and a rejected byte sequence. */
  lemma Utf8DecoderExamples()
    ensures var d := Utf8DecoderOps(RemainingOps());
      var foo := d.decode(RemainingState([], false), [0x66, 0x6F, 0x6F], New(true));
      var bad := d.decode(RemainingState([], false), [0x66, 0x80], New(true));
      d.finish(foo.state).result == Ok([0x66, 0x6F, 0x6F]) &&
      d.finish(bad.state).result == Err(InvalidInput)
  {
    var foo: seq<byte> := [0x66, 0x6F, 0x6F];
    assert [] + foo == foo;
    AsciiValid(foo);
    var bad: seq<byte> := [0x66, 0x80];
    assert [] + bad == bad;
    assert bad[..1] == [0x66];
    assert bad[1..] == [0x80];
    assert !ValidUtf8(bad[1..]);
  }

  /** `Utf8Decoder` over an inner decoder whose state it holds. */
  class Utf8Decoder<S> {
    var inner: S
    const ops: DecoderOps<S, seq<byte>>

    /** `Utf8Decoder::with_bytes_decoder(d)`. */
    constructor (d: DecoderOps<S, seq<byte>>, s: S)
      ensures inner == s && ops == d
    {
      inner := s;
      ops := d;
    }

    method Decode(buf: seq<byte>, eos: Eos) returns (r: Result<nat>)
      modifies this
      ensures Outcome(inner, r) == Utf8DecoderOps(ops).decode(old(inner), buf, eos)
    {
      var o := ops.decode(inner, buf, eos);
      inner := o.state;
      r := o.result;
    }

    method FinishDecoding() returns (r: Result<Utf8String>)
      modifies this
      ensures Outcome(inner, r) == Utf8Finish(ops, old(inner))
    {
      var o := ops.finish(inner);
      inner := o.state;
      if o.result.Err? {
        return Err(o.result.error);
      }
      if !ValidUtf8(o.result.value) {
        return Err(InvalidInput);
      }
      return Ok(o.result.value);
    }
  }
}
