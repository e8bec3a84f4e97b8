/*
 * Padding codecs (src/padding.rs): a decoder that discards bytes up to the
 * end of the stream, optionally insisting on one padding byte value, and an
 * encoder that fills every buffer it is given with its padding byte until
 * the end of the stream.
 */
module Padding {
  import opened Base
  import opened ByteCounts
  import opened EndOfStream
  import opened Decode
  import opened Encode

  // ---------------------------------------------------------------------
  // PaddingDecoder (src/padding.rs:4-68)
  // ---------------------------------------------------------------------

  /** The fields of `PaddingDecoder`. */
  datatype PaddingDecoderState = PaddingDecoderState(expectedByte: Option<byte>, eos: bool)

  /** Every byte of `buf` is `b`. */
  predicate AllEqual(buf: seq<byte>, b: byte)
  {
    forall i :: 0 <= i < |buf| ==> buf[i] == b
  }

  /**
   * `decode`: after the end of the stream nothing is consumed; before it the
   * whole buffer is, unless a byte differs from the expected one
   * (`InvalidInput`, and the state is left as it was).
   */
  function PaddingDecode(s: PaddingDecoderState, buf: seq<byte>, eos: Eos): (o: Outcome<PaddingDecoderState, nat>)
    ensures s.eos ==> o == Outcome(s, Ok(0))
    ensures !s.eos && s.expectedByte.Some? && !AllEqual(buf, s.expectedByte.value) ==>
      o == Outcome(s, Err(InvalidInput))
    ensures o.result.Ok? && !s.eos ==>
      o.result.value == |buf| && o.state == s.(eos := IsEos(eos)) &&
      (s.expectedByte.Some? ==> AllEqual(buf, s.expectedByte.value))
  {
    if s.eos then Outcome(s, Ok(0))
    else if s.expectedByte.Some? && !AllEqual(buf, s.expectedByte.value) then Outcome(s, Err(InvalidInput))
    else Outcome(s.(eos := IsEos(eos)), Ok(|buf|))
  }

  /** `finish_decoding`: only once the end of the stream was seen; then it starts over. */
  function PaddingFinish(s: PaddingDecoderState): (o: Outcome<PaddingDecoderState, ()>)
    ensures o.result.Ok? <==> s.eos
    ensures !s.eos ==> o == Outcome(s, Err(IncompleteDecoding))
    ensures s.eos ==> !o.state.eos && o.state.expectedByte == s.expectedByte
  {
    if !s.eos then Outcome(s, Err(IncompleteDecoding))
    else Outcome(s.(eos := false), Ok(()))
  }

  /** `requiring_bytes`: `Infinite` until the end of the stream, then `Finite(0)`. */
  function PaddingDecoderRequiringBytes(s: PaddingDecoderState): (c: ByteCount)
    ensures c == Finite(0) <==> s.eos
    ensures !s.eos ==> c.Infinite?
  {
    if s.eos then Finite(0) else Infinite
  }

  predicate PaddingDecoderIsIdle(s: PaddingDecoderState)
  {
    s.eos
  }

  function PaddingDecoderOps(): DecoderOps<PaddingDecoderState, ()>
  {
    DecoderOps(PaddingDecode, PaddingFinish, PaddingDecoderRequiringBytes, PaddingDecoderIsIdle)
  }

  lemma PaddingDecoderLawful()
    ensures Decode.Lawful(PaddingDecoderOps()) && Decode.HasDefaultIsIdle(PaddingDecoderOps())
  {
  }

  /** The test of src/padding.rs: any bytes without an expected byte; exactly the expected byte otherwise. */
  lemma PaddingDecoderExamples()
    ensures DecodeFromBytes(PaddingDecoderOps(), PaddingDecoderState(None, false), seq(8, _ => 0)).result.Ok?
    ensures DecodeFromBytes(PaddingDecoderOps(), PaddingDecoderState(Some(1), false), seq(8, _ => 1)).result.Ok?
    ensures DecodeFromBytes(PaddingDecoderOps(), PaddingDecoderState(Some(1), false), seq(8, _ => 0)).result
      == Err(InvalidInput)
  {
    var zeros: seq<byte> := seq(8, _ => 0);
    assert zeros[0] != 1;
  }

  /** `PaddingDecoder` checking its input byte by byte. */
  class PaddingDecoder {
    var expectedByte: Option<byte>
    var eos: bool

    function State(): PaddingDecoderState
      reads this
    {
      PaddingDecoderState(expectedByte, eos)
    }

    /** `PaddingDecoder::new(expected_byte)`. */
    constructor (expected: Option<byte>)
      ensures State() == PaddingDecoderState(expected, false)
    {
      expectedByte := expected;
      eos := false;
    }

    method SetExpectedByte(b: Option<byte>)
      modifies this
      ensures State() == old(State()).(expectedByte := b)
    {
      expectedByte := b;
    }

    method Decode(buf: seq<byte>, e: Eos) returns (r: Result<nat>)
      modifies this
      ensures Outcome(State(), r) == PaddingDecode(old(State()), buf, e)
    {
      if eos {
        return Ok(0);
      }
      if expectedByte.Some? {
        var expected := expectedByte.value;
        var i := 0;
        while i < |buf|
          invariant 0 <= i <= |buf|
          invariant forall k :: 0 <= k < i ==> buf[k] == expected
        {
          if buf[i] != expected {
            return Err(InvalidInput);
          }
          i := i + 1;
        }
      }
      eos := IsEos(e);
      return Ok(|buf|);
    }

    method FinishDecoding() returns (r: Result<()>)
      modifies this
      ensures Outcome(State(), r) == PaddingFinish(old(State()))
    {
      if !eos {
        return Err(IncompleteDecoding);
      }
      eos := false;
      return Ok(());
    }
  }

  // ---------------------------------------------------------------------
  // PaddingEncoder (src/padding.rs:70-118)
  // ---------------------------------------------------------------------

  /** The field of `PaddingEncoder`: the padding byte while it is padding. */
  datatype PaddingEncoderState = PaddingEncoderState(paddingByte: Option<byte>)

  /**
   * `encode`: fill the whole buffer with the padding byte; stop padding at
   * the end of the stream.  An idle encoder writes nothing.
   */
  function PaddingEncode(s: PaddingEncoderState, bufLen: nat, eos: Eos): (o: Outcome<PaddingEncoderState, seq<byte>>)
    ensures o.result.Ok?
    ensures s.paddingByte.None? ==> o == Outcome(s, Ok([]))
    ensures s.paddingByte.Some? ==>
      |o.result.value| == bufLen && AllEqual(o.result.value, s.paddingByte.value) &&
      (o.state.paddingByte.None? <==> IsEos(eos)) &&
      (!IsEos(eos) ==> o.state == s)
  {
    match s.paddingByte
    case None => Outcome(s, Ok([]))
    case Some(p) => Outcome(if IsEos(eos) then PaddingEncoderState(None) else s, Ok(seq(bufLen, _ => p)))
  }

  /** `start_encoding`: only an idle encoder takes a padding byte (else `EncoderFull`). */
  function PaddingStart(s: PaddingEncoderState, item: byte): (o: Outcome<PaddingEncoderState, ()>)
    ensures o.result.Ok? <==> s.paddingByte.None?
    ensures o.result.Err? ==> o == Outcome(s, Err(EncoderFull))
    ensures o.result.Ok? ==> o.state.paddingByte == Some(item)
  {
    if s.paddingByte.Some? then Outcome(s, Err(EncoderFull))
    else Outcome(PaddingEncoderState(Some(item)), Ok(()))
  }

  function PaddingEncoderRequiringBytes(s: PaddingEncoderState): (c: ByteCount)
    ensures c == Finite(0) <==> s.paddingByte.None?
    ensures s.paddingByte.Some? ==> c.Infinite?
  {
    if s.paddingByte.None? then Finite(0) else Infinite
  }

  predicate PaddingEncoderIsIdle(s: PaddingEncoderState)
  {
    s.paddingByte.None?
  }

  function PaddingEncoderOps(): EncoderOps<PaddingEncoderState, byte>
  {
    EncoderOps(PaddingEncode, PaddingStart, PaddingEncoderRequiringBytes, PaddingEncoderIsIdle)
  }

  lemma PaddingEncoderLawful()
    ensures Encode.Lawful(PaddingEncoderOps()) && Encode.HasDefaultIsIdle(PaddingEncoderOps())
  {
  }

  /** An encoder that keeps padding is refused as `Infinite` by `encode_into_bytes`. */
  lemma PaddingIntoBytesRefused(item: byte)
    ensures EncodeIntoBytes(PaddingEncoderOps(), PaddingEncoderState(None), item).result == Err(InvalidInput)
  {
  }

  /** `PaddingEncoder` writing its padding byte over the caller's buffer. */
  class PaddingEncoder {
    var paddingByte: Option<byte>

    function State(): PaddingEncoderState
      reads this
    {
      PaddingEncoderState(paddingByte)
    }

    /** `PaddingEncoder::new()` and `Default::default()`. */
    constructor ()
      ensures State() == PaddingEncoderState(None)
    {
      paddingByte := None;
    }

    method Encode(buf: array<byte>, eos: Eos) returns (r: Result<nat>)
      modifies this, buf
      ensures var o := PaddingEncode(old(State()), buf.Length, eos);
        State() == o.state && r == Ok(|o.result.value|) &&
        (old(paddingByte).Some? ==> buf[..] == o.result.value) &&
        (old(paddingByte).None? ==> buf[..] == old(buf[..]))
    {
      if paddingByte.None? {
        return Ok(0);
      }
      var p := paddingByte.value;
      var i := 0;
      while i < buf.Length
        invariant 0 <= i <= buf.Length
        invariant forall k :: 0 <= k < i ==> buf[k] == p
        invariant paddingByte == Some(p)
      {
        buf[i] := p;
        i := i + 1;
      }
      assert buf[..] == seq(buf.Length, _ => p);
      if IsEos(eos) {
        paddingByte := None;
      }
      return Ok(buf.Length);
    }

    method StartEncoding(item: byte) returns (r: Result<()>)
      modifies this
      ensures Outcome(State(), r) == PaddingStart(old(State()), item)
    {
      if paddingByte.Some? {
        return Err(EncoderFull);
      }
      paddingByte := Some(item);
      return Ok(());
    }
  }

  /** The test of src/padding.rs: padding byte 3 fills an 8-byte buffer and ends at the end of the stream. */
  method PaddingEncoderExample() returns (out: seq<byte>, idle: bool)
    ensures out == seq(8, _ => 3) && idle
  {
    var e := new PaddingEncoder();
    var started := e.StartEncoding(3);
    var buf := new byte[8](_ => 0);
    var written := e.Encode(buf, New(true));
    out := buf[..];
    idle := e.paddingByte.None?;
  }
}
