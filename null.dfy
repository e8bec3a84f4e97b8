/*
 * Null codecs (src/null.rs): a decoder that consumes nothing and decodes
 * `()`, and an encoder that writes nothing for `()`.  Neither has state.
 */
module Null {
  import opened Base
  import opened ByteCounts
  import opened EndOfStream
  import opened Decode
  import opened Encode

  /** `NullDecoder` and `NullEncoder` are unit structs. */
  datatype NullState = NullState

  function NullDecode(s: NullState, buf: seq<byte>, eos: Eos): (o: Outcome<NullState, nat>)
    ensures o.result == Ok(0)
  {
    Outcome(s, Ok(0))
  }

  function NullFinish(s: NullState): (o: Outcome<NullState, ()>)
    ensures o.result == Ok(())
  {
    Outcome(s, Ok(()))
  }

  function NullRequiringBytes(s: NullState): (c: ByteCount)
    ensures c == Finite(0)
  {
    Finite(0)
  }

  predicate NullIsIdle(s: NullState)
  {
    true
  }

  function NullDecoderOps(): DecoderOps<NullState, ()>
  {
    DecoderOps(NullDecode, NullFinish, NullRequiringBytes, NullIsIdle)
  }

  function NullEncode(s: NullState, bufLen: nat, eos: Eos): (o: Outcome<NullState, seq<byte>>)
    ensures o.result == Ok([])
  {
    Outcome(s, Ok([]))
  }

  function NullStart(s: NullState, item: ()): (o: Outcome<NullState, ()>)
    ensures o.result == Ok(())
  {
    Outcome(s, Ok(()))
  }

  function NullEncoderOps(): EncoderOps<NullState, ()>
  {
    EncoderOps(NullEncode, NullStart, NullRequiringBytes, NullIsIdle)
  }

  lemma NullLawful()
    ensures Decode.Lawful(NullDecoderOps()) && Decode.HasDefaultIsIdle(NullDecoderOps())
    ensures Encode.Lawful(NullEncoderOps()) && Encode.HasDefaultIsIdle(NullEncoderOps())
  {
  }

  /**
   * The tests of src/null.rs: decoding any input yields `()` having consumed
   * nothing, so `decode_from_bytes` accepts exactly the empty input; and
   * encoding `()` gives the empty byte sequence.
   */
  lemma NullRoundTrip(input: seq<byte>, eos: Eos)
    ensures NullDecoderOps().decode(NullState, input, eos) == Outcome(NullState, Ok(0))
    ensures DecodeFromBytes(NullDecoderOps(), NullState, input).result.Ok? <==> input == []
    ensures input != [] ==> DecodeFromBytes(NullDecoderOps(), NullState, input).result == Err(InvalidInput)
    ensures EncodeIntoBytes(NullEncoderOps(), NullState, ()).result == Ok(Some([]))
  {
    assert Filled([], 0) == [];
  }
}
