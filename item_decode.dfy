/*
 * The `Decode` trait generation used by src/tuple.rs, src/chain.rs and
 * src/value.rs: `decode(buf, eos)` returns the number of bytes consumed
 * together with the item, if that call completed one, and
 * `has_terminated` tells that the decoder will yield no more items.
 *
 * As for the other generation, a decoder type is the record of its
 * operations over its state; an error does not roll the state back.
 */
module ItemDecode {
  import opened Base
  import opened ByteCounts
  import opened EndOfStream
  import opened Decode

  /** What one `decode` call reports: the bytes consumed and the completed item, if any. */
  datatype Decoded<+T> = Decoded(size: nat, item: Option<T>)

  /** The operations of one decoder type of this generation over its state type `S`. */
  datatype ItemDecoderOps<!S, T> = ItemDecoderOps(
    decode: (S, seq<byte>, Eos) -> Outcome<S, Decoded<T>>,
    hasTerminated: S -> bool,
    requiringBytes: S -> ByteCount)

  /** `decode` never reports more bytes than the buffer holds. */
  ghost predicate ConsumesWithinWindow<S(!new), T>(d: ItemDecoderOps<S, T>)
  {
    forall s: S, buf: seq<byte>, eos: Eos {:trigger d.decode(s, buf, eos)} ::
      d.decode(s, buf, eos).result.Ok? ==> d.decode(s, buf, eos).result.value.size <= |buf|
  }

  /**
   * A stateless decoder of this generation that takes one byte and yields
   * it; an empty buffer at the end of the stream is an `UnexpectedEos`.  The
   * examples use it where the tests of src/tuple.rs and src/chain.rs use
   * `fixnum::U8Decoder` of this generation, whose source is not part of this
   * model.
   */
  function OneByteDecode(s: (), buf: seq<byte>, eos: Eos): (o: Outcome<(), Decoded<byte>>)
    ensures |buf| > 0 ==> o.result == Ok(Decoded(1, Some(buf[0])))
    ensures |buf| == 0 ==> o.result == if IsEos(eos) then Err(UnexpectedEos) else Ok(Decoded(0, None))
  {
    if |buf| == 0 then Outcome((), if IsEos(eos) then Err(UnexpectedEos) else Ok(Decoded(0, None)))
    else Outcome((), Ok(Decoded(1, Some(buf[0]))))
  }

  function OneByteDecoderOps(): ItemDecoderOps<(), byte>
  {
    ItemDecoderOps(OneByteDecode, s => false, s => Finite(1))
  }

  lemma OneByteLawful()
    ensures ConsumesWithinWindow(OneByteDecoderOps())
  {
  }
}
