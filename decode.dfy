/*
 * The `Decode` trait of src/decode.rs, the trait generation in which
 * `decode(buf, eos)` returns the number of bytes consumed and the item is
 * fetched by `finish_decoding`.
 *
 * A decoder type is modelled by the record of its operations as functions
 * of its state: `decode` and `finish_decoding` return the new state together
 * with their outcome (an error does not roll the state back), and
 * `requiring_bytes`/`is_idle` only read the state.  The doc-comment
 * contract of the trait becomes predicates over such a record.
 */
module Decode {
  import opened Base
  import opened ByteCounts
  import opened EndOfStream

  /** The state an operation leaves behind together with its outcome. */
  datatype Outcome<+S, +R> = Outcome(state: S, result: Result<R>)

  /** The operations of one decoder type over its state type `S`. */
  datatype DecoderOps<!S, T> = DecoderOps(
    decode: (S, seq<byte>, Eos) -> Outcome<S, nat>,
    finish: S -> Outcome<S, T>,
    requiringBytes: S -> ByteCount,
    isIdle: S -> bool)

  /** `decode` never reports more bytes than the buffer holds. */
  ghost predicate ConsumesWithinBuffer<S(!new), T>(d: DecoderOps<S, T>)
  {
    forall s: S, buf: seq<byte>, eos: Eos {:trigger d.decode(s, buf, eos)} ::
      d.decode(s, buf, eos).result.Ok? ==> d.decode(s, buf, eos).result.value <= |buf|
  }

  /** "if `is_idle` method returns `true`, `decode` method should consume no bytes". */
  ghost predicate IdleConsumesNothing<S(!new), T>(d: DecoderOps<S, T>)
  {
    forall s: S, buf: seq<byte>, eos: Eos {:trigger d.decode(s, buf, eos)} ::
      d.isIdle(s) && d.decode(s, buf, eos).result.Ok? ==> d.decode(s, buf, eos).result.value == 0
  }

  /** The default `is_idle`: `requiring_bytes() == Finite(0)`. */
  ghost predicate HasDefaultIsIdle<S(!new), T>(d: DecoderOps<S, T>)
  {
    forall s: S {:trigger d.isIdle(s)} :: d.isIdle(s) <==> d.requiringBytes(s) == Finite(0)
  }

  /** The part of the trait's contract that every decoder of the model is proved to keep. */
  ghost predicate Lawful<S(!new), T>(d: DecoderOps<S, T>)
  {
    ConsumesWithinBuffer(d) && IdleConsumesNothing(d)
  }

  /**
   * `DecodeExt::decode_from_bytes`: decode the whole of `buf` as the last
   * bytes of the stream, insist that every byte was consumed, then finish.
   */
  function DecodeFromBytes<S, T>(d: DecoderOps<S, T>, s: S, buf: seq<byte>): (o: Outcome<S, T>)
    ensures d.decode(s, buf, New(true)).result.Err? ==>
      o == Outcome(d.decode(s, buf, New(true)).state, Err(d.decode(s, buf, New(true)).result.error))
    ensures d.decode(s, buf, New(true)).result.Ok? && d.decode(s, buf, New(true)).result.value != |buf| ==>
      o.result == Err(InvalidInput)
    ensures d.decode(s, buf, New(true)).result == Ok(|buf|) ==>
      o == d.finish(d.decode(s, buf, New(true)).state)
    ensures o.result.Ok? ==> d.decode(s, buf, New(true)).result == Ok(|buf|)
  {
    var first := d.decode(s, buf, New(true));
    match first.result
    case Err(e) => Outcome(first.state, Err(e))
    case Ok(size) =>
      if size != |buf| then Outcome(first.state, Err(InvalidInput))
      else d.finish(first.state)
  }

  /**
   * The outcome of one `bytecodec_try_decode!` step at `offset`: the inner
   * decoder is idle and its item can be taken (`Proceed`), it needs more
   * input (`Suspend`, the caller returns `Ok(offset)`), or it failed.
   */
  datatype TryStep<S> = Proceed(state: S, offset: nat) | Suspend(state: S, offset: nat) | Fail(state: S, error: ErrorKind)

  /**
   * `bytecodec_try_decode!(d, offset, buf, eos)`: an idle decoder is left
   * alone; a busy one is given `buf[offset..]`, and the caller returns early
   * unless that made it idle.
   */
  function TryDecode<S(!new), T>(d: DecoderOps<S, T>, s: S, buf: seq<byte>, offset: nat, eos: Eos): (t: TryStep<S>)
    requires offset <= |buf|
    requires ConsumesWithinBuffer(d)
    ensures !t.Fail? ==> offset <= t.offset <= |buf|
    ensures d.isIdle(s) ==> t == Proceed(s, offset)
    ensures t.Proceed? ==> d.isIdle(t.state)
    ensures t.Suspend? ==> !d.isIdle(t.state)
    ensures !d.isIdle(s) ==>
      var o := d.decode(s, buf[offset..], eos);
      t.state == o.state &&
      (t.Fail? <==> o.result.Err?) &&
      (t.Fail? ==> t.error == o.result.error) &&
      (!t.Fail? ==> t.offset == offset + o.result.value)
  {
    if d.isIdle(s) then Proceed(s, offset)
    else
      var o := d.decode(s, buf[offset..], eos);
      match o.result
      case Err(e) => Fail(o.state, e)
      case Ok(n) => if d.isIdle(o.state) then Proceed(o.state, offset + n) else Suspend(o.state, offset + n)
  }
}
