/*
 * The trait generation of src/buf.rs, src/combinators.rs and
 * src/bytes_codec.rs: `decode(&mut DecodeBuf) -> Result<Option<Item>>`
 * consumes from the buffer it is given and returns the item it completed,
 * if any; `encode(&mut EncodeBuf) -> Result<()>` writes into the buffer;
 * `start_encoding(item)` hands over the next item; both sides report a
 * `usize` size hint.
 *
 * As for the other generations, a codec type is the record of its
 * operations as functions of its state.  What `decode` does to the buffer
 * is moving its cursor, so the record reports the bytes it consumed (a
 * `Decoded`); what `encode` does is writing at the cursor and moving past
 * what it wrote, so the record reports the bytes written.
 */
module BufCodec {
  import opened Base
  import opened EndOfStream
  import opened Decode
  import opened ItemDecode
  import opened Buffers

  /** A decoder type of this generation: `decode` on the window and the buffer's end-of-stream information. */
  datatype BufDecoderOps<!S, T> = BufDecoderOps(
    decode: (S, seq<byte>, Eos) -> Outcome<S, Decoded<T>>,
    sizeHint: S -> nat)

  /** An encoder type of this generation: `encode` on the room left and the buffer's EOS flag. */
  datatype BufEncoderOps<!S, !T> = BufEncoderOps(
    encode: (S, nat, bool) -> Outcome<S, seq<byte>>,
    start: (S, T) -> Outcome<S, ()>,
    sizeHint: S -> nat)

  /** `decode` consumes only what the window holds. */
  ghost predicate DecodesWithinWindow<S(!new), T>(d: BufDecoderOps<S, T>)
  {
    forall s: S, w: seq<byte>, e: Eos {:trigger d.decode(s, w, e)} ::
      d.decode(s, w, e).result.Ok? ==> d.decode(s, w, e).result.value.size <= |w|
  }

  /**
   * Given a non-empty window, `decode` consumes a byte or completes an item.
   * A driver that calls a decoder until the window is empty (`AndThen`)
   * terminates only with such decoders.
   */
  ghost predicate DecoderMakesProgress<S(!new), T>(d: BufDecoderOps<S, T>)
  {
    forall s: S, w: seq<byte>, e: Eos {:trigger d.decode(s, w, e)} ::
      |w| > 0 && d.decode(s, w, e).result.Ok? ==>
        d.decode(s, w, e).result.value.size > 0 || d.decode(s, w, e).result.value.item.Some?
  }

  /** `encode` writes only what the room admits. */
  ghost predicate EncodesWithinRoom<S(!new), T>(e: BufEncoderOps<S, T>)
  {
    forall s: S, room: nat, eos: bool {:trigger e.encode(s, room, eos)} ::
      e.encode(s, room, eos).result.Ok? ==> |e.encode(s, room, eos).result.value| <= room
  }

  /** The item a `decode` call returns, as `decode(&mut DecodeBuf)` returns it. */
  function ItemOf<T>(r: Result<Decoded<T>>): (x: Result<Option<T>>)
    ensures r.Ok? <==> x.Ok?
    ensures r.Ok? ==> x.value == r.value.item
    ensures r.Err? ==> x.error == r.error
  {
    match r
    case Ok(d) => Ok(d.item)
    case Err(e) => Err(e)
  }

  /**
   * A decoder run on a `DecodeBuf`: it sees the window and the end of the
   * stream, and the buffer's cursor moves past what it consumed.
   */
  function DecodeOn<S(!new), T>(d: BufDecoderOps<S, T>, s: S, st: DecodeBufValue): (o: Outcome<S, (Option<T>, DecodeBufValue)>)
    requires DecodesWithinWindow(d)
    ensures var i := d.decode(s, DecodeWindow(st), DecodeEos(st));
      o.state == i.state && (o.result.Ok? <==> i.result.Ok?) &&
      (i.result.Err? ==> o.result.error == i.result.error) &&
      (i.result.Ok? ==>
         o.result.value.0 == i.result.value.item &&
         o.result.value.1.buf == st.buf && o.result.value.1.remaining == st.remaining &&
         DecodeWindow(o.result.value.1) == DecodeWindow(st)[i.result.value.size..])
  {
    var i := d.decode(s, DecodeWindow(st), DecodeEos(st));
    match i.result
    case Err(e) => Outcome(i.state, Err(e))
    case Ok(r) => Outcome(i.state, Ok((r.item, DecodeConsume(st, r.size).value)))
  }

  /** An encoder run on an `EncodeBuf`: what it writes lands at the cursor, which moves past it. */
  function EncodeOn<S(!new), T>(e: BufEncoderOps<S, T>, s: S, st: EncodeBufValue): (o: Outcome<S, EncodeBufValue>)
    requires EncodesWithinRoom(e)
    ensures var i := e.encode(s, EncodeRoom(st), st.eos);
      o.state == i.state && (o.result.Ok? <==> i.result.Ok?) &&
      (i.result.Err? ==> o.result.error == i.result.error) &&
      (i.result.Ok? ==>
         o.result.value == EncodeWrite(st, i.result.value).1 &&
         EncodeRoom(o.result.value) == EncodeRoom(st) - |i.result.value|)
  {
    var i := e.encode(s, EncodeRoom(st), st.eos);
    match i.result
    case Err(err) => Outcome(i.state, Err(err))
    case Ok(w) => Outcome(i.state, Ok(EncodeWrite(st, w).1))
  }
}
