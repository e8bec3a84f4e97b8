/*
 * The `Encode` trait of src/encode.rs (same generation as src/decode.rs):
 * `encode(buf, eos)` writes into `buf` and returns the number of bytes
 * written, `start_encoding` hands the encoder a new item.
 *
 * As for decoders, an encoder type is the record of its operations over its
 * state.  `encode` is given the length of the output buffer and returns the
 * bytes it writes to the front of it (the rest of the buffer is untouched).
 */
module Encode {
  import opened Base
  import opened ByteCounts
  import opened EndOfStream
  import opened Decode

  /** The operations of one encoder type over its state type `S`. */
  datatype EncoderOps<!S, !T> = EncoderOps(
    encode: (S, nat, Eos) -> Outcome<S, seq<byte>>,
    start: (S, T) -> Outcome<S, ()>,
    requiringBytes: S -> ByteCount,
    isIdle: S -> bool)

  /** `encode` never writes past the end of the buffer it is given. */
  ghost predicate WritesWithinBuffer<S(!new), T>(e: EncoderOps<S, T>)
  {
    forall s: S, n: nat, eos: Eos {:trigger e.encode(s, n, eos)} ::
      e.encode(s, n, eos).result.Ok? ==> |e.encode(s, n, eos).result.value| <= n
  }

  /** "If there are no items to be encoded, the encoder must return `ByteCount::Finite(0)`". */
  ghost predicate IdleRequiresNothing<S(!new), T>(e: EncoderOps<S, T>)
  {
    forall s: S {:trigger e.isIdle(s)} :: e.isIdle(s) ==> e.requiringBytes(s) == Finite(0)
  }

  /** The default `is_idle`: `requiring_bytes() == Finite(0)`. */
  ghost predicate HasDefaultIsIdle<S(!new), T>(e: EncoderOps<S, T>)
  {
    forall s: S {:trigger e.isIdle(s)} :: e.isIdle(s) <==> e.requiringBytes(s) == Finite(0)
  }

  /** The part of the trait's contract every encoder of the model is proved to keep. */
  ghost predicate Lawful<S(!new), T>(e: EncoderOps<S, T>)
  {
    WritesWithinBuffer(e) && IdleRequiresNothing(e)
  }

  /** The default implementation satisfies the "idle means `Finite(0)`" rule by construction. */
  lemma DefaultIsIdleIsLawful<S(!new), T>(e: EncoderOps<S, T>)
    requires HasDefaultIsIdle(e)
    ensures IdleRequiresNothing(e)
  {
  }

  /**
   * `EncodeExt::with_item`: a default encoder that has been started with
   * `item`; the error of `start_encoding` is passed on.
   */
  function WithItem<S, T>(e: EncoderOps<S, T>, default: S, item: T): (r: Result<S>)
    ensures r.Ok? <==> e.start(default, item).result.Ok?
    ensures r.Ok? ==> r.value == e.start(default, item).state
    ensures r.Err? ==> r.error == e.start(default, item).result.error
  {
    var o := e.start(default, item);
    if o.result.Ok? then Ok(o.state) else Err(o.result.error)
  }

  /** `vec![0; n]` after an encode call wrote `w` to its front. */
  function Filled(w: seq<byte>, n: nat): (b: seq<byte>)
    ensures |b| == n
    ensures |w| <= n ==> b[..|w|] == w && forall i :: |w| <= i < n ==> b[i] == 0
  {
    if |w| >= n then w[..n] else w + seq(n - |w|, _ => 0)
  }

  /**
   * A run of `encode` calls on buffers of the lengths `ns`: the bytes they
   * write one after the other, up to the first error.
   */
  function EncodeCalls<S, T>(e: EncoderOps<S, T>, s: S, ns: seq<nat>, eos: Eos): Outcome<S, seq<byte>>
    decreases |ns|
  {
    if ns == [] then Outcome(s, Ok([]))
    else
      var o := e.encode(s, ns[0], eos);
      match o.result
      case Err(err) => Outcome(o.state, Err(err))
      case Ok(w) =>
        var rest := EncodeCalls(e, o.state, ns[1..], eos);
        Outcome(rest.state, if rest.result.Err? then rest.result else Ok(w + rest.result.value))
  }

  /**
   * `EncodeExt::encode_into_bytes`.  The result is `Some(bytes)` on the
   * paths that allocate a buffer; the `Unknown` path hands over to
   * `encode_all`, an I/O helper that is not part of this model, and is
   * reported as `None`.
   */
  function EncodeIntoBytes<S, T>(e: EncoderOps<S, T>, s: S, item: T): (o: Outcome<S, Option<seq<byte>>>)
    ensures e.start(s, item).result.Err? ==> o.result == Err(e.start(s, item).result.error)
    ensures e.start(s, item).result.Ok? && e.requiringBytes(e.start(s, item).state).Infinite? ==>
      o.result == Err(InvalidInput)
    ensures o.result.Ok? && o.result.value.Some? ==>
      e.start(s, item).result.Ok? &&
      e.requiringBytes(e.start(s, item).state) == Finite(|o.result.value.value|) &&
      e.isIdle(o.state)
    ensures o.result.Ok? && o.result.value.None? ==>
      e.requiringBytes(e.start(s, item).state).Unknown?
  {
    var started := e.start(s, item);
    if started.result.Err? then Outcome(started.state, Err(started.result.error))
    else
      match e.requiringBytes(started.state)
      case Finite(size) =>
        var written := e.encode(started.state, size, New(true));
        if written.result.Err? then Outcome(written.state, Err(written.result.error))
        else if !e.isIdle(written.state) then Outcome(written.state, Err(InconsistentState))
        else Outcome(written.state, Ok(Some(Filled(written.result.value, size))))
      case Unknown => Outcome(started.state, Ok(None))
      case Infinite => Outcome(started.state, Err(InvalidInput))
  }
}
