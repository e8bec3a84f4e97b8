/*
 * The adapter combinators of src/combinator.rs: item and error mappings
 * (`Map`, `MapErr`, `TryMap`, `MapFrom`, `TryMapFrom`), optional items
 * (`Omittable`, `Optional`), one-slot wrappers (`Peekable`, `Last`), the
 * end-of-stream filter `MaybeEos`, the conditional decoder `AndThen` and
 * `PreEncode`.
 *
 * A combinator maps the operation records of its inner codecs to the
 * operation record of the combined codec; its state is the inner state plus
 * the combinator's own fields.  Combinators with fields of their own are
 * also classes whose methods perform one step in place.
 */
module Adapters {
  import opened Base
  import opened ByteCounts
  import opened EndOfStream
  import opened Decode
  import opened Encode
  import opened Bytes
  import opened Fixnum

  /** `Result::map`. */
  function MapResult<T, U>(r: Result<T>, f: T -> U): (m: Result<U>)
    ensures m.Ok? <==> r.Ok?
    ensures m.Err? ==> m.error == r.error
  {
    match r
    case Ok(v) => Ok(f(v))
    case Err(e) => Err(e)
  }

  /** `Result::map_err` on the error kind. */
  function MapErrResult<T>(r: Result<T>, f: ErrorKind -> ErrorKind): (m: Result<T>)
    ensures m.Ok? <==> r.Ok?
    ensures m.Ok? ==> m == r
  {
    match r
    case Ok(v) => Ok(v)
    case Err(e) => Err(f(e))
  }

  // ---------------------------------------------------------------------
  // Map (src/combinator.rs:13-72)
  // ---------------------------------------------------------------------

  /** `DecodeExt::map(f)`: the inner decoder with `f` applied to every finished item. */
  function MapOps<S, T, U>(d: DecoderOps<S, T>, f: T -> U): DecoderOps<S, U>
  {
    DecoderOps(d.decode,
               s => var o := d.finish(s); Outcome(o.state, MapResult(o.result, f)),
               d.requiringBytes, d.isIdle)
  }

  lemma MapLawful<S(!new), T, U>(d: DecoderOps<S, T>, f: T -> U)
    requires Decode.Lawful(d)
    ensures Decode.Lawful(MapOps(d, f))
    ensures Decode.HasDefaultIsIdle(d) ==> Decode.HasDefaultIsIdle(MapOps(d, f))
  {
  }

  /** Decoding through `map(f)` is decoding, then `f` on the item; the bytes consumed are the same. */
  lemma MapDecodeFromBytes<S, T, U>(d: DecoderOps<S, T>, f: T -> U, s: S, buf: seq<byte>)
    ensures var inner := DecodeFromBytes(d, s, buf);
      var mapped := DecodeFromBytes(MapOps(d, f), s, buf);
      mapped.state == inner.state &&
      (mapped.result.Ok? <==> inner.result.Ok?) &&
      (inner.result.Ok? ==> mapped.result.value == f(inner.result.value)) &&
      (inner.result.Err? ==> mapped.result.error == inner.result.error)
  {
  }

  // ---------------------------------------------------------------------
  // MapErr (src/combinator.rs:74-176)
  // ---------------------------------------------------------------------

  /** `DecodeExt::map_err(f)`: every error of `decode` and `finish_decoding` goes through `f`. */
  function MapErrDecoderOps<S, T>(d: DecoderOps<S, T>, f: ErrorKind -> ErrorKind): DecoderOps<S, T>
  {
    DecoderOps((s, buf, eos) => var o := d.decode(s, buf, eos); Outcome(o.state, MapErrResult(o.result, f)),
               s => var o := d.finish(s); Outcome(o.state, MapErrResult(o.result, f)),
               d.requiringBytes, d.isIdle)
  }

  /** `EncodeExt::map_err(f)`: every error of `encode` and `start_encoding` goes through `f`. */
  function MapErrEncoderOps<S, T>(e: EncoderOps<S, T>, f: ErrorKind -> ErrorKind): EncoderOps<S, T>
  {
    EncoderOps((s, n, eos) => var o := e.encode(s, n, eos); Outcome(o.state, MapErrResult(o.result, f)),
               (s, item) => var o := e.start(s, item); Outcome(o.state, MapErrResult(o.result, f)),
               e.requiringBytes, e.isIdle)
  }

  lemma MapErrLawful<S(!new), T>(d: DecoderOps<S, T>, e: EncoderOps<S, T>, f: ErrorKind -> ErrorKind)
    requires Decode.Lawful(d) && Encode.Lawful(e)
    ensures Decode.Lawful(MapErrDecoderOps(d, f)) && Encode.Lawful(MapErrEncoderOps(e, f))
  {
  }

  /**
   * Mapping errors changes no success: `decode_from_bytes` and
   * `encode_into_bytes` succeed with the same value and leave the same state
   * with or without `map_err`.
   */
  lemma MapErrKeepsSuccess<S, T>(d: DecoderOps<S, T>, e: EncoderOps<S, T>, f: ErrorKind -> ErrorKind,
                                 s: S, buf: seq<byte>, item: T)
    ensures var plain := DecodeFromBytes(d, s, buf);
      var mapped := DecodeFromBytes(MapErrDecoderOps(d, f), s, buf);
      mapped.state == plain.state && (mapped.result.Ok? <==> plain.result.Ok?) &&
      (plain.result.Ok? ==> mapped.result == plain.result)
    ensures var plain := EncodeIntoBytes(e, s, item);
      var mapped := EncodeIntoBytes(MapErrEncoderOps(e, f), s, item);
      mapped.state == plain.state && (mapped.result.Ok? <==> plain.result.Ok?) &&
      (plain.result.Ok? ==> mapped.result == plain.result)
  {
  }

  // ---------------------------------------------------------------------
  // TryMap (src/combinator.rs:869-918)
  // ---------------------------------------------------------------------

  /** `DecodeExt::try_map(f)`: the finished item goes through the fallible `f`. */
  function TryMapOps<S, T, U>(d: DecoderOps<S, T>, f: T -> Result<U>): DecoderOps<S, U>
  {
    DecoderOps(d.decode,
               s => var o := d.finish(s);
                    Outcome(o.state, match o.result case Ok(v) => f(v) case Err(k) => Err(k)),
               d.requiringBytes, d.isIdle)
  }

  lemma TryMapLawful<S(!new), T, U>(d: DecoderOps<S, T>, f: T -> Result<U>)
    requires Decode.Lawful(d)
    ensures Decode.Lawful(TryMapOps(d, f))
  {
  }

  /** Decoding through `try_map(f)` succeeds exactly when decoding succeeds and `f` accepts the item. */
  lemma TryMapDecodeFromBytes<S, T, U>(d: DecoderOps<S, T>, f: T -> Result<U>, s: S, buf: seq<byte>)
    ensures var inner := DecodeFromBytes(d, s, buf);
      var mapped := DecodeFromBytes(TryMapOps(d, f), s, buf);
      mapped.state == inner.state &&
      (mapped.result.Ok? <==> inner.result.Ok? && f(inner.result.value).Ok?) &&
      (inner.result.Ok? ==> mapped.result == f(inner.result.value)) &&
      (inner.result.Err? ==> mapped.result == Err(inner.result.error))
  {
  }

  // ---------------------------------------------------------------------
  // MapFrom and TryMapFrom (src/combinator.rs:240-367)
  // ---------------------------------------------------------------------

  /** `EncodeExt::map_from(from)`: items are converted by `from` before the inner encoder starts. */
  function MapFromOps<S, T, U>(e: EncoderOps<S, T>, from: U -> T): EncoderOps<S, U>
  {
    EncoderOps(e.encode, (s, item) => e.start(s, from(item)), e.requiringBytes, e.isIdle)
  }

  /** `EncodeExt::try_map_from(from)`: a conversion error is returned before the inner encoder is touched. */
  function TryMapFromOps<S, T, U>(e: EncoderOps<S, T>, from: U -> Result<T>): EncoderOps<S, U>
  {
    EncoderOps(e.encode,
               (s, item) => match from(item) case Ok(t) => e.start(s, t) case Err(k) => Outcome(s, Err(k)),
               e.requiringBytes, e.isIdle)
  }

  lemma MapFromLawful<S(!new), T, U>(e: EncoderOps<S, T>, from: U -> T, tryFrom: U -> Result<T>)
    requires Encode.Lawful(e)
    ensures Encode.Lawful(MapFromOps(e, from)) && Encode.Lawful(TryMapFromOps(e, tryFrom))
  {
  }

  /** Encoding `u` through `map_from(from)` writes what encoding `from(u)` writes. */
  lemma MapFromIntoBytes<S, T, U>(e: EncoderOps<S, T>, from: U -> T, s: S, item: U)
    ensures EncodeIntoBytes(MapFromOps(e, from), s, item) == EncodeIntoBytes(e, s, from(item))
  {
  }

  /** A refused conversion is the whole outcome; an accepted one encodes like the converted item. */
  lemma TryMapFromIntoBytes<S, T, U>(e: EncoderOps<S, T>, from: U -> Result<T>, s: S, item: U)
    ensures from(item).Err? ==>
      EncodeIntoBytes(TryMapFromOps(e, from), s, item) == Outcome(s, Err(from(item).error))
    ensures from(item).Ok? ==>
      EncodeIntoBytes(TryMapFromOps(e, from), s, item) == EncodeIntoBytes(e, s, from(item).value)
  {
  }

  // ---------------------------------------------------------------------
  // Optional (src/combinator.rs:527-568)
  // ---------------------------------------------------------------------

  /** `EncodeExt::optional`: `None` starts nothing, `Some(x)` starts the inner encoder with `x`. */
  function OptionalOps<S, T>(e: EncoderOps<S, T>): EncoderOps<S, Option<T>>
  {
    EncoderOps(e.encode,
               (s, item: Option<T>) => match item case None => Outcome(s, Ok(())) case Some(x) => e.start(s, x),
               e.requiringBytes, e.isIdle)
  }

  lemma OptionalBehaviour<S(!new), T>(e: EncoderOps<S, T>, s: S, x: T)
    requires Encode.Lawful(e)
    ensures Encode.Lawful(OptionalOps(e))
    ensures OptionalOps(e).start(s, None) == Outcome(s, Ok(()))
    ensures EncodeIntoBytes(OptionalOps(e), s, Some(x)) == EncodeIntoBytes(e, s, x)
  {
  }

  // ---------------------------------------------------------------------
  // Omittable (src/combinator.rs:457-525)
  // ---------------------------------------------------------------------

  /** The fields of `Omittable`. */
  datatype OmittableState<S> = OmittableState(inner: S, doOmit: bool)

  /** `decode`: nothing is consumed while omitting; otherwise the inner decoder decodes. */
  function OmittableDecode<S, T>(d: DecoderOps<S, T>, s: OmittableState<S>, buf: seq<byte>, eos: Eos): (o: Outcome<OmittableState<S>, nat>)
    ensures s.doOmit ==> o == Outcome(s, Ok(0))
    ensures !s.doOmit ==> o == Outcome(s.(inner := d.decode(s.inner, buf, eos).state), d.decode(s.inner, buf, eos).result)
  {
    if s.doOmit then Outcome(s, Ok(0))
    else var o := d.decode(s.inner, buf, eos); Outcome(s.(inner := o.state), o.result)
  }

  /** `finish_decoding`: `None` while omitting, else the inner item wrapped in `Some`. */
  function OmittableFinish<S, T>(d: DecoderOps<S, T>, s: OmittableState<S>): (o: Outcome<OmittableState<S>, Option<T>>)
    ensures s.doOmit ==> o == Outcome(s, Ok(None))
    ensures !s.doOmit ==>
      o.state == s.(inner := d.finish(s.inner).state) &&
      o.result == MapResult(d.finish(s.inner).result, x => Some(x))
  {
    if s.doOmit then Outcome(s, Ok(None))
    else var o := d.finish(s.inner); Outcome(s.(inner := o.state), MapResult(o.result, x => Some(x)))
  }

  function OmittableOps<S, T>(d: DecoderOps<S, T>): DecoderOps<OmittableState<S>, Option<T>>
  {
    DecoderOps((s, buf, eos) => OmittableDecode(d, s, buf, eos),
               s => OmittableFinish(d, s),
               (s: OmittableState<S>) => if s.doOmit then Finite(0) else d.requiringBytes(s.inner),
               (s: OmittableState<S>) => s.doOmit || d.isIdle(s.inner))
  }

  lemma OmittableLawful<S(!new), T>(d: DecoderOps<S, T>)
    requires Decode.Lawful(d)
    ensures Decode.Lawful(OmittableOps(d))
  {
  }

  /**
   * An omitting decoder takes no bytes and yields `None`, so it accepts only
   * the empty input; otherwise it decodes like the inner decoder, under `Some`.
   */
  lemma OmittableDecodeFromBytes<S, T>(d: DecoderOps<S, T>, s: OmittableState<S>, buf: seq<byte>)
    ensures s.doOmit ==>
      DecodeFromBytes(OmittableOps(d), s, buf).result == if buf == [] then Ok(None) else Err(InvalidInput)
    ensures !s.doOmit ==>
      var inner := DecodeFromBytes(d, s.inner, buf);
      DecodeFromBytes(OmittableOps(d), s, buf) == Outcome(s.(inner := inner.state), MapResult(inner.result, x => Some(x)))
  {
  }

  /** `Omittable` updating its flag and its inner decoder in place. */
  class Omittable<S, T> {
    var inner: S
    var doOmit: bool
    const ops: DecoderOps<S, T>

    function State(): OmittableState<S>
      reads this
    {
      OmittableState(inner, doOmit)
    }

    constructor (d: DecoderOps<S, T>, s: S, omit: bool)
      ensures State() == OmittableState(s, omit) && ops == d
    {
      inner := s;
      doOmit := omit;
      ops := d;
    }

    /** `do_omit(b)`. */
    method DoOmit(b: bool)
      modifies this
      ensures State() == old(State()).(doOmit := b)
    {
      doOmit := b;
    }

    method Decode(buf: seq<byte>, eos: Eos) returns (r: Result<nat>)
      modifies this
      ensures Outcome(State(), r) == OmittableDecode(ops, old(State()), buf, eos)
    {
      if doOmit {
        return Ok(0);
      }
      var o := ops.decode(inner, buf, eos);
      inner := o.state;
      r := o.result;
    }

    method FinishDecoding() returns (r: Result<Option<T>>)
      modifies this
      ensures Outcome(State(), r) == OmittableFinish(ops, old(State()))
    {
      if doOmit {
        return Ok(None);
      }
      var o := ops.finish(inner);
      inner := o.state;
      r := MapResult(o.result, x => Some(x));
    }
  }

  // ---------------------------------------------------------------------
  // Peekable (src/combinator.rs:1311-1392)
  // ---------------------------------------------------------------------

  /** The fields of `Peekable`: the inner decoder and the item decoded but not yet taken. */
  datatype PeekableState<S, T> = PeekableState(inner: S, item: Option<T>)

  /**
   * `decode`: while an item is held nothing is consumed; otherwise the inner
   * decoder decodes and, once idle, its item is taken into the slot.
   */
  function PeekableDecode<S, T>(d: DecoderOps<S, T>, s: PeekableState<S, T>, buf: seq<byte>, eos: Eos): (o: Outcome<PeekableState<S, T>, nat>)
    ensures s.item.Some? ==> o == Outcome(s, Ok(0))
    ensures s.item.None? ==>
      var dec := d.decode(s.inner, buf, eos);
      (dec.result.Err? ==> o == Outcome(PeekableState(dec.state, None), Err(dec.result.error))) &&
      (dec.result.Ok? && !d.isIdle(dec.state) ==> o == Outcome(PeekableState(dec.state, None), dec.result)) &&
      (dec.result.Ok? && d.isIdle(dec.state) ==>
        var fin := d.finish(dec.state);
        o.state == PeekableState(fin.state, if fin.result.Ok? then Some(fin.result.value) else None) &&
        o.result == if fin.result.Ok? then dec.result else Err(fin.result.error))
  {
    if s.item.Some? then Outcome(s, Ok(0))
    else
      var dec := d.decode(s.inner, buf, eos);
      match dec.result
      case Err(e) => Outcome(PeekableState(dec.state, None), Err(e))
      case Ok(size) =>
        if !d.isIdle(dec.state) then Outcome(PeekableState(dec.state, None), Ok(size))
        else
          var fin := d.finish(dec.state);
          match fin.result
          case Err(e) => Outcome(PeekableState(fin.state, None), Err(e))
          case Ok(x) => Outcome(PeekableState(fin.state, Some(x)), Ok(size))
  }

  /** `finish_decoding`: take the held item, or `IncompleteDecoding`. */
  function PeekableFinish<S, T>(s: PeekableState<S, T>): (o: Outcome<PeekableState<S, T>, T>)
    ensures o.result.Ok? <==> s.item.Some?
    ensures s.item.None? ==> o == Outcome(s, Err(IncompleteDecoding))
    ensures s.item.Some? ==> o == Outcome(s.(item := None), Ok(s.item.value))
  {
    match s.item
    case None => Outcome(s, Err(IncompleteDecoding))
    case Some(x) => Outcome(s.(item := None), Ok(x))
  }

  function PeekableOps<S, T>(d: DecoderOps<S, T>): DecoderOps<PeekableState<S, T>, T>
  {
    DecoderOps((s, buf, eos) => PeekableDecode(d, s, buf, eos),
               PeekableFinish,
               (s: PeekableState<S, T>) => if s.item.Some? then Finite(0) else d.requiringBytes(s.inner),
               (s: PeekableState<S, T>) => s.item.Some?)
  }

  lemma PeekableLawful<S(!new), T(!new)>(d: DecoderOps<S, T>)
    requires Decode.ConsumesWithinBuffer(d)
    ensures Decode.Lawful(PeekableOps(d))
  {
  }

  /**
   * `peek` shows exactly what `finish_decoding` will return: after a decode
   * that left an item in the slot, finishing returns that item and empties
   * the slot.
   */
  lemma PeekThenFinish<S, T>(d: DecoderOps<S, T>, s: PeekableState<S, T>, buf: seq<byte>, eos: Eos)
    requires s.item.None?
    ensures var dec := PeekableDecode(d, s, buf, eos);
      dec.state.item.Some? ==>
        dec.result.Ok? &&
        PeekableFinish(dec.state) == Outcome(PeekableState(dec.state.inner, None), Ok(dec.state.item.value)) &&
        dec.state.item.value == d.finish(d.decode(s.inner, buf, eos).state).result.value
  {
  }

  /**
   * The `peekable_works` test of src/combinator.rs: decoding `b"foo"`
   * consumes 3 bytes and leaves the item where `peek` sees it, finishing
   * returns it, and `peek` then sees nothing.  The test's `TupleDecoder` of
   * three `U8Decoder`s is in no file of this model; the 3-byte
   * `CopyableBytesDecoder`, whose item is the same three bytes, stands in.
   */
  lemma PeekableExample()
    ensures var foo: seq<byte> := [0x66, 0x6F, 0x6F];
      var dec := PeekableDecode(CopyableOps(), PeekableState(CopyableFields([0, 0, 0], 0), None), foo, New(false));
      dec.result == Ok(3) && dec.state.item == Some(foo) &&
      PeekableFinish(dec.state).result == Ok(foo) && PeekableFinish(dec.state).state.item == None
  {
    var foo: seq<byte> := [0x66, 0x6F, 0x6F];
    assert FillAt([0, 0, 0], 0, foo) == foo;
  }

  /** A 16-bit big-endian decoder inside `Peekable`: `[0x12, 0x34]` is held as `0x1234` and then handed over. */
  lemma PeekableFixnumExample()
    ensures var s0 := PeekableState(NewDecoder(U16BE), None);
      var dec := PeekableDecode(FixnumDecoderOps(U16BE), s0, [0x12, 0x34], New(false));
      dec.result == Ok(2) && dec.state.item == Some(0x1234) &&
      PeekableFinish(dec.state).result == Ok(0x1234) && PeekableFinish(dec.state).state.item == None
  {
    FixnumBytesRoundTrip(U16BE, [0x12, 0x34]);
    assert FillAt(seq(2, _ => 0), 0, [0x12, 0x34]) == [0x12, 0x34];
  }

  /** `Peekable` keeping the decoded item in its own slot. */
  class Peekable<S, T> {
    var inner: S
    var item: Option<T>
    const ops: DecoderOps<S, T>

    function State(): PeekableState<S, T>
      reads this
    {
      PeekableState(inner, item)
    }

    constructor (d: DecoderOps<S, T>, s: S)
      ensures State() == PeekableState(s, None) && ops == d
    {
      inner := s;
      item := None;
      ops := d;
    }

    /** `peek()`. */
    function Peek(): (p: Option<T>)
      reads this
      ensures p.Some? <==> PeekableFinish(State()).result.Ok?
      ensures p.Some? ==> PeekableFinish(State()).result == Ok(p.value)
    {
      item
    }

    method Decode(buf: seq<byte>, eos: Eos) returns (r: Result<nat>)
      modifies this
      ensures Outcome(State(), r) == PeekableDecode(ops, old(State()), buf, eos)
    {
      if item.Some? {
        return Ok(0);
      }
      var dec := ops.decode(inner, buf, eos);
      inner := dec.state;
      if dec.result.Err? {
        return Err(dec.result.error);
      }
      if ops.isIdle(inner) {
        var fin := ops.finish(inner);
        inner := fin.state;
        if fin.result.Err? {
          return Err(fin.result.error);
        }
        item := Some(fin.result.value);
      }
      return dec.result;
    }

    method FinishDecoding() returns (r: Result<T>)
      modifies this
      ensures Outcome(State(), r) == PeekableFinish(old(State()))
    {
      if item.None? {
        return Err(IncompleteDecoding);
      }
      r := Ok(item.value);
      item := None;
    }
  }

  // ---------------------------------------------------------------------
  // Last (src/combinator.rs:1240-1309)
  // ---------------------------------------------------------------------

  /** The fields of `Last`: the inner encoder and the one item it will still encode. */
  datatype LastState<S, T> = LastState(inner: S, item: Option<T>)

  /**
   * `encode`: once the inner encoder is idle the held item is taken and
   * started, then the inner encoder encodes.  `Last` accepts no items of its
   * own (`Item = Never`), so it has no `start_encoding` here.
   */
  function LastEncode<S, T>(e: EncoderOps<S, T>, s: LastState<S, T>, bufLen: nat, eos: Eos): (o: Outcome<LastState<S, T>, seq<byte>>)
    ensures s.item.None? || !e.isIdle(s.inner) ==>
      o == Outcome(LastState(e.encode(s.inner, bufLen, eos).state, s.item), e.encode(s.inner, bufLen, eos).result)
    ensures s.item.Some? && e.isIdle(s.inner) ==>
      var started := e.start(s.inner, s.item.value);
      o.state.item == None &&
      (started.result.Err? ==> o == Outcome(LastState(started.state, None), Err(started.result.error))) &&
      (started.result.Ok? ==> o == Outcome(LastState(e.encode(started.state, bufLen, eos).state, None),
                                           e.encode(started.state, bufLen, eos).result))
  {
    if s.item.Some? && e.isIdle(s.inner) then
      var started := e.start(s.inner, s.item.value);
      if started.result.Err? then Outcome(LastState(started.state, None), Err(started.result.error))
      else var o := e.encode(started.state, bufLen, eos); Outcome(LastState(o.state, None), o.result)
    else
      var o := e.encode(s.inner, bufLen, eos);
      Outcome(LastState(o.state, s.item), o.result)
  }

  predicate LastIsIdle<S, T>(e: EncoderOps<S, T>, s: LastState<S, T>)
  {
    s.item.None? && e.isIdle(s.inner)
  }

  /** `requiring_bytes`: `Unknown` while the item is still held. */
  function LastRequiringBytes<S, T>(e: EncoderOps<S, T>, s: LastState<S, T>): (c: ByteCount)
    ensures s.item.Some? ==> c.Unknown?
    ensures s.item.None? ==> c == e.requiringBytes(s.inner)
  {
    if s.item.Some? then Unknown else e.requiringBytes(s.inner)
  }

  /** `Last` keeps the encoder contract: idle means nothing is required, and nothing is written past the buffer. */
  lemma LastLawful<S(!new), T>(e: EncoderOps<S, T>, s: LastState<S, T>, bufLen: nat, eos: Eos)
    requires Encode.IdleRequiresNothing(e) && Encode.WritesWithinBuffer(e)
    ensures LastIsIdle(e, s) ==> LastRequiringBytes(e, s) == Finite(0)
    ensures LastEncode(e, s, bufLen, eos).result.Ok? ==> |LastEncode(e, s, bufLen, eos).result.value| <= bufLen
  {
  }

  /** A run of `Last::encode` calls on buffers of the lengths `ns`, as `EncodeCalls` runs the inner encoder. */
  function LastEncodeCalls<S, T>(e: EncoderOps<S, T>, s: LastState<S, T>, ns: seq<nat>, eos: Eos): Outcome<LastState<S, T>, seq<byte>>
    decreases |ns|
  {
    if ns == [] then Outcome(s, Ok([]))
    else
      var o := LastEncode(e, s, ns[0], eos);
      match o.result
      case Err(err) => Outcome(o.state, Err(err))
      case Ok(w) =>
        var rest := LastEncodeCalls(e, o.state, ns[1..], eos);
        Outcome(rest.state, if rest.result.Err? then rest.result else Ok(w + rest.result.value))
  }

  /** Once its item is taken, `Last` never starts an item again: every call is the inner encoder's. */
  lemma {:induction false} LastNeverStartsAgain<S, T>(e: EncoderOps<S, T>, inner: S, ns: seq<nat>, eos: Eos)
    ensures var d := EncodeCalls(e, inner, ns, eos);
      LastEncodeCalls(e, LastState(inner, None), ns, eos) == Outcome(LastState(d.state, None), d.result)
    decreases |ns|
  {
    if ns != [] {
      var o := e.encode(inner, ns[0], eos);
      if o.result.Ok? {
        LastNeverStartsAgain(e, o.state, ns[1..], eos);
      }
    }
  }

  /**
   * "Encoders that accept only one additional item": started over an idle
   * inner encoder holding `x`, `Last` starts `x` on its first call (passing
   * on a refusal) and from then on writes exactly what the inner encoder
   * started with `x` writes, over any run of calls, without another start.
   */
  lemma LastEncodesOnlyItem<S, T>(e: EncoderOps<S, T>, inner: S, x: T, ns: seq<nat>, eos: Eos)
    requires e.isIdle(inner) && ns != []
    ensures var started := e.start(inner, x);
      var calls := LastEncodeCalls(e, LastState(inner, Some(x)), ns, eos);
      (started.result.Err? ==> calls == Outcome(LastState(started.state, None), Err(started.result.error))) &&
      (started.result.Ok? ==>
         var d := EncodeCalls(e, started.state, ns, eos);
         calls == Outcome(LastState(d.state, None), d.result))
  {
    var started := e.start(inner, x);
    if started.result.Ok? {
      var o := e.encode(started.state, ns[0], eos);
      if o.result.Ok? {
        LastNeverStartsAgain(e, o.state, ns[1..], eos);
      }
    }
  }

  /** `Last` replacing its slot and its inner encoder in place. */
  class Last<S(!new), T> {
    var inner: S
    var item: Option<T>
    const ops: EncoderOps<S, T>

    function State(): LastState<S, T>
      reads this
    {
      LastState(inner, item)
    }

    /** `EncodeExt::last(item)`. */
    constructor (e: EncoderOps<S, T>, s: S, x: T)
      ensures State() == LastState(s, Some(x)) && ops == e
    {
      inner := s;
      item := Some(x);
      ops := e;
    }

    method Encode(buf: array<byte>, eos: Eos) returns (r: Result<nat>)
      requires WritesWithinBuffer(ops)
      modifies this, buf
      ensures var o := LastEncode(ops, old(State()), buf.Length, eos);
        State() == o.state &&
        (o.result.Err? ==> r == Err(o.result.error) && buf[..] == old(buf[..])) &&
        (o.result.Ok? ==>
           r == Ok(|o.result.value|) &&
           buf[..] == o.result.value + old(buf[|o.result.value|..]))
    {
      if item.Some? && ops.isIdle(inner) {
        var started := ops.start(inner, item.value);
        inner := started.state;
        item := None;
        if started.result.Err? {
          return Err(started.result.error);
        }
      }
      var o := ops.encode(inner, buf.Length, eos);
      inner := o.state;
      if o.result.Err? {
        return Err(o.result.error);
      }
      CopyInto(buf, 0, o.result.value);
      return Ok(|o.result.value|);
    }
  }

  // ---------------------------------------------------------------------
  // MaybeEos (src/combinator.rs:1394-1451)
  // ---------------------------------------------------------------------

  /** The fields of `MaybeEos`: the inner decoder and whether it has consumed a byte of the current item. */
  datatype MaybeEosState<S> = MaybeEosState(inner: S, started: bool)

  /** The end-of-stream information `MaybeEos` passes on: an end met before any byte of an item is ignored. */
  function MaybeEosFilter(started: bool, buf: seq<byte>, eos: Eos): (e: Eos)
    ensures !started && buf == [] && IsEos(eos) ==> e == New(false)
    ensures started || buf != [] || !IsEos(eos) ==> e == eos
  {
    if !started && |buf| == 0 && IsEos(eos) then New(false) else eos
  }

  function MaybeEosDecode<S, T>(d: DecoderOps<S, T>, s: MaybeEosState<S>, buf: seq<byte>, eos: Eos): (o: Outcome<MaybeEosState<S>, nat>)
    ensures var dec := d.decode(s.inner, buf, MaybeEosFilter(s.started, buf, eos));
      o.state.inner == dec.state && o.result == dec.result &&
      (o.state.started <==> s.started || (dec.result.Ok? && dec.result.value != 0))
  {
    var dec := d.decode(s.inner, buf, MaybeEosFilter(s.started, buf, eos));
    match dec.result
    case Err(e) => Outcome(s.(inner := dec.state), Err(e))
    case Ok(size) => Outcome(MaybeEosState(dec.state, s.started || size != 0), Ok(size))
  }

  /** `finish_decoding`: the next item starts unstarted. */
  function MaybeEosFinish<S, T>(d: DecoderOps<S, T>, s: MaybeEosState<S>): (o: Outcome<MaybeEosState<S>, T>)
    ensures o == Outcome(MaybeEosState(d.finish(s.inner).state, false), d.finish(s.inner).result)
  {
    var fin := d.finish(s.inner);
    Outcome(MaybeEosState(fin.state, false), fin.result)
  }

  function MaybeEosOps<S, T>(d: DecoderOps<S, T>): DecoderOps<MaybeEosState<S>, T>
  {
    DecoderOps((s, buf, eos) => MaybeEosDecode(d, s, buf, eos),
               s => MaybeEosFinish(d, s),
               (s: MaybeEosState<S>) => d.requiringBytes(s.inner),
               (s: MaybeEosState<S>) => d.isIdle(s.inner))
  }

  lemma MaybeEosLawful<S(!new), T>(d: DecoderOps<S, T>)
    requires Decode.Lawful(d)
    ensures Decode.Lawful(MaybeEosOps(d))
    ensures Decode.HasDefaultIsIdle(d) ==> Decode.HasDefaultIsIdle(MaybeEosOps(d))
  {
    if Decode.HasDefaultIsIdle(d) {
      forall s: MaybeEosState<S>
        ensures MaybeEosOps(d).isIdle(s) <==> MaybeEosOps(d).requiringBytes(s) == Finite(0)
      {
        assert d.isIdle(s.inner) <==> d.requiringBytes(s.inner) == Finite(0);
      }
    }
  }

  /**
   * The test of src/combinator.rs: an empty final buffer is an error for a
   * 16-bit decoder, but not under `maybe_eos` unless the decoder has
   * already consumed part of an item.
   */
  lemma MaybeEosExample()
    ensures FixnumDecoderOps(U16BE).decode(NewDecoder(U16BE), [], New(true)).result.Err?
    ensures MaybeEosDecode(FixnumDecoderOps(U16BE), MaybeEosState(NewDecoder(U16BE), false), [], New(true)).result.Ok?
    ensures var first := MaybeEosDecode(FixnumDecoderOps(U16BE), MaybeEosState(NewDecoder(U16BE), false), [1], New(false));
      first.result == Ok(1) && first.state.started &&
      MaybeEosDecode(FixnumDecoderOps(U16BE), first.state, [], New(true)).result == Err(UnexpectedEos)
  {
  }

  /** `MaybeEos` updating its flag and its inner decoder in place. */
  class MaybeEos<S, T> {
    var inner: S
    var started: bool
    const ops: DecoderOps<S, T>

    function State(): MaybeEosState<S>
      reads this
    {
      MaybeEosState(inner, started)
    }

    constructor (d: DecoderOps<S, T>, s: S)
      ensures State() == MaybeEosState(s, false) && ops == d
    {
      inner := s;
      started := false;
      ops := d;
    }

    method Decode(buf: seq<byte>, eos: Eos) returns (r: Result<nat>)
      modifies this
      ensures Outcome(State(), r) == MaybeEosDecode(ops, old(State()), buf, eos)
    {
      var e := eos;
      if !started && |buf| == 0 && IsEos(eos) {
        e := New(false);
      }
      var dec := ops.decode(inner, buf, e);
      inner := dec.state;
      if dec.result.Err? {
        return Err(dec.result.error);
      }
      if dec.result.value != 0 {
        started := true;
      }
      return dec.result;
    }

    method FinishDecoding() returns (r: Result<T>)
      modifies this
      ensures Outcome(State(), r) == MaybeEosFinish(ops, old(State()))
    {
      started := false;
      var fin := ops.finish(inner);
      inner := fin.state;
      r := fin.result;
    }
  }

  // ---------------------------------------------------------------------
  // AndThen (src/combinator.rs:178-239)
  // ---------------------------------------------------------------------

  /** The fields of `AndThen`: the first decoder and, once its item is known, the second one. */
  datatype AndThenState<S0, S1> = AndThenState(inner0: S0, inner1: Option<S1>)

  /** The part of `decode` that drives the second decoder from `offset` on. */
  function AndThenSecond<S0, S1(!new), T1>(d1: DecoderOps<S1, T1>, s: AndThenState<S0, S1>, buf: seq<byte>, offset: nat, eos: Eos): (o: Outcome<AndThenState<S0, S1>, nat>)
    requires s.inner1.Some? && offset <= |buf|
    requires Decode.ConsumesWithinBuffer(d1)
    ensures o.state.inner0 == s.inner0 && o.state.inner1.Some?
    ensures o.result.Ok? ==> offset <= o.result.value <= |buf|
    ensures d1.isIdle(s.inner1.value) ==> o == Outcome(s, Ok(offset))
  {
    match TryDecode(d1, s.inner1.value, buf, offset, eos)
    case Fail(st, e) => Outcome(s.(inner1 := Some(st)), Err(e))
    case Suspend(st, off) => Outcome(s.(inner1 := Some(st)), Ok(off))
    case Proceed(st, off) => Outcome(s.(inner1 := Some(st)), Ok(off))
  }

  /**
   * `decode`: drive the first decoder until it is idle, build the second
   * decoder from its item with `f`, then drive the second one on the rest of
   * the buffer.
   */
  function AndThenDecode<S0(!new), T0, S1(!new), T1>(d0: DecoderOps<S0, T0>, d1: DecoderOps<S1, T1>, f: T0 -> S1,
                                         s: AndThenState<S0, S1>, buf: seq<byte>, eos: Eos): (o: Outcome<AndThenState<S0, S1>, nat>)
    requires Decode.ConsumesWithinBuffer(d0) && Decode.ConsumesWithinBuffer(d1)
    ensures o.result.Ok? ==> o.result.value <= |buf|
    ensures s.inner1.Some? ==> o == AndThenSecond(d1, s, buf, 0, eos)
    ensures s.inner1.None? && TryDecode(d0, s.inner0, buf, 0, eos).Suspend? ==>
      o == Outcome(AndThenState(TryDecode(d0, s.inner0, buf, 0, eos).state, None), Ok(TryDecode(d0, s.inner0, buf, 0, eos).offset))
    ensures s.inner1.None? && TryDecode(d0, s.inner0, buf, 0, eos).Proceed? ==>
      var first := TryDecode(d0, s.inner0, buf, 0, eos);
      var fin := d0.finish(first.state);
      (fin.result.Err? ==> o == Outcome(AndThenState(fin.state, None), Err(fin.result.error))) &&
      (fin.result.Ok? ==> o == AndThenSecond(d1, AndThenState(fin.state, Some(f(fin.result.value))), buf, first.offset, eos))
  {
    if s.inner1.Some? then AndThenSecond(d1, s, buf, 0, eos)
    else
      match TryDecode(d0, s.inner0, buf, 0, eos)
      case Fail(st, e) => Outcome(AndThenState(st, None), Err(e))
      case Suspend(st, off) => Outcome(AndThenState(st, None), Ok(off))
      case Proceed(st, off) =>
        var fin := d0.finish(st);
        match fin.result
        case Err(e) => Outcome(AndThenState(fin.state, None), Err(e))
        case Ok(item) => AndThenSecond(d1, AndThenState(fin.state, Some(f(item))), buf, off, eos)
  }

  /** `finish_decoding`: the second decoder is taken out and finished; without one, `IncompleteDecoding`. */
  function AndThenFinish<S0, S1, T1>(d1: DecoderOps<S1, T1>, s: AndThenState<S0, S1>): (o: Outcome<AndThenState<S0, S1>, T1>)
    ensures s.inner1.None? ==> o == Outcome(s, Err(IncompleteDecoding))
    ensures s.inner1.Some? ==> o == Outcome(s.(inner1 := None), d1.finish(s.inner1.value).result)
  {
    match s.inner1
    case None => Outcome(s, Err(IncompleteDecoding))
    case Some(second) => Outcome(s.(inner1 := None), d1.finish(second).result)
  }

  /** `requiring_bytes`: the second decoder's once it exists, else the first one's. */
  function AndThenRequiringBytes<S0, T0, S1, T1>(d0: DecoderOps<S0, T0>, d1: DecoderOps<S1, T1>, s: AndThenState<S0, S1>): ByteCount
  {
    match s.inner1
    case Some(second) => d1.requiringBytes(second)
    case None => d0.requiringBytes(s.inner0)
  }

  /** `is_idle`: only once the second decoder exists and is idle. */
  predicate AndThenIsIdle<S0, S1, T1>(d1: DecoderOps<S1, T1>, s: AndThenState<S0, S1>)
  {
    s.inner1.Some? && d1.isIdle(s.inner1.value)
  }

  function AndThenOps<S0(!new), T0, S1(!new), T1>(d0: DecoderOps<S0, T0>, d1: DecoderOps<S1, T1>, f: T0 -> S1): DecoderOps<AndThenState<S0, S1>, T1>
    requires Decode.ConsumesWithinBuffer(d0) && Decode.ConsumesWithinBuffer(d1)
  {
    DecoderOps((s, buf, eos) => AndThenDecode(d0, d1, f, s, buf, eos),
               s => AndThenFinish(d1, s),
               s => AndThenRequiringBytes(d0, d1, s),
               s => AndThenIsIdle(d1, s))
  }

  lemma AndThenLawful<S0(!new), T0, S1(!new), T1>(d0: DecoderOps<S0, T0>, d1: DecoderOps<S1, T1>, f: T0 -> S1)
    requires Decode.Lawful(d0) && Decode.Lawful(d1)
    ensures Decode.Lawful(AndThenOps(d0, d1, f))
  {
  }

  /**
   * `decode_from_bytes` over `AndThen` decodes in turn: if the first
   * decoder completes an item after the bytes `b0`, and the decoder `f`
   * makes of that item takes all of `b1`, decoding `b0 + b1` yields what
   * the second decoder finishes with, and the slot for it is empty again.
   */
  lemma AndThenDecodesInTurn<S0(!new), T0, S1(!new), T1>(d0: DecoderOps<S0, T0>, d1: DecoderOps<S1, T1>, f: T0 -> S1,
                                                        s0: S0, b0: seq<byte>, b1: seq<byte>)
    requires Decode.ConsumesWithinBuffer(d0) && Decode.ConsumesWithinBuffer(d1)
    requires !d0.isIdle(s0)
    requires d0.decode(s0, b0 + b1, New(true)).result == Ok(|b0|) && d0.isIdle(d0.decode(s0, b0 + b1, New(true)).state)
    requires d0.finish(d0.decode(s0, b0 + b1, New(true)).state).result.Ok?
    requires !d1.isIdle(f(d0.finish(d0.decode(s0, b0 + b1, New(true)).state).result.value))
    requires d1.decode(f(d0.finish(d0.decode(s0, b0 + b1, New(true)).state).result.value), b1, New(true)).result == Ok(|b1|)
    ensures var fin := d0.finish(d0.decode(s0, b0 + b1, New(true)).state);
      var second := d1.decode(f(fin.result.value), b1, New(true));
      DecodeFromBytes(AndThenOps(d0, d1, f), AndThenState(s0, None), b0 + b1) ==
        Outcome(AndThenState(fin.state, None), d1.finish(second.state).result)
  {
    var buf := b0 + b1;
    assert buf[0..] == buf && buf[|b0|..] == b1;
  }

  /** `AndThen` with its first decoder and the slot for the second one. */
  class AndThen<S0(!new), T0, S1(!new), T1> {
    var inner0: S0
    var inner1: Option<S1>
    const d0: DecoderOps<S0, T0>
    const d1: DecoderOps<S1, T1>
    const f: T0 -> S1

    function State(): AndThenState<S0, S1>
      reads this
    {
      AndThenState(inner0, inner1)
    }

    /** `DecodeExt::and_then(f)`. */
    constructor (first: DecoderOps<S0, T0>, second: DecoderOps<S1, T1>, make: T0 -> S1, s: S0)
      ensures State() == AndThenState(s, None) && d0 == first && d1 == second && f == make
    {
      inner0 := s;
      inner1 := None;
      d0 := first;
      d1 := second;
      f := make;
    }

    method Decode(buf: seq<byte>, eos: Eos) returns (r: Result<nat>)
      requires ConsumesWithinBuffer(d0) && ConsumesWithinBuffer(d1)
      modifies this
      ensures Outcome(State(), r) == AndThenDecode(d0, d1, f, old(State()), buf, eos)
    {
      var offset := 0;
      if inner1.None? {
        var first := TryDecode(d0, inner0, buf, offset, eos);
        inner0 := first.state;
        if first.Fail? {
          return Err(first.error);
        }
        if first.Suspend? {
          return Ok(first.offset);
        }
        offset := first.offset;
        var fin := d0.finish(inner0);
        inner0 := fin.state;
        if fin.result.Err? {
          return Err(fin.result.error);
        }
        inner1 := Some(f(fin.result.value));
      }
      var second := TryDecode(d1, inner1.value, buf, offset, eos);
      inner1 := Some(second.state);
      if second.Fail? {
        return Err(second.error);
      }
      return Ok(second.offset);
    }

    method FinishDecoding() returns (r: Result<T1>)
      modifies this
      ensures Outcome(State(), r) == AndThenFinish(d1, old(State()))
    {
      if inner1.None? {
        return Err(IncompleteDecoding);
      }
      var second := inner1.value;
      inner1 := None;
      r := d1.finish(second).result;
    }
  }

  // ---------------------------------------------------------------------
  // PreEncode (src/combinator.rs:1080-1136)
  // ---------------------------------------------------------------------

  /** The fields of `PreEncode`: the inner encoder and the `BytesEncoder` holding the pre-encoded item. */
  datatype PreEncodeState<S> = PreEncodeState(inner: S, pre: EncoderState)

  /**
   * `start_encoding`: encode the whole item with `encode_into_bytes`, then
   * hand the bytes to the `BytesEncoder`.  The `Unknown` path of
   * `encode_into_bytes` is not part of this model and is reported as `Other`.
   */
  function PreEncodeStart<S, T>(e: EncoderOps<S, T>, s: PreEncodeState<S>, item: T): (o: Outcome<PreEncodeState<S>, ()>)
    ensures var whole := EncodeIntoBytes(e, s.inner, item);
      o.state.inner == whole.state &&
      (whole.result.Err? ==> o == Outcome(s.(inner := whole.state), Err(whole.result.error))) &&
      (whole.result.Ok? && whole.result.value.Some? ==>
         o == Outcome(PreEncodeState(whole.state, EncoderStart(s.pre, whole.result.value.value).state),
                      EncoderStart(s.pre, whole.result.value.value).result)) &&
      (whole.result.Ok? && whole.result.value.None? ==> o == Outcome(s.(inner := whole.state), Err(Other)))
  {
    var whole := EncodeIntoBytes(e, s.inner, item);
    match whole.result
    case Err(k) => Outcome(s.(inner := whole.state), Err(k))
    case Ok(None) => Outcome(s.(inner := whole.state), Err(Other))
    case Ok(Some(bytes)) =>
      var started := EncoderStart(s.pre, bytes);
      Outcome(PreEncodeState(whole.state, started.state), started.result)
  }

  function PreEncodeOps<S, T>(e: EncoderOps<S, T>): EncoderOps<PreEncodeState<S>, T>
  {
    EncoderOps((s: PreEncodeState<S>, n, eos) =>
                 var o := EncoderEncode(s.pre, n, eos); Outcome(s.(pre := o.state), o.result),
               (s, item) => PreEncodeStart(e, s, item),
               (s: PreEncodeState<S>) => EncoderRequiringBytes(s.pre),
               (s: PreEncodeState<S>) => EncoderIsIdle(s.pre))
  }

  lemma PreEncodeLawful<S(!new), T>(e: EncoderOps<S, T>)
    ensures Encode.Lawful(PreEncodeOps(e))
  {
    BytesEncoderLawful();
  }

  /**
   * A started `PreEncode` requires exactly the length of the pre-encoded
   * item and, given room for it, writes those bytes and becomes idle.
   */
  lemma PreEncodeWritesWholeItem<S, T>(e: EncoderOps<S, T>, s: PreEncodeState<S>, item: T, n: nat, eos: Eos)
    requires EncoderIsIdle(s.pre)
    requires EncodeIntoBytes(e, s.inner, item).result.Ok? && EncodeIntoBytes(e, s.inner, item).result.value.Some?
    requires n >= |EncodeIntoBytes(e, s.inner, item).result.value.value|
    ensures var bytes := EncodeIntoBytes(e, s.inner, item).result.value.value;
      var started := PreEncodeStart(e, s, item);
      started.result.Ok? &&
      EncoderExactRequiringBytes(started.state.pre) == |bytes| &&
      PreEncodeOps(e).encode(started.state, n, eos).result == Ok(bytes) &&
      PreEncodeOps(e).isIdle(PreEncodeOps(e).encode(started.state, n, eos).state)
  {
    EncoderWritesItem(s.pre, EncodeIntoBytes(e, s.inner, item).result.value.value, n, eos);
  }
}
