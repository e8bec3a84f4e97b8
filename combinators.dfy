/*
 * The combinators of src/combinators.rs, in the trait generation that
 * works on `DecodeBuf`/`EncodeBuf`: `Map`, `MapErr`, `AndThen`, `Buffered`,
 * the two-stage `Chain` with its stage index `i`, `MapFrom`, `Flatten`
 * with `into_flat3`..`into_flat8`, and `StartChain`.
 */
module BufCombinators {
  import opened Base
  import opened EndOfStream
  import opened Decode
  import opened ItemDecode
  import opened Buffers
  import opened BufCodec
  import opened BufBytes

  // ---------------------------------------------------------------------
  // Map and MapErr (src/combinators.rs:5-85)
  // ---------------------------------------------------------------------

  function MapOption<T, U>(x: Option<T>, f: T -> U): (r: Option<U>)
    ensures r.Some? <==> x.Some?
    ensures x.Some? ==> r.value == f(x.value)
  {
    match x
    case None => None
    case Some(v) => Some(f(v))
  }

  /** `Map::decode`: the inner decoder's call with its item, if any, passed through `f`. */
  function MapDecode<S, T, U>(d: BufDecoderOps<S, T>, f: T -> U, s: S, w: seq<byte>, e: Eos): (o: Outcome<S, Decoded<U>>)
    ensures var i := d.decode(s, w, e);
      o.state == i.state && (o.result.Ok? <==> i.result.Ok?) &&
      (i.result.Err? ==> o.result.error == i.result.error) &&
      (i.result.Ok? ==> o.result.value == Decoded(i.result.value.size, MapOption(i.result.value.item, f)))
  {
    var i := d.decode(s, w, e);
    match i.result
    case Err(err) => Outcome(i.state, Err(err))
    case Ok(r) => Outcome(i.state, Ok(Decoded(r.size, MapOption(r.item, f))))
  }

  /** `Map`; its size hint is the inner decoder's. */
  function MapOps<S, T, U>(d: BufDecoderOps<S, T>, f: T -> U): BufDecoderOps<S, U>
  {
    BufDecoderOps((s, w, e) => MapDecode(d, f, s, w, e), d.sizeHint)
  }

  /** Mapping with the identity changes nothing. */
  lemma MapIdentity<S, T>(d: BufDecoderOps<S, T>, s: S, w: seq<byte>, e: Eos)
    ensures MapDecode(d, x => x, s, w, e) == d.decode(s, w, e)
  {
    var i := d.decode(s, w, e);
    if i.result.Ok? {
      assert MapOption(i.result.value.item, x => x) == i.result.value.item;
    }
  }

  /** Mapping twice is mapping once with the composition. */
  lemma MapComposes<S, T, U, V>(d: BufDecoderOps<S, T>, f: T -> U, g: U -> V, s: S, w: seq<byte>, e: Eos)
    ensures MapDecode(MapOps(d, f), g, s, w, e) == MapDecode(d, x => g(f(x)), s, w, e)
  {
    assert MapOps(d, f).decode(s, w, e) == MapDecode(d, f, s, w, e);
  }

  function MapResultError<T>(r: Result<T>, g: ErrorKind -> ErrorKind): (m: Result<T>)
    ensures r.Ok? ==> m == r
    ensures r.Err? ==> m == Err(g(r.error))
  {
    match r
    case Ok(v) => Ok(v)
    case Err(err) => Err(g(err))
  }

  /** `MapErr` on either side: every operation of the inner codec, with its error passed through `g`. */
  function MapErrDecoderOps<S, T>(d: BufDecoderOps<S, T>, g: ErrorKind -> ErrorKind): BufDecoderOps<S, T>
  {
    BufDecoderOps((s, w, e) => var i := d.decode(s, w, e); Outcome(i.state, MapResultError(i.result, g)), d.sizeHint)
  }

  function MapErrEncoderOps<S, T>(en: BufEncoderOps<S, T>, g: ErrorKind -> ErrorKind): BufEncoderOps<S, T>
  {
    BufEncoderOps((s, room, eos) => var i := en.encode(s, room, eos); Outcome(i.state, MapResultError(i.result, g)),
                  (s, item) => var i := en.start(s, item); Outcome(i.state, MapResultError(i.result, g)),
                  en.sizeHint)
  }

  /**
   * `MapErr` leaves every successful call and every state alone and maps
   * exactly the errors, on both sides.
   */
  lemma MapErrMapsOnlyErrors<S, T, SE, TE>(d: BufDecoderOps<S, T>, en: BufEncoderOps<SE, TE>, g: ErrorKind -> ErrorKind,
                                            s: S, w: seq<byte>, e: Eos, se: SE, room: nat, eos: bool, item: TE)
    ensures var m := MapErrDecoderOps(d, g).decode(s, w, e);
      var i := d.decode(s, w, e);
      m.state == i.state && (i.result.Ok? ==> m.result == i.result) && (i.result.Err? ==> m.result == Err(g(i.result.error)))
    ensures var m := MapErrEncoderOps(en, g).encode(se, room, eos);
      var i := en.encode(se, room, eos);
      m.state == i.state && (i.result.Ok? ==> m.result == i.result) && (i.result.Err? ==> m.result == Err(g(i.result.error)))
    ensures var m := MapErrEncoderOps(en, g).start(se, item);
      var i := en.start(se, item);
      m.state == i.state && (i.result.Ok? ==> m.result == i.result) && (i.result.Err? ==> m.result == Err(g(i.result.error)))
  {
  }

  // ---------------------------------------------------------------------
  // AndThen (src/combinators.rs:87-139)
  // ---------------------------------------------------------------------

  /** The fields of `AndThen`: the first decoder and the second one, once it exists. */
  datatype AndThenState<+S0, +S1> = AndThenState(d0: S0, d1: Option<S1>)

  ghost predicate AndThenLawful<S0(!new), T0, S1(!new), T1>(d0: BufDecoderOps<S0, T0>, d1: BufDecoderOps<S1, T1>)
  {
    DecodesWithinWindow(d0) && DecodesWithinWindow(d1) && DecoderMakesProgress(d0) && DecoderMakesProgress(d1)
  }

  /**
   * The loop of `AndThen::decode` from `consumed` bytes into the window:
   * while bytes are left, the second decoder (if it exists) decodes, and a
   * yield ends the loop and drops that decoder; otherwise the first
   * decoder decodes, and its item becomes the second decoder through `f`.
   * The loop consumes the whole window unless it yields.
   */
  function AndThenLoop<S0(!new), T0, S1(!new), T1>(d0: BufDecoderOps<S0, T0>, d1: BufDecoderOps<S1, T1>, f: T0 -> S1,
                                                  s: AndThenState<S0, S1>, w: seq<byte>, e: Eos, consumed: nat): (o: Outcome<AndThenState<S0, S1>, Decoded<T1>>)
    requires consumed <= |w| && AndThenLawful(d0, d1)
    ensures o.result.Ok? ==> consumed <= o.result.value.size <= |w|
    ensures o.result.Ok? && o.result.value.item.None? ==> o.result.value.size == |w|
    ensures o.result.Ok? && o.result.value.item.Some? ==> o.state.d1.None?
    decreases |w| - consumed, if s.d1.None? then 1 else 0
  {
    if consumed == |w| then Outcome(s, Ok(Decoded(consumed, None)))
    else match s.d1
      case Some(x) =>
        var o := d1.decode(x, w[consumed..], e);
        (match o.result
         case Err(err) => Outcome(AndThenState(s.d0, Some(o.state)), Err(err))
         case Ok(r) =>
           if r.item.Some? then Outcome(AndThenState(s.d0, None), Ok(Decoded(consumed + r.size, r.item)))
           else AndThenLoop(d0, d1, f, AndThenState(s.d0, Some(o.state)), w, e, consumed + r.size))
      case None =>
        var o := d0.decode(s.d0, w[consumed..], e);
        match o.result
        case Err(err) => Outcome(AndThenState(o.state, None), Err(err))
        case Ok(r) =>
          if r.item.Some? then AndThenLoop(d0, d1, f, AndThenState(o.state, Some(f(r.item.value))), w, e, consumed + r.size)
          else AndThenLoop(d0, d1, f, AndThenState(o.state, None), w, e, consumed + r.size)
  }

  /**
   * Where the loop of `AndThen::decode` leaves the buffer's cursor, in bytes
   * into the window: past what the loop consumed when it returns, and past
   * what the rounds before the failing call consumed when
   * `decode(buf)?` fails (the failing call's own bytes are not reported).
   */
  function AndThenCursor<S0(!new), T0, S1(!new), T1>(d0: BufDecoderOps<S0, T0>, d1: BufDecoderOps<S1, T1>, f: T0 -> S1,
                                                    s: AndThenState<S0, S1>, w: seq<byte>, e: Eos, consumed: nat): (n: nat)
    requires consumed <= |w| && AndThenLawful(d0, d1)
    ensures consumed <= n <= |w|
    ensures AndThenLoop(d0, d1, f, s, w, e, consumed).result.Ok? ==>
      n == AndThenLoop(d0, d1, f, s, w, e, consumed).result.value.size
    decreases |w| - consumed, if s.d1.None? then 1 else 0
  {
    if consumed == |w| then consumed
    else match s.d1
      case Some(x) =>
        var o := d1.decode(x, w[consumed..], e);
        (match o.result
         case Err(_) => consumed
         case Ok(r) =>
           if r.item.Some? then consumed + r.size
           else AndThenCursor(d0, d1, f, AndThenState(s.d0, Some(o.state)), w, e, consumed + r.size))
      case None =>
        var o := d0.decode(s.d0, w[consumed..], e);
        match o.result
        case Err(_) => consumed
        case Ok(r) =>
          if r.item.Some? then AndThenCursor(d0, d1, f, AndThenState(o.state, Some(f(r.item.value))), w, e, consumed + r.size)
          else AndThenCursor(d0, d1, f, AndThenState(o.state, None), w, e, consumed + r.size)
  }

  function AndThenDecode<S0(!new), T0, S1(!new), T1>(d0: BufDecoderOps<S0, T0>, d1: BufDecoderOps<S1, T1>, f: T0 -> S1,
                                                    s: AndThenState<S0, S1>, w: seq<byte>, e: Eos): Outcome<AndThenState<S0, S1>, Decoded<T1>>
    requires AndThenLawful(d0, d1)
  {
    AndThenLoop(d0, d1, f, s, w, e, 0)
  }

  /** `decode_size_hint`: the second decoder's once it exists, else the first's. */
  function AndThenSizeHint<S0, T0, S1, T1>(d0: BufDecoderOps<S0, T0>, d1: BufDecoderOps<S1, T1>, s: AndThenState<S0, S1>): (n: nat)
    ensures s.d1.Some? ==> n == d1.sizeHint(s.d1.value)
    ensures s.d1.None? ==> n == d0.sizeHint(s.d0)
  {
    match s.d1
    case Some(x) => d1.sizeHint(x)
    case None => d0.sizeHint(s.d0)
  }

  /** Once the first decoder yields, the rest of the window goes to the decoder `f` makes of its item. */
  lemma AndThenSwitches<S0(!new), T0, S1(!new), T1>(d0: BufDecoderOps<S0, T0>, d1: BufDecoderOps<S1, T1>, f: T0 -> S1,
                                                   s: AndThenState<S0, S1>, w: seq<byte>, e: Eos, s0: S0, k: nat, x: T0)
    requires AndThenLawful(d0, d1) && s.d1.None? && |w| > 0
    requires d0.decode(s.d0, w, e) == Outcome(s0, Ok(Decoded(k, Some(x))))
    ensures k <= |w|
    ensures AndThenDecode(d0, d1, f, s, w, e) == AndThenLoop(d0, d1, f, AndThenState(s0, Some(f(x))), w, e, k)
  {
    assert w[0..] == w;
  }

  /** When the second decoder yields, so does `AndThen`, and the second decoder is dropped. */
  lemma AndThenYieldResets<S0(!new), T0, S1(!new), T1>(d0: BufDecoderOps<S0, T0>, d1: BufDecoderOps<S1, T1>, f: T0 -> S1,
                                                      s: AndThenState<S0, S1>, w: seq<byte>, e: Eos, s1: S1, k: nat, y: T1)
    requires AndThenLawful(d0, d1) && s.d1.Some? && |w| > 0
    requires d1.decode(s.d1.value, w, e) == Outcome(s1, Ok(Decoded(k, Some(y))))
    ensures AndThenDecode(d0, d1, f, s, w, e) == Outcome(AndThenState(s.d0, None), Ok(Decoded(k, Some(y))))
  {
    assert w[0..] == w;
  }

  /** `AndThen` updating its two decoders in place. */
  class AndThen<S0(!new), T0, S1(!new), T1> {
    var d0: S0
    var d1: Option<S1>
    const ops0: BufDecoderOps<S0, T0>
    const ops1: BufDecoderOps<S1, T1>
    const f: T0 -> S1

    function State(): AndThenState<S0, S1>
      reads this
    {
      AndThenState(d0, d1)
    }

    /** `DecodeExt::and_then(f)` on a decoder in state `s`. */
    constructor (o0: BufDecoderOps<S0, T0>, s: S0, o1: BufDecoderOps<S1, T1>, g: T0 -> S1)
      ensures State() == AndThenState(s, None) && ops0 == o0 && ops1 == o1 && f == g
    {
      d0 := s;
      d1 := None;
      ops0 := o0;
      ops1 := o1;
      f := g;
    }

    method Decode(buf: DecodeBuf) returns (r: Result<Option<T1>>)
      requires buf.Valid() && AndThenLawful(ops0, ops1)
      modifies this, buf
      ensures buf.Valid()
      ensures var o := AndThenDecode(ops0, ops1, f, old(State()), DecodeWindow(old(buf.State())), DecodeEos(old(buf.State())));
        State() == o.state && r == ItemOf(o.result) &&
        (o.result.Ok? ==> buf.State() == DecodeConsume(old(buf.State()), o.result.value.size).value)
    ensures buf.State() == DecodeConsume(old(buf.State()),
      AndThenCursor(ops0, ops1, f, old(State()), DecodeWindow(old(buf.State())), DecodeEos(old(buf.State())), 0)).value
    {
      var st := buf.State();
      var w := DecodeWindow(st);
      var e := DecodeEos(st);
      var s0, s1 := d0, d1;
      var consumed: nat := 0;
      ghost var at := AndThenCursor(ops0, ops1, f, State(), w, e, 0);
      while consumed < |w|
        invariant consumed <= |w|
        invariant AndThenLoop(ops0, ops1, f, AndThenState(s0, s1), w, e, consumed) ==
                  AndThenDecode(ops0, ops1, f, old(State()), w, e)
        invariant AndThenCursor(ops0, ops1, f, AndThenState(s0, s1), w, e, consumed) == at
        invariant buf.offset == st.offset
        decreases |w| - consumed, if s1.None? then 1 else 0
      {
        if s1.Some? {
          var o := ops1.decode(s1.value, w[consumed..], e);
          if o.result.Err? {
            d0, d1 := s0, Some(o.state);
            buf.offset := st.offset + consumed;
            return Err(o.result.error);
          }
          consumed := consumed + o.result.value.size;
          if o.result.value.item.Some? {
            d0, d1 := s0, None;
            buf.offset := st.offset + consumed;
            return Ok(o.result.value.item);
          }
          s1 := Some(o.state);
        } else {
          var o := ops0.decode(s0, w[consumed..], e);
          if o.result.Err? {
            d0, d1 := o.state, None;
            buf.offset := st.offset + consumed;
            return Err(o.result.error);
          }
          consumed := consumed + o.result.value.size;
          s0 := o.state;
          if o.result.value.item.Some? {
            s1 := Some(f(o.result.value.item.value));
          }
        }
      }
      d0, d1 := s0, s1;
      buf.offset := st.offset + consumed;
      return Ok(None);
    }

    function DecodeSizeHint(): (n: nat)
      reads this
      ensures n == AndThenSizeHint(ops0, ops1, State())
    {
      if d1.Some? then ops1.sizeHint(d1.value) else ops0.sizeHint(d0)
    }
  }

  // ---------------------------------------------------------------------
  // Buffered (src/combinators.rs:342-378)
  // ---------------------------------------------------------------------

  /** The fields of `Buffered`: the decoder and the slot for the item it completed. */
  datatype BufferedSlot<+S, +T> = BufferedSlot(decoder: S, buffer: Option<T>)

  /**
   * `Buffered::decode`: with an empty slot the decoder decodes and its item,
   * if any, goes into the slot; with a full slot nothing is consumed.  The
   * call itself never yields.
   */
  function BufferedDecode<S, T>(d: BufDecoderOps<S, T>, s: BufferedSlot<S, T>, w: seq<byte>, e: Eos): (o: Outcome<BufferedSlot<S, T>, Decoded<T>>)
    ensures o.result.Ok? ==> o.result.value.item.None?
    ensures s.buffer.Some? ==> o == Outcome(s, Ok(Decoded(0, None)))
    ensures s.buffer.None? ==>
      var i := d.decode(s.decoder, w, e);
      o.state.decoder == i.state && (o.result.Ok? <==> i.result.Ok?) &&
      (i.result.Err? ==> o.result.error == i.result.error && o.state.buffer.None?) &&
      (i.result.Ok? ==> o.result.value.size == i.result.value.size && o.state.buffer == i.result.value.item)
  {
    if s.buffer.Some? then Outcome(s, Ok(Decoded(0, None)))
    else
      var i := d.decode(s.decoder, w, e);
      match i.result
      case Err(err) => Outcome(BufferedSlot(i.state, None), Err(err))
      case Ok(r) => Outcome(BufferedSlot(i.state, r.item), Ok(Decoded(r.size, None)))
  }

  /** `decode_size_hint`: 0 while an item is held, else the decoder's. */
  function BufferedSizeHint<S, T>(d: BufDecoderOps<S, T>, s: BufferedSlot<S, T>): (n: nat)
    ensures s.buffer.Some? ==> n == 0
    ensures s.buffer.None? ==> n == d.sizeHint(s.decoder)
  {
    if s.buffer.Some? then 0 else d.sizeHint(s.decoder)
  }

  /** `take_item`. */
  function BufferedTake<S, T>(s: BufferedSlot<S, T>): (r: (Option<T>, BufferedSlot<S, T>))
    ensures r.0 == s.buffer && r.1 == BufferedSlot(s.decoder, None)
  {
    (s.buffer, s.(buffer := None))
  }

  function BufferedOps<S, T>(d: BufDecoderOps<S, T>): BufDecoderOps<BufferedSlot<S, T>, T>
  {
    BufDecoderOps((s, w, e) => BufferedDecode(d, s, w, e), s => BufferedSizeHint(d, s))
  }

  lemma BufferedLawful<S(!new), T(!new)>(d: BufDecoderOps<S, T>)
    requires DecodesWithinWindow(d)
    ensures DecodesWithinWindow(BufferedOps(d))
  {
    forall s: BufferedSlot<S, T>, w: seq<byte>, e: Eos | BufferedDecode(d, s, w, e).result.Ok?
      ensures BufferedDecode(d, s, w, e).result.value.size <= |w|
    {
      if s.buffer.None? {
        assert d.decode(s.decoder, w, e).result.Ok?;
      }
    }
  }

  /**
   * A `Buffered` holding an item is a decoder the progress rule of
   * `AndThen` excludes: on a non-empty window it consumes nothing and
   * yields nothing, so `while !buf.is_empty()` never ends with it inside.
   */
  lemma BufferedHoldingBreaksProgress<S(!new), T(!new)>(d: BufDecoderOps<S, T>, s: S, x: T, w: seq<byte>, e: Eos)
    requires |w| > 0
    ensures BufferedOps(d).decode(BufferedSlot(s, Some(x)), w, e) == Outcome(BufferedSlot(s, Some(x)), Ok(Decoded(0, None)))
    ensures !DecoderMakesProgress(BufferedOps(d))
  {
    assert BufferedOps(d).decode(BufferedSlot(s, Some(x)), w, e).result.Ok?;
  }

  /**
   * With an empty slot, decoding through `Buffered` and taking the item is
   * decoding with the decoder itself.
   */
  lemma BufferedThenTake<S, T>(d: BufDecoderOps<S, T>, s: BufferedSlot<S, T>, w: seq<byte>, e: Eos)
    requires s.buffer.None?
    ensures var o := BufferedDecode(d, s, w, e);
      var i := d.decode(s.decoder, w, e);
      var (item, after) := BufferedTake(o.state);
      o.result.Ok? == i.result.Ok? && after == BufferedSlot(i.state, None) &&
      (i.result.Ok? ==> o.result.value.size == i.result.value.size && item == i.result.value.item)
  {
  }

  // ---------------------------------------------------------------------
  // Chain, decoding side (src/combinators.rs:250-259, 301-340)
  // ---------------------------------------------------------------------

  /** The stage index `i` of `Chain`: 0 and 1 name a stage, 2 means both are done. */
  type Stage = i: nat | i <= 2

  /** The fields of `Chain<Buffered<A>, Buffered<B>>`. */
  datatype ChainDecState<+SA, +TA, +SB, +TB> = ChainDecState(a: BufferedSlot<SA, TA>, b: BufferedSlot<SB, TB>, i: Stage)

  /** `Chain::new`: both stages empty, stage 0 first. */
  function ChainDecoderNew<SA, TA, SB, TB>(a: SA, b: SB): (s: ChainDecState<SA, TA, SB, TB>)
    ensures s.i == 0 && s.a.buffer.None? && s.b.buffer.None?
  {
    ChainDecState(BufferedSlot(a, None), BufferedSlot(b, None), 0)
  }

  /**
   * The loop of `Chain::decode` from `consumed` bytes into the window:
   * while bytes are left and a stage is pending, stage `i` decodes, and
   * the chain moves to the next stage when that call consumed nothing.
   * With `onHold` the chain also moves on as soon as the stage holds its
   * item; without it, the rule is the one written in the source.
   */
  function ChainDecodeLoop<SA(!new), TA, SB(!new), TB>(da: BufDecoderOps<SA, TA>, db: BufDecoderOps<SB, TB>, onHold: bool,
                                                      s: ChainDecState<SA, TA, SB, TB>, w: seq<byte>, e: Eos, consumed: nat): (o: Outcome<ChainDecState<SA, TA, SB, TB>, nat>)
    requires consumed <= |w| && DecodesWithinWindow(da) && DecodesWithinWindow(db)
    ensures o.state.i >= s.i
    ensures s.i >= 1 ==> o.state.a == s.a
    ensures o.state.i == 0 ==> o.state.b == s.b
    ensures o.result.Ok? ==> consumed <= o.result.value <= |w| && (o.result.value < |w| ==> o.state.i == 2)
    decreases |w| - consumed, 2 - s.i
  {
    if consumed == |w| || s.i == 2 then Outcome(s, Ok(consumed))
    else if s.i == 0 then
      var o := BufferedDecode(da, s.a, w[consumed..], e);
      (match o.result
       case Err(err) => Outcome(s.(a := o.state), Err(err))
       case Ok(r) =>
         assert s.a.buffer.None? ==> da.decode(s.a.decoder, w[consumed..], e).result.Ok?;
         if r.size == 0 || (onHold && o.state.buffer.Some?) then
           ChainDecodeLoop(da, db, onHold, s.(a := o.state, i := 1), w, e, consumed + r.size)
         else ChainDecodeLoop(da, db, onHold, s.(a := o.state), w, e, consumed + r.size))
    else
      var o := BufferedDecode(db, s.b, w[consumed..], e);
      match o.result
      case Err(err) => Outcome(s.(b := o.state), Err(err))
      case Ok(r) =>
        assert s.b.buffer.None? ==> db.decode(s.b.decoder, w[consumed..], e).result.Ok?;
        if r.size == 0 || (onHold && o.state.buffer.Some?) then
          ChainDecodeLoop(da, db, onHold, s.(b := o.state, i := 2), w, e, consumed + r.size)
        else ChainDecodeLoop(da, db, onHold, s.(b := o.state), w, e, consumed + r.size)
  }

  /**
   * Where the loop of `Chain::decode` leaves the buffer's cursor, in bytes
   * into the window: past what the loop consumed when it ends, and past
   * what the rounds before the failing call consumed when a stage's
   * `decode(buf)?` fails (the failing call's own bytes are not reported).
   */
  function ChainDecodeCursor<SA(!new), TA, SB(!new), TB>(da: BufDecoderOps<SA, TA>, db: BufDecoderOps<SB, TB>, onHold: bool,
                                                        s: ChainDecState<SA, TA, SB, TB>, w: seq<byte>, e: Eos, consumed: nat): (n: nat)
    requires consumed <= |w| && DecodesWithinWindow(da) && DecodesWithinWindow(db)
    ensures consumed <= n <= |w|
    ensures ChainDecodeLoop(da, db, onHold, s, w, e, consumed).result.Ok? ==>
      n == ChainDecodeLoop(da, db, onHold, s, w, e, consumed).result.value
    decreases |w| - consumed, 2 - s.i
  {
    if consumed == |w| || s.i == 2 then consumed
    else if s.i == 0 then
      var o := BufferedDecode(da, s.a, w[consumed..], e);
      (match o.result
       case Err(_) => consumed
       case Ok(r) =>
         assert s.a.buffer.None? ==> da.decode(s.a.decoder, w[consumed..], e).result.Ok?;
         if r.size == 0 || (onHold && o.state.buffer.Some?) then
           ChainDecodeCursor(da, db, onHold, s.(a := o.state, i := 1), w, e, consumed + r.size)
         else ChainDecodeCursor(da, db, onHold, s.(a := o.state), w, e, consumed + r.size))
    else
      var o := BufferedDecode(db, s.b, w[consumed..], e);
      match o.result
      case Err(_) => consumed
      case Ok(r) =>
        assert s.b.buffer.None? ==> db.decode(s.b.decoder, w[consumed..], e).result.Ok?;
        if r.size == 0 || (onHold && o.state.buffer.Some?) then
          ChainDecodeCursor(da, db, onHold, s.(b := o.state, i := 2), w, e, consumed + r.size)
        else ChainDecodeCursor(da, db, onHold, s.(b := o.state), w, e, consumed + r.size)
  }

  /**
   * After the loop: with both stages done the chain starts over at stage 0
   * and yields the two buffered items, or fails with `Other` if a slot is
   * empty (having taken the slots it got to); otherwise it yields nothing.
   */
  function ChainDecodeFinish<SA, TA, SB, TB>(s: ChainDecState<SA, TA, SB, TB>, consumed: nat): (o: Outcome<ChainDecState<SA, TA, SB, TB>, Decoded<(TA, TB)>>)
    ensures s.i < 2 ==> o == Outcome(s, Ok(Decoded(consumed, None)))
    ensures s.i == 2 ==> o.state.i == 0 && o.state.a == BufferedSlot(s.a.decoder, None)
    ensures s.i == 2 && s.a.buffer.Some? && s.b.buffer.Some? ==>
      o == Outcome(ChainDecState(BufferedSlot(s.a.decoder, None), BufferedSlot(s.b.decoder, None), 0),
                   Ok(Decoded(consumed, Some((s.a.buffer.value, s.b.buffer.value)))))
    ensures s.i == 2 && (s.a.buffer.None? || s.b.buffer.None?) ==> o.result == Err(Other)
  {
    if s.i < 2 then Outcome(s, Ok(Decoded(consumed, None)))
    else
      var (x, a) := BufferedTake(s.a);
      if x.None? then Outcome(ChainDecState(a, s.b, 0), Err(Other))
      else
        var (y, b) := BufferedTake(s.b);
        if y.None? then Outcome(ChainDecState(a, b, 0), Err(Other))
        else Outcome(ChainDecState(a, b, 0), Ok(Decoded(consumed, Some((x.value, y.value)))))
  }

  function ChainDecodeWith<SA(!new), TA, SB(!new), TB>(da: BufDecoderOps<SA, TA>, db: BufDecoderOps<SB, TB>, onHold: bool,
                                                      s: ChainDecState<SA, TA, SB, TB>, w: seq<byte>, e: Eos): (o: Outcome<ChainDecState<SA, TA, SB, TB>, Decoded<(TA, TB)>>)
    requires DecodesWithinWindow(da) && DecodesWithinWindow(db)
    ensures o.result.Ok? ==> o.result.value.size <= |w|
    ensures o.result.Ok? && o.result.value.item.None? ==> o.result.value.size == |w|
  {
    var l := ChainDecodeLoop(da, db, onHold, s, w, e, 0);
    match l.result
    case Err(err) => Outcome(l.state, Err(err))
    case Ok(n) => ChainDecodeFinish(l.state, n)
  }

  /** `Chain::decode` as written: a stage is left only by a call that consumed nothing. */
  function ChainDecodeAsWritten<SA(!new), TA, SB(!new), TB>(da: BufDecoderOps<SA, TA>, db: BufDecoderOps<SB, TB>,
                                                           s: ChainDecState<SA, TA, SB, TB>, w: seq<byte>, e: Eos): Outcome<ChainDecState<SA, TA, SB, TB>, Decoded<(TA, TB)>>
    requires DecodesWithinWindow(da) && DecodesWithinWindow(db)
  {
    ChainDecodeWith(da, db, false, s, w, e)
  }

  /** `Chain::decode` moving on as soon as the stage holds its item, so that a complete pair is yielded at once. */
  function ChainDecode<SA(!new), TA, SB(!new), TB>(da: BufDecoderOps<SA, TA>, db: BufDecoderOps<SB, TB>,
                                                  s: ChainDecState<SA, TA, SB, TB>, w: seq<byte>, e: Eos): Outcome<ChainDecState<SA, TA, SB, TB>, Decoded<(TA, TB)>>
    requires DecodesWithinWindow(da) && DecodesWithinWindow(db)
  {
    ChainDecodeWith(da, db, true, s, w, e)
  }

  /** `decode_size_hint`: the hints of the stages not yet done, added up. */
  function ChainDecodeSizeHint<SA, TA, SB, TB>(da: BufDecoderOps<SA, TA>, db: BufDecoderOps<SB, TB>, s: ChainDecState<SA, TA, SB, TB>): (n: nat)
    ensures s.i == 2 ==> n == 0
    ensures s.i == 1 ==> n == BufferedSizeHint(db, s.b)
    ensures s.i == 0 ==> n == BufferedSizeHint(da, s.a) + BufferedSizeHint(db, s.b)
  {
    (if s.i <= 0 then BufferedSizeHint(da, s.a) else 0) + (if s.i <= 1 then BufferedSizeHint(db, s.b) else 0)
  }

  /** A one-byte stage: `BytesDecoder<[u8; 1]>`. */
  function OneByte(): BufDecoderOps<BytesDecoderValue, seq<byte>>
  {
    BytesDecoderOps()
  }

  lemma OneByteTakes(s: BytesDecoderValue, w: seq<byte>, e: Eos)
    requires s == BytesDecoderNew(1) && |w| > 0
    ensures OneByte().decode(s, w, e) == Outcome(BytesDecoderNew(1), Ok(Decoded(1, Some([w[0]]))))
  {
    assert BytesFill(s, w).1.bytes == [w[0]];
  }

  /**
   * The discrepancy: a chain of two one-byte stages given `[1, 2]` at the
   * end of the stream consumes both bytes but yields nothing, and a further
   * call (the window is empty) yields nothing either: the pair is never
   * produced.  Moving on once a stage holds its item yields `([1], [2])`.
   */
  lemma ChainDecodeAsWrittenNeverYields()
    ensures var s := ChainDecoderNew(BytesDecoderNew(1), BytesDecoderNew(1));
      var o1 := ChainDecodeAsWritten(OneByte(), OneByte(), s, [1, 2], New(true));
      o1.result == Ok(Decoded(2, None)) &&
      ChainDecodeAsWritten(OneByte(), OneByte(), o1.state, [], New(true)).result == Ok(Decoded(0, None))
    ensures var s := ChainDecoderNew(BytesDecoderNew(1), BytesDecoderNew(1));
      ChainDecode(OneByte(), OneByte(), s, [1, 2], New(true)).result == Ok(Decoded(2, Some(([1], [2]))))
  {
    BytesDecoderLawful();
    var w: seq<byte> := [1, 2];
    var e := New(true);
    var z := BytesDecoderNew(1);
    var s: ChainDecState<BytesDecoderValue, seq<byte>, BytesDecoderValue, seq<byte>> := ChainDecoderNew(z, z);
    OneByteTakes(z, w, e);
    OneByteTakes(z, w[1..], e);
    assert w[0..] == w && w[1..] == [2] && w[2..] == [];
    // as written: stage 0 takes a byte, is left by the call that consumes nothing, stage 1 takes the last byte
    var s1 := s.(a := BufferedSlot(z, Some([1])));
    assert ChainDecodeLoop(OneByte(), OneByte(), false, s, w, e, 0) == ChainDecodeLoop(OneByte(), OneByte(), false, s1, w, e, 1);
    var s2 := s1.(i := 1);
    assert ChainDecodeLoop(OneByte(), OneByte(), false, s1, w, e, 1) == ChainDecodeLoop(OneByte(), OneByte(), false, s2, w, e, 1);
    var s3 := s2.(b := BufferedSlot(z, Some([2])));
    assert ChainDecodeLoop(OneByte(), OneByte(), false, s2, w, e, 1) == ChainDecodeLoop(OneByte(), OneByte(), false, s3, w, e, 2);
    assert ChainDecodeLoop(OneByte(), OneByte(), false, s3, w, e, 2) == Outcome(s3, Ok(2));
    var empty: seq<byte> := [];
    assert ChainDecodeLoop(OneByte(), OneByte(), false, s3, empty, e, 0) == Outcome(s3, Ok(0));
    // corrected: each stage is left as soon as it holds its item
    var c1 := s.(a := BufferedSlot(z, Some([1])), i := 1);
    assert ChainDecodeLoop(OneByte(), OneByte(), true, s, w, e, 0) == ChainDecodeLoop(OneByte(), OneByte(), true, c1, w, e, 1);
    var c2 := c1.(b := BufferedSlot(z, Some([2])), i := 2);
    assert ChainDecodeLoop(OneByte(), OneByte(), true, c1, w, e, 1) == ChainDecodeLoop(OneByte(), OneByte(), true, c2, w, e, 2);
  }

  /**
   * The corrected chain yields the pair of its stages' items: if stage `a`
   * completes `x` after `k` bytes of the window, leaving bytes over, and
   * stage `b` completes `y` after `m` of the bytes that follow, one call
   * consumes `k + m` bytes, yields `(x, y)` and starts over with both
   * slots empty.
   */
  lemma ChainDecodeYieldsPair<SA(!new), TA, SB(!new), TB>(da: BufDecoderOps<SA, TA>, db: BufDecoderOps<SB, TB>,
                                                         s: ChainDecState<SA, TA, SB, TB>, w: seq<byte>, e: Eos,
                                                         a1: SA, x: TA, k: nat, b1: SB, y: TB, m: nat)
    requires DecodesWithinWindow(da) && DecodesWithinWindow(db)
    requires s.i == 0 && s.a.buffer.None? && s.b.buffer.None?
    requires da.decode(s.a.decoder, w, e) == Outcome(a1, Ok(Decoded(k, Some(x)))) && k < |w|
    requires db.decode(s.b.decoder, w[k..], e) == Outcome(b1, Ok(Decoded(m, Some(y))))
    ensures k + m <= |w|
    ensures ChainDecode(da, db, s, w, e) ==
      Outcome(ChainDecState(BufferedSlot(a1, None), BufferedSlot(b1, None), 0), Ok(Decoded(k + m, Some((x, y)))))
  {
    assert w[0..] == w;
    var s1 := s.(a := BufferedSlot(a1, Some(x)), i := 1);
    assert ChainDecodeLoop(da, db, true, s, w, e, 0) == ChainDecodeLoop(da, db, true, s1, w, e, k);
    var s2 := s1.(b := BufferedSlot(b1, Some(y)), i := 2);
    assert ChainDecodeLoop(da, db, true, s1, w, e, k) == ChainDecodeLoop(da, db, true, s2, w, e, k + m);
  }

  /** `Chain<Buffered<A>, Buffered<B>>` updating its stages and index in place. */
  class ChainDecoder<SA(!new), TA, SB(!new), TB> {
    var a: BufferedSlot<SA, TA>
    var b: BufferedSlot<SB, TB>
    var i: Stage
    const da: BufDecoderOps<SA, TA>
    const db: BufDecoderOps<SB, TB>

    function State(): ChainDecState<SA, TA, SB, TB>
      reads this
    {
      ChainDecState(a, b, i)
    }

    constructor (oa: BufDecoderOps<SA, TA>, sa: SA, ob: BufDecoderOps<SB, TB>, sb: SB)
      ensures State() == ChainDecoderNew(sa, sb) && da == oa && db == ob
    {
      a := BufferedSlot(sa, None);
      b := BufferedSlot(sb, None);
      i := 0;
      da := oa;
      db := ob;
    }

    method Decode(buf: DecodeBuf) returns (r: Result<Option<(TA, TB)>>)
      requires buf.Valid() && DecodesWithinWindow(da) && DecodesWithinWindow(db)
      modifies this, buf
      ensures buf.Valid()
      ensures var o := ChainDecode(da, db, old(State()), DecodeWindow(old(buf.State())), DecodeEos(old(buf.State())));
        State() == o.state && r == ItemOf(o.result) &&
        (o.result.Ok? ==> buf.State() == DecodeConsume(old(buf.State()), o.result.value.size).value)
    ensures buf.State() == DecodeConsume(old(buf.State()),
      ChainDecodeCursor(da, db, true, old(State()), DecodeWindow(old(buf.State())), DecodeEos(old(buf.State())), 0)).value
    {
      var st := buf.State();
      var w := DecodeWindow(st);
      var e := DecodeEos(st);
      var sa, sb, si := a, b, i;
      var consumed: nat := 0;
      ghost var at := ChainDecodeCursor(da, db, true, State(), w, e, 0);
      while consumed < |w| && si < 2
        invariant consumed <= |w|
        invariant ChainDecodeLoop(da, db, true, ChainDecState(sa, sb, si), w, e, consumed) ==
                  ChainDecodeLoop(da, db, true, old(State()), w, e, 0)
        invariant ChainDecodeCursor(da, db, true, ChainDecState(sa, sb, si), w, e, consumed) == at
        invariant buf.offset == st.offset
        decreases |w| - consumed, 2 - si
      {
        var next, after, err := DecodeRound(ChainDecState(sa, sb, si), w, e, consumed);
        if err.Some? {
          a, b, i := next.a, next.b, next.i;
          buf.offset := st.offset + consumed;
          return Err(err.value);
        }
        sa, sb, si, consumed := next.a, next.b, next.i, after;
      }
      buf.offset := st.offset + consumed;
      if si < 2 {
        a, b, i := sa, sb, si;
        return Ok(None);
      }
      var x := sa.buffer;
      var y := sb.buffer;
      a, i := sa.(buffer := None), 0;
      if x.None? {
        b := sb;
        return Err(Other);
      }
      b := sb.(buffer := None);
      if y.None? {
        return Err(Other);
      }
      return Ok(Some((x.value, y.value)));
    }

    /**
     * One round of the loop of `decode`: stage `i` decodes the rest of the
     * window.  A failure ends the call where `ChainDecodeLoop` says, with the
     * cursor where the round began; otherwise the loop goes on from the
     * bytes and stage the round leaves.
     */
    method DecodeRound(s: ChainDecState<SA, TA, SB, TB>, w: seq<byte>, e: Eos, consumed: nat)
      returns (next: ChainDecState<SA, TA, SB, TB>, after: nat, err: Option<ErrorKind>)
      requires DecodesWithinWindow(da) && DecodesWithinWindow(db)
      requires consumed < |w| && s.i < 2
      ensures err.Some? ==>
        ChainDecodeLoop(da, db, true, s, w, e, consumed) == Outcome(next, Err(err.value)) &&
        ChainDecodeCursor(da, db, true, s, w, e, consumed) == consumed
      ensures err.None? ==>
        consumed <= after <= |w| && (after > consumed || next.i > s.i) &&
        ChainDecodeLoop(da, db, true, next, w, e, after) == ChainDecodeLoop(da, db, true, s, w, e, consumed) &&
        ChainDecodeCursor(da, db, true, next, w, e, after) == ChainDecodeCursor(da, db, true, s, w, e, consumed)
    {
      if s.i == 0 {
        var o := BufferedDecode(da, s.a, w[consumed..], e);
        if o.result.Err? {
          return s.(a := o.state), consumed, Some(o.result.error);
        }
        assert s.a.buffer.None? ==> da.decode(s.a.decoder, w[consumed..], e).result.Ok?;
        var size := o.result.value.size;
        next, after, err := s.(a := o.state), consumed + size, None;
        if size == 0 || o.state.buffer.Some? {
          next := next.(i := 1);
        }
      } else {
        var o := BufferedDecode(db, s.b, w[consumed..], e);
        if o.result.Err? {
          return s.(b := o.state), consumed, Some(o.result.error);
        }
        assert s.b.buffer.None? ==> db.decode(s.b.decoder, w[consumed..], e).result.Ok?;
        var size := o.result.value.size;
        next, after, err := s.(b := o.state), consumed + size, None;
        if size == 0 || o.state.buffer.Some? {
          next := next.(i := 2);
        }
      }
    }

    function DecodeSizeHint(): (n: nat)
      reads this
      ensures n == ChainDecodeSizeHint(da, db, State())
    {
      var size := if i <= 0 then BufferedSizeHint(da, a) else 0;
      size + if i <= 1 then BufferedSizeHint(db, b) else 0
    }
  }

  // ---------------------------------------------------------------------
  // Chain, encoding side (src/combinators.rs:261-300)
  // ---------------------------------------------------------------------

  /** The fields of `Chain<A, B>` on the encoding side. */
  datatype ChainEncState<+SA, +SB> = ChainEncState(a: SA, b: SB, i: Stage)

  /**
   * The loop of `Chain::encode`: while there is room and a stage is
   * pending, stage `i` writes, and the chain moves to the next stage when the
   * buffer reports the stage completed.
   */
  function ChainEncodeLoop<SA(!new), TA, SB(!new), TB>(ea: BufEncoderOps<SA, TA>, eb: BufEncoderOps<SB, TB>,
                                                      s: ChainEncState<SA, SB>, st: EncodeBufValue): (o: Outcome<ChainEncState<SA, SB>, EncodeBufValue>)
    requires EncodesWithinRoom(ea) && EncodesWithinRoom(eb)
    ensures o.state.i >= s.i
    ensures s.i >= 1 ==> o.state.a == s.a
    ensures o.state.i == 0 ==> o.state.b == s.b
    ensures o.result.Ok? ==>
      var r := o.result.value;
      |r.buf| == |st.buf| && r.eos == st.eos && st.offset <= r.offset &&
      r.buf[..st.offset] == st.buf[..st.offset] && (EncodeRoom(r) == 0 || o.state.i == 2)
    decreases 2 - s.i
  {
    if EncodeRoom(st) == 0 || s.i == 2 then Outcome(s, Ok(st))
    else if s.i == 0 then
      var o := EncodeOn(ea, s.a, st);
      (match o.result
       case Err(err) => Outcome(s.(a := o.state), Err(err))
       case Ok(after) =>
         assert ea.encode(s.a, EncodeRoom(st), st.eos).result.Ok?;
         EncodeWriteReadsBack(st, ea.encode(s.a, EncodeRoom(st), st.eos).result.value);
         if EncodeIsCompleted(after) then
           var l := ChainEncodeLoop(ea, eb, s.(a := o.state, i := 1), after);
           assert l.result.Ok? ==> l.result.value.buf[..st.offset] == after.buf[..st.offset];
           l
         else Outcome(s.(a := o.state), Ok(after)))
    else
      var o := EncodeOn(eb, s.b, st);
      match o.result
      case Err(err) => Outcome(s.(b := o.state), Err(err))
      case Ok(after) =>
        assert eb.encode(s.b, EncodeRoom(st), st.eos).result.Ok?;
        EncodeWriteReadsBack(st, eb.encode(s.b, EncodeRoom(st), st.eos).result.value);
        if EncodeIsCompleted(after) then Outcome(s.(b := o.state, i := 2), Ok(after))
        else Outcome(s.(b := o.state), Ok(after))
  }

  /**
   * `Chain::start_encoding`: `Full` unless both stages are done; otherwise
   * stage 0 becomes current and both stages are started in order, the
   * first error ending the call.
   */
  function ChainEncStart<SA, TA, SB, TB>(ea: BufEncoderOps<SA, TA>, eb: BufEncoderOps<SB, TB>, s: ChainEncState<SA, SB>, item: (TA, TB)): (o: Outcome<ChainEncState<SA, SB>, ()>)
    ensures s.i != 2 ==> o == Outcome(s, Err(Full))
    ensures s.i == 2 ==> o.state.i == 0 && o.state.a == ea.start(s.a, item.0).state
    ensures o.result.Ok? <==> s.i == 2 && ea.start(s.a, item.0).result.Ok? && eb.start(s.b, item.1).result.Ok?
    ensures s.i == 2 && ea.start(s.a, item.0).result.Err? ==> o.state.b == s.b && o.result == ea.start(s.a, item.0).result
    ensures s.i == 2 && ea.start(s.a, item.0).result.Ok? ==> o.state.b == eb.start(s.b, item.1).state
  {
    if s.i != 2 then Outcome(s, Err(Full))
    else
      var oa := ea.start(s.a, item.0);
      if oa.result.Err? then Outcome(ChainEncState(oa.state, s.b, 0), oa.result)
      else
        var ob := eb.start(s.b, item.1);
        Outcome(ChainEncState(oa.state, ob.state, 0), ob.result)
  }

  /** `encode_size_hint`: the hints of the stages not yet done, added up. */
  function ChainEncodeSizeHint<SA, TA, SB, TB>(ea: BufEncoderOps<SA, TA>, eb: BufEncoderOps<SB, TB>, s: ChainEncState<SA, SB>): (n: nat)
    ensures s.i == 2 ==> n == 0
    ensures s.i == 1 ==> n == eb.sizeHint(s.b)
    ensures s.i == 0 ==> n == ea.sizeHint(s.a) + eb.sizeHint(s.b)
  {
    (if s.i <= 0 then ea.sizeHint(s.a) else 0) + (if s.i <= 1 then eb.sizeHint(s.b) else 0)
  }

  /** `Chain::new` as written: stage index 0, the same for encoding as for decoding. */
  function ChainNewAsWritten<SA, SB>(a: SA, b: SB): (s: ChainEncState<SA, SB>)
    ensures s.i == 0
  {
    ChainEncState(a, b, 0)
  }

  /**
   * The discrepancy: a chain fresh from `Chain::new` refuses its first item
   * with `Full`, whatever the stages and the item.
   */
  lemma ChainNewAsWrittenRefusesFirstItem<SA, TA, SB, TB>(ea: BufEncoderOps<SA, TA>, eb: BufEncoderOps<SB, TB>, a: SA, b: SB, item: (TA, TB))
    ensures ChainEncStart(ea, eb, ChainNewAsWritten(a, b), item) == Outcome(ChainNewAsWritten(a, b), Err(Full))
  {
  }

  /** A fresh encoding chain with both stages counted as done, so that it accepts an item. */
  function ChainEncoderNew<SA, SB>(a: SA, b: SB): (s: ChainEncState<SA, SB>)
    ensures s.i == 2 && s.a == a && s.b == b
  {
    ChainEncState(a, b, 2)
  }

  /**
   * A fresh encoding chain accepts its first item exactly when both stages
   * accept their parts, writes nothing before that, and starts at stage 0.
   */
  lemma ChainEncoderNewAccepts<SA(!new), TA, SB(!new), TB>(ea: BufEncoderOps<SA, TA>, eb: BufEncoderOps<SB, TB>, a: SA, b: SB, item: (TA, TB), st: EncodeBufValue)
    requires EncodesWithinRoom(ea) && EncodesWithinRoom(eb)
    ensures var o := ChainEncStart(ea, eb, ChainEncoderNew(a, b), item);
      (o.result.Ok? <==> ea.start(a, item.0).result.Ok? && eb.start(b, item.1).result.Ok?) && o.state.i == 0
    ensures ChainEncodeLoop(ea, eb, ChainEncoderNew(a, b), st) == Outcome(ChainEncoderNew(a, b), Ok(st))
  {
  }

  /**
   * One `encode` call after the item was accepted: stage `a` writes first;
   * if it leaves room it is done and `b` writes into what is left, so the
   * output is `a`'s bytes followed by `b`'s.
   */
  lemma ChainEncodeWritesInOrder<SA(!new), TA, SB(!new), TB>(ea: BufEncoderOps<SA, TA>, eb: BufEncoderOps<SB, TB>,
                                                            s: ChainEncState<SA, SB>, st: EncodeBufValue, wa: seq<byte>, sa: SA, wb: seq<byte>, sb: SB)
    requires EncodesWithinRoom(ea) && EncodesWithinRoom(eb) && s.i == 0
    requires ea.encode(s.a, EncodeRoom(st), st.eos) == Outcome(sa, Ok(wa)) && |wa| < EncodeRoom(st)
    requires eb.encode(s.b, EncodeRoom(st) - |wa|, st.eos) == Outcome(sb, Ok(wb))
    ensures var o := ChainEncodeLoop(ea, eb, s, st);
      o.result.Ok? && o.state.a == sa && o.state.b == sb &&
      o.result.value == EncodeWrite(EncodeWrite(st, wa).1, wb).1 &&
      o.result.value.buf[st.offset..o.result.value.offset] == wa + wb
  {
    var after := EncodeWrite(st, wa).1;
    assert EncodeRoom(after) == EncodeRoom(st) - |wa|;
    EncodeWriteReadsBack(st, wa);
    EncodeWriteReadsBack(after, wb);
    var fin := EncodeWrite(after, wb).1;
    assert fin.buf[..after.offset] == after.buf[..after.offset];
    assert fin.buf[st.offset..after.offset] == after.buf[st.offset..after.offset] == wa;
    assert fin.buf[st.offset..fin.offset] == fin.buf[st.offset..after.offset] + fin.buf[after.offset..fin.offset];
  }

  /** One step of the encoding loop: the current stage writes into the room left and the chain moves on if the buffer still has room. */
  lemma ChainEncodeStep<SA(!new), TA, SB(!new), TB>(ea: BufEncoderOps<SA, TA>, eb: BufEncoderOps<SB, TB>,
                                                   s: ChainEncState<SA, SB>, st: EncodeBufValue)
    requires EncodesWithinRoom(ea) && EncodesWithinRoom(eb) && EncodeRoom(st) > 0 && s.i < 2
    ensures s.i == 0 ==>
      var o := EncodeOn(ea, s.a, st);
      (o.result.Err? ==> ChainEncodeLoop(ea, eb, s, st) == Outcome(s.(a := o.state), Err(o.result.error))) &&
      (o.result.Ok? ==>
        ChainEncodeLoop(ea, eb, s, st) ==
          if EncodeIsCompleted(o.result.value) then ChainEncodeLoop(ea, eb, s.(a := o.state, i := 1), o.result.value)
          else Outcome(s.(a := o.state), Ok(o.result.value)))
    ensures s.i == 1 ==>
      var o := EncodeOn(eb, s.b, st);
      (o.result.Err? ==> ChainEncodeLoop(ea, eb, s, st) == Outcome(s.(b := o.state), Err(o.result.error))) &&
      (o.result.Ok? ==>
        ChainEncodeLoop(ea, eb, s, st) ==
          if EncodeIsCompleted(o.result.value) then ChainEncodeLoop(ea, eb, s.(b := o.state, i := 2), o.result.value)
          else Outcome(s.(b := o.state), Ok(o.result.value)))
  {
  }

  /** `Chain<A, B>` on the encoding side, updating its stages and index in place. */
  class ChainEncoder<SA(!new), TA, SB(!new), TB> {
    var a: SA
    var b: SB
    var i: Stage
    const ea: BufEncoderOps<SA, TA>
    const eb: BufEncoderOps<SB, TB>

    function State(): ChainEncState<SA, SB>
      reads this
    {
      ChainEncState(a, b, i)
    }

    /** A fresh chain that accepts an item (see the stage index finding). */
    constructor (oa: BufEncoderOps<SA, TA>, sa: SA, ob: BufEncoderOps<SB, TB>, sb: SB)
      ensures State() == ChainEncoderNew(sa, sb) && ea == oa && eb == ob
    {
      a := sa;
      b := sb;
      i := 2;
      ea := oa;
      eb := ob;
    }

    method Encode(buf: EncodeBuf) returns (r: Result<()>)
      requires buf.Valid() && EncodesWithinRoom(ea) && EncodesWithinRoom(eb)
      modifies this, buf, buf.buf
      ensures buf.Valid()
      ensures var o := ChainEncodeLoop(ea, eb, old(State()), old(buf.State()));
        State() == o.state && (o.result.Ok? <==> r.Ok?) &&
        (o.result.Err? ==> r.error == o.result.error) && (o.result.Ok? ==> buf.State() == o.result.value)
    {
      var s := State();
      ghost var goal := ChainEncodeLoop(ea, eb, s, buf.State());
      while buf.offset < buf.buf.Length && s.i < 2
        invariant buf.Valid()
        invariant ChainEncodeLoop(ea, eb, s, buf.State()) == goal
        decreases 2 - s.i
      {
        var next, res := EncodeStage(buf, s);
        if res.Err? || buf.offset == buf.buf.Length {
          a, b, i := next.a, next.b, next.i;
          return res;
        }
        s := next;
      }
      a, b, i := s.a, s.b, s.i;
      return Ok(());
    }

    /**
     * One round of the loop of `encode`: the current stage encodes into
     * the buffer.  On an error, or when it left no room, the loop ends with
     * what `ChainEncodeLoop` gives; otherwise the next stage goes on from
     * the new buffer.
     */
    method EncodeStage(buf: EncodeBuf, s: ChainEncState<SA, SB>) returns (next: ChainEncState<SA, SB>, r: Result<()>)
      requires buf.Valid() && EncodesWithinRoom(ea) && EncodesWithinRoom(eb)
      requires buf.offset < buf.buf.Length && s.i < 2
      modifies buf, buf.buf
      ensures buf.Valid()
      ensures r.Err? ==> ChainEncodeLoop(ea, eb, s, old(buf.State())) == Outcome(next, Err(r.error))
      ensures r.Ok? && buf.offset == buf.buf.Length ==>
        ChainEncodeLoop(ea, eb, s, old(buf.State())) == Outcome(next, Ok(buf.State()))
      ensures r.Ok? && buf.offset < buf.buf.Length ==>
        next.i == s.i + 1 && ChainEncodeLoop(ea, eb, next, buf.State()) == ChainEncodeLoop(ea, eb, s, old(buf.State()))
    {
      ghost var st := buf.State();
      ChainEncodeStep(ea, eb, s, st);
      var room := buf.buf.Length - buf.offset;
      if s.i == 0 {
        var o := ea.encode(s.a, room, buf.eos);
        next := s.(a := o.state);
        if o.result.Err? {
          return next, Err(o.result.error);
        }
        var size := buf.Write(o.result.value);
        assert buf.State() == EncodeWrite(st, o.result.value).1;
      } else {
        var o := eb.encode(s.b, room, buf.eos);
        next := s.(b := o.state);
        if o.result.Err? {
          return next, Err(o.result.error);
        }
        var size := buf.Write(o.result.value);
        assert buf.State() == EncodeWrite(st, o.result.value).1;
      }
      if buf.offset < buf.buf.Length {
        next := next.(i := s.i + 1);
      }
      r := Ok(());
    }

    method StartEncoding(item: (TA, TB)) returns (r: Result<()>)
      modifies this
      ensures Outcome(State(), r) == ChainEncStart(ea, eb, old(State()), item)
    {
      if i != 2 {
        return Err(Full);
      }
      i := 0;
      var oa := ea.start(a, item.0);
      a := oa.state;
      if oa.result.Err? {
        return oa.result;
      }
      var ob := eb.start(b, item.1);
      b := ob.state;
      return ob.result;
    }

    function EncodeSizeHint(): (n: nat)
      reads this
      ensures n == ChainEncodeSizeHint(ea, eb, State())
    {
      var size := if i <= 0 then ea.sizeHint(a) else 0;
      size + if i <= 1 then eb.sizeHint(b) else 0
    }
  }

  // ---------------------------------------------------------------------
  // Chain2, StartChain and MapFrom (src/combinators.rs:141-248, 380-413, 640-652)
  // ---------------------------------------------------------------------

  /** `StartChain`: writes nothing and accepts the unit item. */
  function StartChainOps(): BufEncoderOps<(), ()>
  {
    BufEncoderOps((s, room, eos) => Outcome((), Ok([])), (s, item) => Outcome((), Ok(())), s => 0)
  }

  lemma StartChainIsEmpty(room: nat, eos: bool)
    ensures StartChainOps().encode((), room, eos) == Outcome((), Ok([]))
    ensures StartChainOps().start((), ()) == Outcome((), Ok(()))
    ensures EncodesWithinRoom(StartChainOps())
  {
  }

  /**
   * `Chain2::start_encoding` over a chain whose first stage takes the items
   * before the last (a flat tuple, here a sequence) and whose second stage
   * takes the last one: `(a, b, c)` is started as `((a, b), c)`.
   */
  function Chain2Start<SA, T, SB>(ea: BufEncoderOps<SA, seq<T>>, eb: BufEncoderOps<SB, T>, s: ChainEncState<SA, SB>, items: seq<T>): (o: Outcome<ChainEncState<SA, SB>, ()>)
    requires |items| >= 1
    ensures o == ChainEncStart(ea, eb, s, (items[..|items| - 1], items[|items| - 1]))
  {
    ChainEncStart(ea, eb, s, (items[..|items| - 1], items[|items| - 1]))
  }

  /** What `Chain2` hands its two stages puts the items back together in order. */
  lemma Chain2SplitKeepsOrder<T>(items: seq<T>)
    requires |items| >= 1
    ensures items[..|items| - 1] + [items[|items| - 1]] == items
  {
  }

  /** `Chain2<StartChain, B, ()>::start_encoding((x,))`: the chain is started with `((), x)`. */
  function Chain2FirstStart<SB, T>(eb: BufEncoderOps<SB, T>, s: ChainEncState<(), SB>, x: T): (o: Outcome<ChainEncState<(), SB>, ()>)
    ensures s.i == 2 ==> o == Outcome(ChainEncState((), eb.start(s.b, x).state, 0), eb.start(s.b, x).result)
    ensures s.i != 2 ==> o == Outcome(s, Err(Full))
  {
    ChainEncStart(StartChainOps(), eb, s, ((), x))
  }

  /** `MapFrom`: the item is passed through `f` before the encoder is started with it. */
  function MapFromOps<S, T, U>(en: BufEncoderOps<S, T>, f: U -> T): BufEncoderOps<S, U>
  {
    BufEncoderOps(en.encode, (s, item) => en.start(s, f(item)), en.sizeHint)
  }

  lemma MapFromStartsMapped<S(!new), T, U>(en: BufEncoderOps<S, T>, f: U -> T, s: S, item: U, room: nat, eos: bool)
    ensures MapFromOps(en, f).start(s, item) == en.start(s, f(item))
    ensures MapFromOps(en, f).encode(s, room, eos) == en.encode(s, room, eos)
    ensures EncodesWithinRoom(en) ==> EncodesWithinRoom(MapFromOps(en, f))
  {
  }

  // ---------------------------------------------------------------------
  // Flatten and into_flatN (src/combinators.rs:415-517, 610-638)
  // ---------------------------------------------------------------------

  function IntoFlat3<A, B, C>(x: ((A, B), C)): (A, B, C)
  {
    (x.0.0, x.0.1, x.1)
  }

  function IntoFlat4<A, B, C, D>(x: (((A, B), C), D)): (A, B, C, D)
  {
    (x.0.0.0, x.0.0.1, x.0.1, x.1)
  }

  function IntoFlat5<A, B, C, D, E>(x: ((((A, B), C), D), E)): (A, B, C, D, E)
  {
    (x.0.0.0.0, x.0.0.0.1, x.0.0.1, x.0.1, x.1)
  }

  function IntoFlat6<A, B, C, D, E, F>(x: (((((A, B), C), D), E), F)): (A, B, C, D, E, F)
  {
    (x.0.0.0.0.0, x.0.0.0.0.1, x.0.0.0.1, x.0.0.1, x.0.1, x.1)
  }

  function IntoFlat7<A, B, C, D, E, F, G>(x: ((((((A, B), C), D), E), F), G)): (A, B, C, D, E, F, G)
  {
    (x.0.0.0.0.0.0, x.0.0.0.0.0.1, x.0.0.0.0.1, x.0.0.0.1, x.0.0.1, x.0.1, x.1)
  }

  function IntoFlat8<A, B, C, D, E, F, G, H>(x: (((((((A, B), C), D), E), F), G), H)): (A, B, C, D, E, F, G, H)
  {
    (x.0.0.0.0.0.0.0, x.0.0.0.0.0.0.1, x.0.0.0.0.0.1, x.0.0.0.0.1, x.0.0.0.1, x.0.0.1, x.0.1, x.1)
  }

  /**
   * `into_flatN` loses and reorders nothing: putting the flat tuple back
   * into its left-nested shape gives the original value, and nesting a flat
   * tuple and flattening it again gives the flat tuple.
   */
  lemma IntoFlatRoundTrips<A, B, C, D, E, F, G, H>(x3: ((A, B), C), x8: (((((((A, B), C), D), E), F), G), H),
                                                 f3: (A, B, C), f8: (A, B, C, D, E, F, G, H))
    ensures var (a, b, c) := IntoFlat3(x3); ((a, b), c) == x3
    ensures IntoFlat3(((f3.0, f3.1), f3.2)) == f3
    ensures var (a, b, c, d, e, f, g, h) := IntoFlat8(x8); (((((((a, b), c), d), e), f), g), h) == x8
    ensures IntoFlat8(((((((((f8.0, f8.1), f8.2), f8.3), f8.4), f8.5), f8.6), f8.7))) == f8
  {
  }

  /** `Flatten<T, (A, B, C)>`: the decoder's nested items, flattened; `Flatten` for 4..8 items is the same with `into_flat4`..`into_flat8`. */
  function Flatten3Ops<S, A, B, C>(d: BufDecoderOps<S, ((A, B), C)>): BufDecoderOps<S, (A, B, C)>
  {
    MapOps(d, IntoFlat3)
  }

  /** A flattened chain of three stages yields the three items in stage order. */
  lemma FlattenedChainYieldsInOrder<S, A, B, C>(d: BufDecoderOps<S, ((A, B), C)>, s: S, w: seq<byte>, e: Eos, k: nat, a: A, b: B, c: C, s1: S)
    requires d.decode(s, w, e) == Outcome(s1, Ok(Decoded(k, Some(((a, b), c)))))
    ensures Flatten3Ops(d).decode(s, w, e) == Outcome(s1, Ok(Decoded(k, Some((a, b, c)))))
  {
    assert Flatten3Ops(d).decode(s, w, e) == MapDecode(d, IntoFlat3, s, w, e);
  }
}
