/*
 * Sequencing of two codecs (src/chain.rs): the `Buffered` decoder that
 * keeps a finished item until it is taken, the binary `Chain` on both
 * sides, the `StartDecoderChain`/`StartEncoderChain` seeds and the
 * `DecoderChain`/`EncoderChain` wrappers that flatten the nested pairs a
 * chain builds into one tuple.
 *
 * The flattening is modelled for chains whose items all have one type, so
 * that the flat tuple is a sequence: `(T0, .., Tk)` extended by one more
 * item is `ts + [t]`.
 */
module Chains {
  import opened Base
  import opened ByteCounts
  import opened EndOfStream
  import opened Decode
  import opened Encode
  import opened ItemDecode
  import opened Bytes
  import opened Fixnum
  import opened Collecting

  // ---------------------------------------------------------------------
  // Buffered (src/chain.rs:626-711)
  // ---------------------------------------------------------------------

  /** The fields of `Buffered`: the inner decoder and the slot for its last item. */
  datatype BufferedState<+S, +T> = BufferedState(inner: S, item: Option<T>)

  /**
   * `decode`: with an item in the slot nothing is consumed; otherwise the
   * inner decoder decodes and the item it completes, if any, goes into the
   * slot.  The call itself never yields an item.
   */
  function BufferedDecode<S, T>(d: ItemDecoderOps<S, T>, s: BufferedState<S, T>, buf: seq<byte>, eos: Eos): (o: Outcome<BufferedState<S, T>, Decoded<T>>)
    ensures o.result.Ok? ==> o.result.value.item.None?
    ensures s.item.Some? ==> o == Outcome(s, Ok(Decoded(0, None)))
    ensures s.item.None? ==> o.state.inner == d.decode(s.inner, buf, eos).state
  {
    if s.item.Some? then Outcome(s, Ok(Decoded(0, None)))
    else
      var i := d.decode(s.inner, buf, eos);
      match i.result
      case Err(e) => Outcome(BufferedState(i.state, None), Err(e))
      case Ok(r) => Outcome(BufferedState(i.state, r.item), Ok(Decoded(r.size, None)))
  }

  /** `has_terminated`: never while an item is held. */
  predicate BufferedHasTerminated<S, T>(d: ItemDecoderOps<S, T>, s: BufferedState<S, T>)
  {
    s.item.None? && d.hasTerminated(s.inner)
  }

  /** `requiring_bytes`: `Finite(0)` while an item is held, else the inner decoder's count. */
  function BufferedRequiringBytes<S, T>(d: ItemDecoderOps<S, T>, s: BufferedState<S, T>): (c: ByteCount)
    ensures s.item.Some? ==> c == Finite(0)
    ensures s.item.None? ==> c == d.requiringBytes(s.inner)
  {
    if s.item.Some? then Finite(0) else d.requiringBytes(s.inner)
  }

  /** `take_item`: the held item, if any, and the emptied slot. */
  function BufferedTakeItem<S, T>(s: BufferedState<S, T>): (r: (Option<T>, BufferedState<S, T>))
    ensures r.0 == s.item && r.1.item.None? && r.1.inner == s.inner
  {
    (s.item, s.(item := None))
  }

  function BufferedOps<S, T>(d: ItemDecoderOps<S, T>): ItemDecoderOps<BufferedState<S, T>, T>
  {
    ItemDecoderOps((s, buf, eos) => BufferedDecode(d, s, buf, eos),
                   s => BufferedHasTerminated(d, s),
                   s => BufferedRequiringBytes(d, s))
  }

  lemma BufferedLawful<S(!new), T(!new)>(d: ItemDecoderOps<S, T>)
    requires ConsumesWithinWindow(d)
    ensures ConsumesWithinWindow(BufferedOps(d))
  {
    forall s: BufferedState<S, T>, buf: seq<byte>, eos: Eos | BufferedDecode(d, s, buf, eos).result.Ok?
      ensures BufferedDecode(d, s, buf, eos).result.value.size <= |buf|
    {
      if s.item.None? {
        assert d.decode(s.inner, buf, eos).result.Ok?;
      }
    }
  }

  /**
   * With an empty slot, decoding through `Buffered` and then taking the item
   * is decoding with the inner decoder: the same error, the same bytes
   * consumed, the same item and the same inner state.
   */
  lemma BufferedThenTake<S, T>(d: ItemDecoderOps<S, T>, s: BufferedState<S, T>, buf: seq<byte>, eos: Eos)
    requires s.item.None?
    ensures var o := BufferedDecode(d, s, buf, eos);
      var i := d.decode(s.inner, buf, eos);
      var (item, after) := BufferedTakeItem(o.state);
      o.result.Ok? == i.result.Ok? && after == BufferedState(i.state, None) &&
      (i.result.Err? ==> o.result.error == i.result.error && item.None?) &&
      (i.result.Ok? ==> o.result.value.size == i.result.value.size && item == i.result.value.item)
  {
  }

  /** A held item makes `Buffered` inert: nothing consumed, nothing changed, nothing required, not terminated. */
  lemma BufferedHoldingIsInert<S, T>(d: ItemDecoderOps<S, T>, s: BufferedState<S, T>, buf: seq<byte>, eos: Eos)
    requires s.item.Some?
    ensures BufferedDecode(d, s, buf, eos) == Outcome(s, Ok(Decoded(0, None)))
    ensures BufferedRequiringBytes(d, s) == Finite(0) && !BufferedHasTerminated(d, s)
  {
  }

  /**
   * `bytecodec_try_decode!` of this trait generation, on a buffered
   * decoder: one that holds an item is left alone; otherwise it is given
   * `buf[offset..]`, and the caller returns early unless it now holds an
   * item.
   */
  function TryDecodeBuffered<S(!new), T>(d: ItemDecoderOps<S, T>, s: BufferedState<S, T>, buf: seq<byte>, offset: nat, eos: Eos): (t: TryStep<BufferedState<S, T>>)
    requires offset <= |buf|
    requires ConsumesWithinWindow(d)
    ensures !t.Fail? ==> offset <= t.offset <= |buf|
    ensures s.item.Some? ==> t == Proceed(s, offset)
    ensures t.Proceed? ==> t.state.item.Some?
    ensures !t.Proceed? ==> t.state.item.None?
    ensures s.item.None? ==>
      var o := BufferedDecode(d, s, buf[offset..], eos);
      t.state == o.state &&
      (t.Fail? <==> o.result.Err?) &&
      (t.Fail? ==> t.error == o.result.error) &&
      (!t.Fail? ==> t.offset == offset + o.result.value.size)
  {
    if s.item.Some? then Proceed(s, offset)
    else
      var o := BufferedDecode(d, s, buf[offset..], eos);
      match o.result
      case Err(e) => Fail(o.state, e)
      case Ok(r) =>
        assert d.decode(s.inner, buf[offset..], eos).result.Ok?;
        if o.state.item.Some? then Proceed(o.state, offset + r.size) else Suspend(o.state, offset + r.size)
  }

  /** `Buffered` updating its inner decoder and its slot in place. */
  class Buffered<S(!new), T> {
    var inner: S
    var item: Option<T>
    const ops: ItemDecoderOps<S, T>

    function State(): BufferedState<S, T>
      reads this
    {
      BufferedState(inner, item)
    }

    /** `DecodeExt::buffered()`. */
    constructor (d: ItemDecoderOps<S, T>, s: S)
      ensures State() == BufferedState(s, None) && ops == d
    {
      inner := s;
      item := None;
      ops := d;
    }

    predicate HasItem()
      reads this
    {
      item.Some?
    }

    method Decode(buf: seq<byte>, eos: Eos) returns (r: Result<Decoded<T>>)
      modifies this
      ensures Outcome(State(), r) == BufferedDecode(ops, old(State()), buf, eos)
    {
      if item.None? {
        var dec := ops.decode(inner, buf, eos);
        inner := dec.state;
        if dec.result.Err? {
          return Err(dec.result.error);
        }
        item := dec.result.value.item;
        return Ok(Decoded(dec.result.value.size, None));
      }
      return Ok(Decoded(0, None));
    }

    method TakeItem() returns (r: Option<T>)
      modifies this
      ensures (r, State()) == BufferedTakeItem(old(State()))
    {
      r := item;
      item := None;
    }
  }

  // ---------------------------------------------------------------------
  // Chain, decoding side (src/chain.rs:530-575)
  // ---------------------------------------------------------------------

  /** The two halves of a chain. */
  datatype ChainState<+A, +B> = ChainState(a: A, b: B)

  /** The second half of `Chain::decode`, once `a` holds its item: `b` decodes the rest of the buffer. */
  function ChainDecodeSecond<SA, TA, SB(!new), TB>(db: ItemDecoderOps<SB, TB>, s: ChainState<BufferedState<SA, TA>, SB>,
                                                   buf: seq<byte>, offset: nat, eos: Eos): (o: Outcome<ChainState<BufferedState<SA, TA>, SB>, Decoded<(TA, TB)>>)
    requires offset <= |buf| && s.a.item.Some?
    requires ConsumesWithinWindow(db)
    ensures o.state.a.inner == s.a.inner
    ensures o.result.Ok? ==> offset <= o.result.value.size <= |buf|
    ensures o.result.Ok? && o.result.value.item.Some? ==>
      o.state.a.item.None? && o.result.value.item.value.0 == s.a.item.value
    ensures !(o.result.Ok? && o.result.value.item.Some?) ==> o.state.a == s.a
  {
    var ob := db.decode(s.b, buf[offset..], eos);
    match ob.result
    case Err(e) => Outcome(s.(b := ob.state), Err(e))
    case Ok(r) =>
      match r.item
      case None => Outcome(s.(b := ob.state), Ok(Decoded(offset + r.size, None)))
      case Some(y) => Outcome(ChainState(s.a.(item := None), ob.state), Ok(Decoded(offset + r.size, Some((s.a.item.value, y)))))
  }

  /**
   * `Chain::decode`: `a` decodes into its slot until it holds an item, and
   * only then does `b` see the rest of the buffer; when `b` completes an
   * item it is paired with the one taken from `a`'s slot.
   */
  function ChainDecode<SA(!new), TA, SB(!new), TB>(da: ItemDecoderOps<SA, TA>, db: ItemDecoderOps<SB, TB>,
                                                   s: ChainState<BufferedState<SA, TA>, SB>, buf: seq<byte>, eos: Eos): (o: Outcome<ChainState<BufferedState<SA, TA>, SB>, Decoded<(TA, TB)>>)
    requires ConsumesWithinWindow(da) && ConsumesWithinWindow(db)
    ensures o.result.Ok? ==> o.result.value.size <= |buf|
    ensures o.state.a.item.None? && !(o.result.Ok? && o.result.value.item.Some?) ==> o.state.b == s.b
    ensures o.result.Ok? && o.result.value.item.Some? ==>
      o.state.a.item.None? && (s.a.item.Some? ==> o.result.value.item.value.0 == s.a.item.value)
  {
    if s.a.item.None? then
      var oa := BufferedDecode(da, s.a, buf, eos);
      match oa.result
      case Err(e) => Outcome(s.(a := oa.state), Err(e))
      case Ok(r) =>
        assert da.decode(s.a.inner, buf, eos).result.Ok?;
        if oa.state.item.None? then Outcome(s.(a := oa.state), Ok(Decoded(r.size, None)))
        else ChainDecodeSecond(db, s.(a := oa.state), buf, r.size, eos)
    else ChainDecodeSecond(db, s, buf, 0, eos)
  }

  /** `has_terminated`: either half has. */
  predicate ChainHasTerminated<SA, TA, SB, TB>(da: ItemDecoderOps<SA, TA>, db: ItemDecoderOps<SB, TB>, s: ChainState<BufferedState<SA, TA>, SB>)
  {
    BufferedHasTerminated(da, s.a) || db.hasTerminated(s.b)
  }

  /** `requiring_bytes`: the decoding sum of both halves. */
  function ChainDecoderRequiringBytes<SA, TA, SB, TB>(da: ItemDecoderOps<SA, TA>, db: ItemDecoderOps<SB, TB>, s: ChainState<BufferedState<SA, TA>, SB>): (c: ByteCount)
    ensures s.a.item.Some? ==> c == db.requiringBytes(s.b)
  {
    ZeroIsIdentity(db.requiringBytes(s.b));
    AddForDecoding(BufferedRequiringBytes(da, s.a), db.requiringBytes(s.b))
  }

  function ChainDecoderOps<SA(!new), TA, SB(!new), TB>(da: ItemDecoderOps<SA, TA>, db: ItemDecoderOps<SB, TB>): ItemDecoderOps<ChainState<BufferedState<SA, TA>, SB>, (TA, TB)>
    requires ConsumesWithinWindow(da) && ConsumesWithinWindow(db)
  {
    ItemDecoderOps((s, buf, eos) => ChainDecode(da, db, s, buf, eos),
                   s => ChainHasTerminated(da, db, s),
                   s => ChainDecoderRequiringBytes(da, db, s))
  }

  lemma ChainDecoderLawful<SA(!new), TA(!new), SB(!new), TB>(da: ItemDecoderOps<SA, TA>, db: ItemDecoderOps<SB, TB>)
    requires ConsumesWithinWindow(da) && ConsumesWithinWindow(db)
    ensures ConsumesWithinWindow(ChainDecoderOps(da, db))
  {
  }

  /** `Chain<Buffered<A>, B>` updating both halves in place. */
  class ChainDecoder<SA(!new), TA, SB(!new), TB> {
    var a: BufferedState<SA, TA>
    var b: SB
    const opsA: ItemDecoderOps<SA, TA>
    const opsB: ItemDecoderOps<SB, TB>

    function State(): ChainState<BufferedState<SA, TA>, SB>
      reads this
    {
      ChainState(a, b)
    }

    /** `Chain::new(Buffered::new(a), b)`. */
    constructor (da: ItemDecoderOps<SA, TA>, sa: SA, db: ItemDecoderOps<SB, TB>, sb: SB)
      ensures State() == ChainState(BufferedState(sa, None), sb) && opsA == da && opsB == db
    {
      a := BufferedState(sa, None);
      b := sb;
      opsA := da;
      opsB := db;
    }

    method Decode(buf: seq<byte>, eos: Eos) returns (r: Result<Decoded<(TA, TB)>>)
      requires ConsumesWithinWindow(opsA) && ConsumesWithinWindow(opsB)
      modifies this
      ensures Outcome(State(), r) == ChainDecode(opsA, opsB, old(State()), buf, eos)
    {
      var offset := 0;
      if a.item.None? {
        var dec := BufferedDecode(opsA, a, buf, eos);
        a := dec.state;
        if dec.result.Err? {
          return Err(dec.result.error);
        }
        assert opsA.decode(old(a).inner, buf, eos).result.Ok?;
        if a.item.None? {
          return Ok(Decoded(dec.result.value.size, None));
        }
        offset := dec.result.value.size;
      }
      var dec := opsB.decode(b, buf[offset..], eos);
      b := dec.state;
      if dec.result.Err? {
        return Err(dec.result.error);
      }
      var size := dec.result.value.size;
      if dec.result.value.item.None? {
        return Ok(Decoded(offset + size, None));
      }
      var x := a.item.value;
      a := a.(item := None);
      return Ok(Decoded(offset + size, Some((x, dec.result.value.item.value))));
    }
  }

  // ---------------------------------------------------------------------
  // Chain, encoding side (src/chain.rs:576-624)
  // ---------------------------------------------------------------------

  /**
   * `Chain::encode`: a busy `a` writes first; once `a` is idle, `b` writes
   * into what is left of the buffer.
   */
  function ChainEncode<SA(!new), TA, SB(!new), TB>(ea: EncoderOps<SA, TA>, eb: EncoderOps<SB, TB>, s: ChainState<SA, SB>, bufLen: nat, eos: Eos): (o: Outcome<ChainState<SA, SB>, seq<byte>>)
    requires WritesWithinBuffer(ea)
    ensures o.state.b != s.b ==> ea.isIdle(o.state.a)
    ensures ea.isIdle(s.a) ==>
      o == Outcome(ChainState(s.a, eb.encode(s.b, bufLen, eos).state), eb.encode(s.b, bufLen, eos).result)
    ensures !ea.isIdle(s.a) && o.result.Ok? ==>
      var wa := ea.encode(s.a, bufLen, eos);
      wa.result.Ok? && o.state.a == wa.state && wa.result.value <= o.result.value
    ensures WritesWithinBuffer(eb) && o.result.Ok? ==> |o.result.value| <= bufLen
  {
    if ea.isIdle(s.a) then
      var ob := eb.encode(s.b, bufLen, eos);
      Outcome(ChainState(s.a, ob.state), ob.result)
    else
      var oa := ea.encode(s.a, bufLen, eos);
      if oa.result.Err? then Outcome(s.(a := oa.state), Err(oa.result.error))
      else if ea.isIdle(oa.state) then
        var ob := eb.encode(s.b, bufLen - |oa.result.value|, eos);
        if ob.result.Err? then Outcome(ChainState(oa.state, ob.state), Err(ob.result.error))
        else Outcome(ChainState(oa.state, ob.state), Ok(oa.result.value + ob.result.value))
      else Outcome(s.(a := oa.state), oa.result)
  }

  /** `Chain::start_encoding`: `a` takes the first item, then `b` the second; an error of `a` leaves `b` alone. */
  function ChainStart<SA, TA, SB, TB>(ea: EncoderOps<SA, TA>, eb: EncoderOps<SB, TB>, s: ChainState<SA, SB>, item: (TA, TB)): (o: Outcome<ChainState<SA, SB>, ()>)
    ensures o.result.Ok? <==> ea.start(s.a, item.0).result.Ok? && eb.start(s.b, item.1).result.Ok?
    ensures o.state.a == ea.start(s.a, item.0).state
    ensures ea.start(s.a, item.0).result.Err? ==> o.state.b == s.b && o.result == ea.start(s.a, item.0).result
    ensures ea.start(s.a, item.0).result.Ok? ==> o.state.b == eb.start(s.b, item.1).state
  {
    var sa := ea.start(s.a, item.0);
    if sa.result.Err? then Outcome(s.(a := sa.state), sa.result)
    else
      var sb := eb.start(s.b, item.1);
      Outcome(ChainState(sa.state, sb.state), sb.result)
  }

  predicate ChainIsIdle<SA, TA, SB, TB>(ea: EncoderOps<SA, TA>, eb: EncoderOps<SB, TB>, s: ChainState<SA, SB>)
  {
    ea.isIdle(s.a) && eb.isIdle(s.b)
  }

  /** `Chain::requiring_bytes` of the encoder as written: the halves are combined with `add_for_decoding`. */
  function ChainRequiringBytesAsWritten<SA, TA, SB, TB>(ea: EncoderOps<SA, TA>, eb: EncoderOps<SB, TB>, s: ChainState<SA, SB>): (c: ByteCount)
    ensures ea.requiringBytes(s.a).Finite? && eb.requiringBytes(s.b).Finite? ==>
      c == Finite(ea.requiringBytes(s.a).n + eb.requiringBytes(s.b).n)
  {
    AddForDecoding(ea.requiringBytes(s.a), eb.requiringBytes(s.b))
  }

  /**
   * `requiring_bytes` combined with `add_for_encoding`, as every other
   * encoder combinator does (the tuple encoder of src/tuple.rs among them):
   * a finite count means that both halves know exactly what they still have
   * to write.
   */
  function ChainRequiringBytes<SA, TA, SB, TB>(ea: EncoderOps<SA, TA>, eb: EncoderOps<SB, TB>, s: ChainState<SA, SB>): (c: ByteCount)
    ensures c.Finite? <==> ea.requiringBytes(s.a).Finite? && eb.requiringBytes(s.b).Finite?
    ensures c.Finite? ==> c.n == ea.requiringBytes(s.a).n + eb.requiringBytes(s.b).n
  {
    AddForEncoding(ea.requiringBytes(s.a), eb.requiringBytes(s.b))
  }

  function ChainEncoderOps<SA(!new), TA, SB(!new), TB>(ea: EncoderOps<SA, TA>, eb: EncoderOps<SB, TB>): EncoderOps<ChainState<SA, SB>, (TA, TB)>
    requires WritesWithinBuffer(ea)
  {
    EncoderOps((s, n, eos) => ChainEncode(ea, eb, s, n, eos),
               (s, item) => ChainStart(ea, eb, s, item),
               s => ChainRequiringBytes(ea, eb, s),
               s => ChainIsIdle(ea, eb, s))
  }

  /** The chain encoder with `requiring_bytes` as written. */
  function ChainEncoderAsWrittenOps<SA(!new), TA, SB(!new), TB>(ea: EncoderOps<SA, TA>, eb: EncoderOps<SB, TB>): EncoderOps<ChainState<SA, SB>, (TA, TB)>
    requires WritesWithinBuffer(ea)
  {
    EncoderOps((s, n, eos) => ChainEncode(ea, eb, s, n, eos),
               (s, item) => ChainStart(ea, eb, s, item),
               s => ChainRequiringBytesAsWritten(ea, eb, s),
               s => ChainIsIdle(ea, eb, s))
  }

  /** The chain keeps the encoder contract of its halves, including the default `is_idle`. */
  lemma ChainEncoderLawful<SA(!new), TA, SB(!new), TB>(ea: EncoderOps<SA, TA>, eb: EncoderOps<SB, TB>)
    requires Encode.Lawful(ea) && Encode.Lawful(eb)
    ensures Encode.Lawful(ChainEncoderOps(ea, eb))
    ensures Encode.HasDefaultIsIdle(ea) && Encode.HasDefaultIsIdle(eb) ==> Encode.HasDefaultIsIdle(ChainEncoderOps(ea, eb))
  {
    var e := ChainEncoderOps(ea, eb);
    forall s: ChainState<SA, SB>, n: nat, eos: Eos | e.encode(s, n, eos).result.Ok?
      ensures |e.encode(s, n, eos).result.value| <= n
    {
      assert ChainEncode(ea, eb, s, n, eos).result.Ok?;
    }
    forall s: ChainState<SA, SB> | e.isIdle(s)
      ensures e.requiringBytes(s) == Finite(0)
    {
      assert ea.isIdle(s.a) && eb.isIdle(s.b);
    }
    if Encode.HasDefaultIsIdle(ea) && Encode.HasDefaultIsIdle(eb) {
      forall s: ChainState<SA, SB>
        ensures e.isIdle(s) <==> e.requiringBytes(s) == Finite(0)
      {
        assert ea.isIdle(s.a) <==> ea.requiringBytes(s.a) == Finite(0);
        assert eb.isIdle(s.b) <==> eb.requiringBytes(s.b) == Finite(0);
      }
    }
  }

  /** `exact_requiring_bytes` (src/chain.rs:616-624): the sum of both halves. */
  function ChainExactRequiringBytes<SA, SB>(exactA: SA -> nat, exactB: SB -> nat, s: ChainState<SA, SB>): nat
  {
    exactA(s.a) + exactB(s.b)
  }

  /**
   * When both halves' `requiring_bytes` are their exact counts, so is the
   * chain's, whichever addition combines them.
   */
  lemma ChainExactAgrees<SA, TA, SB, TB>(ea: EncoderOps<SA, TA>, eb: EncoderOps<SB, TB>, exactA: SA -> nat, exactB: SB -> nat, s: ChainState<SA, SB>)
    requires ea.requiringBytes(s.a) == Finite(exactA(s.a)) && eb.requiringBytes(s.b) == Finite(exactB(s.b))
    ensures ChainRequiringBytes(ea, eb, s) == Finite(ChainExactRequiringBytes(exactA, exactB, s))
    ensures ChainRequiringBytesAsWritten(ea, eb, s) == Finite(ChainExactRequiringBytes(exactA, exactB, s))
  {
  }

  /**
   * As written, a busy `a` with a known count hides the unknown count of a
   * busy `b`: the chain reports only `a`'s bytes as finite.
   */
  lemma ChainAsWrittenHidesUnknown<SA, TA, SB, TB>(ea: EncoderOps<SA, TA>, eb: EncoderOps<SB, TB>, s: ChainState<SA, SB>)
    requires ea.requiringBytes(s.a).Finite? && ea.requiringBytes(s.a).n > 0 && eb.requiringBytes(s.b) == Unknown
    ensures ChainRequiringBytesAsWritten(ea, eb, s) == ea.requiringBytes(s.a)
    ensures ChainRequiringBytes(ea, eb, s) == Unknown
  {
  }

  /** The bytes `[1, 2]` followed by a repetition of the one item `[3]`. */
  function PairOfBytesAndRepeat(): EncoderOps<ChainState<EncoderState, RepeatState<EncoderState, seq<byte>>>, (seq<byte>, seq<seq<byte>>)>
  {
    BytesEncoderLawful();
    ChainEncoderAsWrittenOps(BytesEncoderOps(), RepeatOps(BytesEncoderOps()))
  }

  /**
   * The discrepancy on a concrete chain.  Chaining a `BytesEncoder` holding
   * `[1, 2]` with a `Repeat` holding `[[3]]`, the chain as written reports
   * `Finite(2)` although three bytes are to be written, so
   * `encode_into_bytes` allocates two bytes and fails with `UnexpectedEos`;
   * combined with `add_for_encoding` the count is `Unknown`, and
   * `encode_into_bytes` hands the encoder over to `encode_all` instead.
   */
  lemma ChainRequiringBytesAsWrittenUnderCounts()
    ensures var idle := ChainState(EncoderFields(None, 0), RepeatState(EncoderFields(None, 0), None));
      var item := ([1 as byte, 2], [[3 as byte]]);
      var e := PairOfBytesAndRepeat();
      var started := e.start(idle, item).state;
      e.start(idle, item).result.Ok? &&
      ChainRequiringBytesAsWritten(BytesEncoderOps(), RepeatOps(BytesEncoderOps()), started) == Finite(2) &&
      ChainRequiringBytes(BytesEncoderOps(), RepeatOps(BytesEncoderOps()), started) == Unknown &&
      EncodeIntoBytes(e, idle, item).result == Err(UnexpectedEos)
  {
    BytesEncoderLawful();
    var idle := ChainState(EncoderFields(None, 0), RepeatState(EncoderFields(None, 0), None));
    var item := ([1 as byte, 2], [[3 as byte]]);
    var e := PairOfBytesAndRepeat();
    var started := e.start(idle, item).state;
    assert started == ChainState(EncoderFields(Some([1, 2]), 0), RepeatState(EncoderFields(None, 0), Some([[3]])));
    UnderCountedEncodeFails();
  }

  /** Two bytes of room write `[1, 2]` and leave the repetition to fail at the end of the stream. */
  lemma UnderCountedEncodeFails()
    ensures var started := ChainState(EncoderFields(Some([1 as byte, 2]), 0), RepeatState(EncoderFields(None, 0), Some([[3 as byte]])));
      ChainEncode(BytesEncoderOps(), RepeatOps(BytesEncoderOps()), started, 2, New(true)).result == Err(UnexpectedEos)
  {
    BytesEncoderLawful();
    var started := ChainState(EncoderFields(Some([1 as byte, 2]), 0), RepeatState(EncoderFields(None, 0), Some([[3 as byte]])));
    var afterA := EncoderEncode(started.a, 2, New(true));
    assert [1 as byte, 2][0..2] == [1, 2];
    assert afterA.state == EncoderFields(None, 2) && afterA.result == Ok([1, 2]);
    RepeatFailsAtEos();
  }

  /** A repetition holding `[[3]]`, given no room at the end of the stream, fails with `UnexpectedEos`. */
  lemma RepeatFailsAtEos()
    ensures RepeatEncode(BytesEncoderOps(), RepeatState(EncoderFields(None, 0), Some([[3 as byte]])), 0, New(true)).result == Err(UnexpectedEos)
  {
    BytesEncoderLawful();
    var s := RepeatState(EncoderFields(None, 0), Some([[3 as byte]]));
    var inner := EncoderStart(EncoderFields(None, 0), [3]).state;
    assert inner == EncoderFields(Some([3]), 0);
    assert BytesEncoderOps().isIdle(s.inner);
    assert BytesEncoderOps().start(s.inner, [3]).state == inner;
    assert BytesEncoderOps().start(s.inner, [3]).result.Ok?;
    assert s.items.value[1..] == [];
    assert RepeatLoop(BytesEncoderOps(), s, 0, [], New(true)) ==
      RepeatLoop(BytesEncoderOps(), RepeatState(inner, Some([])), 0, [], New(true));
    assert EncoderEncode(inner, 0, New(true)).result == Err(UnexpectedEos);
  }

  /** `Chain<A, B>` encoding side, updating both halves in place. */
  class ChainEncoder<SA(!new), TA, SB(!new), TB> {
    var a: SA
    var b: SB
    const opsA: EncoderOps<SA, TA>
    const opsB: EncoderOps<SB, TB>

    function State(): ChainState<SA, SB>
      reads this
    {
      ChainState(a, b)
    }

    constructor (ea: EncoderOps<SA, TA>, sa: SA, eb: EncoderOps<SB, TB>, sb: SB)
      ensures State() == ChainState(sa, sb) && opsA == ea && opsB == eb
    {
      a := sa;
      b := sb;
      opsA := ea;
      opsB := eb;
    }

    method Encode(buf: array<byte>, eos: Eos) returns (r: Result<nat>)
      requires WritesWithinBuffer(opsA) && WritesWithinBuffer(opsB)
      modifies this, buf
      ensures var o := ChainEncode(opsA, opsB, old(State()), buf.Length, eos);
        State() == o.state &&
        (o.result.Err? ==> r == Err(o.result.error)) &&
        (o.result.Ok? ==>
           r == Ok(|o.result.value|) &&
           buf[..] == o.result.value + old(buf[|o.result.value|..]))
    {
      ghost var orig := buf[..];
      var done, res, written := EncodeFirst(buf, eos);
      if done {
        return res;
      }
      var offset := res.value;
      var enc := opsB.encode(b, buf.Length - offset, eos);
      b := enc.state;
      if enc.result.Err? {
        return Err(enc.result.error);
      }
      CopyAfter(buf, offset, written, orig, enc.result.value);
      return Ok(offset + |enc.result.value|);
    }

    /**
     * The first half of `encode`: a busy `a` writes at the front of the
     * buffer.  The call ends here (`done`, with what `encode` returns) on an
     * error or when `a` is still busy; otherwise `a` is idle, `written` is
     * out and `b` is to go on with the rest of the buffer.
     */
    method EncodeFirst(buf: array<byte>, eos: Eos) returns (done: bool, r: Result<nat>, ghost written: seq<byte>)
      requires WritesWithinBuffer(opsA) && WritesWithinBuffer(opsB)
      modifies this, buf
      ensures done ==> (var o := ChainEncode(opsA, opsB, old(State()), buf.Length, eos);
        State() == o.state &&
        (o.result.Err? ==> r == Err(o.result.error)) &&
        (o.result.Ok? ==> r == Ok(|o.result.value|) && buf[..] == o.result.value + old(buf[|o.result.value|..])))
      ensures !done ==> (opsA.isIdle(a) && b == old(b) && |written| <= buf.Length && r == Ok(|written|) &&
        buf[..] == written + old(buf[|written|..]) &&
        ChainEncode(opsA, opsB, old(State()), buf.Length, eos) ==
          (var ob := opsB.encode(b, buf.Length - |written|, eos);
           if ob.result.Err? then Outcome(ChainState(a, ob.state), Err(ob.result.error))
           else Outcome(ChainState(a, ob.state), Ok(written + ob.result.value))))
    {
      written := [];
      if opsA.isIdle(a) {
        assert forall w: seq<byte> :: [] + w == w;
        return false, Ok(0), written;
      }
      ghost var orig := buf[..];
      var enc := opsA.encode(a, buf.Length, eos);
      a := enc.state;
      if enc.result.Err? {
        return true, Err(enc.result.error), written;
      }
      CopyAfter(buf, 0, [], orig, enc.result.value);
      written := enc.result.value;
      return !opsA.isIdle(a), Ok(|enc.result.value|), written;
    }

    method StartEncoding(item: (TA, TB)) returns (r: Result<()>)
      modifies this
      ensures Outcome(State(), r) == ChainStart(opsA, opsB, old(State()), item)
    {
      var st := opsA.start(a, item.0);
      a := st.state;
      if st.result.Err? {
        return st.result;
      }
      var st2 := opsB.start(b, item.1);
      b := st2.state;
      return st2.result;
    }

    function RequiringBytes(): ByteCount
      reads this
    {
      ChainRequiringBytes(opsA, opsB, State())
    }

    predicate IsIdle()
      reads this
    {
      ChainIsIdle(opsA, opsB, State())
    }
  }

  // ---------------------------------------------------------------------
  // StartDecoderChain, DecoderChain (src/chain.rs:28-227)
  // ---------------------------------------------------------------------

  /** `StartDecoderChain`: decoding it is an error (`Other`); it never terminates and needs an unknown count. */
  function StartDecoderOps(): ItemDecoderOps<(), ()>
  {
    ItemDecoderOps((s, buf, eos) => Outcome((), Err(Other)), s => false, s => Unknown)
  }

  lemma StartDecoderShape(buf: seq<byte>, eos: Eos)
    ensures StartDecoderOps().decode((), buf, eos).result == Err(Other)
    ensures !StartDecoderOps().hasTerminated(()) && StartDecoderOps().requiringBytes(()) == Unknown
  {
  }

  /** The state of the first link: the start seed (never used) and the first decoder. */
  type FirstLinkState<S> = ChainState<BufferedState<(), ()>, S>

  /** `DecoderChain<StartDecoderChain, D, ()>::decode`: the decoder alone, its item made a 1-tuple. */
  function FirstLinkDecode<S, T>(d: ItemDecoderOps<S, T>, s: FirstLinkState<S>, buf: seq<byte>, eos: Eos): (o: Outcome<FirstLinkState<S>, Decoded<seq<T>>>)
    ensures var i := d.decode(s.b, buf, eos);
      o.state == s.(b := i.state) && (o.result.Err? <==> i.result.Err?) &&
      (i.result.Err? ==> o.result.error == i.result.error) &&
      (i.result.Ok? ==>
         o.result.value.size == i.result.value.size &&
         (o.result.value.item.Some? <==> i.result.value.item.Some?) &&
         (i.result.value.item.Some? ==> o.result.value.item.value == [i.result.value.item.value]))
  {
    var i := d.decode(s.b, buf, eos);
    match i.result
    case Err(e) => Outcome(s.(b := i.state), Err(e))
    case Ok(r) => Outcome(s.(b := i.state), Ok(Decoded(r.size, if r.item.Some? then Some([r.item.value]) else None)))
  }

  function FirstLinkOps<S, T>(d: ItemDecoderOps<S, T>): ItemDecoderOps<FirstLinkState<S>, seq<T>>
  {
    ItemDecoderOps((s, buf, eos) => FirstLinkDecode(d, s, buf, eos),
                   (s: FirstLinkState<S>) => d.hasTerminated(s.b),
                   (s: FirstLinkState<S>) => d.requiringBytes(s.b))
  }

  /** `StartDecoderChain.chain(d)`. */
  function FirstLinkNew<S>(s: S): FirstLinkState<S>
  {
    ChainState(BufferedState((), None), s)
  }

  type NextLinkState<S0, T, S1> = ChainState<BufferedState<S0, seq<T>>, S1>

  /**
   * `DecoderChain<D0, D1, (T0, ..)>::decode`: the chain of the earlier links
   * and the new decoder, with the pair `((t0, ..), t)` flattened to
   * `(t0, .., t)`.
   */
  function NextLinkDecode<S0(!new), S1(!new), T>(d0: ItemDecoderOps<S0, seq<T>>, d1: ItemDecoderOps<S1, T>,
                                                  s: NextLinkState<S0, T, S1>, buf: seq<byte>, eos: Eos): (o: Outcome<NextLinkState<S0, T, S1>, Decoded<seq<T>>>)
    requires ConsumesWithinWindow(d0) && ConsumesWithinWindow(d1)
    ensures var c := ChainDecode(d0, d1, s, buf, eos);
      o.state == c.state && (o.result.Err? <==> c.result.Err?) &&
      (c.result.Err? ==> o.result.error == c.result.error) &&
      (c.result.Ok? ==>
         o.result.value.size == c.result.value.size &&
         (o.result.value.item.Some? <==> c.result.value.item.Some?) &&
         (c.result.value.item.Some? ==> o.result.value.item.value == c.result.value.item.value.0 + [c.result.value.item.value.1]))
  {
    var c := ChainDecode(d0, d1, s, buf, eos);
    match c.result
    case Err(e) => Outcome(c.state, Err(e))
    case Ok(r) => Outcome(c.state, Ok(Decoded(r.size, if r.item.Some? then Some(r.item.value.0 + [r.item.value.1]) else None)))
  }

  function NextLinkOps<S0(!new), S1(!new), T>(d0: ItemDecoderOps<S0, seq<T>>, d1: ItemDecoderOps<S1, T>): ItemDecoderOps<NextLinkState<S0, T, S1>, seq<T>>
    requires ConsumesWithinWindow(d0) && ConsumesWithinWindow(d1)
  {
    ItemDecoderOps((s, buf, eos) => NextLinkDecode(d0, d1, s, buf, eos),
                   s => ChainHasTerminated(d0, d1, s),
                   s => ChainDecoderRequiringBytes(d0, d1, s))
  }

  /** `.chain(d1)` on an earlier chain whose state is `s0`. */
  function NextLinkNew<S0, T, S1>(s0: S0, s1: S1): NextLinkState<S0, T, S1>
  {
    ChainState(BufferedState(s0, None), s1)
  }

  lemma FirstLinkLawful<S(!new), T>(d: ItemDecoderOps<S, T>)
    requires ConsumesWithinWindow(d)
    ensures ConsumesWithinWindow(FirstLinkOps(d))
  {
    forall s: FirstLinkState<S>, buf: seq<byte>, eos: Eos | FirstLinkDecode(d, s, buf, eos).result.Ok?
      ensures FirstLinkDecode(d, s, buf, eos).result.value.size <= |buf|
    {
      assert d.decode(s.b, buf, eos).result.Ok?;
    }
  }

  lemma NextLinkLawful<S0(!new), S1(!new), T(!new)>(d0: ItemDecoderOps<S0, seq<T>>, d1: ItemDecoderOps<S1, T>)
    requires ConsumesWithinWindow(d0) && ConsumesWithinWindow(d1)
    ensures ConsumesWithinWindow(NextLinkOps(d0, d1))
  {
    forall s: NextLinkState<S0, T, S1>, buf: seq<byte>, eos: Eos | NextLinkDecode(d0, d1, s, buf, eos).result.Ok?
      ensures NextLinkDecode(d0, d1, s, buf, eos).result.value.size <= |buf|
    {
      assert ChainDecode(d0, d1, s, buf, eos).result.Ok?;
    }
  }

  // ---------------------------------------------------------------------
  // StartEncoderChain, EncoderChain (src/chain.rs:229-528)
  // ---------------------------------------------------------------------

  /** `StartEncoderChain`: always idle with `Finite(0)`; encoding or starting it is an error (`Other`). */
  function StartEncoderOps(): EncoderOps<(), ()>
  {
    EncoderOps((s, n, eos) => Outcome((), Err(Other)), (s, item) => Outcome((), Err(Other)), s => Finite(0), s => true)
  }

  lemma StartEncoderLawful()
    ensures Encode.Lawful(StartEncoderOps()) && Encode.HasDefaultIsIdle(StartEncoderOps())
    ensures StartEncoderOps().isIdle(()) && StartEncoderOps().requiringBytes(()) == Finite(0)
  {
  }

  type FirstEncLinkState<S> = ChainState<(), S>

  /**
   * `EncoderChain<StartEncoderChain, E, ()>`: the encoder alone, taking the
   * single component of a 1-tuple.  A tuple of any other arity cannot be
   * formed in the source; here it is refused as `InvalidInput`.
   */
  function FirstEncLinkOps<S, T>(e: EncoderOps<S, T>): EncoderOps<FirstEncLinkState<S>, seq<T>>
  {
    EncoderOps((s: FirstEncLinkState<S>, n, eos) => var o := e.encode(s.b, n, eos); Outcome(s.(b := o.state), o.result),
               (s: FirstEncLinkState<S>, t: seq<T>) =>
                 if |t| == 1 then var o := e.start(s.b, t[0]); Outcome(s.(b := o.state), o.result)
                 else Outcome(s, Err(InvalidInput)),
               (s: FirstEncLinkState<S>) => e.requiringBytes(s.b),
               (s: FirstEncLinkState<S>) => e.isIdle(s.b))
  }

  type NextEncLinkState<S0, S1> = ChainState<S0, S1>

  /** `EncoderChain<E0, E1, (T0, ..)>`: `(t0, .., t)` is split into `((t0, ..), t)` for the chain. */
  function NextEncLinkOps<S0(!new), S1(!new), T>(e0: EncoderOps<S0, seq<T>>, e1: EncoderOps<S1, T>): EncoderOps<NextEncLinkState<S0, S1>, seq<T>>
    requires WritesWithinBuffer(e0)
  {
    EncoderOps((s, n, eos) => ChainEncode(e0, e1, s, n, eos),
               (s, t: seq<T>) =>
                 if |t| >= 1 then ChainStart(e0, e1, s, (t[..|t| - 1], t[|t| - 1]))
                 else Outcome(s, Err(InvalidInput)),
               s => ChainRequiringBytes(e0, e1, s),
               s => ChainIsIdle(e0, e1, s))
  }

  lemma FirstEncLinkLawful<S(!new), T>(e: EncoderOps<S, T>)
    requires Encode.Lawful(e)
    ensures Encode.Lawful(FirstEncLinkOps(e))
  {
    var f := FirstEncLinkOps(e);
    forall s: FirstEncLinkState<S>, n: nat, eos: Eos | f.encode(s, n, eos).result.Ok?
      ensures |f.encode(s, n, eos).result.value| <= n
    {
      assert e.encode(s.b, n, eos).result.Ok?;
    }
    forall s: FirstEncLinkState<S> | f.isIdle(s)
      ensures f.requiringBytes(s) == Finite(0)
    {
      assert e.isIdle(s.b);
    }
  }

  lemma NextEncLinkLawful<S0(!new), S1(!new), T>(e0: EncoderOps<S0, seq<T>>, e1: EncoderOps<S1, T>)
    requires Encode.Lawful(e0) && Encode.Lawful(e1)
    ensures Encode.Lawful(NextEncLinkOps(e0, e1))
  {
    ChainEncoderLawful(e0, e1);
    var f := NextEncLinkOps(e0, e1);
    var c := ChainEncoderOps(e0, e1);
    forall s: NextEncLinkState<S0, S1>, n: nat, eos: Eos | f.encode(s, n, eos).result.Ok?
      ensures |f.encode(s, n, eos).result.value| <= n
    {
      assert c.encode(s, n, eos) == f.encode(s, n, eos);
    }
    forall s: NextEncLinkState<S0, S1> | f.isIdle(s)
      ensures f.requiringBytes(s) == Finite(0)
    {
      assert c.isIdle(s);
    }
  }

  // ---------------------------------------------------------------------
  // The chains of the tests of src/chain.rs (src/chain.rs:719-743)
  // ---------------------------------------------------------------------

  /** `StartDecoderChain.chain(u8).chain(u8)`. */
  function TwoByteChainOps(): ItemDecoderOps<NextLinkState<FirstLinkState<()>, byte, ()>, seq<byte>>
  {
    OneByteLawful();
    FirstLinkLawful(OneByteDecoderOps());
    NextLinkOps(FirstLinkOps(OneByteDecoderOps()), OneByteDecoderOps())
  }

  /** `StartDecoderChain.chain(u8).chain(u8).chain(u8)`. */
  function ThreeByteChainOps(): ItemDecoderOps<NextLinkState<NextLinkState<FirstLinkState<()>, byte, ()>, byte, ()>, seq<byte>>
  {
    OneByteLawful();
    FirstLinkLawful(OneByteDecoderOps());
    NextLinkLawful(FirstLinkOps(OneByteDecoderOps()), OneByteDecoderOps());
    NextLinkOps(TwoByteChainOps(), OneByteDecoderOps())
  }

  function ThreeByteChainNew(): NextLinkState<NextLinkState<FirstLinkState<()>, byte, ()>, byte, ()>
  {
    NextLinkNew(NextLinkNew(FirstLinkNew(()), ()), ())
  }

  /**
   * A chain extended by a one-byte decoder: when the earlier links complete
   * `ts` from the first `k` bytes and a byte is left, the extended chain
   * completes `ts + [buf[k]]` from `k + 1` bytes.
   */
  lemma NextLinkTakesOneByte<S0(!new)>(d0: ItemDecoderOps<S0, seq<byte>>, s: NextLinkState<S0, byte, ()>, buf: seq<byte>, eos: Eos,
                                       k: nat, ts: seq<byte>)
    requires ConsumesWithinWindow(d0)
    requires s.a.item.None?
    requires d0.decode(s.a.inner, buf, eos).result == Ok(Decoded(k, Some(ts))) && k < |buf|
    ensures (OneByteLawful();
      NextLinkDecode(d0, OneByteDecoderOps(), s, buf, eos).result == Ok(Decoded(k + 1, Some(ts + [buf[k]]))))
  {
    OneByteLawful();
    var oa := BufferedDecode(d0, s.a, buf, eos);
    assert oa.state.item == Some(ts) && oa.result == Ok(Decoded(k, None));
    var second := ChainDecodeSecond(OneByteDecoderOps(), s.(a := oa.state), buf, k, eos);
    assert OneByteDecoderOps().decode((), buf[k..], eos).result == Ok(Decoded(1, Some(buf[k])));
    assert second.result == Ok(Decoded(k + 1, Some((ts, buf[k]))));
  }

  /** One call on `b"foo"` yields the flat triple `(b'f', b'o', b'o')` and consumes all three bytes. */
  lemma DecoderChainExample()
    ensures ThreeByteChainOps().decode(ThreeByteChainNew(), [102, 111, 111], New(false)).result == Ok(Decoded(3, Some([102, 111, 111])))
  {
    OneByteLawful();
    var u := OneByteDecoderOps();
    FirstLinkLawful(u);
    NextLinkLawful(FirstLinkOps(u), u);
    var foo: seq<byte> := [102, 111, 111];
    var initial := ThreeByteChainNew();
    assert FirstLinkOps(u).decode(initial.a.inner.a.inner, foo, New(false)).result == Ok(Decoded(1, Some([102 as byte])));
    NextLinkTakesOneByte(FirstLinkOps(u), initial.a.inner, foo, New(false), 1, [102]);
    assert NextLinkDecode(FirstLinkOps(u), u, initial.a.inner, foo, New(false)).result == Ok(Decoded(2, Some([102 as byte] + [foo[1]])));
    assert [102 as byte] + [foo[1]] == [102, 111];
    assert TwoByteChainOps() == NextLinkOps(FirstLinkOps(u), u);
    assert NextLinkOps(FirstLinkOps(u), u).decode(initial.a.inner, foo, New(false)) ==
      NextLinkDecode(FirstLinkOps(u), u, initial.a.inner, foo, New(false));
    assert TwoByteChainOps().decode(initial.a.inner, foo, New(false)).result == Ok(Decoded(2, Some([102 as byte, 111])));
    NextLinkTakesOneByte(TwoByteChainOps(), initial, foo, New(false), 2, [102, 111]);
    assert NextLinkDecode(TwoByteChainOps(), u, initial, foo, New(false)).result == Ok(Decoded(3, Some([102 as byte, 111] + [foo[2]])));
    assert [102 as byte, 111] + [foo[2]] == [102, 111, 111];
    assert ThreeByteChainOps() == NextLinkOps(TwoByteChainOps(), u);
    assert NextLinkOps(TwoByteChainOps(), u).decode(initial, foo, New(false)) ==
      NextLinkDecode(TwoByteChainOps(), u, initial, foo, New(false));
  }

  /** The encoder for `(u8, u8, u8)` built by `StartEncoderChain.chain(U8Encoder::new())` three times. */
  function ThreeU8EncoderChainOps(): EncoderOps<ChainState<ChainState<FirstEncLinkState<EncoderState>, EncoderState>, EncoderState>, seq<int>>
  {
    FixnumOpsLawful(U8);
    FirstEncLinkLawful(FixnumEncoderOps(U8));
    NextEncLinkLawful(FirstEncLinkOps(FixnumEncoderOps(U8)), FixnumEncoderOps(U8));
    NextEncLinkOps(NextEncLinkOps(FirstEncLinkOps(FixnumEncoderOps(U8)), FixnumEncoderOps(U8)), FixnumEncoderOps(U8))
  }

  function ThreeU8EncoderChainNew(): ChainState<ChainState<FirstEncLinkState<EncoderState>, EncoderState>, EncoderState>
  {
    ChainState(ChainState(ChainState((), EncoderFields(None, 0)), EncoderFields(None, 0)), EncoderFields(None, 0))
  }

  /** A `U8Encoder` holding `x`, as `start_encoding(x)` leaves it. */
  function HoldingByte(x: byte): EncoderState
  {
    EncoderFields(Some([x]), 0)
  }

  /** `U8Encoder::start_encoding(x)` on an idle encoder holds the one byte `x`. */
  lemma U8StartHolds(x: byte)
    ensures (FixnumOpsLawful(U8); FixnumEncoderOps(U8).start(EncoderFields(None, 0), x as int) == Outcome(HoldingByte(x), Ok(())))
  {
    FixnumOpsLawful(U8);
    U8EncodesItem(x as int);
    assert [(x as int) as byte] == [x];
  }

  /** `start_encoding((1, 2, 3))` hands each item to its encoder, in order. */
  lemma EncoderChainStartExample()
    ensures ThreeU8EncoderChainOps().start(ThreeU8EncoderChainNew(), [1, 2, 3]) ==
      Outcome(ChainState(ChainState(ChainState((), HoldingByte(1)), HoldingByte(2)), HoldingByte(3)), Ok(()))
  {
    FixnumOpsLawful(U8);
    var u := FixnumEncoderOps(U8);
    FirstEncLinkLawful(u);
    U8StartHolds(1);
    U8StartHolds(2);
    U8StartHolds(3);
    var initial := ThreeU8EncoderChainNew();
    var items: seq<int> := [1, 2, 3];
    assert items[..2] == [1, 2] && items[..2][..1] == [1];
    var e2 := NextEncLinkOps(FirstEncLinkOps(u), u);
    assert FirstEncLinkOps(u).start(initial.a.a, [1]) == Outcome(ChainState((), HoldingByte(1)), Ok(()));
    assert e2.start(initial.a, [1, 2]) == Outcome(ChainState(ChainState((), HoldingByte(1)), HoldingByte(2)), Ok(()));
  }

  /** A `U8Encoder` holding `x` given room writes `[x]` and goes idle. */
  lemma U8WritesHeld(x: byte, n: nat, eos: Eos)
    requires n >= 1
    ensures EncoderEncode(HoldingByte(x), n, eos) == Outcome(EncoderFields(None, 1), Ok([x]))
  {
    assert [x][0..1] == [x];
  }

  /**
   * A `U8Encoder` holding `x` chained after a busy `e0` that finishes its
   * bytes `w` in this call: the chain writes `w + [x]` and goes idle.
   */
  lemma AppendedU8Writes<S0(!new)>(e0: EncoderOps<S0, seq<int>>, s0: S0, a1: S0, w: seq<byte>, n: nat, x: byte, eos: Eos)
    requires Encode.Lawful(e0)
    requires !e0.isIdle(s0) && e0.encode(s0, n, eos) == Outcome(a1, Ok(w)) && e0.isIdle(a1) && |w| < n
    ensures (FixnumOpsLawful(U8);
             var e := NextEncLinkOps(e0, FixnumEncoderOps(U8));
             var o := e.encode(ChainState(s0, HoldingByte(x)), n, eos);
             o == Outcome(ChainState(a1, EncoderFields(None, 1)), Ok(w + [x])) && e.isIdle(o.state))
  {
    FixnumOpsLawful(U8);
    U8WritesHeld(x, n - |w|, eos);
  }

  /** Encoding the started chain into three bytes at the end of the stream writes `[1, 2, 3]` and leaves it idle. */
  lemma EncoderChainExample()
    ensures var e := ThreeU8EncoderChainOps();
      var started := ChainState(ChainState(ChainState((), HoldingByte(1)), HoldingByte(2)), HoldingByte(3));
      e.encode(started, 3, New(true)).result == Ok([1, 2, 3]) && e.isIdle(e.encode(started, 3, New(true)).state)
  {
    assert [1 as byte] + [2] + [3] == [1, 2, 3];
    FixnumOpsLawful(U8);
    var u := FixnumEncoderOps(U8);
    var e1 := FirstEncLinkOps(u);
    FirstEncLinkLawful(u);
    var e2 := NextEncLinkOps(e1, u);
    NextEncLinkLawful(e1, u);
    var done: EncoderState := EncoderFields(None, 1);
    U8WritesHeld(1, 3, New(true));
    assert e1.encode(ChainState((), HoldingByte(1)), 3, New(true)) == Outcome(ChainState((), done), Ok([1]));
    AppendedU8Writes(e1, ChainState((), HoldingByte(1)), ChainState((), done), [1], 3, 2, New(true));
    AppendedU8Writes(e2, ChainState(ChainState((), HoldingByte(1)), HoldingByte(2)), ChainState(ChainState((), done), done),
                     [1 as byte] + [2], 3, 3, New(true));
    assert ThreeU8EncoderChainOps() == NextEncLinkOps(e2, u);
  }
}
