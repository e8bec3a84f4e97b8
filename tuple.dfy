/*
 * Tuples of codecs (src/tuple.rs): the `Tuple2Decoder` .. `Tuple8Decoder`
 * decoders of the item-yielding trait generation and the `TupleEncoder`
 * of the byte-count generation.
 *
 * The eight decoder types and the seven encoder impls differ only in
 * their arity, so each is modelled once, for any arity, over components
 * of one decoder (or encoder) type: a tuple is then a sequence of items.
 * The decoder keeps every component but the last behind a `Buffered`
 * slot, exactly as the source does.
 */
module Tuples {
  import opened Base
  import opened ByteCounts
  import opened EndOfStream
  import opened Decode
  import opened Encode
  import opened ItemDecode
  import opened Chains
  import opened Bytes
  import opened Fixnum
  import opened Collecting

  // ---------------------------------------------------------------------
  // Sums of byte counts
  // ---------------------------------------------------------------------

  /** The sum of the finite counts among `cs`. */
  function KnownTotal(cs: seq<ByteCount>): nat
  {
    if |cs| == 0 then 0
    else KnownTotal(cs[..|cs| - 1]) + (if cs[|cs| - 1].Finite? then cs[|cs| - 1].n else 0)
  }

  /** `c0.add_for_decoding(c1).add_for_decoding(c2)..`, associated to the left as the decoders write it. */
  function SumForDecoding(cs: seq<ByteCount>): ByteCount
    requires |cs| >= 1
  {
    if |cs| == 1 then cs[0] else AddForDecoding(SumForDecoding(cs[..|cs| - 1]), cs[|cs| - 1])
  }

  /** `Finite(0).add_for_encoding(c0).add_for_encoding(c1)..`, as `TupleEncoder` writes it. */
  function SumForEncoding(cs: seq<ByteCount>): ByteCount
  {
    if |cs| == 0 then Finite(0) else AddForEncoding(SumForEncoding(cs[..|cs| - 1]), cs[|cs| - 1])
  }

  lemma SplitLast(cs: seq<ByteCount>)
    requires |cs| >= 1
    ensures cs == cs[..|cs| - 1] + [cs[|cs| - 1]]
    ensures Infinite in cs <==> Infinite in cs[..|cs| - 1] || cs[|cs| - 1] == Infinite
    ensures Unknown in cs <==> Unknown in cs[..|cs| - 1] || cs[|cs| - 1] == Unknown
  {
  }

  /**
   * The decoding sum of any number of counts: infinite if one is infinite,
   * otherwise the total of the finite ones, except that it stays unknown
   * when some count is unknown and the finite ones add up to nothing.
   */
  lemma {:induction false} SumForDecodingShape(cs: seq<ByteCount>)
    requires |cs| >= 1
    ensures SumForDecoding(cs) == DecodingShape(Infinite in cs, Unknown in cs, KnownTotal(cs))
  {
    if |cs| == 1 {
      assert cs[..0] == [];
      assert cs == [cs[0]];
    } else {
      var init, last := cs[..|cs| - 1], cs[|cs| - 1];
      SumForDecodingShape(init);
      SplitLast(cs);
      AddForDecodingShape(Infinite in init, Unknown in init, KnownTotal(init), last);
    }
  }

  /** Infinite if some count is, else unknown if some count is and the finite ones add up to nothing, else their total. */
  function DecodingShape(someInfinite: bool, someUnknown: bool, total: nat): ByteCount
  {
    if someInfinite then Infinite
    else if someUnknown && total == 0 then Unknown
    else Finite(total)
  }

  /** Adding one more count for decoding keeps the shape of the sum. */
  lemma AddForDecodingShape(someInfinite: bool, someUnknown: bool, total: nat, c: ByteCount)
    ensures AddForDecoding(DecodingShape(someInfinite, someUnknown, total), c) ==
      DecodingShape(someInfinite || c == Infinite, someUnknown || c == Unknown, total + (if c.Finite? then c.n else 0))
  {
  }

  /**
   * The encoding sum of any number of counts: infinite if one is infinite,
   * otherwise unknown if one is unknown, otherwise the finite total.
   */
  lemma {:induction false} SumForEncodingShape(cs: seq<ByteCount>)
    ensures SumForEncoding(cs) ==
      if Infinite in cs then Infinite
      else if Unknown in cs then Unknown
      else Finite(KnownTotal(cs))
  {
    if |cs| > 0 {
      SumForEncodingShape(cs[..|cs| - 1]);
      SplitLast(cs);
    }
  }

  // ---------------------------------------------------------------------
  // Tuple decoders (src/tuple.rs:6-705)
  // ---------------------------------------------------------------------

  /** The fields of a tuple decoder: every component but the last behind a `Buffered` slot, then the last. */
  datatype TupleDecoderState<+S, +T> = TupleDecoderState(heads: seq<BufferedState<S, T>>, last: S)

  /** Every slot of `hs` holds an item. */
  predicate AllHeld<S, T>(hs: seq<BufferedState<S, T>>)
  {
    forall j :: 0 <= j < |hs| ==> hs[j].item.Some?
  }

  /** The items held by the slots, in component order. */
  function HeldItems<S, T>(hs: seq<BufferedState<S, T>>): (items: seq<T>)
    requires AllHeld(hs)
    ensures |items| == |hs| && forall j :: 0 <= j < |hs| ==> items[j] == hs[j].item.value
  {
    seq(|hs|, j requires 0 <= j < |hs| => hs[j].item.value)
  }

  /** Every slot after its item was taken. */
  function EmptiedSlots<S, T>(hs: seq<BufferedState<S, T>>): (r: seq<BufferedState<S, T>>)
    ensures |r| == |hs| && forall j :: 0 <= j < |hs| ==> r[j] == hs[j].(item := None)
  {
    seq(|hs|, j requires 0 <= j < |hs| => hs[j].(item := None))
  }

  /**
   * The `bytecodec_try_decode!` steps of `decode` from component `i` on,
   * at `offset`: each buffered component in turn decodes until it holds an
   * item, and the first one that does not stops the call.
   */
  function HeadsFrom<S(!new), T>(d: ItemDecoderOps<S, T>, heads: seq<BufferedState<S, T>>, buf: seq<byte>, i: nat, offset: nat, eos: Eos): (t: TryStep<seq<BufferedState<S, T>>>)
    requires i <= |heads| && offset <= |buf|
    requires ConsumesWithinWindow(d)
    decreases |heads| - i
    ensures !t.Fail? ==> offset <= t.offset <= |buf|
    ensures |t.state| == |heads| && t.state[..i] == heads[..i]
    ensures t.Proceed? ==> forall j :: i <= j < |heads| ==> t.state[j].item.Some?
  {
    if i == |heads| then Proceed(heads, offset)
    else
      match TryDecodeBuffered(d, heads[i], buf, offset, eos)
      case Fail(s, e) => Fail(heads[i := s], e)
      case Suspend(s, o) => Suspend(heads[i := s], o)
      case Proceed(s, o) =>
        var t := HeadsFrom(d, heads[i := s], buf, i + 1, o, eos);
        assert t.state[..i] == heads[..i] by {
          assert t.state[..i + 1][..i] == heads[i := s][..i + 1][..i];
        }
        t
  }

  /**
   * The steps stop at a component that holds no item, leave every
   * component that already holds one alone, and feed a component only once
   * every earlier one (from `i` on) holds its item.
   */
  lemma {:induction false} HeadsFromKeepsOrder<S(!new), T>(d: ItemDecoderOps<S, T>, heads: seq<BufferedState<S, T>>, buf: seq<byte>, i: nat, offset: nat, eos: Eos)
    requires i <= |heads| && offset <= |buf|
    requires ConsumesWithinWindow(d)
    decreases |heads| - i
    ensures var t := HeadsFrom(d, heads, buf, i, offset, eos);
      (!t.Proceed? ==> exists j :: i <= j < |heads| && t.state[j].item.None?) &&
      (forall j :: i <= j < |heads| && heads[j].item.Some? ==> t.state[j] == heads[j]) &&
      (forall j :: i <= j < |heads| && t.state[j] != heads[j] ==>
         forall m :: i <= m < j ==> t.state[m].item.Some?)
  {
    if i < |heads| {
      match TryDecodeBuffered(d, heads[i], buf, offset, eos)
      case Fail(s, e) =>
        assert heads[i := s][i] == s;
      case Suspend(s, o) =>
        assert heads[i := s][i] == s;
      case Proceed(s, o) =>
        HeadsFromKeepsOrder(d, heads[i := s], buf, i + 1, o, eos);
    }
  }

  /**
   * `TupleNDecoder::decode`: the buffered components in order, then the
   * last one on the rest of the buffer; when the last one yields, the
   * items are taken from every slot and the tuple is complete.
   */
  function TupleDecode<S(!new), T>(d: ItemDecoderOps<S, T>, s: TupleDecoderState<S, T>, buf: seq<byte>, eos: Eos): (o: Outcome<TupleDecoderState<S, T>, Decoded<seq<T>>>)
    requires ConsumesWithinWindow(d)
    ensures |o.state.heads| == |s.heads|
    ensures o.result.Ok? ==> o.result.value.size <= |buf|
    ensures o.state.last != s.last && !(o.result.Ok? && o.result.value.item.Some?) ==> AllHeld(o.state.heads)
    ensures o.result.Ok? && o.result.value.item.Some? ==>
      var items := o.result.value.item.value;
      |items| == |s.heads| + 1 && (forall j :: 0 <= j < |s.heads| ==> o.state.heads[j].item.None?) &&
      (forall j :: 0 <= j < |s.heads| && s.heads[j].item.Some? ==> items[j] == s.heads[j].item.value)
    ensures !(o.result.Ok? && o.result.value.item.Some?) ==>
      forall j :: 0 <= j < |s.heads| && o.state.heads[j] != s.heads[j] ==>
        forall m :: 0 <= m < j ==> o.state.heads[m].item.Some?
  {
    HeadsFromKeepsOrder(d, s.heads, buf, 0, 0, eos);
    match HeadsFrom(d, s.heads, buf, 0, 0, eos)
    case Fail(hs, e) => Outcome(s.(heads := hs), Err(e))
    case Suspend(hs, o) => Outcome(s.(heads := hs), Ok(Decoded(o, None)))
    case Proceed(hs, o) =>
      var ol := d.decode(s.last, buf[o..], eos);
      match ol.result
      case Err(e) => Outcome(TupleDecoderState(hs, ol.state), Err(e))
      case Ok(r) =>
        match r.item
        case None => Outcome(TupleDecoderState(hs, ol.state), Ok(Decoded(o + r.size, None)))
        case Some(x) =>
          Outcome(TupleDecoderState(EmptiedSlots(hs), ol.state), Ok(Decoded(o + r.size, Some(HeldItems(hs) + [x]))))
  }

  /** The counts of the components, the buffered ones first. */
  function DecoderCounts<S, T>(d: ItemDecoderOps<S, T>, s: TupleDecoderState<S, T>): (cs: seq<ByteCount>)
    ensures |cs| == |s.heads| + 1
  {
    seq(|s.heads|, j requires 0 <= j < |s.heads| => BufferedRequiringBytes(d, s.heads[j])) + [d.requiringBytes(s.last)]
  }

  /** `requiring_bytes`: the `add_for_decoding` fold of the components' counts. */
  function TupleDecoderRequiringBytes<S, T>(d: ItemDecoderOps<S, T>, s: TupleDecoderState<S, T>): (c: ByteCount)
    ensures c == if Infinite in DecoderCounts(d, s) then Infinite
                 else if Unknown in DecoderCounts(d, s) && KnownTotal(DecoderCounts(d, s)) == 0 then Unknown
                 else Finite(KnownTotal(DecoderCounts(d, s)))
  {
    SumForDecodingShape(DecoderCounts(d, s));
    SumForDecoding(DecoderCounts(d, s))
  }

  /** The tuple decoders do not override the trait's `has_terminated`; it is taken to be `false`. */
  function TupleDecoderOps<S(!new), T>(d: ItemDecoderOps<S, T>): ItemDecoderOps<TupleDecoderState<S, T>, seq<T>>
    requires ConsumesWithinWindow(d)
  {
    ItemDecoderOps((s, buf, eos) => TupleDecode(d, s, buf, eos),
                   s => false,
                   s => TupleDecoderRequiringBytes(d, s))
  }

  lemma TupleDecoderLawful<S(!new), T(!new)>(d: ItemDecoderOps<S, T>)
    requires ConsumesWithinWindow(d)
    ensures ConsumesWithinWindow(TupleDecoderOps(d))
  {
  }

  /** `TupleNDecoder::new(d0, .., dn)`, with `d` their operations: every component fresh, every slot empty. */
  function TupleDecoderNew<S, T>(d: ItemDecoderOps<S, T>, heads: seq<S>, last: S): (s: TupleDecoderState<S, T>)
    ensures |s.heads| == |heads| && s.last == last
    ensures forall j :: 0 <= j < |heads| ==> s.heads[j] == BufferedState(heads[j], None)
  {
    TupleDecoderState(seq(|heads|, j requires 0 <= j < |heads| => BufferedState(heads[j], None)), last)
  }

  /**
   * `Tuple2Decoder::decode` is `Chain::decode` of src/chain.rs: the same
   * state changes, the same error, the same bytes consumed, and the pair
   * `(x, y)` where the tuple yields `[x, y]`.
   */
  lemma TupleOfTwoIsChain<S(!new), T>(d: ItemDecoderOps<S, T>, a: BufferedState<S, T>, b: S, buf: seq<byte>, eos: Eos)
    requires ConsumesWithinWindow(d)
    ensures var ot := TupleDecode(d, TupleDecoderState([a], b), buf, eos);
      var oc := ChainDecode(d, d, ChainState(a, b), buf, eos);
      ot.state == TupleDecoderState([oc.state.a], oc.state.b) &&
      ot.result.Ok? == oc.result.Ok? &&
      (ot.result.Err? ==> ot.result.error == oc.result.error) &&
      (ot.result.Ok? ==>
        ot.result.value.size == oc.result.value.size &&
        ot.result.value.item.Some? == oc.result.value.item.Some? &&
        (ot.result.value.item.Some? ==>
          ot.result.value.item.value == [oc.result.value.item.value.0, oc.result.value.item.value.1]))
  {
    var t0 := TryDecodeBuffered(d, a, buf, 0, eos);
    if a.item.None? {
      assert buf[0..] == buf;
    }
    match t0
    case Fail(s, e) =>
      assert [a][0 := s] == [s];
      assert HeadsFrom(d, [a], buf, 0, 0, eos) == Fail([s], e);
    case Suspend(s, o) =>
      assert [a][0 := s] == [s];
      assert HeadsFrom(d, [a], buf, 0, 0, eos) == Suspend([s], o);
    case Proceed(s, o) =>
      assert [a][0 := s] == [s];
      assert HeadsFrom(d, [s], buf, 1, o, eos) == Proceed([s], o);
      assert HeadsFrom(d, [a], buf, 0, 0, eos) == Proceed([s], o);
      assert HeldItems([s]) == [s.item.value];
      assert EmptiedSlots([s]) == [s.(item := None)];
  }

  /** Decoding `b"foo"` with two one-byte decoders yields `['f', 'o']` and consumes two bytes. */
  lemma TupleDecoderExample()
    ensures var d := OneByteDecoderOps();
      (OneByteLawful();
       var s := TupleDecoderNew(d, [()], ());
       TupleDecode(d, s, [102, 111, 111], New(false)) == Outcome(s, Ok(Decoded(2, Some([102, 111])))))
  {
    var d := OneByteDecoderOps();
    OneByteLawful();
    var foo: seq<byte> := [102, 111, 111];
    var s := TupleDecoderNew(d, [()], ());
    assert s == TupleDecoderState([BufferedState((), None)], ());
    TupleOfTwoIsChain(d, BufferedState((), None), (), foo, New(false));
    assert d.decode((), foo, New(false)) == Outcome((), Ok(Decoded(1, Some(102 as byte))));
    assert foo[1..] == [111, 111];
    assert d.decode((), foo[1..], New(false)) == Outcome((), Ok(Decoded(1, Some(111 as byte))));
  }

  /** A tuple decoder updating its components in place. */
  class TupleDecoder<S(!new), T> {
    var heads: seq<BufferedState<S, T>>
    var last: S
    const ops: ItemDecoderOps<S, T>

    function State(): TupleDecoderState<S, T>
      reads this
    {
      TupleDecoderState(heads, last)
    }

    constructor (d: ItemDecoderOps<S, T>, hs: seq<S>, l: S)
      ensures State() == TupleDecoderNew(d, hs, l) && ops == d
    {
      heads := TupleDecoderNew(d, hs, l).heads;
      last := l;
      ops := d;
    }

    method Decode(buf: seq<byte>, eos: Eos) returns (r: Result<Decoded<seq<T>>>)
      requires ConsumesWithinWindow(ops)
      modifies this
      ensures Outcome(State(), r) == TupleDecode(ops, old(State()), buf, eos)
    {
      var offset := 0;
      var hs := heads;
      var i := 0;
      while i < |hs|
        invariant 0 <= i <= |hs| && offset <= |buf|
        invariant HeadsFrom(ops, hs, buf, i, offset, eos) == HeadsFrom(ops, old(heads), buf, 0, 0, eos)
      {
        var t := TryDecodeBuffered(ops, hs[i], buf, offset, eos);
        hs := hs[i := t.state];
        match t
        case Fail(_, e) =>
          heads := hs;
          return Err(e);
        case Suspend(_, o) =>
          heads := hs;
          return Ok(Decoded(o, None));
        case Proceed(_, o) =>
          offset := o;
          i := i + 1;
      }
      var dec := ops.decode(last, buf[offset..], eos);
      last := dec.state;
      if dec.result.Err? {
        heads := hs;
        return Err(dec.result.error);
      }
      var size := dec.result.value.size;
      if dec.result.value.item.None? {
        heads := hs;
        return Ok(Decoded(offset + size, None));
      }
      var items := HeldItems(hs);
      heads := EmptiedSlots(hs);
      return Ok(Decoded(offset + size, Some(items + [dec.result.value.item.value])));
    }

    function RequiringBytes(): ByteCount
      reads this
    {
      TupleDecoderRequiringBytes(ops, State())
    }
  }

  // ---------------------------------------------------------------------
  // TupleEncoder (src/tuple.rs:707-785)
  // ---------------------------------------------------------------------

  /**
   * The `bytecodec_try_encode!` steps of `encode` from component `i` on,
   * with `written` already in the buffer: an idle component is skipped; a
   * busy one writes into the rest of the buffer, and the call ends there
   * unless that made it idle.
   */
  function EncodeFrom<S(!new), T>(e: EncoderOps<S, T>, comps: seq<S>, n: nat, eos: Eos, i: nat, written: seq<byte>): (o: Outcome<seq<S>, seq<byte>>)
    requires i <= |comps| && |written| <= n
    requires WritesWithinBuffer(e)
    decreases |comps| - i
    ensures |o.state| == |comps| && o.state[..i] == comps[..i]
    ensures o.result.Ok? ==> written <= o.result.value && |o.result.value| <= n
  {
    if i == |comps| then Outcome(comps, Ok(written))
    else if e.isIdle(comps[i]) then EncodeFrom(e, comps, n, eos, i + 1, written)
    else
      var oi := e.encode(comps[i], n - |written|, eos);
      match oi.result
      case Err(err) => Outcome(comps[i := oi.state], Err(err))
      case Ok(w) =>
        if e.isIdle(oi.state) then
          var o := EncodeFrom(e, comps[i := oi.state], n, eos, i + 1, written + w);
          assert o.state[..i] == comps[..i] by {
            assert o.state[..i + 1][..i] == comps[i := oi.state][..i + 1][..i];
          }
          o
        else Outcome(comps[i := oi.state], Ok(written + w))
  }

  /**
   * The steps leave idle components alone, and a component is written only
   * once every earlier one (from `i` on) is idle.
   */
  lemma {:induction false} EncodeFromKeepsOrder<S(!new), T>(e: EncoderOps<S, T>, comps: seq<S>, n: nat, eos: Eos, i: nat, written: seq<byte>)
    requires i <= |comps| && |written| <= n
    requires WritesWithinBuffer(e)
    decreases |comps| - i
    ensures var o := EncodeFrom(e, comps, n, eos, i, written);
      (forall j :: i <= j < |comps| && e.isIdle(comps[j]) ==> o.state[j] == comps[j]) &&
      (forall j :: i <= j < |comps| && o.state[j] != comps[j] ==>
         forall m :: i <= m < j ==> e.isIdle(o.state[m]))
  {
    if i < |comps| {
      if e.isIdle(comps[i]) {
        EncodeFromKeepsOrder(e, comps, n, eos, i + 1, written);
      } else {
        var oi := e.encode(comps[i], n - |written|, eos);
        if oi.result.Ok? && e.isIdle(oi.state) {
          EncodeFromKeepsOrder(e, comps[i := oi.state], n, eos, i + 1, written + oi.result.value);
        }
      }
    }
  }

  /** `TupleEncoder::encode` into a buffer of `n` bytes. */
  function TupleEncode<S(!new), T>(e: EncoderOps<S, T>, comps: seq<S>, n: nat, eos: Eos): (o: Outcome<seq<S>, seq<byte>>)
    requires WritesWithinBuffer(e)
    ensures |o.state| == |comps|
    ensures o.result.Ok? ==> |o.result.value| <= n
    ensures forall j :: 0 <= j < |comps| && e.isIdle(comps[j]) ==> o.state[j] == comps[j]
    ensures forall j :: 0 <= j < |comps| && o.state[j] != comps[j] ==>
      forall m :: 0 <= m < j ==> e.isIdle(o.state[m])
  {
    EncodeFromKeepsOrder(e, comps, n, eos, 0, []);
    EncodeFrom(e, comps, n, eos, 0, [])
  }

  /** The `start_encoding` calls from component `i` on, stopping at the first error. */
  function StartFrom<S, T>(e: EncoderOps<S, T>, comps: seq<S>, items: seq<T>, i: nat): (o: Outcome<seq<S>, ()>)
    requires i <= |comps| == |items|
    decreases |comps| - i
    ensures |o.state| == |comps| && o.state[..i] == comps[..i]
    ensures o.result.Ok? <==> forall j :: i <= j < |comps| ==> e.start(comps[j], items[j]).result.Ok?
    ensures o.result.Ok? ==> forall j :: i <= j < |comps| ==> o.state[j] == e.start(comps[j], items[j]).state
  {
    if i == |comps| then Outcome(comps, Ok(()))
    else
      var st := e.start(comps[i], items[i]);
      if st.result.Err? then
        Outcome(comps[i := st.state], st.result)
      else
        var o := StartFrom(e, comps[i := st.state], items, i + 1);
        assert o.state[..i] == comps[..i] by {
          assert o.state[..i + 1][..i] == comps[i := st.state][..i + 1][..i];
        }
        o
  }

  /**
   * `o` is what the `start_encoding` calls from component `i` on leave when
   * component `k` is the first to refuse its item: the earlier ones are
   * started, `k` is in its failed state with its error as the result, and
   * the later ones are untouched.
   */
  ghost predicate StoppedAt<S, T>(e: EncoderOps<S, T>, comps: seq<S>, items: seq<T>, i: nat, o: Outcome<seq<S>, ()>, k: nat)
    requires |comps| == |items| == |o.state|
  {
    i <= k < |comps| && o.result == e.start(comps[k], items[k]).result &&
    o.state[k] == e.start(comps[k], items[k]).state && o.state[k + 1..] == comps[k + 1..] &&
    forall m :: i <= m < k ==> e.start(comps[m], items[m]).result.Ok? && o.state[m] == e.start(comps[m], items[m]).state
  }

  /** On an error, `StartFrom` stopped at the first component that refused its item. */
  lemma {:induction false} StartFromStopsAtError<S, T>(e: EncoderOps<S, T>, comps: seq<S>, items: seq<T>, i: nat)
    requires i <= |comps| == |items|
    ensures var o := StartFrom(e, comps, items, i);
      o.result.Err? ==> exists k :: StoppedAt(e, comps, items, i, o, k)
    decreases |comps| - i
  {
    var o := StartFrom(e, comps, items, i);
    if i < |comps| && o.result.Err? {
      var st := e.start(comps[i], items[i]);
      if st.result.Err? {
        assert o.state[i + 1..] == comps[i + 1..];
        assert StoppedAt(e, comps, items, i, o, i);
      } else {
        var next := comps[i := st.state];
        assert o == StartFrom(e, next, items, i + 1);
        var k := StartFromStopsAtErrorNext(e, comps, items, i, next, o);
        assert StoppedAt(e, comps, items, i, o, k);
      }
    }
  }

  /** The step of `StartFromStopsAtError` past a component that accepted its item. */
  lemma {:induction false} StartFromStopsAtErrorNext<S, T>(e: EncoderOps<S, T>, comps: seq<S>, items: seq<T>, i: nat,
                                                           next: seq<S>, o: Outcome<seq<S>, ()>) returns (k: nat)
    requires i < |comps| == |items| && e.start(comps[i], items[i]).result.Ok?
    requires next == comps[i := e.start(comps[i], items[i]).state]
    requires o == StartFrom(e, next, items, i + 1) && o.result.Err?
    ensures StoppedAt(e, comps, items, i, o, k)
    decreases |comps| - i, 0
  {
    StartFromStopsAtError(e, next, items, i + 1);
    k :| StoppedAt(e, next, items, i + 1, o, k);
    assert next[k + 1..] == comps[k + 1..];
    assert o.state[i] == next[i] by {
      assert o.state[..i + 1][i] == next[..i + 1][i];
    }
    assert forall m :: i + 1 <= m < k ==> next[m] == comps[m];
  }

  /**
   * `TupleEncoder::start_encoding`: every component is started with its
   * item, in order.  A tuple of another arity cannot be formed in the
   * source; here it is refused as `InvalidInput`.
   */
  function TupleStart<S, T>(e: EncoderOps<S, T>, comps: seq<S>, items: seq<T>): (o: Outcome<seq<S>, ()>)
    ensures |items| != |comps| ==> o == Outcome(comps, Err(InvalidInput))
    ensures |o.state| == |comps|
    ensures o.result.Ok? <==> |items| == |comps| && forall j :: 0 <= j < |comps| ==> e.start(comps[j], items[j]).result.Ok?
    ensures o.result.Ok? ==> forall j :: 0 <= j < |comps| ==> o.state[j] == e.start(comps[j], items[j]).state
  {
    if |items| != |comps| then Outcome(comps, Err(InvalidInput)) else StartFrom(e, comps, items, 0)
  }

  function EncoderCounts<S, T>(e: EncoderOps<S, T>, comps: seq<S>): (cs: seq<ByteCount>)
    ensures |cs| == |comps| && forall j :: 0 <= j < |comps| ==> cs[j] == e.requiringBytes(comps[j])
  {
    seq(|comps|, j requires 0 <= j < |comps| => e.requiringBytes(comps[j]))
  }

  /** `requiring_bytes`: the `add_for_encoding` fold of the components' counts from `Finite(0)`. */
  function TupleEncoderRequiringBytes<S, T>(e: EncoderOps<S, T>, comps: seq<S>): (c: ByteCount)
    ensures c.Infinite? <==> exists j :: 0 <= j < |comps| && e.requiringBytes(comps[j]).Infinite?
    ensures c.Unknown? <==> (forall j :: 0 <= j < |comps| ==> !e.requiringBytes(comps[j]).Infinite?) &&
                            (exists j :: 0 <= j < |comps| && e.requiringBytes(comps[j]).Unknown?)
    ensures c.Finite? ==> c.n == KnownTotal(EncoderCounts(e, comps))
  {
    var cs := EncoderCounts(e, comps);
    SumForEncodingShape(cs);
    assert Infinite in cs <==> exists j :: 0 <= j < |comps| && cs[j].Infinite?;
    assert Unknown in cs <==> exists j :: 0 <= j < |comps| && cs[j].Unknown?;
    SumForEncoding(cs)
  }

  /** `is_idle`: every component is idle. */
  predicate TupleIsIdle<S, T>(e: EncoderOps<S, T>, comps: seq<S>)
  {
    forall j :: 0 <= j < |comps| ==> e.isIdle(comps[j])
  }

  function TupleEncoderOps<S(!new), T>(e: EncoderOps<S, T>): EncoderOps<seq<S>, seq<T>>
    requires WritesWithinBuffer(e)
  {
    EncoderOps((s, n, eos) => TupleEncode(e, s, n, eos),
               (s, items) => TupleStart(e, s, items),
               s => TupleEncoderRequiringBytes(e, s),
               s => TupleIsIdle(e, s))
  }

  lemma TupleEncoderLawful<S(!new), T>(e: EncoderOps<S, T>)
    requires Encode.Lawful(e)
    ensures Encode.Lawful(TupleEncoderOps(e))
  {
    var t := TupleEncoderOps(e);
    forall comps: seq<S> | t.isIdle(comps)
      ensures t.requiringBytes(comps) == Finite(0)
    {
      var cs := EncoderCounts(e, comps);
      assert forall j :: 0 <= j < |comps| ==> cs[j] == Finite(0);
      AllZeroTotal(cs);
    }
  }

  lemma {:induction false} AllZeroTotal(cs: seq<ByteCount>)
    requires forall j :: 0 <= j < |cs| ==> cs[j] == Finite(0)
    ensures KnownTotal(cs) == 0
  {
    if |cs| > 0 {
      AllZeroTotal(cs[..|cs| - 1]);
    }
  }

  /** `exact_requiring_bytes`: the sum of the components' exact counts. */
  function TupleExactRequiringBytes<S>(exact: S -> nat, comps: seq<S>): nat
  {
    if |comps| == 0 then 0 else TupleExactRequiringBytes(exact, comps[..|comps| - 1]) + exact(comps[|comps| - 1])
  }

  /** When every component's `requiring_bytes` is its exact count, so is the tuple's. */
  lemma {:induction false} TupleExactAgrees<S, T>(e: EncoderOps<S, T>, exact: S -> nat, comps: seq<S>)
    requires forall j :: 0 <= j < |comps| ==> e.requiringBytes(comps[j]) == Finite(exact(comps[j]))
    ensures TupleEncoderRequiringBytes(e, comps) == Finite(TupleExactRequiringBytes(exact, comps))
  {
    if |comps| > 0 {
      var init := comps[..|comps| - 1];
      TupleExactAgrees(e, exact, init);
      assert EncoderCounts(e, comps) == EncoderCounts(e, init) + [e.requiringBytes(comps[|comps| - 1])];
      assert EncoderCounts(e, comps)[..|comps| - 1] == EncoderCounts(e, init);
    }
  }

  /** `TupleEncoder::<(U8Encoder, U8Encoder)>::with_item((0, 1))` encodes to `[0, 1]`. */
  lemma TupleEncoderExample()
    ensures (FixnumOpsLawful(U8);
             var idle: EncoderState := EncoderFields(None, 0);
             EncodeIntoBytes(TupleEncoderOps(FixnumEncoderOps(U8)), [idle, idle], [0, 1]).result == Ok(Some([0, 1])))
  {
    FixnumOpsLawful(U8);
    var u := FixnumEncoderOps(U8);
    var t := TupleEncoderOps(u);
    var idle: EncoderState := EncoderFields(None, 0);
    var done: EncoderState := EncoderFields(None, 1);
    U8StartHolds(0);
    U8StartHolds(1);
    var started := [HoldingByte(0), HoldingByte(1)];
    assert [idle, idle][0 := HoldingByte(0)] == [HoldingByte(0), idle];
    assert [HoldingByte(0), idle][1 := HoldingByte(1)] == started;
    assert StartFrom(u, started, [0, 1], 2) == Outcome(started, Ok(()));
    assert StartFrom(u, [HoldingByte(0), idle], [0, 1], 1) == Outcome(started, Ok(()));
    assert t.start([idle, idle], [0, 1]) == Outcome(started, Ok(()));
    TupleExactAgrees(u, s => |Pending(s)|, started);
    assert TupleExactRequiringBytes(s => |Pending(s)|, started) == 2;
    assert t.requiringBytes(started) == Finite(2);
    U8WritesHeld(0, 2, New(true));
    U8WritesHeld(1, 1, New(true));
    assert started[0 := done] == [done, HoldingByte(1)] && [done, HoldingByte(1)][1 := done] == [done, done];
    assert EncodeFrom(u, [done, done], 2, New(true), 2, [0, 1]) == Outcome([done, done], Ok([0, 1]));
    assert [0 as byte] + [1] == [0, 1];
    assert EncodeFrom(u, [done, HoldingByte(1)], 2, New(true), 1, [0]) == Outcome([done, done], Ok([0, 1]));
    assert t.encode(started, 2, New(true)) == Outcome([done, done], Ok([0, 1]));
    assert t.isIdle([done, done]);
    assert Filled([0, 1], 2) == [0, 1];
  }

  /** A tuple encoder updating its components in place. */
  class TupleEncoder<S(!new), T> {
    var comps: seq<S>
    const ops: EncoderOps<S, T>

    constructor (e: EncoderOps<S, T>, cs: seq<S>)
      ensures comps == cs && ops == e
    {
      comps := cs;
      ops := e;
    }

    method Encode(buf: array<byte>, eos: Eos) returns (r: Result<nat>)
      requires WritesWithinBuffer(ops)
      modifies this, buf
      ensures var o := TupleEncode(ops, old(comps), buf.Length, eos);
        comps == o.state &&
        (o.result.Err? ==> r == Err(o.result.error)) &&
        (o.result.Ok? ==>
           r == Ok(|o.result.value|) &&
           buf[..] == o.result.value + old(buf[|o.result.value|..]))
    {
      var offset := 0;
      ghost var written: seq<byte> := [];
      ghost var orig := buf[..];
      ghost var goal := EncodeFrom(ops, comps, buf.Length, eos, 0, []);
      var cs := comps;
      var i := 0;
      while i < |cs|
        invariant 0 <= i <= |cs| && offset == |written| <= buf.Length == |orig|
        invariant buf[..] == written + orig[offset..]
        invariant EncodeFrom(ops, cs, buf.Length, eos, i, written) == goal
      {
        var done, res, next, now := EncodeComponent(buf, cs, i, offset, written, orig, eos);
        cs := next;
        if done {
          comps := cs;
          return res;
        }
        written := now;
        offset := res.value;
        i := i + 1;
      }
      comps := cs;
      return Ok(offset);
    }

    /**
     * One round of the loop of `encode`, on component `i`: an idle one is
     * passed over; a busy one writes at `buf[offset..]`.  The loop ends here
     * (`done`, with what `encode` returns) on an error or when the component
     * is still busy; otherwise `now` is out and the next component goes on.
     */
    method EncodeComponent(buf: array<byte>, cs: seq<S>, i: nat, offset: nat, ghost written: seq<byte>,
                           ghost orig: seq<byte>, eos: Eos)
      returns (done: bool, r: Result<nat>, next: seq<S>, ghost now: seq<byte>)
      requires WritesWithinBuffer(ops) && i < |cs| && offset == |written| <= buf.Length == |orig|
      requires buf[..] == written + orig[offset..]
      modifies buf
      ensures |next| == |cs|
      ensures done ==> (var o := EncodeFrom(ops, cs, buf.Length, eos, i, written);
        next == o.state &&
        (o.result.Err? ==> r == Err(o.result.error)) &&
        (o.result.Ok? ==> r == Ok(|o.result.value|) && buf[..] == o.result.value + orig[|o.result.value|..]))
      ensures !done ==> (|written| <= |now| <= buf.Length && r == Ok(|now|) && buf[..] == now + orig[|now|..] &&
        EncodeFrom(ops, next, buf.Length, eos, i + 1, now) == EncodeFrom(ops, cs, buf.Length, eos, i, written))
    {
      now := written;
      if ops.isIdle(cs[i]) {
        return false, Ok(offset), cs, now;
      }
      var enc := ops.encode(cs[i], buf.Length - offset, eos);
      next := cs[i := enc.state];
      if enc.result.Err? {
        return true, Err(enc.result.error), next, now;
      }
      CopyAfter(buf, offset, written, orig, enc.result.value);
      now := written + enc.result.value;
      return !ops.isIdle(enc.state), Ok(offset + |enc.result.value|), next, now;
    }

    method StartEncoding(items: seq<T>) returns (r: Result<()>)
      modifies this
      ensures Outcome(comps, r) == TupleStart(ops, old(comps), items)
    {
      if |items| != |comps| {
        return Err(InvalidInput);
      }
      var i := 0;
      while i < |comps|
        invariant 0 <= i <= |comps| == |items|
        invariant StartFrom(ops, comps, items, i) == StartFrom(ops, old(comps), items, 0)
      {
        var st := ops.start(comps[i], items[i]);
        comps := comps[i := st.state];
        if st.result.Err? {
          return st.result;
        }
        i := i + 1;
      }
      return Ok(());
    }

    function RequiringBytes(): ByteCount
      reads this
    {
      TupleEncoderRequiringBytes(ops, comps)
    }

    predicate IsIdle()
      reads this
    {
      TupleIsIdle(ops, comps)
    }
  }
}
