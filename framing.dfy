/*
 * The framing combinators of src/combinator.rs: `Length` (an item takes
 * exactly N bytes), `MaxBytes` (an item takes at most N bytes) and `Slice`
 * (the caller hands out a byte budget, which lets several codecs share one
 * stream), each for decoders and for encoders.
 */
module Framing {
  import opened Base
  import opened ByteCounts
  import opened EndOfStream
  import opened Decode
  import opened Encode
  import opened Bytes
  import opened Fixnum
  import opened Utf8
  import opened Adapters

  // ---------------------------------------------------------------------
  // Length, decoding side (src/combinator.rs:632-752)
  // ---------------------------------------------------------------------

  /** The fields of `Length`: the inner codec, the item size and what is left of it. */
  datatype LengthState<+S> = LengthState(inner: S, expected: nat, remaining: nat)

  /** `Length::new(inner, expected_bytes)`. */
  function LengthNew<S>(inner: S, expected: nat): (s: LengthState<S>)
    ensures s.remaining == s.expected == expected && s.inner == inner
  {
    LengthState(inner, expected, expected)
  }

  /** `set_expected_bytes`: refused with `IncompleteDecoding` in the middle of an item. */
  function LengthSetExpectedBytes<S>(s: LengthState<S>, n: nat): (o: Outcome<LengthState<S>, ()>)
    ensures o.result.Ok? <==> s.remaining == s.expected
    ensures o.result.Err? ==> o == Outcome(s, Err(IncompleteDecoding))
    ensures o.result.Ok? ==> o.state == LengthState(s.inner, n, n)
  {
    if s.remaining != s.expected then Outcome(s, Err(IncompleteDecoding))
    else Outcome(LengthState(s.inner, n, n), Ok(()))
  }

  /** How many bytes of `buf` the inner decoder may see, and how many the item needs after them. */
  function LengthLimit(bufLen: nat, remaining: nat): (l: nat)
    ensures l <= bufLen && l <= remaining && (l == bufLen || l == remaining)
  {
    Min(bufLen, remaining)
  }

  /**
   * The end-of-stream check of `Length::decode` as written: the bytes known
   * to follow, plus the whole buffer, must cover what the item needs after
   * the buffer.
   */
  predicate LengthEosCheckAsWritten(eos: Eos, bufLen: nat, required: nat)
  {
    eos.remaining.None? || eos.remaining.value + bufLen >= required
  }

  /** The intended check: the bytes known to follow the buffer cover what the item still needs after it. */
  predicate LengthEosCheck(eos: Eos, required: nat)
  {
    eos.remaining.None? || eos.remaining.value >= required
  }

  /** The rest of `Length::decode`, once the end-of-stream check has passed. */
  function LengthDecodeInner<S(!new), T>(d: DecoderOps<S, T>, s: LengthState<S>, buf: seq<byte>): (o: Outcome<LengthState<S>, nat>)
    requires ConsumesWithinBuffer(d)
    ensures var limit := LengthLimit(|buf|, s.remaining);
      var dec := d.decode(s.inner, buf[..limit], WithRemainingBytes(s.remaining - limit));
      o.state.inner == dec.state && o.state.expected == s.expected && o.result == dec.result &&
      (dec.result.Ok? ==> dec.result.value <= limit && o.state.remaining == s.remaining - dec.result.value) &&
      (dec.result.Err? ==> o.state.remaining == s.remaining)
  {
    var limit := LengthLimit(|buf|, s.remaining);
    var dec := d.decode(s.inner, buf[..limit], WithRemainingBytes(s.remaining - limit));
    match dec.result
    case Err(e) => Outcome(s.(inner := dec.state), Err(e))
    case Ok(size) => Outcome(LengthState(dec.state, s.expected, s.remaining - size), Ok(size))
  }

  /**
   * `Length::decode` as written: the inner decoder sees at most
   * `min(buf.len(), remaining_bytes)` bytes with the end of the stream put
   * right after the item, and `remaining_bytes` drops by what it consumed.
   */
  function LengthDecodeAsWritten<S(!new), T>(d: DecoderOps<S, T>, s: LengthState<S>, buf: seq<byte>, eos: Eos): (o: Outcome<LengthState<S>, nat>)
    requires ConsumesWithinBuffer(d)
    ensures var required := s.remaining - LengthLimit(|buf|, s.remaining);
      (!LengthEosCheckAsWritten(eos, |buf|, required) ==> o == Outcome(s, Err(UnexpectedEos))) &&
      (LengthEosCheckAsWritten(eos, |buf|, required) ==> o == LengthDecodeInner(d, s, buf))
  {
    var required := s.remaining - LengthLimit(|buf|, s.remaining);
    if !LengthEosCheckAsWritten(eos, |buf|, required) then Outcome(s, Err(UnexpectedEos))
    else LengthDecodeInner(d, s, buf)
  }

  /** `Length::decode` with the intended end-of-stream check; the model's `Length` decoder uses this one. */
  function LengthDecode<S(!new), T>(d: DecoderOps<S, T>, s: LengthState<S>, buf: seq<byte>, eos: Eos): (o: Outcome<LengthState<S>, nat>)
    requires ConsumesWithinBuffer(d)
    ensures var required := s.remaining - LengthLimit(|buf|, s.remaining);
      (!LengthEosCheck(eos, required) ==> o == Outcome(s, Err(UnexpectedEos))) &&
      (LengthEosCheck(eos, required) ==> o == LengthDecodeInner(d, s, buf))
  {
    var required := s.remaining - LengthLimit(|buf|, s.remaining);
    if !LengthEosCheck(eos, required) then Outcome(s, Err(UnexpectedEos))
    else LengthDecodeInner(d, s, buf)
  }

  /** `finish_decoding`: only after exactly `expected_bytes`; the budget is restored for the next item. */
  function LengthFinish<S, T>(d: DecoderOps<S, T>, s: LengthState<S>): (o: Outcome<LengthState<S>, T>)
    ensures s.remaining != 0 ==> o == Outcome(s, Err(IncompleteDecoding))
    ensures s.remaining == 0 ==>
      o == Outcome(LengthState(d.finish(s.inner).state, s.expected, s.expected), d.finish(s.inner).result)
  {
    if s.remaining != 0 then Outcome(s, Err(IncompleteDecoding))
    else var fin := d.finish(s.inner); Outcome(LengthState(fin.state, s.expected, s.expected), fin.result)
  }

  function LengthDecoderOps<S(!new), T>(d: DecoderOps<S, T>): DecoderOps<LengthState<S>, T>
    requires ConsumesWithinBuffer(d)
  {
    DecoderOps((s, buf, eos) => LengthDecode(d, s, buf, eos),
               s => LengthFinish(d, s),
               (s: LengthState<S>) => Finite(s.remaining),
               (s: LengthState<S>) => d.isIdle(s.inner))
  }

  lemma LengthDecoderLawful<S(!new), T>(d: DecoderOps<S, T>)
    requires Decode.Lawful(d)
    ensures Decode.Lawful(LengthDecoderOps(d))
  {
  }

  /**
   * The byte account of `Length`: `remaining_bytes` never exceeds
   * `expected_bytes`, a decode call that consumes `n` bytes lowers it by
   * exactly `n`, and a successful finish restores it.
   */
  lemma LengthKeepsAccount<S(!new), T>(d: DecoderOps<S, T>, s: LengthState<S>, buf: seq<byte>, eos: Eos, n: nat)
    requires ConsumesWithinBuffer(d)
    requires s.remaining <= s.expected
    ensures var o := LengthDecode(d, s, buf, eos);
      o.state.remaining <= o.state.expected == s.expected &&
      (o.result.Ok? ==> o.result.value <= s.remaining && o.state.remaining + o.result.value == s.remaining)
    ensures LengthFinish(d, s).result.Ok? ==> LengthFinish(d, s).state.remaining == s.expected
    ensures var o := LengthSetExpectedBytes(s, n); o.state.remaining <= o.state.expected
  {
  }

  /**
   * With the intended check the end of the stream inside an item is an
   * `UnexpectedEos` at once: when the stream ends after `buf` and `buf` is
   * shorter than what the item still needs.
   */
  lemma LengthEosAtOnce<S(!new), T>(d: DecoderOps<S, T>, s: LengthState<S>, buf: seq<byte>, eos: Eos)
    requires ConsumesWithinBuffer(d)
    requires IsEos(eos) && |buf| < s.remaining
    ensures LengthDecode(d, s, buf, eos) == Outcome(s, Err(UnexpectedEos))
  {
  }

  /** The two checks agree when the stream length is unknown or the buffer covers the item. */
  lemma LengthChecksAgree(eos: Eos, bufLen: nat, remaining: nat)
    requires eos.remaining.None? || bufLen >= remaining
    ensures var required := remaining - LengthLimit(bufLen, remaining);
      LengthEosCheck(eos, required) == LengthEosCheckAsWritten(eos, bufLen, required)
  {
  }

  /**
   * As written, a 3-byte item whose stream ends after only 2 bytes is not
   * reported: `Length::decode` returns `Ok(2)`, because the buffer's own
   * bytes are counted once more as bytes still to come.
   */
  lemma LengthEosAsWrittenLate()
    ensures var s := LengthNew(CopyableFields([0, 0, 0], 0), 3);
      var o := LengthDecodeAsWritten(CopyableOps(), s, [1, 2], New(true));
      o.result == Ok(2) && o.state.remaining == 1
    ensures var s := LengthNew(CopyableFields([0, 0, 0], 0), 3);
      LengthDecode(CopyableOps(), s, [1, 2], New(true)).result == Err(UnexpectedEos)
  {
    CopyableLawful();
  }

  /** The `Utf8Decoder`, built over a `RemainingBytesDecoder`. */
  function StringDecoderOps(): DecoderOps<RemainingState, Utf8String>
  {
    Utf8DecoderOps(RemainingOps())
  }

  lemma StringDecoderLawful()
    ensures Decode.Lawful(StringDecoderOps())
  {
    RemainingLawful();
    Utf8DecoderLawful(RemainingOps());
  }

  /**
   * The tests of src/combinator.rs: `length(3)` decodes "foo"; `length(0)`
   * is not idle before it has seen the end of its (empty) item, so it cannot
   * finish, and after a decode call it is idle and yields "".
   */
  lemma LengthDecoderExamples()
    ensures (StringDecoderLawful(); var d := LengthDecoderOps(StringDecoderOps());
      DecodeFromBytes(d, LengthNew(RemainingState([], false), 3), [0x66, 0x6F, 0x6F]).result == Ok([0x66, 0x6F, 0x6F]))
    ensures (StringDecoderLawful(); var d := LengthDecoderOps(StringDecoderOps());
      var s0 := LengthNew(RemainingState([], false), 0);
      var dec := d.decode(s0, [0x66, 0x6F, 0x6F, 0x62, 0x61, 0x72, 0x62, 0x61], New(false));
      !d.isIdle(s0) && d.finish(s0).result.Err? &&
      dec.result == Ok(0) && d.isIdle(dec.state) && d.finish(dec.state).result == Ok([]))
  {
    StringDecoderLawful();
    var foo: seq<byte> := [0x66, 0x6F, 0x6F];
    assert ValidUtf8(foo) by { AsciiValid(foo); }
    assert foo[..3] == foo;
    assert [] + foo == foo;
    assert ValidUtf8([]);
  }

  /** The second decoder of the `and_then` test: a string of the decoded length. */
  function StringOfLength(len: int): (s: LengthState<RemainingState>)
    ensures len >= 0 ==> s == LengthNew(RemainingState([], false), len)
  {
    LengthNew(RemainingState([], false), if len < 0 then 0 else len)
  }

  /** `and_then` test: a length byte, then a string of that length ("\x03foo" gives "foo"). */
  lemma AndThenExample()
    ensures (FixnumOpsLawful(U8); StringDecoderLawful(); var d1 := LengthDecoderOps(StringDecoderOps());
      var d := AndThenOps(FixnumDecoderOps(U8), d1, StringOfLength);
      var s0 := AndThenState(NewDecoder(U8), None);
      var dec := d.decode(s0, [0x03, 0x66, 0x6F, 0x6F], New(false));
      dec.result == Ok(4) && d.finish(dec.state).result == Ok([0x66, 0x6F, 0x6F]))
  {
    FixnumOpsLawful(U8);
    StringDecoderLawful();
    var d0 := FixnumDecoderOps(U8);
    var d1 := LengthDecoderOps(StringDecoderOps());
    var f := StringOfLength;
    var buf: seq<byte> := [0x03, 0x66, 0x6F, 0x6F];
    var foo: seq<byte> := [0x66, 0x6F, 0x6F];
    // the length byte
    assert buf[0..] == buf;
    assert FillAt([0], 0, buf) == [0x03];
    var first := TryDecode(d0, NewDecoder(U8), buf, 0, New(false));
    assert first.Proceed? && first.state == CopyableFields([0x03], 1) && first.offset == 1;
    assert DecodeItem(U8, [0x03]) == 3 by { FixnumBytesRoundTrip(U8, [0x03]); }
    var fin := d0.finish(first.state);
    assert fin.result == Ok(3);
    // the string of that length
    var ls := StringOfLength(3);
    assert buf[1..] == foo && foo[..3] == foo && [] + foo == foo;
    var second := TryDecode(d1, ls, buf, 1, New(false));
    assert second == Proceed(LengthState(RemainingState(foo, true), 3, 0), 4);
    var dec := AndThenDecode(d0, d1, f, AndThenState(NewDecoder(U8), None), buf, New(false));
    assert dec == Outcome(AndThenState(fin.state, Some(second.state)), Ok(4));
    assert ValidUtf8(foo) by { AsciiValid(foo); }
  }

  /** `Length` reading its inner decoder's progress into its own counter. */
  class LengthDecoder<S(!new), T> {
    var inner: S
    var expected: nat
    var remaining: nat
    const ops: DecoderOps<S, T>

    function State(): LengthState<S>
      reads this
    {
      LengthState(inner, expected, remaining)
    }

    /** `DecodeExt::length(expected_bytes)`. */
    constructor (d: DecoderOps<S, T>, s: S, n: nat)
      ensures State() == LengthNew(s, n) && ops == d
    {
      inner := s;
      expected := n;
      remaining := n;
      ops := d;
    }

    method SetExpectedBytes(n: nat) returns (r: Result<()>)
      modifies this
      ensures Outcome(State(), r) == LengthSetExpectedBytes(old(State()), n)
    {
      if remaining != expected {
        return Err(IncompleteDecoding);
      }
      expected := n;
      remaining := n;
      return Ok(());
    }

    method Decode(buf: seq<byte>, eos: Eos) returns (r: Result<nat>)
      requires ConsumesWithinBuffer(ops)
      modifies this
      ensures Outcome(State(), r) == LengthDecode(ops, old(State()), buf, eos)
    {
      var limit := Min(|buf|, remaining);
      var required := remaining - limit;
      if eos.remaining.Some? && eos.remaining.value < required {
        return Err(UnexpectedEos);
      }
      var dec := ops.decode(inner, buf[..limit], WithRemainingBytes(required));
      inner := dec.state;
      if dec.result.Err? {
        return Err(dec.result.error);
      }
      remaining := remaining - dec.result.value;
      return dec.result;
    }

    method FinishDecoding() returns (r: Result<T>)
      modifies this
      ensures Outcome(State(), r) == LengthFinish(ops, old(State()))
    {
      if remaining != 0 {
        return Err(IncompleteDecoding);
      }
      remaining := expected;
      var fin := ops.finish(inner);
      inner := fin.state;
      r := fin.result;
    }
  }

  // ---------------------------------------------------------------------
  // Length, encoding side (src/combinator.rs:753-800)
  // ---------------------------------------------------------------------

  /**
   * `Length::encode`: a buffer too short for the rest of the item at the end
   * of the stream is an `UnexpectedEos`; the inner encoder gets at most
   * `remaining_bytes` of room, with the end of the stream at the end of the
   * item; an inner encoder that goes idle before the budget is spent gave a
   * too short item (`InvalidInput`).
   */
  function LengthEncode<S(!new), T>(e: EncoderOps<S, T>, s: LengthState<S>, bufLen: nat, eos: Eos): (o: Outcome<LengthState<S>, seq<byte>>)
    requires WritesWithinBuffer(e)
    ensures bufLen < s.remaining && IsEos(eos) ==> o == Outcome(s, Err(UnexpectedEos))
    ensures o.state.expected == s.expected && o.state.remaining <= s.remaining
    ensures o.result.Ok? ==>
      |o.result.value| <= bufLen && o.state.remaining == s.remaining - |o.result.value| &&
      (e.isIdle(o.state.inner) ==> o.state.remaining == 0)
    ensures !(bufLen < s.remaining && IsEos(eos)) ==>
      var limit := LengthLimit(bufLen, s.remaining);
      var enc := e.encode(s.inner, limit, if bufLen < s.remaining then eos else New(true));
      o.state.inner == enc.state &&
      (enc.result.Err? ==> o.result == enc.result) &&
      (enc.result.Ok? ==>
        o.state.remaining == s.remaining - |enc.result.value| &&
        (o.result.Err? <==> e.isIdle(enc.state) && o.state.remaining != 0) &&
        (o.result.Err? ==> o.result.error == InvalidInput) &&
        (o.result.Ok? ==> o.result == enc.result))
  {
    if bufLen < s.remaining && IsEos(eos) then Outcome(s, Err(UnexpectedEos))
    else
      var limit := LengthLimit(bufLen, s.remaining);
      var enc := e.encode(s.inner, limit, if bufLen < s.remaining then eos else New(true));
      match enc.result
      case Err(k) => Outcome(s.(inner := enc.state), Err(k))
      case Ok(written) =>
        var next := LengthState(enc.state, s.expected, s.remaining - |written|);
        if e.isIdle(enc.state) && next.remaining != 0 then Outcome(next, Err(InvalidInput))
        else Outcome(next, Ok(written))
  }

  /**
   * `Length::start_encoding` as written: it insists on
   * `remaining_bytes == expected_bytes`, which after a complete item
   * (`remaining_bytes == 0`) no longer holds.
   */
  function LengthStartAsWritten<S, T>(e: EncoderOps<S, T>, s: LengthState<S>, item: T): (o: Outcome<LengthState<S>, ()>)
    ensures s.remaining != s.expected ==> o == Outcome(s, Err(EncoderFull))
    ensures s.remaining == s.expected ==>
      o == Outcome(s.(inner := e.start(s.inner, item).state), e.start(s.inner, item).result)
  {
    if s.remaining != s.expected then Outcome(s, Err(EncoderFull))
    else var st := e.start(s.inner, item); Outcome(s.(inner := st.state), st.result)
  }

  /** A `Length` encoder as intended: it starts idle, with nothing to write. */
  function LengthEncoderNew<S>(inner: S, expected: nat): (s: LengthState<S>)
    ensures s.remaining == 0 && s.expected == expected && s.inner == inner
  {
    LengthState(inner, expected, 0)
  }

  /** `start_encoding` as intended: only an idle encoder takes an item, which then owes `expected_bytes`. */
  function LengthStart<S, T>(e: EncoderOps<S, T>, s: LengthState<S>, item: T): (o: Outcome<LengthState<S>, ()>)
    ensures o.result.Err? && s.remaining != 0 ==> o == Outcome(s, Err(EncoderFull))
    ensures s.remaining == 0 ==>
      o == Outcome(LengthState(e.start(s.inner, item).state, s.expected, s.expected), e.start(s.inner, item).result)
  {
    if s.remaining != 0 then Outcome(s, Err(EncoderFull))
    else var st := e.start(s.inner, item); Outcome(LengthState(st.state, s.expected, s.expected), st.result)
  }

  function LengthEncoderOps<S(!new), T>(e: EncoderOps<S, T>): EncoderOps<LengthState<S>, T>
    requires WritesWithinBuffer(e)
  {
    EncoderOps((s, n, eos) => LengthEncode(e, s, n, eos),
               (s, item) => LengthStart(e, s, item),
               (s: LengthState<S>) => Finite(s.remaining),
               (s: LengthState<S>) => s.remaining == 0)
  }

  lemma LengthEncoderLawful<S(!new), T>(e: EncoderOps<S, T>)
    requires Encode.Lawful(e)
    ensures Encode.Lawful(LengthEncoderOps(e)) && Encode.HasDefaultIsIdle(LengthEncoderOps(e))
  {
  }

  /**
   * As written, a `length(1)` encoder over `U8Encoder` claims one byte to
   * write before it holds any item, and after writing its first item it
   * refuses every further one with `EncoderFull`.
   */
  lemma LengthEncoderAsWrittenSingleUse()
    ensures (FixnumOpsLawful(U8); var e := FixnumEncoderOps(U8);
      var s0 := LengthNew(EncoderFields(None, 0), 1);
      var first := LengthStartAsWritten(e, s0, 1);
      var written := LengthEncode(e, first.state, 1, New(false));
      e.isIdle(s0.inner) && s0.remaining == 1 &&
      first.result.Ok? && written.result == Ok([1]) && written.state.remaining == 0 &&
      LengthStartAsWritten(e, written.state, 2).result == Err(EncoderFull))
  {
    FixnumOpsLawful(U8);
    U8Items();
    var e := FixnumEncoderOps(U8);
    var first := LengthStartAsWritten(e, LengthNew(EncoderFields(None, 0), 1), 1);
    assert first.state == LengthState(EncoderFields(Some([1]), 0), 1, 1);
    var enc := EncoderEncode(first.state.inner, 1, New(true));
    assert [1 as byte][0..1] == [1];
    assert enc.result == Ok([1]) && enc.state == EncoderFields(None, 1);
  }

  /** The items 1 and 2 fit `U8`, and 1 encodes as the single byte 1. */
  lemma U8Items()
    ensures WellFormed(U8) && InItemRange(U8, 1) && InItemRange(U8, 2)
    ensures EncodeItem(U8, 1) == Ok([1]) && EncodeItem(U8, 2).Ok?
  {
    assert Pow256(1) == 256;
    assert BeBytes(1, 1) == [1];
  }

  /** As intended, the same encoder starts idle and takes a second item once the first is out. */
  lemma LengthEncoderReusable()
    ensures (FixnumOpsLawful(U8); var e := FixnumEncoderOps(U8);
      var s0 := LengthEncoderNew(EncoderFields(None, 0), 1);
      var first := LengthStart(e, s0, 1);
      var written := LengthEncode(e, first.state, 1, New(false));
      LengthEncoderOps(e).requiringBytes(s0) == Finite(0) &&
      first.result.Ok? && written.result == Ok([1]) && LengthEncoderOps(e).isIdle(written.state) &&
      LengthStart(e, written.state, 2).result.Ok?)
  {
    FixnumOpsLawful(U8);
    U8Items();
    var e := FixnumEncoderOps(U8);
    var first := LengthStart(e, LengthEncoderNew(EncoderFields(None, 0), 1), 1);
    assert first.state == LengthState(EncoderFields(Some([1]), 0), 1, 1);
    var enc := EncoderEncode(first.state.inner, 1, New(true));
    assert [1 as byte][0..1] == [1];
    assert enc.result == Ok([1]) && enc.state == EncoderFields(None, 1);
  }

  /** Idle means the previous item took exactly `expected_bytes`; the next one starts with the full budget. */
  lemma LengthStartAfterItem<S, T>(e: EncoderOps<S, T>, s: LengthState<S>, item: T)
    requires s.remaining == 0
    ensures LengthStart(e, s, item).result == e.start(s.inner, item).result
    ensures LengthStart(e, s, item).state.remaining == s.expected
  {
  }

  /**
   * The tests of src/combinator.rs with `length(3)` over `Utf8Encoder` and a
   * 3-byte buffer: "hey" fits exactly, "hello" is too long
   * (`UnexpectedEos`), "hi" is too short (`InvalidInput`).
   */
  lemma LengthEncoderExamples()
    ensures (BytesEncoderLawful(); var e := Utf8EncoderOps();
      var hey: seq<byte> := [0x68, 0x65, 0x79];
      var hello: seq<byte> := [0x68, 0x65, 0x6C, 0x6C, 0x6F];
      var hi: seq<byte> := [0x68, 0x69];
      ValidUtf8(hey) && ValidUtf8(hello) && ValidUtf8(hi) &&
      LengthEncode(e, LengthStart(e, LengthEncoderNew(EncoderFields(None, 0), 3), hey).state, 3, New(true)).result == Ok(hey) &&
      LengthEncode(e, LengthStart(e, LengthEncoderNew(EncoderFields(None, 0), 3), hello).state, 3, New(true)).result == Err(UnexpectedEos) &&
      LengthEncode(e, LengthStart(e, LengthEncoderNew(EncoderFields(None, 0), 3), hi).state, 3, New(true)).result == Err(InvalidInput))
  {
    BytesEncoderLawful();
    var hey: seq<byte> := [0x68, 0x65, 0x79];
    var hello: seq<byte> := [0x68, 0x65, 0x6C, 0x6C, 0x6F];
    var hi: seq<byte> := [0x68, 0x69];
    AsciiValid(hey);
    AsciiValid(hello);
    AsciiValid(hi);
    assert hey[0..][..3] == hey;
    assert hi[0..][..2] == hi;
  }

  /** The encoding side of `Length`, writing into the caller's buffer. */
  class LengthEncoder<S(!new), T> {
    var inner: S
    var expected: nat
    var remaining: nat
    const ops: EncoderOps<S, T>

    function State(): LengthState<S>
      reads this
    {
      LengthState(inner, expected, remaining)
    }

    /** `EncodeExt::length(expected_bytes)`, starting idle. */
    constructor (e: EncoderOps<S, T>, s: S, n: nat)
      ensures State() == LengthEncoderNew(s, n) && ops == e
    {
      inner := s;
      expected := n;
      remaining := 0;
      ops := e;
    }

    method Encode(buf: array<byte>, eos: Eos) returns (r: Result<nat>)
      requires WritesWithinBuffer(ops)
      modifies this, buf
      ensures var o := LengthEncode(ops, old(State()), buf.Length, eos);
        State() == o.state &&
        (o.result.Err? ==> r == Err(o.result.error)) &&
        (o.result.Ok? ==>
           r == Ok(|o.result.value|) &&
           buf[..] == o.result.value + old(buf[|o.result.value|..]))
    {
      if buf.Length < remaining && IsEos(eos) {
        return Err(UnexpectedEos);
      }
      var limit := Min(buf.Length, remaining);
      var enc := ops.encode(inner, limit, if buf.Length < remaining then eos else New(true));
      inner := enc.state;
      if enc.result.Err? {
        return Err(enc.result.error);
      }
      var written := enc.result.value;
      CopyInto(buf, 0, written);
      remaining := remaining - |written|;
      if ops.isIdle(inner) && remaining != 0 {
        return Err(InvalidInput);
      }
      return Ok(|written|);
    }

    method StartEncoding(item: T) returns (r: Result<()>)
      modifies this
      ensures Outcome(State(), r) == LengthStart(ops, old(State()), item)
    {
      if remaining != 0 {
        return Err(EncoderFull);
      }
      remaining := expected;
      var st := ops.start(inner, item);
      inner := st.state;
      r := st.result;
    }
  }

  // ---------------------------------------------------------------------
  // MaxBytes (src/combinator.rs:955-1078)
  // ---------------------------------------------------------------------

  /** The fields of `MaxBytes`: the inner codec, the bytes of the current item so far and the limit. */
  datatype MaxBytesState<+S> = MaxBytesState(inner: S, consumed: nat, max: nat)

  /** `set_max_bytes`: refused with `InvalidInput` below what the current item already took. */
  function MaxBytesSetMax<S>(s: MaxBytesState<S>, n: nat): (o: Outcome<MaxBytesState<S>, ()>)
    ensures o.result.Ok? <==> s.consumed <= n
    ensures o.result.Err? ==> o == Outcome(s, Err(InvalidInput))
    ensures o.result.Ok? ==> o.state == s.(max := n)
  {
    if s.consumed > n then Outcome(s, Err(InvalidInput)) else Outcome(s.(max := n), Ok(()))
  }

  /** What `MaxBytes::decode` lets through: the buffer plus the known rest of the stream fit in the allowance. */
  predicate MaxBytesFits(consumed: nat, max: nat, bufLen: nat, eos: Eos)
  {
    match eos.remaining
    case None => bufLen <= max - consumed
    case Some(rest) => bufLen + rest <= max - consumed
  }

  /**
   * `MaxBytes::decode`: refuse (`InvalidInput`) when the input visible or
   * announced exceeds what is left of the limit, else decode and count.
   */
  function MaxBytesDecode<S, T>(d: DecoderOps<S, T>, s: MaxBytesState<S>, buf: seq<byte>, eos: Eos): (o: Outcome<MaxBytesState<S>, nat>)
    ensures !MaxBytesFits(s.consumed, s.max, |buf|, eos) ==> o == Outcome(s, Err(InvalidInput))
    ensures MaxBytesFits(s.consumed, s.max, |buf|, eos) ==>
      var dec := d.decode(s.inner, buf, eos);
      o.state.inner == dec.state && o.state.max == s.max && o.result == dec.result &&
      o.state.consumed == s.consumed + (if dec.result.Ok? then dec.result.value else 0)
  {
    if !MaxBytesFits(s.consumed, s.max, |buf|, eos) then Outcome(s, Err(InvalidInput))
    else
      var dec := d.decode(s.inner, buf, eos);
      match dec.result
      case Err(e) => Outcome(s.(inner := dec.state), Err(e))
      case Ok(size) => Outcome(MaxBytesState(dec.state, s.consumed + size, s.max), Ok(size))
  }

  /** `finish_decoding`: the count starts over for the next item. */
  function MaxBytesFinish<S, T>(d: DecoderOps<S, T>, s: MaxBytesState<S>): (o: Outcome<MaxBytesState<S>, T>)
    ensures o == Outcome(MaxBytesState(d.finish(s.inner).state, 0, s.max), d.finish(s.inner).result)
  {
    var fin := d.finish(s.inner);
    Outcome(MaxBytesState(fin.state, 0, s.max), fin.result)
  }

  function MaxBytesDecoderOps<S, T>(d: DecoderOps<S, T>): DecoderOps<MaxBytesState<S>, T>
  {
    DecoderOps((s, buf, eos) => MaxBytesDecode(d, s, buf, eos),
               s => MaxBytesFinish(d, s),
               (s: MaxBytesState<S>) => d.requiringBytes(s.inner),
               (s: MaxBytesState<S>) => d.isIdle(s.inner))
  }

  lemma MaxBytesDecoderLawful<S(!new), T>(d: DecoderOps<S, T>)
    requires Decode.Lawful(d)
    ensures Decode.Lawful(MaxBytesDecoderOps(d))
  {
  }

  /** A decoder that consumes what it is given never takes more than `max_bytes` for one item. */
  lemma MaxBytesKeepsLimit<S(!new), T>(d: DecoderOps<S, T>, s: MaxBytesState<S>, buf: seq<byte>, eos: Eos, n: nat)
    requires ConsumesWithinBuffer(d)
    requires s.consumed <= s.max
    ensures MaxBytesDecode(d, s, buf, eos).state.consumed <= MaxBytesDecode(d, s, buf, eos).state.max
    ensures MaxBytesSetMax(s, n).state.consumed <= MaxBytesSetMax(s, n).state.max
    ensures MaxBytesFinish(d, s).state.consumed == 0
  {
  }

  /** The test of src/combinator.rs: `max_bytes(3)` over `Utf8Decoder` takes "12" and "123" but not "1234". */
  lemma MaxBytesDecoderExamples()
    ensures var d := MaxBytesDecoderOps(StringDecoderOps());
      var s := MaxBytesState(RemainingState([], false), 0, 3);
      DecodeFromBytes(d, s, [0x31, 0x32]).result.Ok? &&
      DecodeFromBytes(d, s, [0x31, 0x32, 0x33]).result.Ok? &&
      DecodeFromBytes(d, s, [0x31, 0x32, 0x33, 0x34]).result == Err(InvalidInput)
  {
    var a: seq<byte> := [0x31, 0x32];
    var b: seq<byte> := [0x31, 0x32, 0x33];
    AsciiValid(a);
    AsciiValid(b);
    assert [] + a == a;
    assert [] + b == b;
  }

  /** `MaxBytes::encode`: count what the inner encoder wrote; over the limit is `InvalidInput`. */
  function MaxBytesEncode<S, T>(e: EncoderOps<S, T>, s: MaxBytesState<S>, bufLen: nat, eos: Eos): (o: Outcome<MaxBytesState<S>, seq<byte>>)
    ensures var enc := e.encode(s.inner, bufLen, eos);
      o.state.inner == enc.state && o.state.max == s.max &&
      (enc.result.Err? ==> o == Outcome(s.(inner := enc.state), Err(enc.result.error))) &&
      (enc.result.Ok? ==>
        (o.result.Err? <==> s.consumed + |enc.result.value| > s.max) &&
        (o.result.Err? ==> o.result.error == InvalidInput && o.state.consumed == s.consumed + |enc.result.value|) &&
        (o.result.Ok? ==>
           o.result == enc.result &&
           o.state.consumed == if e.isIdle(enc.state) then 0 else s.consumed + |enc.result.value|))
  {
    var enc := e.encode(s.inner, bufLen, eos);
    match enc.result
    case Err(k) => Outcome(s.(inner := enc.state), Err(k))
    case Ok(written) =>
      var consumed := s.consumed + |written|;
      if consumed > s.max then Outcome(MaxBytesState(enc.state, consumed, s.max), Err(InvalidInput))
      else Outcome(MaxBytesState(enc.state, if e.isIdle(enc.state) then 0 else consumed, s.max), Ok(written))
  }

  function MaxBytesEncoderOps<S, T>(e: EncoderOps<S, T>): EncoderOps<MaxBytesState<S>, T>
  {
    EncoderOps((s, n, eos) => MaxBytesEncode(e, s, n, eos),
               (s: MaxBytesState<S>, item) => var st := e.start(s.inner, item); Outcome(s.(inner := st.state), st.result),
               (s: MaxBytesState<S>) => e.requiringBytes(s.inner),
               (s: MaxBytesState<S>) => e.isIdle(s.inner))
  }

  lemma MaxBytesEncoderLawful<S(!new), T>(e: EncoderOps<S, T>)
    requires Encode.Lawful(e)
    ensures Encode.Lawful(MaxBytesEncoderOps(e))
  {
    forall s: MaxBytesState<S> | MaxBytesEncoderOps(e).isIdle(s)
      ensures MaxBytesEncoderOps(e).requiringBytes(s) == Finite(0)
    {
      assert e.isIdle(s.inner);
    }
  }

  /** The test of src/combinator.rs: `max_bytes(3)` over `Utf8Encoder` writes "foo" but refuses "hello". */
  lemma MaxBytesEncoderExamples()
    ensures var e := MaxBytesEncoderOps(Utf8EncoderOps());
      var foo: seq<byte> := [0x66, 0x6F, 0x6F];
      var hello: seq<byte> := [0x68, 0x65, 0x6C, 0x6C, 0x6F];
      var s := MaxBytesState(EncoderFields(None, 0), 0, 3);
      ValidUtf8(foo) && ValidUtf8(hello) &&
      e.encode(e.start(s, foo).state, 8, New(true)).result == Ok(foo) &&
      e.encode(e.start(s, foo).state, 8, New(true)).state.consumed == 0 &&
      e.encode(e.start(s, hello).state, 8, New(true)).result == Err(InvalidInput)
  {
    var foo: seq<byte> := [0x66, 0x6F, 0x6F];
    var hello: seq<byte> := [0x68, 0x65, 0x6C, 0x6C, 0x6F];
    AsciiValid(foo);
    AsciiValid(hello);
    assert foo[0..][..3] == foo;
  }

  /** The decoding side of `MaxBytes`. */
  class MaxBytesDecoder<S, T> {
    var inner: S
    var consumed: nat
    var max: nat
    const ops: DecoderOps<S, T>

    function State(): MaxBytesState<S>
      reads this
    {
      MaxBytesState(inner, consumed, max)
    }

    /** `DecodeExt::max_bytes(n)`. */
    constructor (d: DecoderOps<S, T>, s: S, n: nat)
      ensures State() == MaxBytesState(s, 0, n) && ops == d
    {
      inner := s;
      consumed := 0;
      max := n;
      ops := d;
    }

    method SetMaxBytes(n: nat) returns (r: Result<()>)
      modifies this
      ensures Outcome(State(), r) == MaxBytesSetMax(old(State()), n)
    {
      if consumed > n {
        return Err(InvalidInput);
      }
      max := n;
      return Ok(());
    }

    method Decode(buf: seq<byte>, eos: Eos) returns (r: Result<nat>)
      modifies this
      ensures Outcome(State(), r) == MaxBytesDecode(ops, old(State()), buf, eos)
    {
      var consumable := max - consumed;
      var visible := if eos.remaining.Some? then |buf| + eos.remaining.value else |buf|;
      if visible > consumable {
        return Err(InvalidInput);
      }
      var dec := ops.decode(inner, buf, eos);
      inner := dec.state;
      if dec.result.Err? {
        return Err(dec.result.error);
      }
      consumed := consumed + dec.result.value;
      return dec.result;
    }

    method FinishDecoding() returns (r: Result<T>)
      modifies this
      ensures Outcome(State(), r) == MaxBytesFinish(ops, old(State()))
    {
      consumed := 0;
      var fin := ops.finish(inner);
      inner := fin.state;
      r := fin.result;
    }
  }

  /** The encoding side of `MaxBytes`. */
  class MaxBytesEncoder<S(!new), T> {
    var inner: S
    var consumed: nat
    var max: nat
    const ops: EncoderOps<S, T>

    function State(): MaxBytesState<S>
      reads this
    {
      MaxBytesState(inner, consumed, max)
    }

    /** `EncodeExt::max_bytes(n)`. */
    constructor (e: EncoderOps<S, T>, s: S, n: nat)
      ensures State() == MaxBytesState(s, 0, n) && ops == e
    {
      inner := s;
      consumed := 0;
      max := n;
      ops := e;
    }

    method Encode(buf: array<byte>, eos: Eos) returns (r: Result<nat>)
      requires WritesWithinBuffer(ops)
      modifies this, buf
      ensures var o := MaxBytesEncode(ops, old(State()), buf.Length, eos);
        State() == o.state &&
        (o.result.Err? ==> r == Err(o.result.error)) &&
        (o.result.Ok? ==>
           r == Ok(|o.result.value|) &&
           buf[..] == o.result.value + old(buf[|o.result.value|..]))
    {
      var enc := ops.encode(inner, buf.Length, eos);
      inner := enc.state;
      if enc.result.Err? {
        return Err(enc.result.error);
      }
      var written := enc.result.value;
      CopyInto(buf, 0, written);
      consumed := consumed + |written|;
      if consumed > max {
        return Err(InvalidInput);
      }
      if ops.isIdle(inner) {
        consumed := 0;
      }
      return Ok(|written|);
    }

    method StartEncoding(item: T) returns (r: Result<()>)
      modifies this
      ensures Outcome(State(), r) == MaxBytesEncoderOps(ops).start(old(State()), item)
    {
      var st := ops.start(inner, item);
      inner := st.state;
      r := st.result;
    }
  }

  // ---------------------------------------------------------------------
  // Slice (src/combinator.rs:1138-1239)
  // ---------------------------------------------------------------------

  /** The fields of `Slice`: the inner codec and the bytes it may still consume. */
  datatype SliceState<+S> = SliceState(inner: S, consumable: nat)

  /** `is_suspended`: the budget is spent. */
  predicate IsSuspended<S>(s: SliceState<S>)
  {
    s.consumable == 0
  }

  /**
   * `Slice::decode`: the inner decoder sees at most `consumable_bytes` of
   * `buf`, with the end of the stream moved back by the bytes it cannot see,
   * and the budget drops by what it consumed.
   */
  function SliceDecode<S(!new), T>(d: DecoderOps<S, T>, s: SliceState<S>, buf: seq<byte>, eos: Eos): (o: Outcome<SliceState<S>, nat>)
    requires ConsumesWithinBuffer(d)
    ensures var limit := Min(|buf|, s.consumable);
      var dec := d.decode(s.inner, buf[..limit], Back(eos, |buf| - limit));
      o.state.inner == dec.state && o.result == dec.result &&
      (dec.result.Ok? ==> dec.result.value <= s.consumable && o.state.consumable == s.consumable - dec.result.value) &&
      (dec.result.Err? ==> o.state.consumable == s.consumable)
  {
    var limit := Min(|buf|, s.consumable);
    var dec := d.decode(s.inner, buf[..limit], Back(eos, |buf| - limit));
    match dec.result
    case Err(e) => Outcome(s.(inner := dec.state), Err(e))
    case Ok(size) => Outcome(SliceState(dec.state, s.consumable - size), Ok(size))
  }

  function SliceDecoderOps<S(!new), T>(d: DecoderOps<S, T>): DecoderOps<SliceState<S>, T>
    requires ConsumesWithinBuffer(d)
  {
    DecoderOps((s, buf, eos) => SliceDecode(d, s, buf, eos),
               (s: SliceState<S>) => var fin := d.finish(s.inner); Outcome(s.(inner := fin.state), fin.result),
               (s: SliceState<S>) => d.requiringBytes(s.inner),
               (s: SliceState<S>) => d.isIdle(s.inner))
  }

  lemma SliceDecoderLawful<S(!new), T>(d: DecoderOps<S, T>)
    requires Decode.Lawful(d)
    ensures Decode.Lawful(SliceDecoderOps(d))
  {
  }

  /** A suspended slice consumes nothing, whatever it is given. */
  lemma SuspendedSliceConsumesNothing<S(!new), T>(d: DecoderOps<S, T>, s: SliceState<S>, buf: seq<byte>, eos: Eos)
    requires ConsumesWithinBuffer(d) && IsSuspended(s)
    ensures SliceDecode(d, s, buf, eos).result.Ok? ==> SliceDecode(d, s, buf, eos).result.value == 0
    ensures IsSuspended(SliceDecode(d, s, buf, eos).state)
  {
  }

  /**
   * The test of src/combinator.rs in its first round: two `length(3)`
   * string decoders behind slices of one byte each share the input
   * "fboaor", each taking one byte and then being suspended.
   */
  lemma SliceDecoderExample()
    ensures (StringDecoderLawful(); var d := SliceDecoderOps(LengthDecoderOps(StringDecoderOps()));
      var input: seq<byte> := [0x66, 0x62, 0x6F, 0x61, 0x6F, 0x72];
      var a := d.decode(SliceState(LengthNew(RemainingState([], false), 3), 1), input, New(true));
      var b := d.decode(SliceState(LengthNew(RemainingState([], false), 3), 1), input[1..], New(true));
      a.result == Ok(1) && IsSuspended(a.state) && a.state.inner.inner.buf == [0x66] &&
      b.result == Ok(1) && IsSuspended(b.state) && b.state.inner.inner.buf == [0x62])
  {
    StringDecoderLawful();
    var input: seq<byte> := [0x66, 0x62, 0x6F, 0x61, 0x6F, 0x72];
    assert input[..1][..1] == [0x66];
    assert input[1..][..1][..1] == [0x62];
    assert [] + [0x66 as byte] == [0x66];
    assert [] + [0x62 as byte] == [0x62];
  }

  /** `Slice::encode`: the inner encoder gets at most `consumable_bytes` of room. */
  function SliceEncode<S(!new), T>(e: EncoderOps<S, T>, s: SliceState<S>, bufLen: nat, eos: Eos): (o: Outcome<SliceState<S>, seq<byte>>)
    requires WritesWithinBuffer(e)
    ensures var limit := Min(bufLen, s.consumable);
      var enc := e.encode(s.inner, limit, Back(eos, bufLen - limit));
      o.state.inner == enc.state && o.result == enc.result &&
      (enc.result.Ok? ==> |enc.result.value| <= s.consumable && o.state.consumable == s.consumable - |enc.result.value|) &&
      (enc.result.Err? ==> o.state.consumable == s.consumable)
  {
    var limit := Min(bufLen, s.consumable);
    var enc := e.encode(s.inner, limit, Back(eos, bufLen - limit));
    match enc.result
    case Err(k) => Outcome(s.(inner := enc.state), Err(k))
    case Ok(written) => Outcome(SliceState(enc.state, s.consumable - |written|), Ok(written))
  }

  function SliceEncoderOps<S(!new), T>(e: EncoderOps<S, T>): EncoderOps<SliceState<S>, T>
    requires WritesWithinBuffer(e)
  {
    EncoderOps((s, n, eos) => SliceEncode(e, s, n, eos),
               (s: SliceState<S>, item) => var st := e.start(s.inner, item); Outcome(s.(inner := st.state), st.result),
               (s: SliceState<S>) => e.requiringBytes(s.inner),
               (s: SliceState<S>) => e.isIdle(s.inner))
  }

  lemma SliceEncoderLawful<S(!new), T>(e: EncoderOps<S, T>)
    requires Encode.Lawful(e)
    ensures Encode.Lawful(SliceEncoderOps(e))
  {
    forall s: SliceState<S> | SliceEncoderOps(e).isIdle(s)
      ensures SliceEncoderOps(e).requiringBytes(s) == Finite(0)
    {
      assert e.isIdle(s.inner);
    }
  }

  /**
   * The test of src/combinator.rs, for any 12-byte item such as
   * "foobarbazqux": a slice handing out 3 bytes, then none (nothing is
   * written), then 3, then 6 writes the item in those pieces.
   */
  lemma SliceEncoderExample(text: seq<byte>)
    requires |text| == 12
    ensures (BytesEncoderLawful(); var e := BytesEncoderOps();
      var w1 := SliceEncode(e, SliceState(EncoderFields(Some(text), 0), 3), 12, New(true));
      var w2 := SliceEncode(e, w1.state, 9, New(true));
      var w3 := SliceEncode(e, w2.state.(consumable := 3), 9, New(true));
      var w4 := SliceEncode(e, w3.state.(consumable := 6), 6, New(true));
      w1.result == Ok(text[..3]) && IsSuspended(w1.state) && !EncoderIsIdle(w1.state.inner) &&
      w2.result == Ok([]) && Pending(w2.state.inner) == text[3..] &&
      w3.result == Ok(text[3..6]) &&
      w4.result == Ok(text[6..]) && EncoderIsIdle(w4.state.inner))
  {
    BytesEncoderLawful();
    var e := BytesEncoderOps();
    var s0 := SliceState(EncoderFields(Some(text), 0), 3);
    SliceBytesEncode(s0, 12, New(true));
    var w1 := SliceEncode(e, s0, 12, New(true));
    SliceBytesEncode(w1.state, 9, New(true));
    var w2 := SliceEncode(e, w1.state, 9, New(true));
    SliceBytesEncode(w2.state.(consumable := 3), 9, New(true));
    var w3 := SliceEncode(e, w2.state.(consumable := 3), 9, New(true));
    assert text[3..][..3] == text[3..6] && text[3..][3..] == text[6..];
    var s3 := w3.state.(consumable := 6);
    assert Pending(s3.inner) == text[6..];
    SliceBytesEncode(s3, 6, New(true));
    var w4 := SliceEncode(e, s3, 6, New(true));
    assert text[6..][..6] == text[6..];
    assert w4.result == Ok(text[6..]);
  }

  /**
   * A slice over a `BytesEncoder` writes the next pending bytes, as many as
   * both the buffer and the budget allow; it fails only when that leaves
   * part of the item unwritten at the end of the stream.
   */
  lemma SliceBytesEncode(s: SliceState<EncoderState>, bufLen: nat, eos: Eos)
    ensures (BytesEncoderLawful(); var o := SliceEncode(BytesEncoderOps(), s, bufLen, eos);
      var limit := Min(bufLen, s.consumable);
      var k := Min(limit, |Pending(s.inner)|);
      Pending(o.state.inner) == Pending(s.inner)[k..] &&
      (EncoderIsIdle(o.state.inner) <==> EncoderIsIdle(s.inner) || limit >= |Pending(s.inner)|) &&
      (o.result.Err? <==> !EncoderIsIdle(s.inner) && limit < |Pending(s.inner)| && IsEos(Back(eos, bufLen - limit))) &&
      (o.result.Ok? ==> o.result.value == Pending(s.inner)[..k] && o.state.consumable == s.consumable - k))
  {
    BytesEncoderLawful();
  }

  /** The decoding side of `Slice`. */
  class SliceDecoder<S(!new), T> {
    var inner: S
    var consumable: nat
    const ops: DecoderOps<S, T>

    function State(): SliceState<S>
      reads this
    {
      SliceState(inner, consumable)
    }

    /** `DecodeExt::slice()`: suspended until a budget is set. */
    constructor (d: DecoderOps<S, T>, s: S)
      ensures State() == SliceState(s, 0) && ops == d
    {
      inner := s;
      consumable := 0;
      ops := d;
    }

    method SetConsumableBytes(n: nat)
      modifies this
      ensures State() == old(State()).(consumable := n)
    {
      consumable := n;
    }

    method Decode(buf: seq<byte>, eos: Eos) returns (r: Result<nat>)
      requires ConsumesWithinBuffer(ops)
      modifies this
      ensures Outcome(State(), r) == SliceDecode(ops, old(State()), buf, eos)
    {
      var limit := Min(|buf|, consumable);
      var dec := ops.decode(inner, buf[..limit], Back(eos, |buf| - limit));
      inner := dec.state;
      if dec.result.Err? {
        return Err(dec.result.error);
      }
      consumable := consumable - dec.result.value;
      return dec.result;
    }

    method FinishDecoding() returns (r: Result<T>)
      requires ConsumesWithinBuffer(ops)
      modifies this
      ensures Outcome(State(), r) == SliceDecoderOps(ops).finish(old(State()))
    {
      var fin := ops.finish(inner);
      inner := fin.state;
      r := fin.result;
    }
  }

  /** The encoding side of `Slice`. */
  class SliceEncoder<S(!new), T> {
    var inner: S
    var consumable: nat
    const ops: EncoderOps<S, T>

    function State(): SliceState<S>
      reads this
    {
      SliceState(inner, consumable)
    }

    /** `EncodeExt::slice()`. */
    constructor (e: EncoderOps<S, T>, s: S)
      ensures State() == SliceState(s, 0) && ops == e
    {
      inner := s;
      consumable := 0;
      ops := e;
    }

    method SetConsumableBytes(n: nat)
      modifies this
      ensures State() == old(State()).(consumable := n)
    {
      consumable := n;
    }

    method Encode(buf: array<byte>, eos: Eos) returns (r: Result<nat>)
      requires WritesWithinBuffer(ops)
      modifies this, buf
      ensures var o := SliceEncode(ops, old(State()), buf.Length, eos);
        State() == o.state &&
        (o.result.Err? ==> r == Err(o.result.error)) &&
        (o.result.Ok? ==>
           r == Ok(|o.result.value|) &&
           buf[..] == o.result.value + old(buf[|o.result.value|..]))
    {
      var limit := Min(buf.Length, consumable);
      var enc := ops.encode(inner, limit, Back(eos, buf.Length - limit));
      inner := enc.state;
      if enc.result.Err? {
        return Err(enc.result.error);
      }
      var written := enc.result.value;
      CopyInto(buf, 0, written);
      consumable := consumable - |written|;
      return Ok(|written|);
    }

    method StartEncoding(item: T) returns (r: Result<()>)
      requires WritesWithinBuffer(ops)
      modifies this
      ensures Outcome(State(), r) == SliceEncoderOps(ops).start(old(State()), item)
    {
      var st := ops.start(inner, item);
      inner := st.state;
      r := st.result;
    }
  }
}
