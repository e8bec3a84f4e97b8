/*
 * The repeating combinators of src/combinator.rs: `Collect` (decode items
 * until the end of the stream), `CollectN` (decode a given number of items)
 * and `Repeat` (encode every item an iterator yields).  An iterator is
 * modelled by the sequence of the items it has left, and a collection built
 * with `Extend` by the sequence of the items in the order they came.
 */
module Collecting {
  import opened Base
  import opened ByteCounts
  import opened EndOfStream
  import opened Decode
  import opened Encode
  import opened Bytes
  import opened Fixnum
  import opened Null

  /** How a decode loop ended: by its own condition (`exhausted`) or by returning from inside. */
  datatype Run<+S> = Run(state: S, result: Result<nat>, exhausted: bool)

  /**
   * An inner decoder with which `Collect`'s loop comes to an end: an item
   * is never taken without a byte for the next one having been asked for
   * (after `finish_decoding` the decoder is busy again), and a busy decoder
   * given bytes consumes at least one of them before it turns idle.  With a
   * decoder that yields items out of no input the Rust loop never ends.
   */
  ghost predicate MakesProgress<S(!new), T>(d: DecoderOps<S, T>)
  {
    (forall s: S {:trigger d.finish(s)} :: d.finish(s).result.Ok? ==> !d.isIdle(d.finish(s).state)) &&
    (forall s: S, buf: seq<byte>, eos: Eos {:trigger d.decode(s, buf, eos)} ::
       !d.isIdle(s) && |buf| > 0 && d.decode(s, buf, eos).result.Ok? && d.isIdle(d.decode(s, buf, eos).state) ==>
       d.decode(s, buf, eos).result.value > 0)
  }

  /**
   * `NullDecoder` is the decoder the progress rule excludes: it is always
   * idle and always finishes, so a round of `Collect`'s loop at an offset
   * short of the buffer's end consumes nothing and leaves the decoder as it
   * was, and `while offset < buf.len()` never ends on a non-empty buffer.
   */
  lemma NullDecoderBreaksProgress(buf: seq<byte>, offset: nat, eos: Eos)
    requires offset < |buf|
    ensures ConsumesWithinBuffer(NullDecoderOps())
    ensures TryDecode(NullDecoderOps(), NullState, buf, offset, eos) == Proceed(NullState, offset)
    ensures NullDecoderOps().finish(NullState) == Outcome(NullState, Ok(()))
    ensures !MakesProgress(NullDecoderOps())
  {
    NullLawful();
    assert NullDecoderOps().finish(NullState).result.Ok? && NullDecoderOps().isIdle(NullDecoderOps().finish(NullState).state);
  }

  /** The second component of the loop's termination measure. */
  function Stage<S, T>(d: DecoderOps<S, T>, s: S): nat
  {
    if d.isIdle(s) then 1 else 0
  }

  // ---------------------------------------------------------------------
  // Collect (src/combinator.rs:579-639)
  // ---------------------------------------------------------------------

  /** The fields of `Collect`: the inner decoder, the items so far and whether the end of the stream was seen. */
  datatype CollectState<+S, +T> = CollectState(inner: S, items: seq<T>, eos: bool)

  /**
   * The loop of `Collect::decode` from `offset` on: try-decode an item,
   * finish it and append it, while bytes are left.  A busy inner decoder
   * that does not finish its item returns early.
   */
  function CollectLoop<S(!new), T>(d: DecoderOps<S, T>, s: CollectState<S, T>, buf: seq<byte>, offset: nat, eos: Eos): (r: Run<CollectState<S, T>>)
    requires offset <= |buf|
    requires ConsumesWithinBuffer(d) && MakesProgress(d)
    ensures r.result.Ok? ==> offset <= r.result.value <= |buf|
    ensures r.exhausted ==> r.result == Ok(|buf|)
    ensures |s.items| <= |r.state.items| && r.state.items[..|s.items|] == s.items
    ensures r.state.eos == s.eos
    decreases |buf| - offset, Stage(d, s.inner)
  {
    if offset == |buf| then Run(s, Ok(offset), true)
    else
      match TryDecode(d, s.inner, buf, offset, eos)
      case Fail(st, e) => Run(s.(inner := st), Err(e), false)
      case Suspend(st, off) => Run(s.(inner := st), Ok(off), false)
      case Proceed(st, off) =>
        var fin := d.finish(st);
        if fin.result.Err? then Run(s.(inner := fin.state), Err(fin.result.error), false)
        else
          assert off > offset || Stage(d, fin.state) < Stage(d, s.inner) by {
            if !d.isIdle(s.inner) {
              assert d.decode(s.inner, buf[offset..], eos).result.Ok?;
            }
          }
          CollectLoop(d, CollectState(fin.state, s.items + [fin.result.value], s.eos), buf, off, eos)
  }

  /**
   * `Collect::decode`: nothing once the end of the stream has been seen;
   * otherwise the loop, and if it ran to the end of `buf` and the stream
   * ends there, the flag is set.
   */
  function CollectDecode<S(!new), T>(d: DecoderOps<S, T>, s: CollectState<S, T>, buf: seq<byte>, eos: Eos): (o: Outcome<CollectState<S, T>, nat>)
    requires ConsumesWithinBuffer(d) && MakesProgress(d)
    ensures s.eos ==> o == Outcome(s, Ok(0))
    ensures !s.eos ==>
      var r := CollectLoop(d, s, buf, 0, eos);
      o.result == r.result && o.state == r.state.(eos := r.exhausted && IsEos(eos))
  {
    if s.eos then Outcome(s, Ok(0))
    else
      var r := CollectLoop(d, s, buf, 0, eos);
      Outcome(r.state.(eos := r.exhausted && IsEos(eos)), r.result)
  }

  /** `finish_decoding`: only after the end of the stream; hands over the items and starts again. */
  function CollectFinish<S, T>(s: CollectState<S, T>): (o: Outcome<CollectState<S, T>, seq<T>>)
    ensures o.result.Ok? <==> s.eos
    ensures !s.eos ==> o == Outcome(s, Err(IncompleteDecoding))
    ensures s.eos ==> o == Outcome(CollectState(s.inner, [], false), Ok(s.items))
  {
    if !s.eos then Outcome(s, Err(IncompleteDecoding))
    else Outcome(CollectState(s.inner, [], false), Ok(s.items))
  }

  function CollectOps<S(!new), T>(d: DecoderOps<S, T>): DecoderOps<CollectState<S, T>, seq<T>>
    requires ConsumesWithinBuffer(d) && MakesProgress(d)
  {
    DecoderOps((s, buf, eos) => CollectDecode(d, s, buf, eos),
               CollectFinish,
               (s: CollectState<S, T>) => if s.eos then Finite(0) else d.requiringBytes(s.inner),
               (s: CollectState<S, T>) => s.eos)
  }

  lemma CollectLawful<S(!new), T(!new)>(d: DecoderOps<S, T>)
    requires Decode.Lawful(d) && MakesProgress(d)
    ensures Decode.Lawful(CollectOps(d))
  {
  }

  /** `DecodeExt::collect()`: no items yet. */
  function CollectNew<S, T>(inner: S): (s: CollectState<S, T>)
    ensures s.items == [] && !s.eos
  {
    CollectState(inner, [], false)
  }

  // ---------------------------------------------------------------------
  // The fixed-width integer decoders as inner decoders
  // ---------------------------------------------------------------------

  /** The states a fixed-width integer decoder reaches: an array of at least one byte. */
  type ArrayState = s: CopyableState | |s.bytes| >= 1 witness CopyableFields([0], 0)

  /** The decoder of codec `c` on those states. */
  function ItemDecoderOps(c: IntCodec): DecoderOps<ArrayState, int>
  {
    DecoderOps((s: ArrayState, buf, eos) =>
                 var o := CopyableDecode(s, buf, eos); var next: ArrayState := o.state; Outcome(next, o.result),
               (s: ArrayState) =>
                 var o := FixnumFinish(c, s); var next: ArrayState := o.state; Outcome(next, o.result),
               CopyableRequiringBytes,
               (s: ArrayState) => CopyableRequiringBytes(s) == Finite(0))
  }

  /** On those states it is the decoder of src/fixnum.rs. */
  lemma ItemDecoderIsFixnumDecoder(c: IntCodec, s: ArrayState, buf: seq<byte>, eos: Eos)
    ensures ItemDecoderOps(c).decode(s, buf, eos).state == FixnumDecoderOps(c).decode(s, buf, eos).state
    ensures ItemDecoderOps(c).decode(s, buf, eos).result == FixnumDecoderOps(c).decode(s, buf, eos).result
    ensures ItemDecoderOps(c).finish(s).state == FixnumDecoderOps(c).finish(s).state
    ensures ItemDecoderOps(c).finish(s).result == FixnumDecoderOps(c).finish(s).result
    ensures ItemDecoderOps(c).isIdle(s) == FixnumDecoderOps(c).isIdle(s)
  {
  }

  lemma ItemDecoderLawful(c: IntCodec)
    ensures Decode.Lawful(ItemDecoderOps(c)) && MakesProgress(ItemDecoderOps(c))
  {
  }

  /** Bytes read as `U8` items. */
  function ByteValues(b: seq<byte>): (r: seq<int>)
    ensures |r| == |b|
    ensures forall i :: 0 <= i < |b| ==> r[i] == b[i] as int
  {
    if b == [] then [] else [b[0] as int] + ByteValues(b[1..])
  }

  /** A `U8` decoder from a fresh array decodes the next byte as its value. */
  lemma U8Step(s: ArrayState, buf: seq<byte>, offset: nat, eos: Eos)
    requires |s.bytes| == 1 && s.offset == 0 && offset < |buf|
    ensures (ItemDecoderLawful(U8); var d := ItemDecoderOps(U8);
      var t := TryDecode(d, s, buf, offset, eos);
      t.Proceed? && t.offset == offset + 1 &&
      d.finish(t.state).result == Ok(buf[offset] as int) &&
      |d.finish(t.state).state.bytes| == 1 && d.finish(t.state).state.offset == 0)
  {
    ItemDecoderLawful(U8);
    var rest := buf[offset..];
    assert FillAt(s.bytes, 0, rest) == [buf[offset]];
    assert BeValue([buf[offset]]) == buf[offset] as nat by {
      assert [buf[offset]][..0] == [];
    }
  }

  /** The `U8` decoder after it has taken the byte at `offset` and handed it over. */
  function U8Next(s: ArrayState, buf: seq<byte>, offset: nat, eos: Eos): ArrayState
    requires offset <= |buf|
  {
    ItemDecoderLawful(U8);
    var d := ItemDecoderOps(U8);
    d.finish(TryDecode(d, s, buf, offset, eos).state).state
  }

  /** One round of the `Collect` loop over `U8`: it appends the next byte and moves one on. */
  lemma CollectU8Step(s: CollectState<ArrayState, int>, buf: seq<byte>, offset: nat, eos: Eos)
    requires |s.inner.bytes| == 1 && s.inner.offset == 0 && offset < |buf|
    ensures var inner := U8Next(s.inner, buf, offset, eos); |inner.bytes| == 1 && inner.offset == 0
    ensures (ItemDecoderLawful(U8); var d := ItemDecoderOps(U8);
      CollectLoop(d, s, buf, offset, eos) ==
        CollectLoop(d, CollectState(U8Next(s.inner, buf, offset, eos), s.items + [buf[offset] as int], s.eos), buf, offset + 1, eos))
  {
    ItemDecoderLawful(U8);
    U8Step(s.inner, buf, offset, eos);
  }

  /** The loop of `Collect` over `U8` takes every byte left in the buffer. */
  lemma {:induction false} CollectU8Loop(s: CollectState<ArrayState, int>, buf: seq<byte>, offset: nat, eos: Eos)
    requires |s.inner.bytes| == 1 && s.inner.offset == 0 && offset <= |buf|
    ensures (ItemDecoderLawful(U8); var r := CollectLoop(ItemDecoderOps(U8), s, buf, offset, eos);
      r.exhausted && r.state.items == s.items + ByteValues(buf[offset..]))
    decreases |buf| - offset
  {
    ItemDecoderLawful(U8);
    if offset < |buf| {
      CollectU8Step(s, buf, offset, eos);
      var inner := U8Next(s.inner, buf, offset, eos);
      var next := CollectState(inner, s.items + [buf[offset] as int], s.eos);
      CollectU8Loop(next, buf, offset + 1, eos);
      AppendByteValue(s.items, buf, offset, |buf| - offset);
      assert buf[offset..offset + (|buf| - offset)] == buf[offset..];
      assert buf[offset + 1..offset + (|buf| - offset)] == buf[offset + 1..];
    } else {
      assert buf[offset..] == [];
    }
  }

  /**
   * `U8Decoder::new().collect()` decodes any byte string, as the whole
   * stream, to the list of its bytes (the test of src/combinator.rs decodes
   * "foo" to `[b'f', b'o', b'o']`).
   */
  lemma CollectU8Decodes(b: seq<byte>)
    ensures (ItemDecoderLawful(U8); var d := CollectOps(ItemDecoderOps(U8));
      DecodeFromBytes(d, CollectNew(NewDecoder(U8)), b).result == Ok(ByteValues(b)))
  {
    ItemDecoderLawful(U8);
    CollectU8Loop(CollectNew(NewDecoder(U8)), b, 0, New(true));
    assert b[0..] == b;
  }

  /** The `Collect` decoder's own fields. */
  class Collect<S(!new), T> {
    var inner: S
    var items: seq<T>
    var eos: bool
    const ops: DecoderOps<S, T>

    function State(): CollectState<S, T>
      reads this
    {
      CollectState(inner, items, eos)
    }

    /** `DecodeExt::collect()`. */
    constructor (d: DecoderOps<S, T>, s: S)
      ensures State() == CollectNew(s) && ops == d
    {
      inner := s;
      items := [];
      eos := false;
      ops := d;
    }

    method Decode(buf: seq<byte>, e: Eos) returns (r: Result<nat>)
      requires ConsumesWithinBuffer(ops) && MakesProgress(ops)
      modifies this
      ensures Outcome(State(), r) == CollectDecode(ops, old(State()), buf, e)
    {
      if eos {
        return Ok(0);
      }
      var offset: nat := 0;
      while offset < |buf|
        invariant offset <= |buf| && !eos
        invariant CollectLoop(ops, State(), buf, offset, e) == CollectLoop(ops, old(State()), buf, 0, e)
        decreases |buf| - offset, Stage(ops, inner)
      {
        ghost var whole := CollectLoop(ops, old(State()), buf, 0, e);
        ghost var start := offset;
        ghost var wasIdle := ops.isIdle(inner);
        var t := TryDecode(ops, inner, buf, offset, e);
        if !wasIdle {
          assert ops.decode(inner, buf[offset..], e).result.Ok? ==> t.offset > offset || !t.Proceed?;
        }
        inner := t.state;
        if t.Fail? {
          assert whole == Run(State(), Err(t.error), false);
          return Err(t.error);
        } else if t.Suspend? {
          assert whole == Run(State(), Ok(t.offset), false);
          return Ok(t.offset);
        }
        offset := t.offset;
        var fin := ops.finish(inner);
        inner := fin.state;
        if fin.result.Err? {
          assert whole == Run(State(), Err(fin.result.error), false);
          return Err(fin.result.error);
        }
        items := items + [fin.result.value];
        assert offset > start || !ops.isIdle(inner);
      }
      assert CollectLoop(ops, old(State()), buf, 0, e) == Run(State(), Ok(offset), true);
      if IsEos(e) {
        eos := true;
      }
      return Ok(offset);
    }

    method FinishDecoding() returns (r: Result<seq<T>>)
      modifies this
      ensures Outcome(State(), r) == CollectFinish(old(State()))
    {
      if !eos {
        return Err(IncompleteDecoding);
      }
      eos := false;
      r := Ok(items);
      items := [];
    }
  }

  // ---------------------------------------------------------------------
  // CollectN (src/combinator.rs:802-867)
  // ---------------------------------------------------------------------

  /** The fields of `CollectN`: the inner decoder, the items still expected and the items so far. */
  datatype CollectNState<+S, +T> = CollectNState(inner: S, remaining: nat, items: seq<T>)

  /** The loop of `CollectN::decode` from `offset` on: one item per round, while items are expected and bytes left. */
  function CollectNLoop<S(!new), T>(d: DecoderOps<S, T>, s: CollectNState<S, T>, buf: seq<byte>, offset: nat, eos: Eos): (r: Run<CollectNState<S, T>>)
    requires offset <= |buf|
    requires ConsumesWithinBuffer(d)
    ensures r.result.Ok? ==> offset <= r.result.value <= |buf|
    ensures r.exhausted ==> r.result.Ok? && (r.state.remaining == 0 || r.result.value == |buf|)
    ensures r.state.remaining <= s.remaining
    ensures r.state.remaining + |r.state.items| == s.remaining + |s.items| && r.state.items[..|s.items|] == s.items
    decreases s.remaining
  {
    if s.remaining == 0 || offset == |buf| then Run(s, Ok(offset), true)
    else
      match TryDecode(d, s.inner, buf, offset, eos)
      case Fail(st, e) => Run(s.(inner := st), Err(e), false)
      case Suspend(st, off) => Run(s.(inner := st), Ok(off), false)
      case Proceed(st, off) =>
        var fin := d.finish(st);
        if fin.result.Err? then Run(s.(inner := fin.state), Err(fin.result.error), false)
        else CollectNLoop(d, CollectNState(fin.state, s.remaining - 1, s.items + [fin.result.value]), buf, off, eos)
  }

  /** `CollectN::decode`: the loop; if it ended by its own condition short of the count at the end of the stream, `UnexpectedEos`. */
  function CollectNDecode<S(!new), T>(d: DecoderOps<S, T>, s: CollectNState<S, T>, buf: seq<byte>, eos: Eos): (o: Outcome<CollectNState<S, T>, nat>)
    requires ConsumesWithinBuffer(d)
    ensures var r := CollectNLoop(d, s, buf, 0, eos);
      o.state == r.state &&
      (r.exhausted && r.state.remaining != 0 && IsEos(eos) ==> o.result == Err(UnexpectedEos)) &&
      (!(r.exhausted && r.state.remaining != 0 && IsEos(eos)) ==> o.result == r.result)
  {
    var r := CollectNLoop(d, s, buf, 0, eos);
    if r.exhausted && r.state.remaining != 0 && IsEos(eos) then Outcome(r.state, Err(UnexpectedEos))
    else Outcome(r.state, r.result)
  }

  /** `finish_decoding`: only once every expected item is in; the items are handed over. */
  function CollectNFinish<S, T>(s: CollectNState<S, T>): (o: Outcome<CollectNState<S, T>, seq<T>>)
    ensures o.result.Ok? <==> s.remaining == 0
    ensures s.remaining != 0 ==> o == Outcome(s, Err(IncompleteDecoding))
    ensures s.remaining == 0 ==> o == Outcome(s.(items := []), Ok(s.items))
  {
    if s.remaining != 0 then Outcome(s, Err(IncompleteDecoding))
    else Outcome(s.(items := []), Ok(s.items))
  }

  function CollectNOps<S(!new), T>(d: DecoderOps<S, T>): DecoderOps<CollectNState<S, T>, seq<T>>
    requires ConsumesWithinBuffer(d)
  {
    DecoderOps((s, buf, eos) => CollectNDecode(d, s, buf, eos),
               CollectNFinish,
               (s: CollectNState<S, T>) => if s.remaining == 0 then Finite(0) else d.requiringBytes(s.inner),
               (s: CollectNState<S, T>) => s.remaining == 0)
  }

  lemma CollectNLawful<S(!new), T(!new)>(d: DecoderOps<S, T>)
    requires Decode.Lawful(d)
    ensures Decode.Lawful(CollectNOps(d))
  {
    forall s: CollectNState<S, T>, buf: seq<byte>, eos: Eos | s.remaining == 0
      ensures CollectNDecode(d, s, buf, eos).result == Ok(0)
    {
    }
  }

  /** `DecodeExt::collectn(n)` on the decoder `d` in state `inner`. */
  function CollectNNew<S, T>(d: DecoderOps<S, T>, inner: S, n: nat): (s: CollectNState<S, T>)
    ensures s.remaining == n && s.items == []
  {
    CollectNState(inner, n, [])
  }

  /** One round of the `CollectN` loop over `U8`: it appends the next byte and expects one item less. */
  lemma CollectNU8Step(s: CollectNState<ArrayState, int>, buf: seq<byte>, offset: nat, eos: Eos)
    requires |s.inner.bytes| == 1 && s.inner.offset == 0 && offset < |buf| && s.remaining != 0
    ensures var inner := U8Next(s.inner, buf, offset, eos); |inner.bytes| == 1 && inner.offset == 0
    ensures (ItemDecoderLawful(U8); var d := ItemDecoderOps(U8);
      CollectNLoop(d, s, buf, offset, eos) ==
        CollectNLoop(d, CollectNState(U8Next(s.inner, buf, offset, eos), s.remaining - 1, s.items + [buf[offset] as int]), buf, offset + 1, eos))
  {
    ItemDecoderLawful(U8);
    U8Step(s.inner, buf, offset, eos);
  }

  /** With no item expected or no byte left, the `CollectN` loop over `U8` stops where it is. */
  lemma CollectNU8Done(s: CollectNState<ArrayState, int>, buf: seq<byte>, offset: nat, eos: Eos)
    requires offset <= |buf| && (s.remaining == 0 || offset == |buf|)
    ensures (ItemDecoderLawful(U8); CollectNLoop(ItemDecoderOps(U8), s, buf, offset, eos) == Run(s, Ok(offset), true))
  {
    ItemDecoderLawful(U8);
  }

  /** The loop of `CollectN` over `U8` takes one byte per expected item, as far as the buffer goes. */
  lemma {:induction false} CollectNU8Loop(s: CollectNState<ArrayState, int>, buf: seq<byte>, offset: nat, eos: Eos)
    requires |s.inner.bytes| == 1 && s.inner.offset == 0 && offset <= |buf|
    ensures (ItemDecoderLawful(U8); var r := CollectNLoop(ItemDecoderOps(U8), s, buf, offset, eos);
      var k := Min(s.remaining, |buf| - offset);
      r.exhausted && r.result.Ok? && r.result.value == offset + k && r.state.remaining == s.remaining - k &&
      r.state.items == s.items + ByteValues(buf[offset..offset + k]))
    decreases s.remaining, 1
  {
    if s.remaining != 0 && offset < |buf| {
      CollectNU8Cons(s, buf, offset, eos);
    } else {
      CollectNU8Done(s, buf, offset, eos);
      assert buf[offset..offset] == [];
    }
  }

  /** `CollectNU8Loop` when an item is expected and a byte is left: that byte, then the rest of the loop. */
  lemma {:induction false} CollectNU8Cons(s: CollectNState<ArrayState, int>, buf: seq<byte>, offset: nat, eos: Eos)
    requires |s.inner.bytes| == 1 && s.inner.offset == 0 && offset < |buf| && s.remaining != 0
    ensures (ItemDecoderLawful(U8); var r := CollectNLoop(ItemDecoderOps(U8), s, buf, offset, eos);
      var k := Min(s.remaining, |buf| - offset);
      r.exhausted && r.result.Ok? && r.result.value == offset + k && r.state.remaining == s.remaining - k &&
      r.state.items == s.items + ByteValues(buf[offset..offset + k]))
    decreases s.remaining, 0
  {
    ItemDecoderLawful(U8);
    CollectNU8Step(s, buf, offset, eos);
    var inner := U8Next(s.inner, buf, offset, eos);
    var next := CollectNState(inner, s.remaining - 1, s.items + [buf[offset] as int]);
    CollectNU8Loop(next, buf, offset + 1, eos);
    TookOneMore(s, next, buf, offset, CollectNLoop(ItemDecoderOps(U8), next, buf, offset + 1, eos));
  }

  /** What the rest of the loop took after the byte at `offset` is what the whole loop took from `offset`. */
  lemma TookOneMore(s: CollectNState<ArrayState, int>, next: CollectNState<ArrayState, int>, buf: seq<byte>, offset: nat,
                    r: Run<CollectNState<ArrayState, int>>)
    requires offset < |buf| && s.remaining != 0
    requires next.remaining == s.remaining - 1 && next.items == s.items + [buf[offset] as int]
    requires var k := Min(next.remaining, |buf| - (offset + 1));
      r.exhausted && r.result.Ok? && r.result.value == offset + 1 + k && r.state.remaining == next.remaining - k &&
      r.state.items == next.items + ByteValues(buf[offset + 1..offset + 1 + k])
    ensures var k := Min(s.remaining, |buf| - offset);
      r.exhausted && r.result.Ok? && r.result.value == offset + k && r.state.remaining == s.remaining - k &&
      r.state.items == s.items + ByteValues(buf[offset..offset + k])
  {
    var k, k1 := Min(s.remaining, |buf| - offset), Min(next.remaining, |buf| - (offset + 1));
    assert offset + 1 + k1 == offset + k;
    var tail := ByteValues(buf[offset + 1..offset + k]);
    assert r.state.items == next.items + tail;
    AppendByteValue(s.items, buf, offset, k);
  }

  /** Taking the byte at `offset`, then `k - 1` more, appends the same values as taking `k` at once. */
  lemma AppendByteValue(items: seq<int>, buf: seq<byte>, offset: nat, k: nat)
    requires 1 <= k && offset + k <= |buf|
    ensures items + [buf[offset] as int] + ByteValues(buf[offset + 1..offset + k]) ==
            items + ByteValues(buf[offset..offset + k])
  {
    var x, tail := buf[offset] as int, ByteValues(buf[offset + 1..offset + k]);
    assert buf[offset..offset + k][1..] == buf[offset + 1..offset + k];
    assert ByteValues(buf[offset..offset + k]) == [x] + tail;
    assert items + [x] + tail == items + ([x] + tail);
  }

  /**
   * `U8Decoder::new().collectn(n)` given a stream of `b`: with at least
   * `n` bytes it consumes `n` of them and yields them; with fewer at the
   * end of the stream it fails with `UnexpectedEos`, and with fewer in the
   * middle of the stream it takes them all and waits for more.  (The test of
   * src/combinator.rs: 2 of "foo" gives "fo", 4 of "foo" fails.)
   */
  lemma CollectNU8Decodes(n: nat, b: seq<byte>, eos: Eos)
    ensures (ItemDecoderLawful(U8); var d := CollectNOps(ItemDecoderOps(U8));
      var o := d.decode(CollectNNew(ItemDecoderOps(U8), NewDecoder(U8), n), b, eos);
      (n <= |b| ==> o.result == Ok(n) && d.finish(o.state).result == Ok(ByteValues(b[..n]))) &&
      (n > |b| && IsEos(eos) ==> o.result == Err(UnexpectedEos)) &&
      (n > |b| && !IsEos(eos) ==> o.result == Ok(|b|) && o.state.remaining == n - |b| && !d.isIdle(o.state)))
  {
    ItemDecoderLawful(U8);
    CollectNU8Loop(CollectNNew(ItemDecoderOps(U8), NewDecoder(U8), n), b, 0, eos);
    if n <= |b| {
      assert b[0..n] == b[..n];
    }
  }

  /** The `CollectN` decoder's own fields. */
  class CollectN<S(!new), T> {
    var inner: S
    var remaining: nat
    var items: seq<T>
    const ops: DecoderOps<S, T>

    function State(): CollectNState<S, T>
      reads this
    {
      CollectNState(inner, remaining, items)
    }

    /** `DecodeExt::collectn(count)`. */
    constructor (d: DecoderOps<S, T>, s: S, count: nat)
      ensures State() == CollectNNew(d, s, count) && ops == d
    {
      inner := s;
      remaining := count;
      items := [];
      ops := d;
    }

    /** `set_remaining_items`. */
    method SetRemainingItems(n: nat)
      modifies this
      ensures State() == old(State()).(remaining := n)
    {
      remaining := n;
    }

    method Decode(buf: seq<byte>, eos: Eos) returns (r: Result<nat>)
      requires ConsumesWithinBuffer(ops)
      modifies this
      ensures Outcome(State(), r) == CollectNDecode(ops, old(State()), buf, eos)
    {
      var offset: nat := 0;
      ghost var goal := CollectNLoop(ops, State(), buf, 0, eos);
      while remaining != 0 && offset < |buf|
        invariant offset <= |buf|
        invariant CollectNLoop(ops, State(), buf, offset, eos) == goal
        decreases remaining
      {
        var done, res := DecodeOne(buf, offset, eos);
        if done {
          return res;
        }
        offset := res.value;
      }
      assert goal == Run(State(), Ok(offset), true);
      if remaining != 0 && IsEos(eos) {
        return Err(UnexpectedEos);
      }
      return Ok(offset);
    }

    /**
     * One round of the loop of `decode`: the inner decoder is given
     * `buf[offset..]`, and once it is idle its item is taken.  The call ends
     * here (`done`) on an error or when the inner decoder waits for more;
     * otherwise one item less is expected and the loop goes on at `r.value`.
     */
    method DecodeOne(buf: seq<byte>, offset: nat, eos: Eos) returns (done: bool, r: Result<nat>)
      requires ConsumesWithinBuffer(ops) && remaining != 0 && offset < |buf|
      modifies this
      ensures done ==> CollectNLoop(ops, old(State()), buf, offset, eos) == Run(State(), r, false)
      ensures !done ==> (r.Ok? && offset <= r.value <= |buf| && remaining == old(remaining) - 1 &&
        CollectNLoop(ops, State(), buf, r.value, eos) == CollectNLoop(ops, old(State()), buf, offset, eos))
    {
      var t := TryDecode(ops, inner, buf, offset, eos);
      inner := t.state;
      if t.Fail? {
        return true, Err(t.error);
      } else if t.Suspend? {
        return true, Ok(t.offset);
      }
      var fin := ops.finish(inner);
      inner := fin.state;
      if fin.result.Err? {
        return true, Err(fin.result.error);
      }
      items := items + [fin.result.value];
      remaining := remaining - 1;
      return false, Ok(t.offset);
    }

    method FinishDecoding() returns (r: Result<seq<T>>)
      modifies this
      ensures Outcome(State(), r) == CollectNFinish(old(State()))
    {
      if remaining != 0 {
        return Err(IncompleteDecoding);
      }
      r := Ok(items);
      items := [];
    }
  }

  // ---------------------------------------------------------------------
  // Repeat (src/combinator.rs:378-455)
  // ---------------------------------------------------------------------

  /** The fields of `Repeat`: the inner encoder and the iterator, while one is held. */
  datatype RepeatState<+S, +T> = RepeatState(inner: S, items: Option<seq<T>>)

  /** The number of items the iterator has left. */
  function Left<T>(items: Option<seq<T>>): nat
  {
    if items.Some? then |items.value| else 0
  }

  /**
   * The loops of `Repeat::encode`, with `written` already in the buffer:
   * while the inner encoder is idle it is started with the iterator's next
   * item, and when there is none the iterator is dropped and the call ends;
   * otherwise the inner encoder writes into the rest of the buffer, and the
   * call ends when that wrote nothing.
   */
  function RepeatLoop<S(!new), T>(e: EncoderOps<S, T>, s: RepeatState<S, T>, bufLen: nat, written: seq<byte>, eos: Eos): (o: Outcome<RepeatState<S, T>, seq<byte>>)
    requires |written| <= bufLen
    requires WritesWithinBuffer(e)
    ensures o.result.Ok? ==>
      |written| <= |o.result.value| <= bufLen && o.result.value[..|written|] == written
    decreases bufLen - |written|, Left(s.items)
  {
    if e.isIdle(s.inner) then
      if s.items.None? || s.items.value == [] then Outcome(s.(items := None), Ok(written))
      else
        var st := e.start(s.inner, s.items.value[0]);
        var next := RepeatState(st.state, Some(s.items.value[1..]));
        if st.result.Err? then Outcome(next, Err(st.result.error))
        else RepeatLoop(e, next, bufLen, written, eos)
    else
      var enc := e.encode(s.inner, bufLen - |written|, eos);
      var next := s.(inner := enc.state);
      if enc.result.Err? then Outcome(next, Err(enc.result.error))
      else if enc.result.value == [] then Outcome(next, Ok(written))
      else RepeatLoop(e, next, bufLen, written + enc.result.value, eos)
  }

  /** One round of `RepeatLoop` with an idle inner encoder: stop, or start it with the next item. */
  lemma RepeatLoopIdle<S(!new), T>(e: EncoderOps<S, T>, s: RepeatState<S, T>, bufLen: nat, written: seq<byte>, eos: Eos)
    requires |written| <= bufLen && WritesWithinBuffer(e) && e.isIdle(s.inner)
    ensures s.items.None? || s.items.value == [] ==>
      RepeatLoop(e, s, bufLen, written, eos) == Outcome(s.(items := None), Ok(written))
    ensures s.items.Some? && s.items.value != [] ==>
      var st := e.start(s.inner, s.items.value[0]);
      var next := RepeatState(st.state, Some(s.items.value[1..]));
      RepeatLoop(e, s, bufLen, written, eos) ==
        if st.result.Err? then Outcome(next, Err(st.result.error)) else RepeatLoop(e, next, bufLen, written, eos)
  {
  }

  /** One round of `RepeatLoop` with a busy inner encoder: it writes into the rest of the buffer. */
  lemma RepeatLoopBusy<S(!new), T>(e: EncoderOps<S, T>, s: RepeatState<S, T>, bufLen: nat, written: seq<byte>, eos: Eos)
    requires |written| <= bufLen && WritesWithinBuffer(e) && !e.isIdle(s.inner)
    ensures var enc := e.encode(s.inner, bufLen - |written|, eos);
      var next := s.(inner := enc.state);
      (enc.result.Ok? ==> |written + enc.result.value| <= bufLen) &&
      RepeatLoop(e, s, bufLen, written, eos) ==
        if enc.result.Err? then Outcome(next, Err(enc.result.error))
        else if enc.result.value == [] then Outcome(next, Ok(written))
        else RepeatLoop(e, next, bufLen, written + enc.result.value, eos)
  {
  }

  function RepeatEncode<S(!new), T>(e: EncoderOps<S, T>, s: RepeatState<S, T>, bufLen: nat, eos: Eos): (o: Outcome<RepeatState<S, T>, seq<byte>>)
    requires WritesWithinBuffer(e)
    ensures o == RepeatLoop(e, s, bufLen, [], eos)
    ensures o.result.Ok? ==> |o.result.value| <= bufLen
  {
    RepeatLoop(e, s, bufLen, [], eos)
  }

  /** `start_encoding`: only an idle `Repeat` takes a new iterator (else `EncoderFull`). */
  function RepeatStart<S, T>(s: RepeatState<S, T>, items: seq<T>): (o: Outcome<RepeatState<S, T>, ()>)
    ensures o.result.Ok? <==> s.items.None?
    ensures s.items.Some? ==> o == Outcome(s, Err(EncoderFull))
    ensures s.items.None? ==> o == Outcome(s.(items := Some(items)), Ok(()))
  {
    if s.items.Some? then Outcome(s, Err(EncoderFull)) else Outcome(s.(items := Some(items)), Ok(()))
  }

  function RepeatOps<S(!new), T>(e: EncoderOps<S, T>): EncoderOps<RepeatState<S, T>, seq<T>>
    requires WritesWithinBuffer(e)
  {
    EncoderOps((s, n, eos) => RepeatEncode(e, s, n, eos),
               RepeatStart,
               (s: RepeatState<S, T>) => if s.items.None? then Finite(0) else Unknown,
               (s: RepeatState<S, T>) => s.items.None?)
  }

  lemma RepeatLawful<S(!new), T(!new)>(e: EncoderOps<S, T>)
    requires WritesWithinBuffer(e)
    ensures Encode.Lawful(RepeatOps(e)) && Encode.HasDefaultIsIdle(RepeatOps(e))
  {
  }

  /** Items that `U8Encoder` accepts. */
  predicate AllBytes(xs: seq<int>)
  {
    forall i :: 0 <= i < |xs| ==> 0 <= xs[i] < 256
  }

  /** The bytes that `U8` items are written as. */
  function BytesOf(xs: seq<int>): (b: seq<byte>)
    requires AllBytes(xs)
    ensures ByteValues(b) == xs
  {
    if xs == [] then [] else [xs[0] as byte] + BytesOf(xs[1..])
  }

  /** `U8Encoder` writes an item as its one byte. */
  lemma U8EncodesItem(x: int)
    requires 0 <= x < 256
    ensures InItemRange(U8, x) && EncodeItem(U8, x) == Ok([x as byte])
  {
    assert Pow256(1) == 256;
    assert EncodeItem(U8, x) == Ok(ToBytes(U8, x));
    assert ToBytes(U8, x) == BeBytes(x, 1) == BeBytes(x / 256, 0) + [(x % 256) as byte];
    assert x % 256 == x;
    assert BeBytes(x / 256, 0) == [];
    assert ToBytes(U8, x) == [x as byte];
  }

  /** The loops of `Repeat` over `U8Encoder` write each item as one byte, given room for all of them. */
  lemma {:induction false} RepeatU8Loop(s: RepeatState<EncoderState, int>, bufLen: nat, written: seq<byte>, eos: Eos)
    requires s.inner.bytes.None? && s.items.Some? && AllBytes(s.items.value)
    requires |written| + |s.items.value| <= bufLen
    ensures (FixnumOpsLawful(U8); var o := RepeatLoop(FixnumEncoderOps(U8), s, bufLen, written, eos);
      o.result == Ok(written + BytesOf(s.items.value)) && o.state.items.None? && EncoderIsIdle(o.state.inner))
    decreases |s.items.value|
  {
    FixnumOpsLawful(U8);
    var e := FixnumEncoderOps(U8);
    var xs := s.items.value;
    if xs != [] {
      U8EncodesItem(xs[0]);
      var st := e.start(s.inner, xs[0]);
      assert st.result.Ok? && Pending(st.state) == [xs[0] as byte];
      var started := RepeatState(st.state, Some(xs[1..]));
      assert RepeatLoop(e, s, bufLen, written, eos) == RepeatLoop(e, started, bufLen, written, eos);
      var enc := e.encode(st.state, bufLen - |written|, eos);
      assert [xs[0] as byte][0..1] == [xs[0] as byte];
      assert enc.result == Ok([xs[0] as byte]) && EncoderIsIdle(enc.state);
      var next := RepeatState(enc.state, Some(xs[1..]));
      assert RepeatLoop(e, started, bufLen, written, eos) == RepeatLoop(e, next, bufLen, written + [xs[0] as byte], eos);
      assert AllBytes(xs[1..]);
      RepeatU8Loop(next, bufLen, written + [xs[0] as byte], eos);
      assert written + [xs[0] as byte] + BytesOf(xs[1..]) == written + BytesOf(xs);
    } else {
      assert written + BytesOf(xs) == written;
    }
  }

  /**
   * `U8Encoder::new().repeat()` started with the items `xs` writes them as
   * one byte each into a buffer with room for all of them and is idle after
   * (the test of src/combinator.rs writes `0..4` as `[0, 1, 2, 3]`); and
   * `U8Decoder::new().collect()` decodes those bytes back to `xs`.
   */
  lemma RepeatCollectRoundTrip(xs: seq<int>, bufLen: nat, eos: Eos)
    requires AllBytes(xs) && |xs| <= bufLen
    ensures (FixnumOpsLawful(U8); ItemDecoderLawful(U8);
      var e := RepeatOps(FixnumEncoderOps(U8));
      var started := e.start(RepeatState(EncoderFields(None, 0), None), xs);
      var o := e.encode(started.state, bufLen, eos);
      started.result.Ok? && o.result == Ok(BytesOf(xs)) && e.isIdle(o.state) &&
      DecodeFromBytes(CollectOps(ItemDecoderOps(U8)), CollectNew(NewDecoder(U8)), o.result.value).result == Ok(xs))
  {
    FixnumOpsLawful(U8);
    ItemDecoderLawful(U8);
    RepeatU8Writes(xs, bufLen, eos);
    CollectU8Decodes(BytesOf(xs));
  }

  /** The encoding half of `RepeatCollectRoundTrip`. */
  lemma RepeatU8Writes(xs: seq<int>, bufLen: nat, eos: Eos)
    requires AllBytes(xs) && |xs| <= bufLen
    ensures (FixnumOpsLawful(U8);
      var e := RepeatOps(FixnumEncoderOps(U8));
      var started := e.start(RepeatState(EncoderFields(None, 0), None), xs);
      var o := e.encode(started.state, bufLen, eos);
      started.result.Ok? && o.result == Ok(BytesOf(xs)) && e.isIdle(o.state))
  {
    FixnumOpsLawful(U8);
    var e := RepeatOps(FixnumEncoderOps(U8));
    var s := RepeatState(EncoderFields(None, 0), Some(xs));
    assert e.start(RepeatState(EncoderFields(None, 0), None), xs) == Outcome(s, Ok(()));
    assert e.encode(s, bufLen, eos) == RepeatLoop(FixnumEncoderOps(U8), s, bufLen, [], eos);
    RepeatU8Loop(s, bufLen, [], eos);
    assert [] + BytesOf(xs) == BytesOf(xs);
  }

  /** The `Repeat` encoder's own fields. */
  class Repeat<S(!new), T> {
    var inner: S
    var items: Option<seq<T>>
    const ops: EncoderOps<S, T>

    function State(): RepeatState<S, T>
      reads this
    {
      RepeatState(inner, items)
    }

    /** `EncodeExt::repeat()`. */
    constructor (e: EncoderOps<S, T>, s: S)
      ensures State() == RepeatState(s, None) && ops == e
    {
      inner := s;
      items := None;
      ops := e;
    }

    method Encode(buf: array<byte>, eos: Eos) returns (r: Result<nat>)
      requires WritesWithinBuffer(ops)
      modifies this, buf
      ensures var o := RepeatEncode(ops, old(State()), buf.Length, eos);
        State() == o.state &&
        (o.result.Err? ==> r == Err(o.result.error)) &&
        (o.result.Ok? ==>
           r == Ok(|o.result.value|) &&
           buf[..] == o.result.value + old(buf[|o.result.value|..]))
    {
      var offset := 0;
      ghost var written: seq<byte> := [];
      ghost var orig := buf[..];
      ghost var goal := RepeatEncode(ops, State(), buf.Length, eos);
      while true
        invariant offset == |written| <= buf.Length == |orig|
        invariant buf[..] == written + orig[offset..]
        invariant RepeatLoop(ops, State(), buf.Length, written, eos) == goal
        decreases buf.Length - offset
      {
        var done, res, now := Step(buf, offset, written, orig, eos);
        if done {
          return res;
        }
        written := now;
        offset := res.value;
      }
    }

    /**
     * One round of the loop of `encode`: feed the idle inner encoder, then
     * let it write at `buf[offset..]`.  Either the loop ends here (`done`,
     * with what `encode` returns), or it wrote some bytes, so that `now` is
     * out, and goes on.
     */
    method Step(buf: array<byte>, offset: nat, ghost written: seq<byte>, ghost orig: seq<byte>, eos: Eos) returns (done: bool, r: Result<nat>, ghost now: seq<byte>)
      requires WritesWithinBuffer(ops) && offset == |written| <= buf.Length == |orig|
      requires buf[..] == written + orig[offset..]
      modifies this, buf
      ensures done ==> (var o := RepeatLoop(ops, old(State()), buf.Length, written, eos);
        State() == o.state &&
        (o.result.Err? ==> r == Err(o.result.error)) &&
        (o.result.Ok? ==> r == Ok(|o.result.value|) && buf[..] == o.result.value + orig[|o.result.value|..]))
      ensures !done ==> (|written| < |now| <= buf.Length && r == Ok(|now|) &&
        buf[..] == now + orig[|now|..] &&
        RepeatLoop(ops, State(), buf.Length, now, eos) == RepeatLoop(ops, old(State()), buf.Length, written, eos))
    {
      now := written;
      var stop := FeedIdle(buf.Length, written, eos);
      if stop.Some? {
        return true, if stop.value.Ok? then Ok(offset) else Err(stop.value.error), now;
      }
      RepeatLoopBusy(ops, State(), buf.Length, written, eos);
      var enc := EncodeBusy(buf, offset, written, orig, eos);
      if enc.Err? {
        return true, Err(enc.error), now;
      }
      var out := enc.value;
      if |out| == 0 {
        return true, Ok(offset), now;
      }
      return false, Ok(offset + |out|), written + out;
    }

    /** The `self.inner.encode(&mut buf[offset..], eos)` call of `encode`, its bytes landing at `buf[offset..]`. */
    method EncodeBusy(buf: array<byte>, offset: nat, ghost written: seq<byte>, ghost orig: seq<byte>, eos: Eos) returns (r: Result<seq<byte>>)
      requires WritesWithinBuffer(ops) && offset == |written| <= buf.Length == |orig|
      requires buf[..] == written + orig[offset..]
      modifies this, buf
      ensures var enc := ops.encode(old(inner), buf.Length - offset, eos);
        inner == enc.state && items == old(items) && r == enc.result
      ensures r.Err? ==> buf[..] == old(buf[..])
      ensures r.Ok? ==> offset + |r.value| <= buf.Length && buf[..] == written + r.value + orig[offset + |r.value|..]
    {
      var enc := ops.encode(inner, buf.Length - offset, eos);
      inner := enc.state;
      r := enc.result;
      if r.Ok? {
        CopyAfter(buf, offset, written, orig, r.value);
      }
    }

    /**
     * The `while self.inner.is_idle()` loop of `encode`: the idle inner
     * encoder is started with the next item until it is busy, the items run
     * out (`Some(Ok(()))`) or a start fails (`Some(Err(_))`).
     */
    method FeedIdle(ghost bufLen: nat, ghost written: seq<byte>, eos: Eos) returns (stop: Option<Result<()>>)
      requires |written| <= bufLen && WritesWithinBuffer(ops)
      modifies this
      ensures stop.None? ==> (!ops.isIdle(inner) &&
        RepeatLoop(ops, old(State()), bufLen, written, eos) == RepeatLoop(ops, State(), bufLen, written, eos))
      ensures stop.Some? ==> (RepeatLoop(ops, old(State()), bufLen, written, eos) ==
        Outcome(State(), if stop.value.Ok? then Ok(written) else Err(stop.value.error)))
    {
      while ops.isIdle(inner)
        invariant RepeatLoop(ops, State(), bufLen, written, eos) == RepeatLoop(ops, old(State()), bufLen, written, eos)
        decreases Left(items)
      {
        RepeatLoopIdle(ops, State(), bufLen, written, eos);
        if items.None? || items.value == [] {
          items := None;
          return Some(Ok(()));
        }
        var item := items.value[0];
        items := Some(items.value[1..]);
        var st := ops.start(inner, item);
        inner := st.state;
        if st.result.Err? {
          return Some(Err(st.result.error));
        }
      }
      return None;
    }

    method StartEncoding(item: seq<T>) returns (r: Result<()>)
      modifies this
      ensures Outcome(State(), r) == RepeatStart(old(State()), item)
    {
      if items.Some? {
        return Err(EncoderFull);
      }
      items := Some(item);
      return Ok(());
    }
  }
}
