/*
 * The buffer windows of src/buf.rs, used by the trait generation in which
 * `decode(&mut DecodeBuf)` and `encode(&mut EncodeBuf)` take the buffer
 * itself: a borrowed byte slice with a cursor `offset`, whose visible
 * window is `buf[offset..]`.  A `DecodeBuf` also knows how many bytes of
 * the stream follow the slice, if that is known; an `EncodeBuf` carries an
 * end-of-stream flag.
 *
 * Each buffer is modelled twice: as a value (the fields of the struct) with
 * one function per operation, and as a class updating those fields in
 * place whose methods are specified by the functions.
 */
module Buffers {
  import opened Base
  import opened EndOfStream

  // ---------------------------------------------------------------------
  // DecodeBuf as a value
  // ---------------------------------------------------------------------

  /** The fields of `DecodeBuf`; the cursor never passes the end of the slice. */
  datatype DecodeBufState = DecodeBufState(buf: seq<byte>, offset: nat, remaining: Option<nat>)

  type DecodeBufValue = st: DecodeBufState | st.offset <= |st.buf| witness DecodeBufState([], 0, None)

  /** `as_ref()`: the bytes not consumed yet; its length is `len()`. */
  function DecodeWindow(st: DecodeBufValue): (w: seq<byte>)
    ensures |w| == |st.buf| - st.offset
    ensures forall k :: 0 <= k < |w| ==> w[k] == st.buf[st.offset + k]
  {
    st.buf[st.offset..]
  }

  /** `DecodeBuf::new`: the whole slice visible, nothing known about the rest of the stream. */
  function DecodeBufNew(b: seq<byte>): (st: DecodeBufValue)
    ensures DecodeWindow(st) == b && st.remaining.None? && !DecodeIsEos(st)
  {
    DecodeBufState(b, 0, None)
  }

  /** `DecodeBuf::with_eos`: `Some(0)` bytes follow at the end of the stream, unknown otherwise. */
  function DecodeBufWithEos(b: seq<byte>, eos: bool): (st: DecodeBufValue)
    ensures DecodeWindow(st) == b
    ensures eos ==> st.remaining == Some(0) && DecodeIsEos(st)
    ensures !eos ==> st.remaining.None? && !DecodeIsEos(st)
  {
    DecodeBufState(b, 0, if eos then Some(0) else None)
  }

  /** `DecodeBuf::with_remaining_bytes`. */
  function DecodeBufWithRemainingBytes(b: seq<byte>, n: nat): (st: DecodeBufValue)
    ensures DecodeWindow(st) == b && st.remaining == Some(n)
    ensures DecodeIsEos(st) <==> n == 0
  {
    DecodeBufState(b, 0, Some(n))
  }

  /** `is_eos`: no byte of the stream follows the slice. */
  predicate DecodeIsEos(st: DecodeBufValue)
  {
    st.remaining == Some(0)
  }

  /** The end-of-stream information of a `DecodeBuf`, as the other trait generations pass it. */
  function DecodeEos(st: DecodeBufValue): (e: Eos)
    ensures IsEos(e) <==> DecodeIsEos(st)
    ensures RemainingBytes(e) == st.remaining
  {
    Eos(st.remaining)
  }

  /** `consume(size)`: `InvalidInput` unless `size` bytes are left in the slice. */
  function DecodeConsume(st: DecodeBufValue, size: nat): (r: Result<DecodeBufValue>)
    ensures r.Ok? <==> size <= |DecodeWindow(st)|
    ensures r.Err? ==> r.error == InvalidInput
    ensures r.Ok? ==> r.value.buf == st.buf && r.value.remaining == st.remaining &&
                      DecodeWindow(r.value) == DecodeWindow(st)[size..]
  {
    if st.offset + size <= |st.buf| then Ok(st.(offset := st.offset + size)) else Err(InvalidInput)
  }

  /** `consume_all()`: the window becomes empty. */
  function DecodeConsumeAll(st: DecodeBufValue): (r: DecodeBufValue)
    ensures r.buf == st.buf && r.remaining == st.remaining && DecodeWindow(r) == []
  {
    st.(offset := |st.buf|)
  }

  /**
   * `Read::read` into a slice of `n` bytes: the first `min(len(), n)` bytes
   * of the window are handed out and consumed, so that what was read
   * followed by the new window is the old window.
   */
  function DecodeRead(st: DecodeBufValue, n: nat): (r: (seq<byte>, DecodeBufValue))
    ensures |r.0| == Min(|DecodeWindow(st)|, n)
    ensures r.0 + DecodeWindow(r.1) == DecodeWindow(st)
    ensures r.1.buf == st.buf && r.1.remaining == st.remaining
  {
    var size := Min(|st.buf| - st.offset, n);
    var w := DecodeWindow(st);
    assert w[..size] + w[size..] == w;
    (w[..size], st.(offset := st.offset + size))
  }

  /** Two consumptions are one consumption of their sum, and either both succeed or the sum fails. */
  lemma DecodeConsumeComposes(st: DecodeBufValue, a: nat, b: nat)
    ensures DecodeConsume(st, a + b).Ok? <==>
      DecodeConsume(st, a).Ok? && DecodeConsume(DecodeConsume(st, a).value, b).Ok?
    ensures DecodeConsume(st, a + b).Ok? ==>
      DecodeConsume(DecodeConsume(st, a).value, b) == DecodeConsume(st, a + b)
  {
  }

  /** Reading is consuming what was read. */
  lemma DecodeReadIsConsume(st: DecodeBufValue, n: nat)
    ensures DecodeConsume(st, |DecodeRead(st, n).0|) == Ok(DecodeRead(st, n).1)
  {
  }

  /**
   * The sub-buffer `with_limit(limit, f)` hands to `f`: the first `limit`
   * bytes of the window, with a known remaining count increased by the
   * bytes of the window that `f` does not see.
   */
  function LimitedDecodeBuf(st: DecodeBufValue, limit: nat): (sub: DecodeBufValue)
    requires limit <= |DecodeWindow(st)|
    ensures DecodeWindow(sub) == DecodeWindow(st)[..limit]
    ensures st.remaining.None? ==> sub.remaining.None?
    ensures st.remaining.Some? ==> sub.remaining == Some(st.remaining.value + (|DecodeWindow(st)| - limit))
  {
    var w := st.buf[st.offset..][..limit];
    match st.remaining
    case Some(n) => DecodeBufWithRemainingBytes(w, n + (|st.buf| - st.offset - limit))
    case None => DecodeBufNew(w)
  }

  /**
   * A function run on a sub-buffer that only moves that buffer's cursor,
   * which is all the methods of `DecodeBuf` let it do.
   */
  predicate MovesCursorOnly<T>(f: DecodeBufValue -> (T, DecodeBufValue), sub: DecodeBufValue)
  {
    f(sub).1.buf == sub.buf
  }

  /**
   * `with_limit(limit, f)`: `f` works on the limited sub-buffer; the outer
   * cursor then advances by what `f` consumed of it (`limit - buf.len()`).
   * A `limit` beyond the window is a panic in the original.
   */
  function DecodeWithLimit<T>(st: DecodeBufValue, limit: nat, f: DecodeBufValue -> (T, DecodeBufValue)): (r: (T, DecodeBufValue))
    requires limit <= |DecodeWindow(st)|
    requires MovesCursorOnly(f, LimitedDecodeBuf(st, limit))
    ensures var after := f(LimitedDecodeBuf(st, limit)).1;
      r.0 == f(LimitedDecodeBuf(st, limit)).0 &&
      r.1.buf == st.buf && r.1.remaining == st.remaining &&
      DecodeWindow(r.1) == DecodeWindow(st)[limit - |DecodeWindow(after)|..]
  {
    var sub := LimitedDecodeBuf(st, limit);
    var (result, after) := f(sub);
    (result, st.(offset := st.offset + (limit - (|after.buf| - after.offset))))
  }

  /** `with_limit_and_remaining_bytes(limit, n, f)`: as `with_limit`, with `n` bytes said to follow. */
  function DecodeWithLimitAndRemainingBytes<T>(st: DecodeBufValue, limit: nat, n: nat, f: DecodeBufValue -> (T, DecodeBufValue)): (r: (T, DecodeBufValue))
    requires limit <= |DecodeWindow(st)|
    requires MovesCursorOnly(f, DecodeBufWithRemainingBytes(DecodeWindow(st)[..limit], n))
    ensures var after := f(DecodeBufWithRemainingBytes(DecodeWindow(st)[..limit], n)).1;
      r.0 == f(DecodeBufWithRemainingBytes(DecodeWindow(st)[..limit], n)).0 &&
      r.1.buf == st.buf && r.1.remaining == st.remaining &&
      DecodeWindow(r.1) == DecodeWindow(st)[limit - |DecodeWindow(after)|..]
  {
    var sub := DecodeBufWithRemainingBytes(DecodeWindow(st)[..limit], n);
    var (result, after) := f(sub);
    assert |DecodeWindow(after)| <= limit;
    (result, st.(offset := st.offset + (limit - |DecodeWindow(after)|)))
  }

  /**
   * The sub-buffer of `with_limit` places the end of the stream where the
   * outer buffer does: the bytes it shows plus the bytes it says follow are
   * the bytes the outer buffer shows plus the bytes it says follow.
   */
  lemma LimitedDecodeBufKeepsEos(st: DecodeBufValue, limit: nat)
    requires limit <= |DecodeWindow(st)|
    ensures var sub := LimitedDecodeBuf(st, limit);
      sub.remaining.Some? <==> st.remaining.Some?
    ensures var sub := LimitedDecodeBuf(st, limit);
      st.remaining.Some? ==> |DecodeWindow(sub)| + sub.remaining.value == |DecodeWindow(st)| + st.remaining.value
    ensures var sub := LimitedDecodeBuf(st, limit);
      DecodeIsEos(sub) <==> DecodeIsEos(st) && limit == |DecodeWindow(st)|
  {
  }

  /** `read_to_end` on a buffer: everything in the window. */
  function ReadToEnd(st: DecodeBufValue): (r: (seq<byte>, DecodeBufValue))
    ensures r.0 == DecodeWindow(st) && DecodeWindow(r.1) == [] && r.1.buf == st.buf
  {
    DecodeRead(st, |st.buf| - st.offset)
  }

  /**
   * The example of `with_limit`: reading to the end of a 3-byte sub-buffer
   * of `b"foobar"` gives `"foo"` and leaves `"bar"` in the outer buffer.
   */
  lemma DecodeWithLimitExample()
    ensures var r := DecodeWithLimit(DecodeBufNew([102, 111, 111, 98, 97, 114]), 3, ReadToEnd);
      r.0 == [102, 111, 111] && DecodeWindow(r.1) == [98, 97, 114]
  {
    var st := DecodeBufNew([102, 111, 111, 98, 97, 114]);
    assert DecodeWindow(st)[..3] == [102, 111, 111];
    assert DecodeWindow(st)[3..] == [98, 97, 114];
  }

  // ---------------------------------------------------------------------
  // DecodeBuf in place
  // ---------------------------------------------------------------------

  /** `DecodeBuf` with its cursor advanced in place. */
  class DecodeBuf {
    const buf: seq<byte>
    var offset: nat
    const remaining: Option<nat>

    predicate Valid()
      reads this
    {
      offset <= |buf|
    }

    function State(): DecodeBufValue
      reads this
      requires Valid()
    {
      DecodeBufState(buf, offset, remaining)
    }

    /** `DecodeBuf::new(b)`. */
    constructor New(b: seq<byte>)
      ensures Valid() && State() == DecodeBufNew(b)
    {
      buf := b;
      offset := 0;
      remaining := None;
    }

    /** `DecodeBuf::with_eos(b, eos)`. */
    constructor WithEos(b: seq<byte>, eos: bool)
      ensures Valid() && State() == DecodeBufWithEos(b, eos)
    {
      buf := b;
      offset := 0;
      remaining := if eos then Some(0) else None;
    }

    /** `DecodeBuf::with_remaining_bytes(b, n)`. */
    constructor WithRemainingBytes(b: seq<byte>, n: nat)
      ensures Valid() && State() == DecodeBufWithRemainingBytes(b, n)
    {
      buf := b;
      offset := 0;
      remaining := Some(n);
    }

    /** `len()` through `Deref`: the length of the window. */
    function Len(): (n: nat)
      reads this
      requires Valid()
      ensures n == |DecodeWindow(State())|
    {
      |buf| - offset
    }

    predicate IsEos()
      reads this
      requires Valid()
      ensures IsEos() <==> DecodeIsEos(State())
    {
      remaining == Some(0)
    }

    method Consume(size: nat) returns (r: Result<()>)
      requires Valid()
      modifies this
      ensures Valid()
      ensures match DecodeConsume(old(State()), size)
        case Ok(st) => r == Ok(()) && State() == st
        case Err(e) => r == Err(e) && State() == old(State())
    {
      if offset + size <= |buf| {
        offset := offset + size;
        return Ok(());
      }
      return Err(InvalidInput);
    }

    method ConsumeAll()
      requires Valid()
      modifies this
      ensures Valid() && State() == DecodeConsumeAll(old(State()))
    {
      offset := |buf|;
    }

    /**
     * `Read::read` into the slice `dst[at..]` (a target that is itself a
     * slice of a larger array, as the decoders of this generation pass it).
     */
    method ReadInto(dst: array<byte>, at: nat) returns (size: nat)
      requires Valid() && at <= dst.Length
      modifies this, dst
      ensures Valid()
      ensures var (bytes, st) := DecodeRead(old(State()), dst.Length - at);
        size == |bytes| && State() == st && dst[..] == old(dst[..at]) + bytes + old(dst[at + size..])
    {
      size := Min(|buf| - offset, dst.Length - at);
      CopyInto(dst, at, buf[offset..offset + size]);
      offset := offset + size;
    }

    /** `with_limit(limit, f)`. */
    method WithLimit<T>(limit: nat, f: DecodeBufValue -> (T, DecodeBufValue)) returns (result: T)
      requires Valid() && limit <= Len()
      requires MovesCursorOnly(f, LimitedDecodeBuf(State(), limit))
      modifies this
      ensures Valid() && (result, State()) == DecodeWithLimit(old(State()), limit, f)
    {
      var sub := LimitedDecodeBuf(State(), limit);
      var (res, after) := f(sub);
      offset := offset + (limit - (|after.buf| - after.offset));
      result := res;
    }
  }

  // ---------------------------------------------------------------------
  // EncodeBuf as a value
  // ---------------------------------------------------------------------

  /** The fields of `EncodeBuf`; the cursor never passes the end of the slice. */
  datatype EncodeBufState = EncodeBufState(buf: seq<byte>, offset: nat, eos: bool)

  type EncodeBufValue = st: EncodeBufState | st.offset <= |st.buf| witness EncodeBufState([], 0, false)

  /** `len()`: the room left in the slice. */
  function EncodeRoom(st: EncodeBufValue): nat
  {
    |st.buf| - st.offset
  }

  /** `EncodeBuf::with_eos(b, eos)`; `EncodeBuf::new(b)` is `with_eos(b, false)`. */
  function EncodeBufWithEos(b: seq<byte>, eos: bool): (st: EncodeBufValue)
    ensures EncodeRoom(st) == |b| && st.buf == b && st.eos == eos
  {
    EncodeBufState(b, 0, eos)
  }

  /**
   * `EncodeBuf::consume(size)` as written: it compares `offset + size`
   * with `len()`, the room left, which counts the consumed bytes twice.
   */
  function EncodeConsumeAsWritten(st: EncodeBufValue, size: nat): (r: Result<EncodeBufValue>)
    ensures r.Ok? <==> 2 * st.offset + size <= |st.buf|
    ensures r.Ok? ==> r.value == st.(offset := st.offset + size)
    ensures r.Err? ==> r.error == InvalidInput
  {
    if st.offset + size <= EncodeRoom(st) then Ok(st.(offset := st.offset + size)) else Err(InvalidInput)
  }

  /**
   * `EncodeBuf::consume(size)` as documented ("if `size` exceeds the length
   * of the buffer"): `InvalidInput` exactly when fewer than `size` bytes of
   * room are left, the same rule as `DecodeBuf::consume`.
   */
  function EncodeConsume(st: EncodeBufValue, size: nat): (r: Result<EncodeBufValue>)
    ensures r.Ok? <==> size <= EncodeRoom(st)
    ensures r.Err? ==> r.error == InvalidInput
    ensures r.Ok? ==> r.value.buf == st.buf && r.value.eos == st.eos && EncodeRoom(r.value) == EncodeRoom(st) - size
  {
    if st.offset + size <= |st.buf| then Ok(st.(offset := st.offset + size)) else Err(InvalidInput)
  }

  /**
   * The discrepancy: on a 3-byte buffer of which 1 byte was consumed, the
   * check as written refuses to consume the 2 bytes of room that are left,
   * while the documented rule accepts them.  At offset 0 both rules agree.
   */
  lemma EncodeConsumeAsWrittenRefusesRoom()
    ensures var st := EncodeConsume(EncodeBufWithEos([0, 0, 0], false), 1).value;
      EncodeRoom(st) == 2 && EncodeConsumeAsWritten(st, 2) == Err(InvalidInput) &&
      EncodeConsume(st, 2).Ok? && EncodeRoom(EncodeConsume(st, 2).value) == 0
  {
  }

  /** Both rules accept the first consumption from a fresh buffer alike. */
  lemma EncodeConsumeRulesAgreeAtStart(st: EncodeBufValue, size: nat)
    requires st.offset == 0
    ensures EncodeConsumeAsWritten(st, size) == EncodeConsume(st, size)
  {
  }

  /** `consume_all()`: no room left. */
  function EncodeConsumeAll(st: EncodeBufValue): (r: EncodeBufValue)
    ensures r.buf == st.buf && r.eos == st.eos && EncodeRoom(r) == 0
  {
    st.(offset := |st.buf|)
  }

  /**
   * `Write::write(src)`: the first `min(len(), src.len())` bytes of `src`
   * are copied to the start of the room and the cursor moves past them;
   * the bytes before the cursor and after the copied ones are untouched.
   */
  function EncodeWrite(st: EncodeBufValue, src: seq<byte>): (r: (nat, EncodeBufValue))
    ensures r.0 == Min(EncodeRoom(st), |src|)
    ensures r.1.buf == st.buf[..st.offset] + src[..r.0] + st.buf[st.offset + r.0..]
    ensures r.1.offset == st.offset + r.0 && r.1.eos == st.eos
  {
    var size := Min(|st.buf| - st.offset, |src|);
    (size, EncodeBufState(st.buf[..st.offset] + src[..size] + st.buf[st.offset + size..], st.offset + size, st.eos))
  }

  /** What `write` puts into the room can be read back at the old cursor. */
  lemma EncodeWriteReadsBack(st: EncodeBufValue, src: seq<byte>)
    ensures var (size, after) := EncodeWrite(st, src);
      |after.buf| == |st.buf| && after.buf[st.offset..after.offset] == src[..size] &&
      after.buf[..st.offset] == st.buf[..st.offset] && after.buf[after.offset..] == st.buf[after.offset..]
  {
    var (size, after) := EncodeWrite(st, src);
    var pre, mid, post := st.buf[..st.offset], src[..size], st.buf[st.offset + size..];
    assert after.buf == pre + mid + post;
    assert after.buf[st.offset..after.offset] == mid;
    assert after.buf[..st.offset] == pre;
    assert after.buf[after.offset..] == post;
  }

  /**
   * The `is_completed` the generation's `Chain` encoder asks of the buffer
   * after each stage.  Its definition is not part of this model; it is
   * taken to hold when the stage left room in the buffer, which under the
   * write-as-much-as-possible contract means the stage has written its
   * item out.
   */
  predicate EncodeIsCompleted(st: EncodeBufValue)
  {
    EncodeRoom(st) > 0
  }

  /** A function run on a sub-buffer that only writes into it and moves its cursor. */
  predicate WritesInPlaceOnly<T>(f: EncodeBufValue -> (T, EncodeBufValue), sub: EncodeBufValue)
  {
    |f(sub).1.buf| == |sub.buf| && f(sub).1.eos == sub.eos
  }

  /** The sub-buffer of `with_limit`: the first `limit` bytes of room, without the EOS flag. */
  function LimitedEncodeBuf(st: EncodeBufValue, limit: nat, eos: bool): (sub: EncodeBufValue)
    requires limit <= EncodeRoom(st)
    ensures sub.buf == st.buf[st.offset..st.offset + limit] && sub.offset == 0 && sub.eos == eos
  {
    EncodeBufState(st.buf[st.offset..st.offset + limit], 0, eos)
  }

  /** Put the sub-buffer `f` left behind back into the outer buffer (the borrow ending). */
  function MergeLimited(st: EncodeBufValue, limit: nat, after: EncodeBufValue): (r: EncodeBufValue)
    requires limit <= EncodeRoom(st) && |after.buf| == limit
    ensures |r.buf| == |st.buf| && r.eos == st.eos && r.offset == st.offset + after.offset
    ensures r.buf[..st.offset] == st.buf[..st.offset]
    ensures r.buf[st.offset..st.offset + limit] == after.buf
    ensures r.buf[st.offset + limit..] == st.buf[st.offset + limit..]
  {
    var b := st.buf[..st.offset] + after.buf + st.buf[st.offset + limit..];
    assert b[..st.offset] == st.buf[..st.offset];
    assert b[st.offset..st.offset + limit] == after.buf;
    assert b[st.offset + limit..] == st.buf[st.offset + limit..];
    EncodeBufState(b, st.offset + after.offset, st.eos)
  }

  /**
   * `with_limit(limit, f)`: when `limit` is all the room left, `f` runs on
   * the buffer itself (EOS flag included); otherwise on a sub-buffer of
   * `limit` bytes that is never at EOS, after which the outer cursor
   * advances by what `f` consumed of it.
   */
  function EncodeWithLimit<T>(st: EncodeBufValue, limit: nat, f: EncodeBufValue -> (T, EncodeBufValue)): (r: (T, EncodeBufValue))
    requires limit <= EncodeRoom(st)
    requires limit == EncodeRoom(st) ==> WritesInPlaceOnly(f, st)
    requires limit != EncodeRoom(st) ==> WritesInPlaceOnly(f, LimitedEncodeBuf(st, limit, false))
    ensures limit == EncodeRoom(st) ==> r == f(st)
    ensures limit != EncodeRoom(st) ==>
      var (result, after) := f(LimitedEncodeBuf(st, limit, false));
      r == (result, MergeLimited(st, limit, after))
  {
    if |st.buf| - st.offset == limit then f(st)
    else
      var (result, after) := f(LimitedEncodeBuf(st, limit, false));
      (result, MergeLimited(st, limit, after))
  }

  /** `with_limit_and_eos(limit, eos, f)`: always a sub-buffer, with the given EOS flag. */
  function EncodeWithLimitAndEos<T>(st: EncodeBufValue, limit: nat, eos: bool, f: EncodeBufValue -> (T, EncodeBufValue)): (r: (T, EncodeBufValue))
    requires limit <= EncodeRoom(st)
    requires WritesInPlaceOnly(f, LimitedEncodeBuf(st, limit, eos))
    ensures var (result, after) := f(LimitedEncodeBuf(st, limit, eos));
      r == (result, MergeLimited(st, limit, after))
  {
    var (result, after) := f(LimitedEncodeBuf(st, limit, eos));
    (result, MergeLimited(st, limit, after))
  }

  /**
   * Whatever `f` does through a sub-buffer, the outer buffer keeps its EOS
   * flag, its bytes outside the `limit` bytes of room, and the room left
   * shrinks by what `f` consumed.
   */
  lemma EncodeWithLimitIsLocal<T>(st: EncodeBufValue, limit: nat, eos: bool, f: EncodeBufValue -> (T, EncodeBufValue))
    requires limit <= EncodeRoom(st)
    requires WritesInPlaceOnly(f, LimitedEncodeBuf(st, limit, eos))
    ensures var after := f(LimitedEncodeBuf(st, limit, eos)).1;
      var r := EncodeWithLimitAndEos(st, limit, eos, f).1;
      r.eos == st.eos && |r.buf| == |st.buf| &&
      r.buf[..st.offset] == st.buf[..st.offset] && r.buf[st.offset + limit..] == st.buf[st.offset + limit..] &&
      EncodeRoom(st) - EncodeRoom(r) == limit - EncodeRoom(after)
  {
  }

  /** `write(src)` as a function that may be handed to `with_limit`. */
  function WriteAll(src: seq<byte>): EncodeBufValue -> (nat, EncodeBufValue)
  {
    st => EncodeWrite(st, src)
  }

  /**
   * The example of `with_limit`: writing `b"foobar"` through a 3-byte
   * limit of a fresh 10-byte buffer writes 3 bytes and leaves 7 of room.
   */
  lemma EncodeWithLimitExample()
    ensures var r := EncodeWithLimit(EncodeBufWithEos(seq(10, i => 0), false), 3, WriteAll([102, 111, 111, 98, 97, 114]));
      r.0 == 3 && EncodeRoom(r.1) == 7 && r.1.buf[..3] == [102, 111, 111]
  {
    var st := EncodeBufWithEos(seq(10, i => 0), false);
    var src: seq<byte> := [102, 111, 111, 98, 97, 114];
    var sub := LimitedEncodeBuf(st, 3, false);
    assert WriteAll(src)(sub) == EncodeWrite(sub, src);
    assert src[..3] == [102, 111, 111];
  }

  // ---------------------------------------------------------------------
  // EncodeBuf in place
  // ---------------------------------------------------------------------

  /** `EncodeBuf` writing into the borrowed slice and advancing its cursor in place. */
  class EncodeBuf {
    const buf: array<byte>
    var offset: nat
    const eos: bool

    predicate Valid()
      reads this
    {
      offset <= buf.Length
    }

    function State(): EncodeBufValue
      reads this, buf
      requires Valid()
    {
      EncodeBufState(buf[..], offset, eos)
    }

    /** `EncodeBuf::new(b)`. */
    constructor New(b: array<byte>)
      ensures Valid() && buf == b && State() == EncodeBufWithEos(b[..], false)
    {
      buf := b;
      offset := 0;
      eos := false;
    }

    /** `EncodeBuf::with_eos(b, eos)`. */
    constructor WithEos(b: array<byte>, e: bool)
      ensures Valid() && buf == b && State() == EncodeBufWithEos(b[..], e)
    {
      buf := b;
      offset := 0;
      eos := e;
    }

    /** `len()`: the room left. */
    function Len(): (n: nat)
      reads this, buf
      requires Valid()
      ensures n == EncodeRoom(State())
    {
      buf.Length - offset
    }

    predicate IsEos()
      reads this
    {
      eos
    }

    /** `consume(size)` with the documented bound. */
    method Consume(size: nat) returns (r: Result<()>)
      requires Valid()
      modifies this
      ensures Valid()
      ensures match EncodeConsume(old(State()), size)
        case Ok(st) => r == Ok(()) && State() == st
        case Err(e) => r == Err(e) && State() == old(State())
    {
      if offset + size <= buf.Length {
        offset := offset + size;
        return Ok(());
      }
      return Err(InvalidInput);
    }

    method ConsumeAll()
      requires Valid()
      modifies this
      ensures Valid() && State() == EncodeConsumeAll(old(State()))
    {
      offset := buf.Length;
    }

    /** `Write::write(src)`. */
    method Write(src: seq<byte>) returns (size: nat)
      requires Valid()
      modifies this, buf
      ensures Valid() && (size, State()) == EncodeWrite(old(State()), src)
    {
      size := Min(buf.Length - offset, |src|);
      CopyInto(buf, offset, src[..size]);
      offset := offset + size;
    }

    /** `with_limit_and_eos(limit, e, f)`. */
    method WithLimitAndEos<T>(limit: nat, e: bool, f: EncodeBufValue -> (T, EncodeBufValue)) returns (result: T)
      requires Valid() && limit <= Len()
      requires WritesInPlaceOnly(f, LimitedEncodeBuf(State(), limit, e))
      modifies this, buf
      ensures Valid() && (result, State()) == EncodeWithLimitAndEos(old(State()), limit, e, f)
    {
      ghost var st := State();
      var (res, after) := f(LimitedEncodeBuf(State(), limit, e));
      CopyInto(buf, offset, after.buf);
      offset := offset + after.offset;
      result := res;
      assert State() == MergeLimited(st, limit, after);
    }
  }
}
