/*
 * `DecodedValue` (src/value.rs): a decoder of the item-yielding trait
 * generation that already holds its item, hands it out on the first
 * `decode` without consuming anything, and is terminated afterwards.
 */
module Values {
  import opened Base
  import opened ByteCounts
  import opened EndOfStream
  import opened Decode
  import opened ItemDecode
  import opened Chains

  /** `decode`: the held value and no bytes, once; after that `DecoderTerminated`. */
  function DecodedValueDecode<T>(s: Option<T>, buf: seq<byte>, eos: Eos): (o: Outcome<Option<T>, Decoded<T>>)
    ensures o.state.None?
    ensures s.Some? ==> o.result == Ok(Decoded(0, s))
    ensures s.None? ==> o.result == Err(DecoderTerminated)
  {
    match s
    case None => Outcome(None, Err(DecoderTerminated))
    case Some(v) => Outcome(None, Ok(Decoded(0, Some(v))))
  }

  function DecodedValueOps<T>(): ItemDecoderOps<Option<T>, T>
  {
    ItemDecoderOps((s, buf, eos) => DecodedValueDecode(s, buf, eos),
                   (s: Option<T>) => s.None?,
                   (s: Option<T>) => Finite(0))
  }

  lemma DecodedValueLawful<T(!new)>()
    ensures ConsumesWithinWindow(DecodedValueOps<T>())
  {
  }

  /**
   * Whatever the input, a `DecodedValue::new(v)` yields `v` once without
   * consuming a byte, reports itself terminated, and refuses a second call
   * with `DecoderTerminated`; it never requires a byte.
   */
  lemma DecodedValueOnce<T>(v: T, buf1: seq<byte>, eos1: Eos, buf2: seq<byte>, eos2: Eos)
    ensures var d := DecodedValueOps<T>();
      var first := d.decode(Some(v), buf1, eos1);
      first.result == Ok(Decoded(0, Some(v))) && d.hasTerminated(first.state) && !d.hasTerminated(Some(v)) &&
      d.decode(first.state, buf2, eos2).result == Err(DecoderTerminated) &&
      d.requiringBytes(Some(v)) == Finite(0) && d.requiringBytes(first.state) == Finite(0)
  {
    var d := DecodedValueOps<T>();
    assert d.decode(Some(v), buf1, eos1) == DecodedValueDecode(Some(v), buf1, eos1);
    assert d.decode(None, buf2, eos2) == DecodedValueDecode(None, buf2, eos2);
  }

  /** The example of src/value.rs: `DecodedValue::new(10)` on `b"foo"` yields `10` and consumes nothing. */
  lemma DecodedValueExample()
    ensures DecodedValueDecode(Some(10), [102, 111, 111], New(false)) == Outcome(None, Ok(Decoded(0, Some(10))))
  {
  }

  /**
   * A chain that starts with a `DecodedValue::new(v)` decodes as its second
   * half does, pairing each item of the second half with `v`: the same
   * error, the same bytes consumed, the same state of the second half.
   */
  lemma ValueThenDecoder<SB(!new), TB, T(!new)>(db: ItemDecoderOps<SB, TB>, v: T, sb: SB, buf: seq<byte>, eos: Eos)
    requires ConsumesWithinWindow(db)
    ensures (DecodedValueLawful<T>();
             var oc := ChainDecode(DecodedValueOps<T>(), db, ChainState(BufferedState(Some(v), None), sb), buf, eos);
             var ob := db.decode(sb, buf, eos);
             oc.state.b == ob.state && oc.state.a.inner.None? &&
             oc.result.Ok? == ob.result.Ok? &&
             (oc.result.Err? ==> oc.result.error == ob.result.error) &&
             (oc.result.Ok? ==>
               oc.result.value.size == ob.result.value.size &&
               oc.result.value.item.Some? == ob.result.value.item.Some? &&
               (oc.result.value.item.Some? ==> oc.result.value.item.value == (v, ob.result.value.item.value)) &&
               (oc.result.value.item.None? ==> oc.state.a.item == Some(v))))
  {
    DecodedValueLawful<T>();
    var d := DecodedValueOps<T>();
    assert d.decode(Some(v), buf, eos) == Outcome(None, Ok(Decoded(0, Some(v))));
    assert buf[0..] == buf;
  }

  /** `DecodedValue` taking its value in place. */
  class DecodedValue<T> {
    var value: Option<T>

    /** `DecodedValue::new(value)`. */
    constructor (v: T)
      ensures value == Some(v)
    {
      value := Some(v);
    }

    method Decode(buf: seq<byte>, eos: Eos) returns (r: Result<Decoded<T>>)
      modifies this
      ensures Outcome(value, r) == DecodedValueDecode(old(value), buf, eos)
    {
      var item := value;
      value := None;
      if item.None? {
        return Err(DecoderTerminated);
      }
      return Ok(Decoded(0, item));
    }

    predicate HasTerminated()
      reads this
    {
      value.None?
    }

    function RequiringBytes(): ByteCount
      reads this
    {
      Finite(0)
    }
  }
}
