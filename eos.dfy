/*
 * Where the end of the input stream lies (src/eos.rs): the number of bytes
 * left after the current buffer, or unknown.
 */
module EndOfStream {
  import opened Base

  /** `Eos(Option<u64>)`: `remaining` is the count of bytes after the buffer. */
  datatype Eos = Eos(remaining: Option<nat>)

  /** `Eos::new(is_eos)`. */
  function New(isEos: bool): (e: Eos)
    ensures isEos ==> IsEos(e) && RemainingBytes(e) == Some(0)
    ensures !isEos ==> IsUnknown(e) && RemainingBytes(e) == None
  {
    if isEos then Eos(Some(0)) else Eos(None)
  }

  /** `Eos::with_remaining_bytes(n)`. */
  function WithRemainingBytes(n: nat): (e: Eos)
    ensures RemainingBytes(e) == Some(n)
    ensures IsEos(e) <==> n == 0
  {
    Eos(Some(n))
  }

  /** `is_eos`: the stream ends right after the current buffer. */
  predicate IsEos(e: Eos)
  {
    e.remaining == Some(0)
  }

  /** `is_unknown`. */
  predicate IsUnknown(e: Eos)
  {
    e.remaining.None?
  }

  function RemainingBytes(e: Eos): Option<nat>
  {
    e.remaining
  }

  /** `back(bytes)`: move the end of the stream `bytes` further away. */
  function Back(e: Eos, bytes: nat): (r: Eos)
    ensures IsUnknown(r) <==> IsUnknown(e)
    ensures e.remaining.Some? ==> r.remaining == Some(e.remaining.value + bytes)
  {
    Eos(match e.remaining
        case Some(n) => Some(n + bytes)
        case None => None)
  }

  lemma BackZeroIsIdentity(e: Eos)
    ensures Back(e, 0) == e
  {
  }

  lemma BackComposes(e: Eos, a: nat, b: nat)
    ensures Back(Back(e, a), b) == Back(e, a + b)
  {
  }

  /** A stream that is `bytes` further from its end can no longer be at its end unless `bytes` is 0. */
  lemma BackLeavesEos(e: Eos, bytes: nat)
    requires bytes > 0
    ensures !IsEos(Back(e, bytes))
  {
  }

  /** `is_eos` holds exactly for the value `new(true)` builds. */
  lemma IsEosCharacterized(e: Eos)
    ensures IsEos(e) <==> e == New(true)
    ensures IsUnknown(e) <==> e == New(false)
  {
  }
}
