/*
 * The number of bytes of interest to a codec (src/byte_count.rs): a finite
 * count, an infinite one, or an unknown one, with the two additions used
 * to combine the counts of sub-codecs and a partial order.
 */
module ByteCounts {
  import opened Base

  datatype ByteCount = Finite(n: nat) | Infinite | Unknown

  /** `to_u64`: the count when it is finite. */
  function ToU64(c: ByteCount): (r: Option<nat>)
    ensures r.Some? <==> c.Finite?
    ensures r.Some? ==> c == Finite(r.value)
  {
    match c
    case Finite(n) => Some(n)
    case _ => None
  }

  /**
   * `add_for_decoding`: the rule table of the decoding side.  A finite
   * non-zero count beats an unknown one, because a decoder knows it needs at
   * least that many bytes.
   */
  function AddForDecoding(a: ByteCount, b: ByteCount): ByteCount
  {
    match (a, b)
    case (Finite(x), Finite(y)) => Finite(x + y)
    case (Infinite, _) => Infinite
    case (_, Infinite) => Infinite
    case (Unknown, Unknown) => Unknown
    case (Finite(x), Unknown) => if x == 0 then Unknown else Finite(x)
    case (Unknown, Finite(y)) => if y == 0 then Unknown else Finite(y)
  }

  /** `add_for_encoding`: the rule table of the encoding side. */
  function AddForEncoding(a: ByteCount, b: ByteCount): ByteCount
  {
    match (a, b)
    case (Finite(x), Finite(y)) => Finite(x + y)
    case (Infinite, _) => Infinite
    case (_, Infinite) => Infinite
    case (_, Unknown) => Unknown
    case (Unknown, _) => Unknown
  }

  datatype Ordering = Less | Equal | Greater

  /** `partial_cmp`. */
  function PartialCmp(a: ByteCount, b: ByteCount): Option<Ordering>
  {
    match (a, b)
    case (Finite(l), Finite(r)) => Some(if l < r then Less else if l == r then Equal else Greater)
    case (Unknown, _) => None
    case (_, Unknown) => None
    case (Infinite, Infinite) => Some(Equal)
    case (Infinite, _) => Some(Greater)
    case (_, Infinite) => Some(Less)
  }

  /** `a < b` as Rust derives it from `partial_cmp`. */
  predicate Lt(a: ByteCount, b: ByteCount)
  {
    PartialCmp(a, b) == Some(Less)
  }

  /** `Default::default()`. */
  function Default(): (c: ByteCount)
    ensures c.Unknown?
  {
    Unknown
  }

  // ---------------------------------------------------------------------
  // Properties of the tables
  // ---------------------------------------------------------------------

  lemma FiniteAddition(x: nat, y: nat)
    ensures AddForDecoding(Finite(x), Finite(y)) == Finite(x + y)
    ensures AddForEncoding(Finite(x), Finite(y)) == Finite(x + y)
  {
  }

  lemma InfiniteAbsorbs(c: ByteCount)
    ensures AddForDecoding(Infinite, c) == Infinite && AddForDecoding(c, Infinite) == Infinite
    ensures AddForEncoding(Infinite, c) == Infinite && AddForEncoding(c, Infinite) == Infinite
  {
  }

  /** A known non-zero lower bound survives an unknown partner, in either order. */
  lemma DecodingKeepsKnownBound(c: ByteCount)
    ensures AddForDecoding(c, Unknown) == AddForDecoding(Unknown, c)
    ensures AddForDecoding(c, Unknown) ==
      (if c.Finite? && c.n > 0 then c else if c.Infinite? then Infinite else Unknown)
  {
  }

  /** On the encoding side an unknown count swallows every non-infinite one. */
  lemma EncodingUnknownAbsorbs(c: ByteCount)
    requires !c.Infinite?
    ensures AddForEncoding(c, Unknown) == Unknown && AddForEncoding(Unknown, c) == Unknown
  {
  }

  lemma AdditionsCommute(a: ByteCount, b: ByteCount)
    ensures AddForDecoding(a, b) == AddForDecoding(b, a)
    ensures AddForEncoding(a, b) == AddForEncoding(b, a)
  {
  }

  /** `Finite(0)` is a left and right unit of both additions. */
  lemma ZeroIsIdentity(c: ByteCount)
    ensures AddForEncoding(Finite(0), c) == c && AddForEncoding(c, Finite(0)) == c
    ensures AddForDecoding(Finite(0), c) == c && AddForDecoding(c, Finite(0)) == c
  {
  }

  lemma AdditionsAssociate(a: ByteCount, b: ByteCount, c: ByteCount)
    ensures AddForEncoding(AddForEncoding(a, b), c) == AddForEncoding(a, AddForEncoding(b, c))
    ensures AddForDecoding(AddForDecoding(a, b), c) == AddForDecoding(a, AddForDecoding(b, c))
  {
  }

  /** The order: `Unknown` is comparable to nothing, `Infinite` tops every finite count. */
  lemma OrderShape(a: ByteCount, x: nat, y: nat)
    ensures PartialCmp(Unknown, a) == None && PartialCmp(a, Unknown) == None
    ensures Lt(Finite(x), Infinite) && !Lt(Infinite, Finite(x))
    ensures Lt(Finite(x), Finite(y)) <==> x < y
  {
  }

  /** `partial_cmp` is antisymmetric: swapping the operands flips the answer. */
  lemma PartialCmpFlips(a: ByteCount, b: ByteCount)
    ensures PartialCmp(a, b) == None <==> PartialCmp(b, a) == None
    ensures PartialCmp(a, b) == Some(Less) <==> PartialCmp(b, a) == Some(Greater)
    ensures PartialCmp(a, b) == Some(Equal) <==> (a == b && !a.Unknown?)
  {
  }

  /** `Lt` is transitive wherever it is defined. */
  lemma LtTransitive(a: ByteCount, b: ByteCount, c: ByteCount)
    requires Lt(a, b) && Lt(b, c)
    ensures Lt(a, c)
  {
  }

  /** The assertions of the unit test of src/byte_count.rs. */
  lemma ByteCountExamples()
    ensures Default() == Unknown
    ensures ToU64(Finite(3)) == Some(3) && ToU64(Infinite) == None && ToU64(Unknown) == None
    ensures Lt(Finite(1), Finite(2)) && Lt(Finite(9), Infinite)
    ensures !Lt(Infinite, Unknown) && !Lt(Unknown, Infinite) && !Lt(Unknown, Unknown)
  {
  }
}
