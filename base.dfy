/*
 * Shared vocabulary of the bytecodec model: octets, optional values, and
 * the error kinds every codec reports (src/error.rs).  Error location and
 * history chains of the original are not modelled; only the kind is kept.
 */
module Base {

  /** One octet of a byte stream. */
  newtype byte = x: int | 0 <= x < 256

  datatype Option<+T> = None | Some(value: T)

  /**
   * The error kinds of every trait generation in one type.  The current
   * `ErrorKind` enum lists InvalidInput .. Other; the older generations also
   * use `IncompleteDecoding`, `InconsistentState` and `Full`.
   */
  datatype ErrorKind =
    | InvalidInput
    | UnexpectedEos
    | EncoderFull
    | DecoderTerminated
    | IncompleteItem
    | IncompleteDecoding
    | InconsistentState
    | Full
    | Other

  datatype Result<+T> = Ok(value: T) | Err(error: ErrorKind)

  /** The smaller of two counts (`cmp::min`). */
  function Min(a: nat, b: nat): (m: nat)
    ensures m <= a && m <= b && (m == a || m == b)
  {
    if a <= b then a else b
  }

  /** `Default::default()` for a byte array `[u8; N]`: `N` zero bytes. */
  function Zeros(n: nat): (z: seq<byte>)
    ensures |z| == n && forall i | 0 <= i < n :: z[i] == 0
  {
    seq(n, i => 0)
  }

  /**
   * `dst[at..][..|src|].copy_from_slice(src)`: overwrite `|src|` elements of
   * `dst` starting at `at`, leaving every other element alone.
   */
  method CopyInto(dst: array<byte>, at: nat, src: seq<byte>)
    requires at + |src| <= dst.Length
    modifies dst
    ensures dst[..] == old(dst[..at]) + src + old(dst[at + |src|..])
  {
    forall i | 0 <= i < |src| {
      dst[at + i] := src[i];
    }
    assert dst[..] == old(dst[..at]) + src + old(dst[at + |src|..]) by {
      assert forall k | 0 <= k < dst.Length ::
        dst[..][k] == (old(dst[..at]) + src + old(dst[at + |src|..]))[k];
    }
  }

  /** Writing `w` after `written` over a buffer that held `written` and then the original bytes. */
  lemma Splice(before: seq<byte>, orig: seq<byte>, written: seq<byte>, w: seq<byte>)
    requires |written| + |w| <= |orig| && before == written + orig[|written|..]
    ensures before[..|written|] + w + before[|written| + |w|..] == written + w + orig[|written| + |w|..]
  {
    assert before[..|written|] == written;
    assert before[|written| + |w|..] == orig[|written| + |w|..];
  }

  /**
   * `CopyInto` at the cursor `at` of a buffer whose first `at` bytes are
   * `written` and whose rest is still as in `orig`: afterwards it holds
   * `written`, then `src`, then the rest of `orig`.
   */
  method CopyAfter(dst: array<byte>, at: nat, ghost written: seq<byte>, ghost orig: seq<byte>, src: seq<byte>)
    requires at == |written| && at + |src| <= dst.Length == |orig| && dst[..] == written + orig[at..]
    modifies dst
    ensures dst[..] == written + src + orig[at + |src|..]
  {
    ghost var before := dst[..];
    CopyInto(dst, at, src);
    Splice(before, orig, written, src);
  }

  /** A number below the modulus is its own remainder. */
  lemma ModOfSmaller(n: nat, p: nat)
    requires n < p
    ensures n % p == n
  {
    assert n == 0 * p + n;
  }
}
