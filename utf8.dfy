/*
 * Well-formed UTF-8 octet sequences, after the syntax in section 4 of
 * RFC 3629.  The string decoders accept exactly these byte sequences, and a
 * Rust `String` is modelled by its UTF-8 bytes.
 */
module Utf8 {
  import opened Base

  predicate Tail(b: byte)
  {
    0x80 <= b <= 0xBF
  }

  /** The length of the UTF8-char the octet `b` starts, or 0 if no char starts with it. */
  function CharWidth(b: byte): (w: nat)
    ensures w <= 4
  {
    if b <= 0x7F then 1
    else if 0xC2 <= b <= 0xDF then 2
    else if 0xE0 <= b <= 0xEF then 3
    else if 0xF0 <= b <= 0xF4 then 4
    else 0
  }

  /** `c` is exactly one UTF8-char of RFC 3629 (UTF8-1 .. UTF8-4). */
  predicate IsChar(c: seq<byte>)
  {
    |c| > 0 && |c| == CharWidth(c[0]) &&
    (|c| == 1 ||
     (|c| == 2 && Tail(c[1])) ||
     (|c| == 3 && Tail(c[2]) &&
      (if c[0] == 0xE0 then 0xA0 <= c[1] <= 0xBF
       else if c[0] == 0xED then 0x80 <= c[1] <= 0x9F
       else Tail(c[1]))) ||
     (|c| == 4 && Tail(c[2]) && Tail(c[3]) &&
      (if c[0] == 0xF0 then 0x90 <= c[1] <= 0xBF
       else if c[0] == 0xF4 then 0x80 <= c[1] <= 0x8F
       else Tail(c[1]))))
  }

  /** `UTF8-octets = *( UTF8-char )`. */
  predicate ValidUtf8(s: seq<byte>)
    decreases |s|
  {
    s == [] ||
    (0 < CharWidth(s[0]) <= |s| && IsChar(s[..CharWidth(s[0])]) && ValidUtf8(s[CharWidth(s[0])..]))
  }

  /** A Rust `String`: a byte sequence that is well-formed UTF-8. */
  type Utf8String = s: seq<byte> | ValidUtf8(s) witness []

  /** Well-formed strings are closed under concatenation. */
  lemma {:induction false} ConcatValid(a: seq<byte>, b: seq<byte>)
    requires ValidUtf8(a) && ValidUtf8(b)
    ensures ValidUtf8(a + b)
    decreases |a|
  {
    if a != [] {
      var w := CharWidth(a[0]);
      assert (a + b)[0] == a[0];
      assert (a + b)[..w] == a[..w];
      assert (a + b)[w..] == a[w..] + b;
      ConcatValid(a[w..], b);
    } else {
      assert a + b == b;
    }
  }

  /** Every sequence of octets below 0x80 (US-ASCII) is well formed. */
  lemma {:induction false} AsciiValid(s: seq<byte>)
    requires forall i :: 0 <= i < |s| ==> s[i] <= 0x7F
    ensures ValidUtf8(s)
    decreases |s|
  {
    if s != [] {
      assert s[..1] == [s[0]];
      AsciiValid(s[1..]);
    }
  }

  /** A lone continuation octet is never well formed, nor is an unfinished char. */
  lemma InvalidExamples()
    ensures !ValidUtf8([0x80])
    ensures !ValidUtf8([0xC3])
    ensures !ValidUtf8([0xED, 0xA0, 0x80])
    ensures ValidUtf8([0xC3, 0xA9])
  {
    assert [0xC3 as byte, 0xA9][..2] == [0xC3, 0xA9];
    assert [0xC3 as byte, 0xA9][2..] == [];
  }
}
