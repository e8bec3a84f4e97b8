/*
 * `OwnedSlice` (src/slice.rs): an owned value together with a range of
 * it.  The owned value is modelled by the sequence of elements it exposes
 * through `AsRef<[U]>`/`AsMut<[U]>`.
 */
module Slices {

  /** `OwnedSlice<T>` whose inner value is updated in place through `as_mut`. */
  class OwnedSlice<U> {
    var inner: seq<U>
    const start: nat
    const end: nat

    /** `OwnedSlice::new(inner, start, end)`: no range check is made here. */
    constructor (v: seq<U>, s: nat, e: nat)
      ensures inner == v && start == s && end == e
    {
      inner := v;
      start := s;
      end := e;
    }

    /** The range lies within the inner value, which slicing it needs (Rust panics otherwise). */
    predicate InRange()
      reads this
    {
      start <= end <= |inner|
    }

    /** `as_ref()`: the elements `start..end` of the inner value. */
    function AsRef(): (r: seq<U>)
      reads this
      requires InRange()
      ensures |r| == end - start
      ensures forall i :: 0 <= i < |r| ==> r[i] == inner[start + i]
    {
      inner[start..end]
    }

    /** `as_mut()[i] = x`: writes element `start + i` of the inner value. */
    method SetThroughSlice(i: nat, x: U)
      requires InRange() && i < end - start
      modifies this
      ensures inner == old(inner)[start + i := x]
    {
      inner := inner[start + i := x];
    }

    /** `into_inner()`. */
    function IntoInner(): (r: seq<U>)
      reads this
      ensures r == inner
    {
      inner
    }
  }

  /**
   * A write through the slice changes the viewed element and nothing else:
   * the range stays valid, the view reads back `x` at `i`, every other
   * element of the inner value is unchanged.
   */
  lemma WriteThroughSliceIsLocal<U>(before: seq<U>, start: nat, end: nat, i: nat, x: U)
    requires start <= end <= |before| && i < end - start
    ensures var after := before[start + i := x];
      |after| == |before| && after[start..end][i] == x &&
      (forall j :: 0 <= j < end - start && j != i ==> after[start..end][j] == before[start..end][j]) &&
      (forall k :: 0 <= k < |before| && k != start + i ==> after[k] == before[k])
  {
  }

  /** The test of src/slice.rs: `[1, 2, 3, 4]` over `1..3` reads `[2, 3]`; writing `9` at 0 gives `[1, 9, 3, 4]`. */
  method OwnedSliceExample() returns (view: seq<int>, result: seq<int>)
    ensures view == [2, 3] && result == [1, 9, 3, 4]
  {
    var slice := new OwnedSlice([1, 2, 3, 4], 1, 3);
    view := slice.AsRef();
    slice.SetThroughSlice(0, 9);
    result := slice.IntoInner();
  }
}
