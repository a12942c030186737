/** The `slice` helper of slices_ranges.cpp: copy the half-open piece
    `[start, end)` out of a vector, or fail with `std::out_of_range`.
    The copy is made by braced initialisation from two iterators; that
    picks the iterator-range constructor only for element types the
    vector's iterator does not convert to, and the model covers those.
    Indices are `size_t`, so they are natural numbers here; the vector is
    taken by `const&` and the model works on immutable sequence values, so
    the input is never changed. */
module Slicing {

  /** What `slice` hands back: the copied elements, or the exception it throws. */
  datatype SliceResult<T> = Ok(elems: seq<T>) | OutOfRange(what: string)

  /** The message carried by the `std::out_of_range` that `slice` throws. */
  const InvalidSliceIndices: string := "Invalid slice indices"

  /** The index check of `slice`: reject a start at or past the end, an end
      past the end, or a start not before the end. */
  function Slice<T>(vec: seq<T>, start: nat, end: nat): (r: SliceResult<T>)
    // it succeeds exactly for a non-empty window inside the vector
    ensures r.Ok? <==> start < end <= |vec|
    ensures r.OutOfRange? ==> r.what == InvalidSliceIndices
    // the copy has one element per index of the window, and at least one
    ensures r.Ok? ==> |r.elems| == end - start && |r.elems| >= 1
    ensures r.Ok? ==> forall k :: 0 <= k < |r.elems| ==> r.elems[k] == vec[start + k]
  {
    if start >= |vec| || end > |vec| || start >= end then
      OutOfRange(InvalidSliceIndices)
    else
      Ok(vec[start..end])
  }

  /** An empty window is always refused, even one sitting at the very end
      (`slice(v, v.size(), v.size())`) or inside an empty vector. */
  lemma EmptySliceRejected<T>(vec: seq<T>, i: nat)
    ensures Slice(vec, i, i) == OutOfRange(InvalidSliceIndices)
  {
  }

  /** The prefix before the window, the slice, and the suffix after it put
      the original vector back together: nothing is lost or reordered. */
  lemma SliceReassembles<T>(vec: seq<T>, start: nat, end: nat)
    requires Slice(vec, start, end).Ok?
    ensures vec[..start] + Slice(vec, start, end).elems + vec[end..] == vec
  {
  }

  /** Slicing a slice is one slice of the original, with the inner indices
      shifted by the outer start; when the inner indices are refused, so is
      the shifted window, and conversely. */
  lemma SliceOfSlice<T>(vec: seq<T>, a: nat, b: nat, c: nat, d: nat)
    requires Slice(vec, a, b).Ok?
    ensures Slice(Slice(vec, a, b).elems, c, d).Ok? <==> c < d <= b - a
    ensures c < d <= b - a ==> Slice(Slice(vec, a, b).elems, c, d) == Slice(vec, a + c, a + d)
  {
  }

  /** The worked example of the source: indices 1 to 3 of `{10, 20, 30, 40, 50}`. */
  lemma SliceExample()
    ensures Slice([10, 20, 30, 40, 50], 1, 4) == Ok([20, 30, 40])
  {
  }
}
